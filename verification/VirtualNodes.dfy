/**
 * Virtual node identifiers (src/consistent-hash-ring.ts:37-38): `<node>:vnode:<i>` can be read
 * back, so a digest that does not collide on them never makes two nodes collide.
 */
module VirtualNodes {
  import opened ConsistentHashRing
  import opened RingHistory

  function Digit(d: nat): char
    requires d < 10
  {
    '0' + d as char
  }

  function Decimal(n: nat): string {
    if n < 10 then [Digit(n)] else Decimal(n / 10) + [Digit(n % 10)]
  }

  function VirtualNodeId(nodeId: string, i: nat): string {
    nodeId + ":vnode:" + Decimal(i)
  }

  /** The placement of a digest function. */
  function DigestPlacement(digest: string -> string): Placement {
    (nodeId: string, i: nat) => digest(VirtualNodeId(nodeId, i))
  }

  /** The number that a string of digits stands for. */
  function Value(s: string): nat
    requires forall k :: 0 <= k < |s| ==> '0' <= s[k] <= '9'
  {
    if s == [] then 0 else 10 * Value(s[..|s| - 1]) + (s[|s| - 1] as int - '0' as int)
  }

  /** Reading the digits back gives the number, and no digits are wasted. */
  lemma {:induction false} DecimalValue(n: nat)
    ensures |Decimal(n)| > 0 && forall k :: 0 <= k < |Decimal(n)| ==> '0' <= Decimal(n)[k] <= '9'
    ensures Value(Decimal(n)) == n
    ensures Decimal(n)[0] == '0' ==> n == 0
  {
    if n < 10 {
      assert Decimal(n)[..0] == [];
    } else {
      var s := Decimal(n);
      DecimalValue(n / 10);
      assert s[..|s| - 1] == Decimal(n / 10);
    }
  }

  lemma VirtualNodeIdInjective(a: string, i: nat, b: string, j: nat)
    requires VirtualNodeId(a, i) == VirtualNodeId(b, j)
    ensures a == b && i == j
  {
    hide Decimal;
    DecimalValue(i);
    DecimalValue(j);
    var s, m, n := VirtualNodeId(a, i), |Decimal(i)|, |Decimal(j)|;
    assert s[|s| - m - 1] == ':' && s[|s| - n - 1] == ':';
    assert s[|s| - m..] == Decimal(i) && s[|s| - n..] == Decimal(j);
    forall k | |s| - m <= k < |s| ensures s[k] != ':' { assert s[k] == Decimal(i)[k - (|s| - m)]; }
    forall k | |s| - n <= k < |s| ensures s[k] != ':' { assert s[k] == Decimal(j)[k - (|s| - n)]; }
    assert m == n;
    assert Decimal(i) == Decimal(j);
    assert s[..|s| - m - 7] == a && s[..|s| - n - 7] == b;
  }

  /** A digest without collisions on the identifiers in play makes the ring collision-free. */
  lemma DigestCollisionFree(digest: string -> string, m: Counts)
    requires forall x, i: nat, y, j: nat | x in m && i < m[x] && y in m && j < m[y] ::
               digest(VirtualNodeId(x, i)) == digest(VirtualNodeId(y, j)) ==> VirtualNodeId(x, i) == VirtualNodeId(y, j)
    ensures CollisionFree(DigestPlacement(digest), m)
  {
    hide VirtualNodeId;
    var point := DigestPlacement(digest);
    forall x, y, p | x in m && y in m && x != y && p in Points(point, x, m[x]) && p in Points(point, y, m[y])
      ensures false
    {
      var i :| 0 <= i < m[x] && point(x, i) == p;
      var j :| 0 <= j < m[y] && point(y, j) == p;
      VirtualNodeIdInjective(x, i, y, j);
    }
  }
}
