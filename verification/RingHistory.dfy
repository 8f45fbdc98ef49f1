/**
 * Runs of membership changes (src/consistent-hash-ring.ts:29-71, 201-205): when no two nodes
 * ever collide, the ring remembers only who is in it and with how many virtual nodes.
 */
module RingHistory {
  import opened Collections
  import opened ConsistentHashRing
  import opened RingMovement

  /** The state after `ops`, from an empty ring. */
  function Run(point: Placement, default: int, ops: seq<RingOp>): RingState {
    if ops == [] then EMPTY_RING else Apply(point, default, Run(point, default, ops[..|ops| - 1]), ops[|ops| - 1])
  }

  type Counts = map<string, nat>

  function Raise(m: Counts, x: string, n: nat): Counts {
    m[x := if x in m && m[x] > n then m[x] else n]
  }

  /** The current members, each with the largest count it got since its last removal. */
  function Members(default: int, ops: seq<RingOp>): Counts {
    if ops == [] then map[] else
      var m := Members(default, ops[..|ops| - 1]);
      match ops[|ops| - 1]
      case Add(x, c) => Raise(m, x, VirtualNodeCount(c, default))
      case Remove(x) => m - {x}
      case Clear => map[]
  }

  /** Every node that was ever added, with the largest count it ever got. */
  function EverAdded(default: int, ops: seq<RingOp>): Counts {
    if ops == [] then map[] else
      var m := EverAdded(default, ops[..|ops| - 1]);
      match ops[|ops| - 1]
      case Add(x, c) => Raise(m, x, VirtualNodeCount(c, default))
      case Remove(_) => m
      case Clear => m
  }

  /** Different nodes never share a point. */
  ghost predicate CollisionFree(point: Placement, m: Counts) {
    forall x, y :: x in m && y in m && x != y ==> Points(point, x, m[x]) !! Points(point, y, m[y])
  }

  /** `table` holds the points of `m` and nothing else, each under its own node. */
  ghost predicate Holds(point: Placement, table: Table, m: Counts) {
    && (forall p :: p in table ==> table[p] in m && p in Points(point, table[p], m[table[p]]))
    && (forall x, p :: x in m && p in Points(point, x, m[x]) ==> p in table && table[p] == x)
  }

  ghost predicate Within(m: Counts, e: Counts) {
    forall x :: x in m ==> x in e && m[x] <= e[x]
  }

  lemma PointsMonotone(point: Placement, x: string, n: nat, k: nat)
    requires n <= k
    ensures Points(point, x, n) <= Points(point, x, k)
  {
    forall p | p in Points(point, x, n) ensures p in Points(point, x, k) {
      var i :| 0 <= i < n && point(x, i) == p;
    }
  }

  lemma CollisionFreeWithin(point: Placement, m: Counts, e: Counts)
    requires CollisionFree(point, e) && Within(m, e)
    ensures CollisionFree(point, m)
  {
    hide Points;
    forall x, y | x in m && y in m && x != y ensures Points(point, x, m[x]) !! Points(point, y, m[y]) {
      PointsMonotone(point, x, m[x], e[x]);
      PointsMonotone(point, y, m[y], e[y]);
    }
  }

  lemma {:induction false} MembersWithinEverAdded(default: int, ops: seq<RingOp>)
    ensures Within(Members(default, ops), EverAdded(default, ops))
    ensures ops != [] ==> Within(EverAdded(default, ops[..|ops| - 1]), EverAdded(default, ops))
  {
    if ops != [] {
      MembersWithinEverAdded(default, ops[..|ops| - 1]);
    }
  }

  lemma HoldsAdd(point: Placement, table: Table, m: Counts, x: string, n: nat)
    requires Holds(point, table, m) && CollisionFree(point, Raise(m, x, n))
    ensures Holds(point, WithPoints(table, Points(point, x, n), x), Raise(m, x, n))
  {
    hide Points;
    var m' := Raise(m, x, n);
    var table' := WithPoints(table, Points(point, x, n), x);
    PointsMonotone(point, x, n, m'[x]);
    if x in m {
      PointsMonotone(point, x, m[x], m'[x]);
    }
    forall y, p | y in m' && p in Points(point, y, m'[y]) ensures p in table' && table'[p] == y {
      if y != x {
        assert p !in Points(point, x, m'[x]);
      } else if p !in Points(point, x, n) {
        assert p in Points(point, x, m[x]);
      }
    }
  }

  lemma HoldsRemove(point: Placement, table: Table, m: Counts, x: string)
    requires Holds(point, table, m)
    ensures Holds(point, WithoutNode(table, x), m - {x})
  {
    hide Points;
  }

  /** The invariant of every collision-free run. */
  lemma {:induction false} RunHolds(point: Placement, default: int, ops: seq<RingOp>)
    requires CollisionFree(point, EverAdded(default, ops))
    ensures Holds(point, Run(point, default, ops).table, Members(default, ops))
    ensures Run(point, default, ops).nodes == Members(default, ops).Keys
  {
    hide Holds, CollisionFree, Within, Points, WithPoints, WithoutNode, Raise;
    if ops == [] {
      HoldsNothing(point);
    } else {
      var init := ops[..|ops| - 1];
      MembersWithinEverAdded(default, ops);
      CollisionFreeWithin(point, EverAdded(default, init), EverAdded(default, ops));
      CollisionFreeWithin(point, Members(default, ops), EverAdded(default, ops));
      RunHolds(point, default, init);
      var s, m := Run(point, default, init), Members(default, init);
      match ops[|ops| - 1]
      case Add(x, c) =>
        HoldsAdd(point, s.table, m, x, VirtualNodeCount(c, default));
        RaiseKeys(m, x, VirtualNodeCount(c, default));
      case Remove(x) => HoldsRemove(point, s.table, m, x);
      case Clear => HoldsNothing(point);
    }
  }

  lemma RaiseKeys(m: Counts, x: string, n: nat)
    ensures Raise(m, x, n).Keys == m.Keys + {x}
  {
  }

  lemma HoldsNothing(point: Placement)
    ensures Holds(point, map[], map[])
  {
  }

  lemma HoldsUnique(point: Placement, a: Table, b: Table, m: Counts)
    requires Holds(point, a, m) && Holds(point, b, m)
    ensures a == b
  {
    hide Points;
  }

  /**
   * History independence: two collision-free runs with the same members and counts reach the
   * same ring, hence the same sorted points and the same answer to every lookup.
   */
  lemma HistoryIndependence(point: Placement, default: int, ops: seq<RingOp>, ops': seq<RingOp>)
    requires CollisionFree(point, EverAdded(default, ops)) && CollisionFree(point, EverAdded(default, ops'))
    requires Members(default, ops) == Members(default, ops')
    ensures Run(point, default, ops) == Run(point, default, ops')
    ensures forall hash, count :: Lookup(Run(point, default, ops).table, hash, count) ==
                                  Lookup(Run(point, default, ops').table, hash, count)
  {
    hide Run, Members, EverAdded, Holds, CollisionFree, Lookup;
    RunHolds(point, default, ops);
    RunHolds(point, default, ops');
    HoldsUnique(point, Run(point, default, ops).table, Run(point, default, ops').table, Members(default, ops));
  }

  /** Two adds commute exactly when the two nodes share no point: otherwise the later one wins. */
  lemma AddOrderIrrelevantIff(point: Placement, default: int, s: RingState, x: string, c: int, y: string, d: int)
    requires x != y
    ensures Apply(point, default, Apply(point, default, s, Add(x, c)), Add(y, d)) ==
            Apply(point, default, Apply(point, default, s, Add(y, d)), Add(x, c)) <==>
            Points(point, x, VirtualNodeCount(c, default)) !! Points(point, y, VirtualNodeCount(d, default))
  {
    hide Points, VirtualNodeCount;
    var px, py := Points(point, x, VirtualNodeCount(c, default)), Points(point, y, VirtualNodeCount(d, default));
    var t, u := WithPoints(WithPoints(s.table, px, x), py, y), WithPoints(WithPoints(s.table, py, y), px, x);
    if px !! py {
      assert t == u;
    } else {
      var p :| p in px && p in py;
      assert t[p] == y && u[p] == x;
    }
  }

  /** A fresh add followed by its removal restores the ring exactly when it took no point over. */
  lemma AddRemoveRestoresIff(point: Placement, default: int, s: RingState, x: string, c: int)
    requires x !in s.nodes && OwnedBy(s.table, s.nodes)
    ensures Apply(point, default, Apply(point, default, s, Add(x, c)), Remove(x)) == s <==>
            Points(point, x, VirtualNodeCount(c, default)) !! s.table.Keys
  {
    hide Points, VirtualNodeCount, WithPoints, WithoutNode;
    AddThenRemove(s.table, Points(point, x, VirtualNodeCount(c, default)), x);
  }

  lemma HeldOwners(point: Placement, table: Table, m: Counts)
    requires Holds(point, table, m) && forall x :: x in m ==> x != "" && m[x] > 0
    ensures table.Values - {""} == m.Keys
  {
    forall x | x in m ensures x in table.Values {
      assert point(x, 0) in Points(point, x, m[x]);
      assert table[point(x, 0)] == x;
    }
  }

  /** Without collisions a lookup finds as many nodes as it can: `count`, or all of them. */
  lemma LookupLength(point: Placement, default: int, ops: seq<RingOp>, hash: string, count: nat)
    requires CollisionFree(point, EverAdded(default, ops))
    requires forall x :: x in Members(default, ops) ==> x != "" && Members(default, ops)[x] > 0
    ensures var s := Run(point, default, ops);
            && |Lookup(s.table, hash, count)| == (if count < |s.nodes| then count else |s.nodes|)
            && Distinct(Lookup(s.table, hash, count))
            && (forall x :: x in Lookup(s.table, hash, count) ==> x in s.nodes)
  {
    hide Run, Members, EverAdded, CollisionFree, ClockwiseNodes, Holds;
    RunHolds(point, default, ops);
    var s, m := Run(point, default, ops), Members(default, ops);
    HeldOwners(point, s.table, m);
    ClockwiseNodesFacts(s.table, hash);
    var nodes := ClockwiseNodes(s.table, hash);
    assert forall x :: x in nodes ==> x in Elements(nodes);
  }

  /** Two nodes whose only virtual nodes fall on one point: the later add takes it. */
  lemma CollidingAddsDiffer(p: string)
    ensures WithPoints(WithPoints(map[], {p}, "a"), {p}, "b") == map[p := "b"]
    ensures WithPoints(WithPoints(map[], {p}, "b"), {p}, "a") == map[p := "a"]
    ensures forall hash, count :: count > 0 ==>
              && Lookup(map[p := "b"], hash, count) == ["b"] && Lookup(map[p := "a"], hash, count) == ["a"]
  {
    forall hash, count | count > 0
      ensures Lookup(map[p := "b"], hash, count) == ["b"] && Lookup(map[p := "a"], hash, count) == ["a"]
    {
      LonelyLookup(p, "b", hash, count);
      LonelyLookup(p, "a", hash, count);
    }
  }

  lemma LonelyLookup(p: string, node: string, hash: string, count: int)
    requires node != "" && count > 0
    ensures Lookup(map[p := node], hash, count) == [node]
  {
    hide ClockwiseNodes;
    var table: Table := map[p := node];
    ClockwiseNodesFacts(table, hash);
    assert table.Values == {node} by { assert p in table; }
    var nodes := ClockwiseNodes(table, hash);
    assert |nodes| == 1 && nodes[0] in Elements(nodes);
  }
}
