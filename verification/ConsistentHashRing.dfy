/**
 * The consistent hash ring (src/consistent-hash-ring.ts).
 *
 * A ring is a table from point (a digest) to the physical node that owns it.  The hash
 * function is a parameter; every claim that needs it to be collision-free says so.
 */
module ConsistentHashRing {
  import opened Collections
  import opened Sorting

  type Table = map<string, string>

  // ---------- virtual nodes ----------

  /** `count || this.virtualNodesPerPhysical`: zero stands for an omitted argument as well. */
  function VirtualNodeCount(count: int, default: int): nat {
    var c := if count == 0 then default else count;
    if c < 0 then 0 else c
  }

  /** Where on the ring virtual node `i` of node `nodeId` sits: the digest of its identifier. */
  type Placement = (string, nat) -> string

  /** The points node `nodeId` puts on the ring with `n` virtual nodes. */
  function Points(point: Placement, nodeId: string, n: nat): set<string> {
    set i | 0 <= i < n :: point(nodeId, i)
  }

  // ---------- what the two updates do to the table ----------

  function WithPoints(table: Table, points: set<string>, nodeId: string): Table {
    table + map p | p in points :: nodeId
  }

  function WithoutNode(table: Table, nodeId: string): Table {
    map p | p in table && table[p] != nodeId :: table[p]
  }

  lemma PointsStep(point: Placement, nodeId: string, i: nat)
    ensures Points(point, nodeId, i + 1) == Points(point, nodeId, i) + {point(nodeId, i)}
  {
  }

  lemma WithPointsStep(table: Table, points: set<string>, p: string, nodeId: string)
    ensures WithPoints(table, points + {p}, nodeId) == WithPoints(table, points, nodeId)[p := nodeId]
  {
  }

  lemma EmptyUpdate(point: Placement, table: Table, nodeId: string)
    ensures WithPoints(table, Points(point, nodeId, 0), nodeId) == table
  {
  }

  ghost predicate OwnedBy(table: Table, nodes: set<string>) {
    forall p :: p in table ==> table[p] in nodes
  }

  lemma WithPointsOwnedBy(table: Table, points: set<string>, nodeId: string, nodes: set<string>)
    requires OwnedBy(table, nodes)
    ensures OwnedBy(WithPoints(table, points, nodeId), nodes + {nodeId})
  {
  }

  lemma WithoutNodeOwnedBy(table: Table, nodeId: string, nodes: set<string>)
    requires OwnedBy(table, nodes)
    ensures OwnedBy(WithoutNode(table, nodeId), nodes - {nodeId})
  {
  }

  lemma WithoutNodeAtOnce(table: Table, nodeId: string, gone: seq<string>)
    requires forall p :: p in gone <==> p in table && table[p] == nodeId
    ensures WithoutKeys(table, gone) == WithoutNode(table, nodeId)
  {
  }

  lemma WithoutNodeIs(table: Table, nodeId: string)
    ensures forall p :: p in WithoutNode(table, nodeId) <==> p in table && table[p] != nodeId
    ensures forall p :: p in WithoutNode(table, nodeId) ==> WithoutNode(table, nodeId)[p] == table[p]
  {
  }

  lemma WithPointsIs(point: Placement, table: Table, nodeId: string, n: nat)
    ensures var after := WithPoints(table, Points(point, nodeId, n), nodeId);
            && (forall i: nat :: i < n ==> point(nodeId, i) in after && after[point(nodeId, i)] == nodeId)
            && (forall p :: p in after ==>
                  (exists i: nat :: i < n && point(nodeId, i) == p) || (p in table && after[p] == table[p]))
            && (forall p :: p in table ==>
                  p in after && (after[p] == table[p] || exists i: nat :: i < n && point(nodeId, i) == p))
  {
    var points := Points(point, nodeId, n);
    forall i: nat | i < n ensures point(nodeId, i) in points {}
    forall p | p in points ensures exists i: nat :: i < n && point(nodeId, i) == p {}
    hide Points;
  }

  function WithoutKeys(table: Table, gone: seq<string>): Table {
    map p | p in table && p !in gone :: table[p]
  }

  lemma WithoutKeysStep(table: Table, gone: seq<string>, p: string)
    ensures WithoutKeys(table, []) == table
    ensures WithoutKeys(table, gone + [p]) == WithoutKeys(table, gone) - {p}
  {
  }

  // ---------- the simple reading of a lookup ----------

  function PointsFrom(points: set<string>, hash: string): set<string> {
    set p | p in points && !LexLess(p, hash)
  }

  function PointsBefore(points: set<string>, hash: string): set<string> {
    set p | p in points && LexLess(p, hash)
  }

  lemma PointsSplit(points: set<string>, hash: string)
    ensures PointsFrom(points, hash) + PointsBefore(points, hash) == points
    ensures |PointsFrom(points, hash)| + |PointsBefore(points, hash)| == |points|
  {
    hide LexLess;
    assert PointsFrom(points, hash) !! PointsBefore(points, hash);
    assert PointsFrom(points, hash) + PointsBefore(points, hash) == points;
  }

  /** All points, read clockwise from the least one at or after `hash`, wrapping to the smallest. */
  function ClockwisePoints(points: set<string>, hash: string): (r: seq<string>)
    ensures Elements(r) == points && |r| == |points|
  {
    var after := SortStrings(PointsFrom(points, hash));
    var before := SortStrings(PointsBefore(points, hash));
    PointsSplit(points, hash);
    ElementsConcat(after, before);
    after + before
  }

  /** The owner of each point, clockwise from `hash`. */
  function ClockwiseOwners(table: Table, hash: string): (r: seq<string>)
    ensures |r| == |ClockwisePoints(table.Keys, hash)|
  {
    var points := ClockwisePoints(table.Keys, hash);
    seq(|points|, i requires 0 <= i < |points| => assert points[i] in Elements(points); table[points[i]])
  }

  /** First occurrence of each entry, in order; the empty string is not a node. */
  function FirstOccurrences(s: seq<string>): seq<string> {
    if s == [] then [] else
      var init := FirstOccurrences(s[..|s| - 1]);
      var x := s[|s| - 1];
      if x == "" || x in init then init else init + [x]
  }

  /** The distinct physical nodes in clockwise order from `hash`. */
  function ClockwiseNodes(table: Table, hash: string): seq<string> {
    FirstOccurrences(ClockwiseOwners(table, hash))
  }

  /** What a lookup of `count` nodes for `hash` returns. */
  function Lookup(table: Table, hash: string, count: int): seq<string> {
    Take(ClockwiseNodes(table, hash), count)
  }

  lemma {:induction false} FirstOccurrencesFacts(s: seq<string>)
    ensures Distinct(FirstOccurrences(s))
    ensures Elements(FirstOccurrences(s)) == Elements(s) - {""}
  {
    if s != [] {
      var init, x := s[..|s| - 1], s[|s| - 1];
      FirstOccurrencesFacts(init);
      assert s == init + [x];
      assert Elements(s) == Elements(init) + {x};
      assert x in FirstOccurrences(init) <==> x in Elements(FirstOccurrences(init));
      assert forall y :: y in FirstOccurrences(s) <==> y in FirstOccurrences(init) || (y == x && x != "");
      assert forall y :: y in FirstOccurrences(init) <==> y in Elements(FirstOccurrences(init));
    }
  }

  lemma OwnersAreValues(table: Table, hash: string)
    ensures Elements(ClockwiseOwners(table, hash)) == table.Values
  {
    hide ClockwisePoints;
    var points := ClockwisePoints(table.Keys, hash);
    forall v ensures v in ClockwiseOwners(table, hash) <==> v in table.Values {
      if v in table.Values {
        var p :| p in table && table[p] == v;
        assert p in Elements(points);
        var i :| 0 <= i < |points| && points[i] == p;
        assert ClockwiseOwners(table, hash)[i] == v;
      }
    }
  }

  /** One step clockwise. */
  function NextIndex(i: nat, n: nat): (r: nat)
    requires i < n
    ensures r == if i + 1 == n then 0 else i + 1
  {
    (i + 1) % n
  }

  lemma OwnersLength(table: Table, hash: string)
    ensures |ClockwiseOwners(table, hash)| == |table.Keys|
  {
  }

  lemma FirstOccurrencesEmpty()
    ensures FirstOccurrences([]) == []
  {
  }

  /** The clockwise list names every owner of a point exactly once. */
  lemma ClockwiseNodesFacts(table: Table, hash: string)
    ensures Distinct(ClockwiseNodes(table, hash))
    ensures Elements(ClockwiseNodes(table, hash)) == table.Values - {""}
    ensures |ClockwiseNodes(table, hash)| == |table.Values - {""}|
  {
    hide ClockwiseOwners;
    OwnersAreValues(table, hash);
    FirstOccurrencesFacts(ClockwiseOwners(table, hash));
    DistinctCardinality(ClockwiseNodes(table, hash));
  }

  lemma HalfElements(s: seq<string>, start: nat, hash: string)
    requires start <= |s|
    requires forall i :: 0 <= i < start ==> LexLess(s[i], hash)
    requires forall i :: start <= i < |s| ==> !LexLess(s[i], hash)
    ensures Elements(s[start..]) == PointsFrom(Elements(s), hash)
    ensures Elements(s[..start]) == PointsBefore(Elements(s), hash)
  {
    hide LexLess;
    forall p ensures p in s[start..] <==> p in s && !LexLess(p, hash) {
      if p in s && !LexLess(p, hash) {
        var i :| 0 <= i < |s| && s[i] == p;
        assert s[start..][i - start] == p;
      }
    }
    forall p ensures p in s[..start] <==> p in s && LexLess(p, hash) {
      if p in s && LexLess(p, hash) {
        var i :| 0 <= i < |s| && s[i] == p;
        assert s[..start][i] == p;
      }
    }
  }

  /** A sorted list splits at `start` into the clockwise reading's two halves. */
  lemma SplitIsClockwise(s: seq<string>, start: nat, hash: string)
    requires SortedStrings(s) && start <= |s|
    requires forall i :: 0 <= i < start ==> LexLess(s[i], hash)
    requires forall i :: start <= i < |s| ==> !LexLess(s[i], hash)
    ensures s[start..] + s[..start] == ClockwisePoints(Elements(s), hash)
  {
    hide LexLess, Elements, SortStrings, PointsFrom, PointsBefore;
    HalfElements(s, start, hash);
    SortStringsUnique(s[start..]);
    SortStringsUnique(s[..start]);
  }

  /** What the binary search looks for: the first entry not below `target`, or 0 when all are below. */
  ghost predicate IsStart(s: seq<string>, target: string, start: nat) {
    && start <= |s|
    && (forall i :: 0 <= i < start ==> LexLess(s[i], target))
    && ((forall i :: start <= i < |s| ==> !LexLess(s[i], target))
        || (start == 0 && forall i :: 0 <= i < |s| ==> LexLess(s[i], target)))
  }

  /** Rotating the sorted points to the binary-search result is reading them clockwise. */
  lemma RotationIsClockwise(s: seq<string>, hash: string, start: nat)
    requires SortedStrings(s) && IsStart(s, hash, start)
    ensures s[start..] + s[..start] == ClockwisePoints(Elements(s), hash)
  {
    hide LexLess, ClockwisePoints;
    var wrap := start == 0 && forall i :: 0 <= i < |s| ==> LexLess(s[i], hash);
    SplitIsClockwise(s, if wrap then |s| else start, hash);
    assert s[..|s|] == s && s[|s|..] == [] && s[0..] == s && s[..0] == [];
  }

  lemma ClockwiseOwnerAt(table: Table, s: seq<string>, hash: string, start: nat, i: nat)
    requires SortedStrings(s) && Elements(s) == table.Keys && IsStart(s, hash, start)
    requires i < |s|
    ensures |ClockwiseOwners(table, hash)| == |s|
    ensures var at := if start + i < |s| then start + i else start + i - |s|;
            s[at] in table && ClockwiseOwners(table, hash)[i] == table[s[at]]
  {
    hide LexLess, ClockwisePoints;
    RotationIsClockwise(s, hash, start);
    var at := if start + i < |s| then start + i else start + i - |s|;
    assert s[at] in Elements(s);
    assert (s[start..] + s[..start])[i] == s[at];
  }

  lemma FirstOccurrencesPrefix(s: seq<string>, i: nat)
    requires i < |s|
    ensures FirstOccurrences(s[..i + 1]) ==
            if s[i] == "" || s[i] in FirstOccurrences(s[..i]) then FirstOccurrences(s[..i])
            else FirstOccurrences(s[..i]) + [s[i]]
  {
    assert s[..i + 1][..i] == s[..i];
  }

  lemma {:induction false} FirstOccurrencesMonotone(s: seq<string>, i: nat)
    requires i <= |s|
    ensures FirstOccurrences(s[..i]) <= FirstOccurrences(s)
    decreases |s|
  {
    if i == |s| {
      assert s[..i] == s;
    } else {
      var init := s[..|s| - 1];
      FirstOccurrencesMonotone(init, i);
      assert init[..i] == s[..i];
    }
  }

  lemma ClockwiseBound(table: Table, hash: string, nodes: set<string>)
    requires OwnedBy(table, nodes)
    ensures |ClockwiseNodes(table, hash)| <= |nodes|
  {
    hide ClockwiseNodes;
    ClockwiseNodesFacts(table, hash);
    SubsetCardinality(table.Values - {""}, nodes);
  }

  lemma LookupFacts(table: Table, hash: string, count: int, nodes: set<string>)
    requires OwnedBy(table, nodes)
    ensures Distinct(Lookup(table, hash, count)) && Elements(Lookup(table, hash, count)) <= nodes
  {
    hide ClockwiseNodes;
    ClockwiseNodesFacts(table, hash);
    forall x | x in Lookup(table, hash, count) ensures x in nodes {
      assert x in ClockwiseNodes(table, hash);
      assert x in Elements(ClockwiseNodes(table, hash));
    }
  }

  lemma EmptyLookup(table: Table, hash: string, nodes: set<string>, count: int)
    requires OwnedBy(table, nodes)
    ensures nodes == {} ==> Lookup(table, hash, count) == []
  {
    hide ClockwiseNodes, OwnedBy;
    ClockwiseBound(table, hash, nodes);
  }

  /** A walk that stopped at its limit, or after a full turn, has collected the lookup's answer. */
  lemma WalkIsLookup(table: Table, hash: string, nodes: set<string>, count: int, attempts: nat)
    requires OwnedBy(table, nodes) && attempts <= |ClockwiseOwners(table, hash)|
    requires var walked := FirstOccurrences(ClockwiseOwners(table, hash)[..attempts]);
             var limit := if count > |nodes| then |nodes| else count;
             && (|walked| <= limit || walked == [])
             && (|walked| >= limit || attempts == |ClockwiseOwners(table, hash)|)
    ensures FirstOccurrences(ClockwiseOwners(table, hash)[..attempts]) == Lookup(table, hash, count)
  {
    hide ClockwiseOwners, FirstOccurrences, OwnedBy, Take;
    ClockwiseBound(table, hash, nodes);
    var owners := ClockwiseOwners(table, hash);
    FirstOccurrencesMonotone(owners, attempts);
    assert owners[..|owners|] == owners;
    PrefixIsTake(FirstOccurrences(owners), FirstOccurrences(owners[..attempts]), count, |nodes|);
  }

  /** Collecting stops at the clamped limit, or with everything collected. */
  lemma PrefixIsTake<T>(s: seq<T>, w: seq<T>, count: int, bound: nat)
    requires w <= s && |s| <= bound
    requires var limit := if count > bound then bound else count; (|w| <= limit || w == []) && (|w| >= limit || w == s)
    ensures w == Take(s, count)
  {
  }

  // ---------- which nodes are nearest ----------

  /** Going clockwise from `hash`, point `p` comes before point `q`: points below the hash come last. */
  predicate Precedes(hash: string, p: string, q: string) {
    if LexLess(p, hash) == LexLess(q, hash) then LexLess(p, q) else LexLess(q, hash)
  }

  /** Some point of `m` comes before every point of `n`. */
  ghost predicate Nearer(table: Table, hash: string, m: string, n: string) {
    exists p :: p in table && table[p] == m && forall q :: q in table && table[q] == n ==> Precedes(hash, p, q)
  }

  /** Each of the nodes is nearer than every node on the ring that is not listed by then. */
  ghost predicate NearestFirst(table: Table, hash: string, nodes: seq<string>) {
    forall a, n :: 0 <= a < |nodes| && n in table.Values && n != "" && n !in nodes[..a + 1] ==>
      Nearer(table, hash, nodes[a], n)
  }

  lemma ClockwiseIsOrdered(points: set<string>, hash: string)
    ensures var r := ClockwisePoints(points, hash); forall i, j :: 0 <= i < j < |r| ==> Precedes(hash, r[i], r[j])
  {
    hide LexLess;
    var after, before := SortStrings(PointsFrom(points, hash)), SortStrings(PointsBefore(points, hash));
    var r := ClockwisePoints(points, hash);
    assert r == after + before;
    forall i | 0 <= i < |after| ensures !LexLess(after[i], hash) { assert after[i] in Elements(after); }
    forall i | 0 <= i < |before| ensures LexLess(before[i], hash) { assert before[i] in Elements(before); }
  }

  lemma {:induction false} FirstOccurrencesOrder(s: seq<string>, a: nat, b: nat)
    requires a < b < |FirstOccurrences(s)|
    ensures exists i :: 0 <= i < |s| && s[i] == FirstOccurrences(s)[a]
                        && forall j :: 0 <= j < |s| && s[j] == FirstOccurrences(s)[b] ==> i < j
  {
    var init, x := s[..|s| - 1], s[|s| - 1];
    assert s == init + [x];
    FirstOccurrencesFacts(init);
    var before := FirstOccurrences(init);
    if b < |before| {
      FirstOccurrencesOrder(init, a, b);
      var i :| 0 <= i < |init| && init[i] == before[a]
        && forall j :: 0 <= j < |init| && init[j] == before[b] ==> i < j;
      assert s[i] == before[a];
    } else {
      assert before[a] in Elements(before) && x !in Elements(before);
      var i :| 0 <= i < |init| && init[i] == before[a];
      assert s[i] == before[a];
      assert x !in init by { assert x in init ==> x in Elements(init); }
      assert forall j :: 0 <= j < |s| && s[j] == x ==> j == |init|;
    }
  }

  lemma LookupIsNearest(table: Table, hash: string, count: int, a: nat, n: string)
    requires a < |Lookup(table, hash, count)| && n in table.Values && n != ""
    requires n !in Lookup(table, hash, count)[..a + 1]
    ensures Nearer(table, hash, Lookup(table, hash, count)[a], n)
  {
    hide ClockwisePoints, FirstOccurrences, Precedes;
    var points, owners := ClockwisePoints(table.Keys, hash), ClockwiseOwners(table, hash);
    var nodes := ClockwiseNodes(table, hash);
    ClockwiseNodesFacts(table, hash);
    ClockwiseIsOrdered(table.Keys, hash);
    assert n in Elements(nodes);
    var b :| 0 <= b < |nodes| && nodes[b] == n;
    assert Lookup(table, hash, count)[..a + 1] == nodes[..a + 1];
    assert b > a;
    FirstOccurrencesOrder(owners, a, b);
    var i :| 0 <= i < |owners| && owners[i] == nodes[a] && forall j :: 0 <= j < |owners| && owners[j] == n ==> i < j;
    assert points[i] in Elements(points);
    forall q | q in table && table[q] == n ensures Precedes(hash, points[i], q) {
      assert q in Elements(points);
      var j :| 0 <= j < |points| && points[j] == q;
      assert owners[j] == n;
    }
  }

  /** All of a lookup: how many nodes, and each nearer than all those not returned by then. */
  lemma LookupIsNearestFirst(table: Table, hash: string, count: int)
    ensures var n := |table.Values - {""}|;
            |Lookup(table, hash, count)| == if count <= 0 then 0 else if count < n then count else n
    ensures NearestFirst(table, hash, Lookup(table, hash, count))
  {
    hide ClockwiseNodes, Nearer;
    ClockwiseNodesFacts(table, hash);
    forall a, n | && 0 <= a < |Lookup(table, hash, count)| && n in table.Values && n != ""
                  && n !in Lookup(table, hash, count)[..a + 1]
    {
      LookupIsNearest(table, hash, count, a, n);
    }
  }

  // ---------- the ring object ----------

  class HashRing {
    const point: Placement
    const virtualNodesPerPhysical: int
    var ring: Table
    var sortedHashes: seq<string>
    var physicalNodes: set<string>

    ghost predicate Valid()
      reads this
    {
      && sortedHashes == SortStrings(ring.Keys)
      && OwnedBy(ring, physicalNodes)
    }

    ghost function State(): RingState
      reads this
    {
      RingState(ring, physicalNodes)
    }

    constructor (point: Placement, virtualNodesPerPhysical: int)
      ensures Valid() && State() == EMPTY_RING
      ensures this.point == point && this.virtualNodesPerPhysical == virtualNodesPerPhysical
    {
      this.point := point;
      this.virtualNodesPerPhysical := virtualNodesPerPhysical;
      ring, sortedHashes, physicalNodes := map[], [], {};
    }

    method AddNode(nodeId: string, virtualNodeCount: int)
      requires Valid()
      modifies this
      ensures Valid()
      ensures State() == Apply(point, virtualNodesPerPhysical, old(State()), Add(nodeId, virtualNodeCount))
      // Written out: a count of 0 stands for the default, and the last node laid on a point owns it.
      ensures var count := if virtualNodeCount == 0 then virtualNodesPerPhysical else virtualNodeCount;
              && (forall i: nat :: i < count ==> point(nodeId, i) in ring && ring[point(nodeId, i)] == nodeId)
              && (forall p :: p in ring ==>
                    || (exists i: nat :: i < count && point(nodeId, i) == p)
                    || (p in old(ring) && ring[p] == old(ring)[p]))
              && (forall p :: p in old(ring) ==>
                    p in ring && (ring[p] == old(ring)[p] || exists i: nat :: i < count && point(nodeId, i) == p))
      ensures physicalNodes == old(physicalNodes) + {nodeId}
    {
      hide Points, WithPoints, SortStrings, OwnedBy;
      var count := if virtualNodeCount == 0 then virtualNodesPerPhysical else virtualNodeCount;
      physicalNodes := physicalNodes + {nodeId};
      var i := 0;
      EmptyUpdate(point, ring, nodeId);
      while i < count
        invariant 0 <= i && (i <= count || i == 0)
        invariant ring == WithPoints(old(ring), Points(point, nodeId, i), nodeId)
        invariant physicalNodes == old(physicalNodes) + {nodeId}
      {
        PointsStep(point, nodeId, i);
        WithPointsStep(old(ring), Points(point, nodeId, i), point(nodeId, i), nodeId);
        ring := ring[point(nodeId, i) := nodeId];
        i := i + 1;
      }
      sortedHashes := SortStrings(ring.Keys);
      WithPointsOwnedBy(old(ring), Points(point, nodeId, i), nodeId, old(physicalNodes));
      WithPointsIs(point, old(ring), nodeId, i);
    }

    method RemoveNode(nodeId: string)
      requires Valid()
      modifies this
      ensures Valid()
      ensures State() == Apply(point, virtualNodesPerPhysical, old(State()), Remove(nodeId))
      // Written out.
      ensures forall p :: p in ring <==> p in old(ring) && old(ring)[p] != nodeId
      ensures forall p :: p in ring ==> ring[p] == old(ring)[p]
      ensures physicalNodes == old(physicalNodes) - {nodeId}
    {
      hide WithoutNode, WithoutKeys, SortStrings, OwnedBy;
      physicalNodes := physicalNodes - {nodeId};
      var hashesToRemove: seq<string> := [];
      var unseen := ring.Keys;
      while unseen != {}
        invariant unseen <= ring.Keys && ring == old(ring)
        invariant physicalNodes == old(physicalNodes) - {nodeId}
        invariant forall p :: p in hashesToRemove <==> p in ring && p !in unseen && ring[p] == nodeId
        decreases |unseen|
      {
        var p :| p in unseen;
        if ring[p] == nodeId {
          hashesToRemove := hashesToRemove + [p];
        }
        unseen := unseen - {p};
      }
      var i := 0;
      WithoutKeysStep(ring, [], "");
      while i < |hashesToRemove|
        invariant 0 <= i <= |hashesToRemove|
        invariant physicalNodes == old(physicalNodes) - {nodeId}
        invariant ring == WithoutKeys(old(ring), hashesToRemove[..i])
      {
        assert hashesToRemove[..i + 1] == hashesToRemove[..i] + [hashesToRemove[i]];
        WithoutKeysStep(old(ring), hashesToRemove[..i], hashesToRemove[i]);
        ring := ring - {hashesToRemove[i]};
        i := i + 1;
      }
      assert hashesToRemove[..i] == hashesToRemove;
      WithoutNodeAtOnce(old(ring), nodeId, hashesToRemove);
      WithoutNodeOwnedBy(old(ring), nodeId, old(physicalNodes));
      WithoutNodeIs(old(ring), nodeId);
      sortedHashes := SortStrings(ring.Keys);
    }

    method Clear()
      modifies this
      ensures Valid() && State() == EMPTY_RING
      ensures ring == map[] && sortedHashes == [] && physicalNodes == {}
    {
      ring, sortedHashes, physicalNodes := map[], [], {};
    }

    /** The binary search: the least index at or after `target`, or 0 when there is none. */
    method FindStartIndex(target: string) returns (index: nat)
      requires Valid()
      ensures IsStart(sortedHashes, target, index)
      ensures sortedHashes != [] ==> index < |sortedHashes|
    {
      hide LexLess;
      if |sortedHashes| == 0 {
        return 0;
      }
      var left, right := 0, |sortedHashes| - 1;
      while left < right
        invariant 0 <= left <= right < |sortedHashes|
        invariant forall i :: 0 <= i < left ==> LexLess(sortedHashes[i], target)
        invariant right < |sortedHashes| - 1 ==>
                    forall i :: right <= i < |sortedHashes| ==> !LexLess(sortedHashes[i], target)
        decreases right - left
      {
        var mid := (left + right) / 2;
        SortedSplit(sortedHashes, mid, target);
        if LexLess(sortedHashes[mid], target) {
          left := mid + 1;
        } else {
          right := mid;
        }
      }
      SortedSplit(sortedHashes, left, target);
      if LexLess(sortedHashes[left], target) {
        return 0;
      }
      return left;
    }

    /** The walk returns exactly the first `count` nodes of the clockwise list. */
    method GetNodes(chunkHash: string, count: int) returns (selected: seq<string>)
      requires Valid()
      ensures selected == Lookup(ring, chunkHash, count)
      ensures Distinct(selected) && Elements(selected) <= physicalNodes
    {
      hide NextIndex, Lookup, Elements, ClockwiseOwners, FirstOccurrences, SortStrings, SortedStrings, IsStart,
        OwnedBy, Distinct;
      ghost var owners := ClockwiseOwners(ring, chunkHash);
      EmptyLookup(ring, chunkHash, physicalNodes, count);
      LookupFacts(ring, chunkHash, count, physicalNodes);
      if |physicalNodes| == 0 {
        return [];
      }
      var limit := if count > |physicalNodes| then |physicalNodes| else count;

      var start := FindStartIndex(chunkHash);
      OwnersLength(ring, chunkHash);
      FirstOccurrencesEmpty();
      ElementsAppend<string>([], "");
      selected := [];
      var selectedSet: set<string> := {};
      var current, attempts, maxAttempts := start, 0, |sortedHashes|;
      while |selected| < limit && attempts < maxAttempts
        invariant 0 <= attempts <= maxAttempts == |owners|
        invariant attempts < maxAttempts ==>
                    current == if start + attempts < maxAttempts then start + attempts
                               else start + attempts - maxAttempts
        invariant selected == FirstOccurrences(owners[..attempts]) && Elements(selected) == selectedSet
        invariant |selected| <= limit || selected == []
        decreases maxAttempts - attempts
      {
        ClockwiseOwnerAt(ring, sortedHashes, chunkHash, start, attempts);
        var nodeId := ring[sortedHashes[current]];
        FirstOccurrencesPrefix(owners, attempts);
        ElementsAppend(selected, nodeId);
        if nodeId != "" && nodeId !in selectedSet {
          selected := selected + [nodeId];
          selectedSet := selectedSet + {nodeId};
        }
        current := NextIndex(current, |sortedHashes|);
        attempts := attempts + 1;
      }
      WalkIsLookup(ring, chunkHash, physicalNodes, count, attempts);
    }
  }

  // ---------- runs of membership changes ----------

  datatype RingOp = Add(nodeId: string, count: int) | Remove(nodeId: string) | Clear

  datatype RingState = RingState(table: Table, nodes: set<string>)

  const EMPTY_RING := RingState(map[], {})

  function Apply(point: Placement, default: int, s: RingState, op: RingOp): RingState {
    match op
    case Add(x, c) => RingState(WithPoints(s.table, Points(point, x, VirtualNodeCount(c, default)), x), s.nodes + {x})
    case Remove(x) => RingState(WithoutNode(s.table, x), s.nodes - {x})
    case Clear => EMPTY_RING
  }
}
