/** Zone-diverse selection of storage nodes (src/replication-service.ts:104-168). */
module NodeSelection {
  import opened Collections

  datatype NodeRecord = NodeRecord(nodeId: string, availabilityZone: string, active: bool)

  type NodeTable = map<string, NodeRecord>

  ghost predicate KeyedById(table: NodeTable) {
    forall n :: n in table ==> table[n].nodeId == n
  }

  /** The records of the candidates that exist and are active, in candidate order. */
  function ActiveNodes(table: NodeTable, candidates: seq<string>): seq<NodeRecord> {
    if candidates == [] then [] else
      var init, n := ActiveNodes(table, candidates[..|candidates| - 1]), candidates[|candidates| - 1];
      if n in table && table[n].active then init + [table[n]] else init
  }

  function ActiveIds(table: NodeTable, candidates: seq<string>): set<string> {
    set n | n in candidates && n in table && table[n].active
  }

  function Zones(nodes: seq<NodeRecord>): set<string> {
    set n | n in nodes :: n.availabilityZone
  }

  /** The nodes that are the first of their zone. */
  function ZoneFirsts(nodes: seq<NodeRecord>): seq<NodeRecord> {
    if nodes == [] then [] else
      var init, n := nodes[..|nodes| - 1], nodes[|nodes| - 1];
      if n.availabilityZone in Zones(init) then ZoneFirsts(init) else ZoneFirsts(init) + [n]
  }

  /** The nodes whose zone was seen before. */
  function Followers(nodes: seq<NodeRecord>): seq<NodeRecord> {
    if nodes == [] then [] else
      var init, n := nodes[..|nodes| - 1], nodes[|nodes| - 1];
      if n.availabilityZone in Zones(init) then Followers(init) + [n] else Followers(init)
  }

  /** New zones first, then the rest, each in ring order. */
  function Selection(nodes: seq<NodeRecord>, count: int): seq<NodeRecord> {
    Take(ZoneFirsts(nodes) + Followers(nodes), count)
  }

  ghost predicate DistinctIds(nodes: seq<NodeRecord>) {
    forall i, j :: 0 <= i < j < |nodes| ==> nodes[i].nodeId != nodes[j].nodeId
  }

  // ---------- facts about the two lists ----------

  lemma ZonesAppend(nodes: seq<NodeRecord>, n: NodeRecord)
    ensures Zones(nodes + [n]) == Zones(nodes) + {n.availabilityZone}
    ensures Zones([]) == {}
  {
  }

  lemma {:induction false} ZoneFirstsFacts(nodes: seq<NodeRecord>)
    ensures Zones(ZoneFirsts(nodes)) == Zones(nodes)
    ensures |ZoneFirsts(nodes)| == |Zones(nodes)|
  {
    if nodes == [] {
      ZonesAppend([], NodeRecord("", "", true));
    } else {
      var init, n := nodes[..|nodes| - 1], nodes[|nodes| - 1];
      assert nodes == init + [n];
      ZoneFirstsFacts(init);
      ZonesAppend(init, n);
      ZonesAppend(ZoneFirsts(init), n);
    }
  }

  /** Every prefix of the zone firsts spans as many zones as it has nodes. */
  lemma {:induction false} ZoneFirstsPrefix(nodes: seq<NodeRecord>, k: nat)
    requires k <= |ZoneFirsts(nodes)|
    ensures |Zones(ZoneFirsts(nodes)[..k])| == k
  {
    hide Zones;
    if k == |ZoneFirsts(nodes)| {
      assert ZoneFirsts(nodes)[..k] == ZoneFirsts(nodes);
      ZoneFirstsFacts(nodes);
    } else {
      var init := nodes[..|nodes| - 1];
      assert ZoneFirsts(nodes)[..k] == ZoneFirsts(init)[..k];
      ZoneFirstsPrefix(init, k);
    }
  }

  /** The two lists share the nodes out between them. */
  lemma {:induction false} SplitFacts(nodes: seq<NodeRecord>)
    ensures |ZoneFirsts(nodes)| + |Followers(nodes)| == |nodes|
    ensures multiset(ZoneFirsts(nodes)) + multiset(Followers(nodes)) == multiset(nodes)
  {
    if nodes != [] {
      var init, n := nodes[..|nodes| - 1], nodes[|nodes| - 1];
      assert nodes == init + [n];
      SplitFacts(init);
    }
  }

  lemma {:induction false} DistinctCounts(nodes: seq<NodeRecord>)
    requires DistinctIds(nodes)
    ensures forall n :: multiset(nodes)[n] <= 1
  {
    if nodes != [] {
      var init, x := nodes[..|nodes| - 1], nodes[|nodes| - 1];
      assert nodes == init + [x];
      DistinctCounts(init);
      assert x !in init;
    }
  }

  lemma {:induction false} ActiveNodesFacts(table: NodeTable, candidates: seq<string>)
    requires KeyedById(table) && Distinct(candidates)
    ensures DistinctIds(ActiveNodes(table, candidates))
    ensures forall n :: n in ActiveNodes(table, candidates) ==>
              n.nodeId in candidates && n.nodeId in table && n == table[n.nodeId] && n.active
  {
    if candidates != [] {
      assert candidates == candidates[..|candidates| - 1] + [candidates[|candidates| - 1]];
      ActiveNodesFacts(table, candidates[..|candidates| - 1]);
    }
  }

  lemma ActiveIdsStep(table: NodeTable, init: seq<string>, x: string)
    requires x !in init
    ensures ActiveIds(table, []) == {} && x !in ActiveIds(table, init)
    ensures ActiveIds(table, init + [x]) ==
            if x in table && table[x].active then ActiveIds(table, init) + {x} else ActiveIds(table, init)
  {
  }

  lemma {:induction false} ActiveNodesCount(table: NodeTable, candidates: seq<string>)
    requires Distinct(candidates)
    ensures |ActiveNodes(table, candidates)| == |ActiveIds(table, candidates)|
    ensures forall n :: n in candidates && n in table && table[n].active ==> table[n] in ActiveNodes(table, candidates)
  {
    hide ActiveIds;
    if candidates == [] {
      ActiveIdsStep(table, [], "");
    } else {
      var init, x := candidates[..|candidates| - 1], candidates[|candidates| - 1];
      assert candidates == init + [x];
      ActiveNodesCount(table, init);
      ActiveIdsStep(table, init, x);
    }
  }

  /** The list holds every active candidate and nothing else: as many nodes and zones as there are of them. */
  lemma ActiveNodesAre(table: NodeTable, candidates: seq<string>)
    requires KeyedById(table) && Distinct(candidates)
    ensures |ActiveNodes(table, candidates)| == |set n | n in candidates && n in table && table[n].active|
    ensures Zones(ActiveNodes(table, candidates)) ==
            set n | n in candidates && n in table && table[n].active :: table[n].availabilityZone
    ensures forall r :: r in ActiveNodes(table, candidates) <==>
              r.nodeId in candidates && r.nodeId in table && table[r.nodeId].active && r == table[r.nodeId]
  {
    hide ActiveNodes;
    ActiveNodesCount(table, candidates);
    ActiveNodesFacts(table, candidates);
    assert ActiveIds(table, candidates) == set n | n in candidates && n in table && table[n].active;
  }

  lemma ZonesMonotone(a: seq<NodeRecord>, b: seq<NodeRecord>)
    requires forall n :: n in a ==> n in b
    ensures Zones(a) <= Zones(b) && |Zones(a)| <= |Zones(b)|
  {
    SubsetCardinality(Zones(a), Zones(b));
  }

  lemma {:induction false} ZonesAtMostLength(nodes: seq<NodeRecord>)
    ensures |Zones(nodes)| <= |nodes|
  {
    if nodes == [] {
      ZonesAppend([], NodeRecord("", "", true));
    } else {
      assert nodes == nodes[..|nodes| - 1] + [nodes[|nodes| - 1]];
      ZonesAtMostLength(nodes[..|nodes| - 1]);
      ZonesAppend(nodes[..|nodes| - 1], nodes[|nodes| - 1]);
    }
  }

  // ---------- the selection ----------

  /** As many nodes as asked for or available, each at most once, from the active candidates. */
  lemma SelectionSize(nodes: seq<NodeRecord>, count: nat)
    requires DistinctIds(nodes)
    ensures |Selection(nodes, count)| == Min(count, |nodes|)
    ensures DistinctIds(Selection(nodes, count))
    ensures forall n :: n in Selection(nodes, count) ==> n in nodes
  {
    SplitFacts(nodes);
    DistinctCounts(nodes);
    var all := ZoneFirsts(nodes) + Followers(nodes);
    assert multiset(all) == multiset(nodes);
    AtMostOnce(all, nodes);
    forall n | n in all ensures n in nodes { assert n in multiset(all); }
  }

  lemma AtMostOnce(all: seq<NodeRecord>, nodes: seq<NodeRecord>)
    requires multiset(all) == multiset(nodes) && DistinctIds(nodes)
    ensures DistinctIds(all)
  {
    DistinctCounts(nodes);
    forall i, j | 0 <= i < j < |all| ensures all[i].nodeId != all[j].nodeId {
      assert all == all[..j] + [all[j]] + all[j + 1..];
      assert all[i] in all[..j];
      assert multiset(all) == multiset(all[..j]) + multiset{all[j]} + multiset(all[j + 1..]);
      assert all[i] != all[j];
      assert all[i] in multiset(nodes) && all[j] in multiset(nodes);
      var a :| 0 <= a < |nodes| && nodes[a] == all[i];
      var b :| 0 <= b < |nodes| && nodes[b] == all[j];
      assert a != b;
    }
  }

  lemma SelectionZones(nodes: seq<NodeRecord>, count: nat)
    ensures |Zones(Selection(nodes, count))| == Min(count, |Zones(nodes)|)
  {
    ZoneFirstsFacts(nodes);
    SplitFacts(nodes);
    var firsts := ZoneFirsts(nodes);
    var all := firsts + Followers(nodes);
    if count <= |firsts| {
      assert Selection(nodes, count) == firsts[..count];
      ZoneFirstsPrefix(nodes, count);
    } else {
      var s := Selection(nodes, count);
      forall n | n in firsts ensures n in s {
        var i :| 0 <= i < |firsts| && firsts[i] == n;
        assert s[i] == n;
      }
      forall n | n in s ensures n in nodes {
        assert n in all;
        assert n in multiset(firsts) || n in multiset(Followers(nodes));
        assert n in multiset(nodes);
      }
      ZonesMonotone(firsts, s);
      ZonesMonotone(s, nodes);
    }
  }

  /** No choice of at most `count` of the same candidates spans more zones. */
  lemma SelectionIsZoneOptimal(nodes: seq<NodeRecord>, count: nat, other: seq<NodeRecord>)
    requires |other| <= count && forall n :: n in other ==> n in nodes
    ensures |Zones(other)| <= |Zones(Selection(nodes, count))|
  {
    SelectionZones(nodes, count);
    ZonesMonotone(other, nodes);
    ZonesAtMostLength(other);
  }

  lemma PrefixStep(nodes: seq<NodeRecord>, i: nat)
    requires i < |nodes|
    ensures Zones(nodes[..i + 1]) == Zones(nodes[..i]) + {nodes[i].availabilityZone}
    ensures ZoneFirsts(nodes[..i + 1]) ==
            if nodes[i].availabilityZone in Zones(nodes[..i]) then ZoneFirsts(nodes[..i])
            else ZoneFirsts(nodes[..i]) + [nodes[i]]
    ensures Followers(nodes[..i + 1]) ==
            if nodes[i].availabilityZone in Zones(nodes[..i]) then Followers(nodes[..i]) + [nodes[i]]
            else Followers(nodes[..i])
  {
    assert nodes[..i + 1] == nodes[..i] + [nodes[i]];
    ZonesAppend(nodes[..i], nodes[i]);
  }

  lemma {:induction false} PrefixMonotone(nodes: seq<NodeRecord>, i: nat)
    requires i <= |nodes|
    ensures ZoneFirsts(nodes[..i]) <= ZoneFirsts(nodes) && Followers(nodes[..i]) <= Followers(nodes)
    decreases |nodes| - i
  {
    if i == |nodes| {
      assert nodes[..i] == nodes;
    } else {
      PrefixStep(nodes, i);
      PrefixMonotone(nodes, i + 1);
    }
  }

  /** A node is among the zone firsts of the whole list exactly when it opens its zone. */
  lemma {:induction false} OpensZone(nodes: seq<NodeRecord>, i: nat, n: nat)
    requires DistinctIds(nodes) && i < n <= |nodes|
    ensures nodes[i] in ZoneFirsts(nodes[..n]) <==> nodes[i].availabilityZone !in Zones(nodes[..i])
    decreases n
  {
    hide Zones, ZoneFirsts, Followers;
    PrefixStep(nodes, n - 1);
    if i < n - 1 {
      OpensZone(nodes, i, n - 1);
    } else {
      forall m | m in ZoneFirsts(nodes[..i]) ensures m != nodes[i] { FromPrefix(nodes, i, m); }
    }
  }

  lemma FromPrefix(nodes: seq<NodeRecord>, i: nat, m: NodeRecord)
    requires i <= |nodes| && (m in ZoneFirsts(nodes[..i]) || m in Followers(nodes[..i]))
    ensures exists j :: 0 <= j < i && nodes[j] == m
  {
    SplitFacts(nodes[..i]);
    assert m in multiset(nodes[..i]);
    var j :| 0 <= j < i && nodes[..i][j] == m;
  }

  // ---------- who comes first ----------

  /** Where the selection lists node `i` when it is long enough. */
  function Rank(nodes: seq<NodeRecord>, i: nat): nat
    requires i < |nodes|
  {
    if nodes[i].availabilityZone !in Zones(nodes[..i]) then |ZoneFirsts(nodes[..i])|
    else |ZoneFirsts(nodes)| + |Followers(nodes[..i])|
  }

  lemma RankIs(nodes: seq<NodeRecord>, i: nat)
    requires i < |nodes|
    ensures Rank(nodes, i) < |nodes| == |ZoneFirsts(nodes) + Followers(nodes)|
    ensures (ZoneFirsts(nodes) + Followers(nodes))[Rank(nodes, i)] == nodes[i]
  {
    hide Zones, ZoneFirsts, Followers;
    PrefixStep(nodes, i);
    PrefixMonotone(nodes, i + 1);
    SplitFacts(nodes);
  }

  lemma SelectedIff(nodes: seq<NodeRecord>, count: nat, i: nat)
    requires DistinctIds(nodes) && i < |nodes|
    ensures nodes[i] in Selection(nodes, count) <==> Rank(nodes, i) < count
  {
    hide Zones, ZoneFirsts, Followers, Rank;
    RankIs(nodes, i);
    SplitFacts(nodes);
    var all := ZoneFirsts(nodes) + Followers(nodes);
    AtMostOnce(all, nodes);
    if Rank(nodes, i) < count {
      assert Selection(nodes, count)[Rank(nodes, i)] == nodes[i];
    }
    if nodes[i] in Selection(nodes, count) {
      var a :| 0 <= a < |Selection(nodes, count)| && Selection(nodes, count)[a] == nodes[i];
      assert all[a] == nodes[i];
    }
  }

  lemma LeftOutMeansFull(nodes: seq<NodeRecord>, count: nat, n: NodeRecord)
    requires DistinctIds(nodes) && n in nodes && n !in Selection(nodes, count)
    ensures |Selection(nodes, count)| == count
  {
    hide Rank, Selection;
    var i :| 0 <= i < |nodes| && nodes[i] == n;
    SelectedIff(nodes, count, i);
    RankIs(nodes, i);
    SelectionSize(nodes, count);
  }

  lemma PrefixLengths(nodes: seq<NodeRecord>, i: nat, j: nat)
    requires i <= j <= |nodes|
    ensures |ZoneFirsts(nodes[..i])| <= |ZoneFirsts(nodes[..j])| && |Followers(nodes[..i])| <= |Followers(nodes[..j])|
  {
    assert nodes[..j][..i] == nodes[..i];
    PrefixMonotone(nodes[..j], i);
  }

  /** An earlier node is passed over only for its zone. */
  lemma PassedOver(nodes: seq<NodeRecord>, count: nat, i: nat, j: nat)
    requires DistinctIds(nodes) && i < j < |nodes|
    requires nodes[i] !in Selection(nodes, count) && nodes[j] in Selection(nodes, count)
    ensures nodes[i].availabilityZone in Zones(nodes[..i]) && nodes[j].availabilityZone !in Zones(nodes[..j])
  {
    hide Zones, ZoneFirsts, Followers, Selection, DistinctIds;
    SelectedIff(nodes, count, i);
    SelectedIff(nodes, count, j);
    PrefixLengths(nodes, i, j);
    PrefixMonotone(nodes, i);
  }

  /** The list before an active candidate is the list of the candidates before it. */
  lemma {:induction false} ActiveNodesPrefix(table: NodeTable, candidates: seq<string>, i: nat)
    requires i < |candidates| && candidates[i] in table && table[candidates[i]].active
    ensures ActiveNodes(table, candidates[..i]) + [table[candidates[i]]] <= ActiveNodes(table, candidates)
    decreases |candidates|
  {
    var init := candidates[..|candidates| - 1];
    if i < |init| {
      ActiveNodesPrefix(table, init, i);
      assert init[..i] == candidates[..i];
    }
  }

  /**
   * The ring's preference: an active candidate is left out while a later one is selected only if an earlier
   * active one is in its zone and none before the later one is in that one's zone.
   */
  lemma SelectionPrefersRingOrder(table: NodeTable, candidates: seq<string>, count: nat, i: nat, j: nat)
    requires KeyedById(table) && Distinct(candidates) && i < j < |candidates|
    requires candidates[i] in table && table[candidates[i]].active
    requires candidates[j] in table && table[candidates[j]].active
    requires table[candidates[i]] !in Selection(ActiveNodes(table, candidates), count)
    requires table[candidates[j]] in Selection(ActiveNodes(table, candidates), count)
    ensures exists k :: 0 <= k < i && candidates[k] in table && table[candidates[k]].active &&
                        table[candidates[k]].availabilityZone == table[candidates[i]].availabilityZone
    ensures forall k :: 0 <= k < j && candidates[k] in table && table[candidates[k]].active ==>
                        table[candidates[k]].availabilityZone != table[candidates[j]].availabilityZone
  {
    hide ActiveNodes, Zones, Selection, DistinctIds;
    var nodes := ActiveNodes(table, candidates);
    var a, b := |ActiveNodes(table, candidates[..i])|, |ActiveNodes(table, candidates[..j])|;
    ActiveNodesFacts(table, candidates);
    ActiveNodesPrefix(table, candidates, i);
    ActiveNodesPrefix(table, candidates, j);
    assert candidates[..j][..i] == candidates[..i] && candidates[..j][i] == candidates[i];
    ActiveNodesPrefix(table, candidates[..j], i);
    PassedOver(nodes, count, a, b);
    assert nodes[..a] == ActiveNodes(table, candidates[..i]) && nodes[..b] == ActiveNodes(table, candidates[..j]);
    ZoneSeenIff(table, candidates, i, table[candidates[i]].availabilityZone);
    ZoneSeenIff(table, candidates, j, table[candidates[j]].availabilityZone);
  }

  lemma ZoneSeenIff(table: NodeTable, candidates: seq<string>, i: nat, zone: string)
    requires KeyedById(table) && Distinct(candidates) && i <= |candidates|
    ensures zone in Zones(ActiveNodes(table, candidates[..i])) <==>
            exists k :: 0 <= k < i && candidates[k] in table && table[candidates[k]].active &&
                        table[candidates[k]].availabilityZone == zone
  {
    hide ActiveNodes, Zones;
    ActiveNodesAre(table, candidates[..i]);
    if n :| n in candidates[..i] && n in table && table[n].active && table[n].availabilityZone == zone {
      var k :| 0 <= k < i && candidates[..i][k] == n;
      assert candidates[k] == n;
    }
    if k :| 0 <= k < i && candidates[k] in table && table[candidates[k]].active
            && table[candidates[k]].availabilityZone == zone {
      assert candidates[k] in candidates[..i];
    }
  }

  /** The first pass: one node per zone. */
  method FirstPass(nodes: seq<NodeRecord>, count: nat) returns (selected: seq<NodeRecord>)
    ensures selected == Take(ZoneFirsts(nodes), count)
  {
    hide Zones, ZoneFirsts, Followers;
    NothingSelected();
    selected := [];
    var usedZones: set<string> := {};
    var i := 0;
    assert nodes[..0] == [];
    while i < |nodes|
      invariant 0 <= i <= |nodes|
      invariant selected == Take(ZoneFirsts(nodes[..i]), count)
      invariant |selected| < count ==> usedZones == Zones(nodes[..i])
    {
      if |selected| >= count {
        PrefixMonotone(nodes, i);
        return;
      }
      PrefixStep(nodes, i);
      if nodes[i].availabilityZone !in usedZones {
        selected := selected + [nodes[i]];
        usedZones := usedZones + {nodes[i].availabilityZone};
      }
      i := i + 1;
    }
    assert nodes[..i] == nodes;
  }

  /** The second pass adds the nodes not chosen yet. */
  method SecondPass(nodes: seq<NodeRecord>, count: nat, chosen: seq<NodeRecord>) returns (selected: seq<NodeRecord>)
    requires DistinctIds(nodes) && chosen == Take(ZoneFirsts(nodes), count)
    ensures selected == Selection(nodes, count)
  {
    hide Zones, ZoneFirsts, Followers, DistinctIds;
    NothingSelected();
    selected := chosen;
    var i := 0;
    while i < |nodes|
      invariant 0 <= i <= |nodes|
      invariant selected == Take(ZoneFirsts(nodes) + Followers(nodes[..i]), count)
    {
      if |selected| >= count {
        PrefixMonotone(nodes, i);
        return;
      }
      PrefixStep(nodes, i);
      ChosenIff(nodes, i);
      if forall n :: n in selected ==> n.nodeId != nodes[i].nodeId {
        selected := selected + [nodes[i]];
      }
      i := i + 1;
    }
    assert nodes[..i] == nodes;
  }

  lemma NothingSelected()
    ensures Zones([]) == {} && ZoneFirsts([]) == [] && Followers([]) == []
  {
  }

  lemma ChosenIff(nodes: seq<NodeRecord>, i: nat)
    requires DistinctIds(nodes) && i < |nodes|
    ensures (exists n :: n in ZoneFirsts(nodes) + Followers(nodes[..i]) && n.nodeId == nodes[i].nodeId) <==>
            nodes[i].availabilityZone !in Zones(nodes[..i])
  {
    hide Zones, ZoneFirsts, Followers;
    OpensZone(nodes, i, |nodes|);
    assert nodes[..|nodes|] == nodes;
    forall n | n in ZoneFirsts(nodes) + Followers(nodes[..i]) && n.nodeId == nodes[i].nodeId
      ensures n in ZoneFirsts(nodes) && n == nodes[i]
    {
      if n in Followers(nodes[..i]) {
        FromPrefix(nodes, i, n);
      } else {
        FromPrefix(nodes, |nodes|, n);
      }
    }
  }
}
