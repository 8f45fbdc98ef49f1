/**
 * The replication service: selecting nodes through the ring, writing to a quorum, verifying and
 * repairing replicas (src/replication-service.ts:34-294).
 */
module ReplicationService {
  import opened Common
  import opened Collections
  import opened Sorting
  import opened ConsistentHashRing
  import opened NodeSelection
  import opened QuorumWrite
  import opened ReplicaRepair

  datatype Health = Health(replicaCount: nat, healthyReplicas: nat, corruptedReplicas: seq<string>)

  class Service {
    const hashRing: HashRing
    const storageNodes: set<string>
    const digest: Bytes -> string
    var cluster: Cluster

    ghost predicate Valid()
      reads this, hashRing
    {
      hashRing.Valid() && KeyedById(cluster.nodeRecords)
    }

    constructor (hashRing: HashRing, storageNodes: set<string>, digest: Bytes -> string, cluster: Cluster)
      requires hashRing.Valid() && KeyedById(cluster.nodeRecords)
      ensures Valid() && this.hashRing == hashRing && this.storageNodes == storageNodes && this.digest == digest
      ensures this.cluster == cluster
    {
      this.hashRing, this.storageNodes, this.digest, this.cluster := hashRing, storageNodes, digest, cluster;
    }

    // ---------- selection ----------

    method SelectStorageNodes(chunkHash: string, count: nat) returns (selected: seq<NodeRecord>)
      requires Valid()
      ensures var active := ActiveNodes(cluster.nodeRecords, Lookup(hashRing.ring, chunkHash, count * 2));
              && selected == Selection(active, count)
              && |selected| == Min(count, |active|) && DistinctIds(selected)
              && |Zones(selected)| == Min(count, |Zones(active)|)
              && (forall n :: n in selected ==>
                    && n.active && n.nodeId in Lookup(hashRing.ring, chunkHash, count * 2)
                    && n.nodeId in cluster.nodeRecords && n == cluster.nodeRecords[n.nodeId])
      // Written out over the candidates that are registered and active.
      ensures var table, candidates := cluster.nodeRecords, Lookup(hashRing.ring, chunkHash, count * 2);
              var active := set n | n in candidates && n in table && table[n].active;
              var zones := set n | n in candidates && n in table && table[n].active :: table[n].availabilityZone;
              && |selected| == (if count < |active| then count else |active|)
              && |set r | r in selected :: r.availabilityZone| == (if count < |zones| then count else |zones|)
              && forall n :: n in active && table[n] !in selected ==> |selected| == count
      // A candidate is passed over for a later one only where its zone was seen before and the later one's was not.
      ensures var table, candidates := cluster.nodeRecords, Lookup(hashRing.ring, chunkHash, count * 2);
              forall i, j :: 0 <= i < j < |candidates| && PassedOverFor(table, candidates, selected, i, j) ==>
                && (exists k :: 0 <= k < i && candidates[k] in table && table[candidates[k]].active &&
                                table[candidates[k]].availabilityZone == table[candidates[i]].availabilityZone)
                && forall k :: 0 <= k < j && candidates[k] in table && table[candidates[k]].active ==>
                   table[candidates[k]].availabilityZone != table[candidates[j]].availabilityZone
    {
      hide ActiveNodes, Lookup, Selection, Zones, DistinctIds;
      var candidates := hashRing.GetNodes(chunkHash, count * 2);
      LookupDistinct(hashRing.ring, chunkHash, count * 2);
      var active := ActiveNodes(cluster.nodeRecords, candidates);
      ActiveNodesFacts(cluster.nodeRecords, candidates);
      ActiveNodesAre(cluster.nodeRecords, candidates);
      SelectionSize(active, count);
      SelectionZones(active, count);
      var firsts := FirstPass(active, count);
      selected := SecondPass(active, count, firsts);
      ZonesAre(selected);
      forall i, j | 0 <= i < j < |candidates| && PassedOverFor(cluster.nodeRecords, candidates, selected, i, j) {
        SelectionPrefersRingOrder(cluster.nodeRecords, candidates, count, i, j);
      }
      forall n | n in active && n !in selected { LeftOutMeansFull(active, count, n); }
    }

    // ---------- the quorum write ----------

    ghost function SelectedIds(chunkHash: string): seq<string>
      requires Valid()
      reads this, hashRing
    {
      var active := ActiveNodes(cluster.nodeRecords, Lookup(hashRing.ring, chunkHash, REPLICATION_FACTOR * 2));
      NodeIds(Selection(active, REPLICATION_FACTOR))
    }

    /** The machine of the quorum write on the selected nodes, at its start. */
    ghost function WriteStart(chunkHash: string): QuorumWrite.State
      requires Valid()
      reads this, hashRing
    {
      Start(SelectedIds(chunkHash), storageNodes, DisksFor(cluster.copies, chunkHash),
            NodesWithRow(cluster.replicas, chunkHash))
    }

    /** All writes and recordings settle in the order of `schedule`. */
    method SettleAll(start: QuorumWrite.State, data: Bytes, schedule: seq<Action>) returns (s: QuorumWrite.State)
      ensures s == QuorumWrite.Run(start, data, schedule)
    {
      s := start;
      RunNothing(start, data);
      var i := 0;
      while i < |schedule|
        invariant 0 <= i <= |schedule| && s == QuorumWrite.Run(start, data, schedule[..i])
      {
        RunStep(start, data, schedule, i);
        s := QuorumWrite.Next(s, data, schedule[i]);
        i := i + 1;
      }
      assert schedule[..i] == schedule;
    }

    /**
     * Selects nodes, then runs all writes and recordings as `schedule` says, to the end: the store
     * accepts a row only for a chunk it knows.
     */
    method ReplicateChunk(chunkHash: string, data: Bytes, schedule: seq<Action>) returns (outcome: Outcome)
      requires Valid()
      requires Settled(QuorumWrite.Run(WriteStart(chunkHash), data, schedule))
      requires chunkHash !in cluster.chunkRows ==> forall a :: a in schedule ==> !a.RecordOk?
      modifies this`cluster
      ensures Valid()
      ensures var active := ActiveNodes(cluster.nodeRecords, Lookup(hashRing.ring, chunkHash, REPLICATION_FACTOR * 2));
              outcome.InsufficientNodes? <==> |active| < REPLICATION_FACTOR
      // Written out over the six nearest candidates that are registered and active.
      ensures var table := old(cluster).nodeRecords;
              outcome.InsufficientNodes? <==>
              |set n | n in Lookup(hashRing.ring, chunkHash, 6) && n in table && table[n].active| < 3
      ensures outcome.InsufficientNodes? ==> cluster == old(cluster)
      // The nodes written to: three of those candidates, in as many zones as there are, up to three.
      ensures !outcome.InsufficientNodes? ==>
                var table, candidates := old(cluster).nodeRecords, Lookup(hashRing.ring, chunkHash, 6);
                var ids := old(SelectedIds(chunkHash));
                var zones := set n | n in candidates && n in table && table[n].active :: table[n].availabilityZone;
                && |ids| == 3 && Distinct(ids)
                && (forall n :: n in ids ==> n in candidates && n in table && table[n].active)
                && |set n | n in ids && n in table :: table[n].availabilityZone| == if |zones| < 3 then |zones| else 3
      // Off the schedule: the rows, the locations, and the copies of the nodes that are not written to.
      ensures !outcome.InsufficientNodes? ==>
                forall n :: Place(n, chunkHash) in cluster.replicas <==>
                  || Place(n, chunkHash) in old(cluster).replicas
                  || (n in old(SelectedIds(chunkHash)) && n in storageNodes && Completes(schedule, n))
      ensures outcome.Replicated? ==>
                forall n :: n in outcome.locations <==>
                  n in old(SelectedIds(chunkHash)) && n in storageNodes && exists i :: WrittenAt(schedule, n, i)
      ensures forall n :: !(n in old(SelectedIds(chunkHash)) && n in storageNodes) ==>
                SameCopy(old(cluster).copies, cluster.copies, Place(n, chunkHash))
      ensures outcome.QuorumFailed? ==> outcome.successes < 2
      ensures outcome.Replicated? ==>
                && |set n | n in Lookup(hashRing.ring, chunkHash, 6) && Place(n, chunkHash) in cluster.copies
                            && cluster.copies[Place(n, chunkHash)] == data && Place(n, chunkHash) in cluster.replicas|
                   >= 2
                && forall n :: n in outcome.locations ==>
                     && n in storageNodes && n in Lookup(hashRing.ring, chunkHash, 6)
                     && n in cluster.nodeRecords && cluster.nodeRecords[n].active
                     && Place(n, chunkHash) in cluster.copies && cluster.copies[Place(n, chunkHash)] == data
      // The outcome, and the copies and rows of the chunk, are those of the machine.
      ensures var s := QuorumWrite.Run(old(WriteStart(chunkHash)), data, schedule);
              && outcome == Result(old(SelectedIds(chunkHash)), s)
              && cluster == if outcome.InsufficientNodes? then old(cluster)
                            else WithChunk(old(cluster), chunkHash, s.disks, s.rows)
      ensures outcome.Replicated? ==>
                ReplicatedWell(cluster, hashRing.ring, storageNodes, chunkHash, data, outcome.locations)
      ensures LeavesOthersAlone(old(cluster), cluster, chunkHash)
      ensures cluster.nodeRecords == old(cluster).nodeRecords && cluster.chunkRows == old(cluster).chunkRows
    {
      hide ActiveNodes, Lookup, Selection, Zones, DistinctIds, QuorumWrite.Run, Settled, Start, LeavesOthersAlone,
        ReplicatedWell, KeyedById, OfferedActive, NodeIds, DisksFor, NodesWithRow, WithChunk;
      ghost var c := cluster;
      LookupDistinct(hashRing.ring, chunkHash, REPLICATION_FACTOR * 2);
      ActiveNodesAre(c.nodeRecords, Lookup(hashRing.ring, chunkHash, REPLICATION_FACTOR * 2));
      var selected := SelectStorageNodes(chunkHash, REPLICATION_FACTOR);
      if |selected| < REPLICATION_FACTOR {
        NothingChanged(c, chunkHash);
        return InsufficientNodes;
      }
      var ids := NodeIds(selected);
      OfferedIds(c, hashRing.ring, chunkHash, selected);
      SelectedAre(c, hashRing.ring, chunkHash, selected);
      var start := Start(ids, storageNodes, DisksFor(cluster.copies, chunkHash),
                         NodesWithRow(cluster.replicas, chunkHash));
      var s := SettleAll(start, data, schedule);
      cluster := WithChunk(cluster, chunkHash, s.disks, s.rows);
      ReplacedOthers(c, chunkHash, s.disks, s.rows);
      outcome := Result(ids, s);
      forall n { ChunkAfter(c, storageNodes, chunkHash, ids, data, schedule, n); }
      if outcome.Replicated? {
        QuorumReplicates(c, hashRing.ring, storageNodes, chunkHash, data, ids, schedule);
        ReplicatedWellIs(cluster, hashRing.ring, storageNodes, chunkHash, data, outcome.locations);
      }
    }

    // ---------- single calls, which fail as the caller says ----------

    /** The rows of one chunk, in whatever order the store likes. */
    method GetChunkReplicas(chunkHash: string) returns (nodes: seq<string>)
      ensures Distinct(nodes) && Elements(nodes) == NodesWithRow(cluster.replicas, chunkHash)
    {
      nodes := SortStrings(NodesWithRow(cluster.replicas, chunkHash));
      SortedDistinct(nodes);
    }

    /** Answers false when the copy cannot be read. */
    method VerifyChunkIntegrity(node: string, chunkHash: string, fails: bool) returns (valid: bool)
      ensures valid <==> !fails && Intact(digest, cluster.copies, Place(node, chunkHash))
    {
      valid := !fails && Intact(digest, cluster.copies, Place(node, chunkHash));
    }

    method DeleteChunk(node: string, chunkHash: string, fails: bool)
      modifies this`cluster
      ensures cluster == if fails then old(cluster)
                         else old(cluster).(copies := old(cluster).copies - {Place(node, chunkHash)})
    {
      if !fails {
        cluster := cluster.(copies := cluster.copies - {Place(node, chunkHash)});
      }
    }

    method DeleteChunkReplica(chunkHash: string, node: string, fails: bool)
      modifies this`cluster
      ensures cluster == if fails then old(cluster)
                         else old(cluster).(replicas := old(cluster).replicas - {Place(node, chunkHash)})
    {
      if !fails {
        cluster := cluster.(replicas := cluster.replicas - {Place(node, chunkHash)});
      }
    }

    method ReadChunk(node: string, chunkHash: string, fails: bool) returns (data: Option<Bytes>)
      ensures data == if !fails && Place(node, chunkHash) in cluster.copies
                      then Some(cluster.copies[Place(node, chunkHash)]) else None
    {
      var p := Place(node, chunkHash);
      data := if !fails && p in cluster.copies then Some(cluster.copies[p]) else None;
    }

    /** What the call leaves on the node, if anything. */
    method WriteChunk(node: string, chunkHash: string, left: Option<Bytes>)
      modifies this`cluster
      ensures cluster == if left.None? then old(cluster)
                         else old(cluster).(copies := old(cluster).copies[Place(node, chunkHash) := left.value])
    {
      if left.Some? {
        cluster := cluster.(copies := cluster.copies[Place(node, chunkHash) := left.value]);
      }
    }

    /** Insert-or-ignore; also fails when the chunk or the node has no row. */
    method CreateChunkReplica(chunkHash: string, node: string, fails: bool)
      modifies this`cluster
      ensures cluster == if fails || !RowAllowed(old(cluster), chunkHash, node) then old(cluster)
                         else old(cluster).(replicas := old(cluster).replicas + {Place(node, chunkHash)})
    {
      if !fails && RowAllowed(cluster, chunkHash, node) {
        cluster := cluster.(replicas := cluster.replicas + {Place(node, chunkHash)});
      }
    }

    // ---------- verification and repair ----------

    /** A replica is reported corrupted unless its node is known and its check comes back positive. */
    method VerifyReplicas(chunkHash: string, f: Failures) returns (ok: bool, health: Health)
      ensures ok == !f.listFails
      ensures ok ==>
                && Distinct(health.corruptedReplicas)
                && Elements(health.corruptedReplicas) == Reported(cluster, storageNodes, digest, chunkHash, f)
                && health.replicaCount == |NodesWithRow(cluster.replicas, chunkHash)|
                && health.healthyReplicas == |Healthy(cluster, storageNodes, digest, chunkHash, f)|
                && health.replicaCount == health.healthyReplicas + |health.corruptedReplicas|
      // Written out.
      ensures ok ==> forall n :: n in health.corruptedReplicas <==>
                && Place(n, chunkHash) in cluster.replicas
                && (|| n !in storageNodes || f.checkFails(n) || Place(n, chunkHash) !in cluster.copies
                    || digest(cluster.copies[Place(n, chunkHash)]) != chunkHash)
      ensures ok ==> health.replicaCount == |set p | p in cluster.replicas && p.chunkHash == chunkHash :: p.node|
    {
      hide NodesWithRow, Healthy;
      health := Health(0, 0, []);
      ok := !f.listFails;
      if !ok {
        return;
      }
      var replicas := GetChunkReplicas(chunkHash);
      DistinctCardinality(replicas);
      var healthy: seq<string>, corrupted: seq<string> := [], [];
      var i := 0;
      while i < |replicas|
        invariant 0 <= i <= |replicas| && |healthy| + |corrupted| == i
        invariant Distinct(corrupted) && Distinct(healthy)
        invariant forall n :: n in corrupted <==>
                  n in replicas[..i] && n !in Healthy(cluster, storageNodes, digest, chunkHash, f)
        invariant forall n :: n in healthy <==>
                  n in replicas[..i] && n in Healthy(cluster, storageNodes, digest, chunkHash, f)
      {
        var node := replicas[i];
        assert replicas[..i + 1] == replicas[..i] + [node];
        assert node !in replicas[..i];
        assert node in Elements(replicas);
        HealthyIsGood(cluster, storageNodes, digest, chunkHash, f, node);
        if node !in storageNodes {
          corrupted := corrupted + [node];
        } else {
          var isValid := VerifyChunkIntegrity(node, chunkHash, f.checkFails(node));
          if isValid {
            healthy := healthy + [node];
          } else {
            corrupted := corrupted + [node];
          }
        }
        i := i + 1;
      }
      assert replicas[..i] == replicas;
      CheckedAll(cluster, storageNodes, digest, chunkHash, f, replicas, healthy, corrupted);
      forall n ensures n in corrupted <==> n in Reported(cluster, storageNodes, digest, chunkHash, f) {
        assert n in corrupted <==> n in Elements(corrupted);
      }
      forall n { ReportedIff(cluster, storageNodes, digest, chunkHash, f, n); }
      NodesWithRowAre(cluster.replicas, chunkHash);
      health := Health(|replicas|, |healthy|, corrupted);
    }

    method RemoveCorrupted(chunkHash: string, corrupted: seq<string>, f: Failures)
      modifies this`cluster
      ensures cluster == Cleared(old(cluster), storageNodes, chunkHash, Elements(corrupted), f)
      // Written out: a row goes when deleting its copy did not throw and deleting the row did not fail.
      ensures forall p :: p in cluster.copies <==>
                && p in old(cluster).copies
                && !(&& p.chunkHash == chunkHash && p.node in corrupted && p.node in storageNodes
                     && !f.deleteFails(p.node))
      ensures forall p :: p in cluster.copies ==> cluster.copies[p] == old(cluster).copies[p]
      ensures forall p :: p in cluster.replicas <==>
                && p in old(cluster).replicas
                && !(&& p.chunkHash == chunkHash && p.node in corrupted
                     && !(p.node in storageNodes && f.deleteFails(p.node)) && !f.rowFails(p.node))
      ensures cluster.nodeRecords == old(cluster).nodeRecords && cluster.chunkRows == old(cluster).chunkRows
    {
      hide Cleared;
      ghost var c := cluster;
      var i := 0;
      assert Elements(corrupted[..0]) == {};
      ClearedNothing(c, storageNodes, chunkHash, f);
      while i < |corrupted|
        invariant 0 <= i <= |corrupted|
        invariant cluster == Cleared(c, storageNodes, chunkHash, Elements(corrupted[..i]), f)
      {
        var node := corrupted[i];
        PrefixElements(corrupted, i);
        ClearedStep(c, storageNodes, chunkHash, Elements(corrupted[..i]), node, f);
        var thrown := false;
        if node in storageNodes {
          DeleteChunk(node, chunkHash, f.deleteFails(node));
          thrown := f.deleteFails(node);
        }
        if !thrown {
          DeleteChunkReplica(chunkHash, node, f.rowFails(node));
        }
        i := i + 1;
      }
      assert corrupted[..i] == corrupted;
      ClearedIs(c, storageNodes, chunkHash, corrupted, f);
    }

    /** The bytes of the first replica, not reported corrupted, that can be read. */
    method ReadHealthy(chunkHash: string, replicas: seq<string>, corrupted: seq<string>, f: Failures)
      returns (data: Option<Bytes>)
      ensures data.Some? ==> exists n :: Readable(replicas, corrupted, f, n) && Place(n, chunkHash) in cluster.copies &&
                                         data.value == cluster.copies[Place(n, chunkHash)]
      ensures data.None? ==> forall n :: Readable(replicas, corrupted, f, n) ==> Place(n, chunkHash) !in cluster.copies
    {
      data := None;
      var i := 0;
      while i < |replicas|
        invariant 0 <= i <= |replicas| && data == None
        invariant forall n :: n in replicas[..i] && Readable(replicas, corrupted, f, n) ==>
                    Place(n, chunkHash) !in cluster.copies
      {
        var node := replicas[i];
        assert replicas[..i + 1] == replicas[..i] + [node];
        if node !in corrupted && node in storageNodes {
          data := ReadChunk(node, chunkHash, f.readFails(node));
          if data.Some? {
            assert Readable(replicas, corrupted, f, node);
            return;
          }
        }
        i := i + 1;
      }
      assert replicas[..i] == replicas;
    }

    /** A replica that the repair would read from, and whose read does not throw. */
    ghost predicate Readable(replicas: seq<string>, corrupted: seq<string>, f: Failures, n: string) {
      n in replicas && n !in corrupted && n in storageNodes && !f.readFails(n)
    }

    method WriteReplicas(chunkHash: string, nodes: seq<string>, data: Bytes, f: Failures)
      modifies this`cluster
      ensures cluster == Replenished(old(cluster), storageNodes, chunkHash, Elements(nodes), data, f)
      // Written out: the copies, and the rows the store accepts.
      ensures forall p: Place ::
                var written := p.chunkHash == chunkHash && p.node in nodes && p.node in storageNodes;
                if written && !f.writeFails(p.node) then p in cluster.copies && cluster.copies[p] == data
                else if written && f.leftover(p.node).Some? then
                  p in cluster.copies && cluster.copies[p] == f.leftover(p.node).value
                else
                  && (p in cluster.copies <==> p in old(cluster).copies)
                  && (p in cluster.copies ==> cluster.copies[p] == old(cluster).copies[p])
      ensures forall p :: p in cluster.replicas <==>
                || p in old(cluster).replicas
                || (&& p.chunkHash == chunkHash && p.node in nodes && p.node in storageNodes
                    && !f.writeFails(p.node) && !f.recordFails(p.node)
                    && chunkHash in old(cluster).chunkRows && p.node in old(cluster).nodeRecords)
      ensures cluster.nodeRecords == old(cluster).nodeRecords && cluster.chunkRows == old(cluster).chunkRows
    {
      hide Replenished, RowAllowed;
      ghost var c := cluster;
      var i := 0;
      assert Elements(nodes[..0]) == {};
      ReplenishedNothing(c, storageNodes, chunkHash, data, f);
      while i < |nodes|
        invariant 0 <= i <= |nodes|
        invariant cluster == Replenished(c, storageNodes, chunkHash, Elements(nodes[..i]), data, f)
      {
        var node := nodes[i];
        PrefixElements(nodes, i);
        ReplenishedStep(c, storageNodes, chunkHash, Elements(nodes[..i]), node, data, f);
        if node in storageNodes {
          ghost var before := cluster;
          WriteChunk(node, chunkHash, Leaves(f, node, data));
          RowAllowedSame(before, cluster, chunkHash, node);
          if !f.writeFails(node) {
            CreateChunkReplica(chunkHash, node, f.recordFails(node));
          }
        }
        i := i + 1;
      }
      assert nodes[..i] == nodes;
      ReplenishedTables(c, storageNodes, chunkHash, Elements(nodes), data, f);
      forall p { ReplenishedIs(c, storageNodes, chunkHash, nodes, data, f, p); }
    }

    /** The end of a repair that began with the cluster `c` and found too few healthy replicas. */
    method CopyToNewNodes(chunkHash: string, corrupted: seq<string>, neededReplicas: nat, ghost c: Cluster, f: Failures)
      returns (ok: bool)
      requires Valid() && !f.listFails
      requires Elements(corrupted) == Reported(c, storageNodes, digest, chunkHash, f)
      requires neededReplicas == REPLICATION_FACTOR - |Healthy(c, storageNodes, digest, chunkHash, f)| > 0
      requires cluster == Cleared(c, storageNodes, chunkHash, Elements(corrupted), f)
      modifies this`cluster
      ensures RepairedTo(c, cluster, ok, storageNodes, digest, chunkHash,
                         Lookup(hashRing.ring, chunkHash, REPLICATION_FACTOR * 3), f)
    {
      hide NodesWithRow, Healthy, Reported, Cleared, Replenished, Fresh, Lookup, Distinct, KeyedById, RepairedTo;
      ghost var clean, candidates := cluster, Lookup(hashRing.ring, chunkHash, REPLICATION_FACTOR * 3);
      if f.relistFails {
        CleanupOnly(c, cluster, false, storageNodes, digest, chunkHash, candidates, f);
        return false;
      }
      var replicas := GetChunkReplicas(chunkHash);
      var chunkData := ReadHealthy(chunkHash, replicas, corrupted, f);
      ReadableIsHealthy(c, clean, storageNodes, digest, chunkHash, f, replicas, corrupted);
      if chunkData.None? {
        CleanupOnly(c, cluster, false, storageNodes, digest, chunkHash, candidates, f);
        return false;
      }
      var allCandidates := hashRing.GetNodes(chunkHash, REPLICATION_FACTOR * 3);
      var newNodeIds := Take(Fresh(allCandidates, Elements(replicas)), neededReplicas);
      WriteReplicas(chunkHash, newNodeIds, chunkData.value, f);
      CopiesMade(c, cluster, storageNodes, digest, chunkHash, candidates, f, chunkData.value);
      return true;
    }

    /** Every step of a repair, under any pattern of failures; `ok` is false for the calls that throw. */
    method ReReplicate(chunkHash: string, f: Failures) returns (ok: bool)
      requires Valid()
      modifies this`cluster
      ensures Valid()
      ensures RepairedTo(old(cluster), cluster, ok, storageNodes, digest, chunkHash,
                         Lookup(hashRing.ring, chunkHash, REPLICATION_FACTOR * 3), f)
      // Written out: the rows that are left or added have copies with the right hash.
      ensures !f.listFails && (forall n: string :: !f.deleteFails(n) && !f.rowFails(n)) ==>
                forall p :: p in cluster.replicas && p.chunkHash == chunkHash ==>
                  p.node in storageNodes && p in cluster.copies && digest(cluster.copies[p]) == chunkHash
      ensures forall p :: p in cluster.replicas && p !in old(cluster).replicas ==>
                && p.chunkHash == chunkHash && p.node in storageNodes
                && p in cluster.copies && digest(cluster.copies[p]) == chunkHash
      ensures forall p :: && p in old(cluster).replicas && p.chunkHash == chunkHash
                          && p.node in storageNodes && !f.checkFails(p.node)
                          && p in old(cluster).copies && digest(old(cluster).copies[p]) == chunkHash ==>
                p in cluster.replicas && p in cluster.copies && cluster.copies[p] == old(cluster).copies[p]
      // When the call returns, and which nodes have a row then.
      ensures var c := old(cluster);
              var healthy := set p | p in c.replicas && p.chunkHash == chunkHash && p.node in storageNodes
                                     && !f.checkFails(p.node) && p in c.copies && digest(c.copies[p]) == chunkHash ::
                                 p.node;
              ok <==>
                !f.listFails && (|healthy| >= 3 || (!f.relistFails && exists n :: n in healthy && !f.readFails(n)))
      ensures !f.listFails ==>
                var c, candidates := old(cluster), Lookup(hashRing.ring, chunkHash, 9);
                var healthy := set p | p in c.replicas && p.chunkHash == chunkHash && p.node in storageNodes
                                       && !f.checkFails(p.node) && p in c.copies && digest(c.copies[p]) == chunkHash ::
                                   p.node;
                var kept := set p | && p in c.replicas && p.chunkHash == chunkHash
                                    && (|| p.node in healthy || (p.node in storageNodes && f.deleteFails(p.node))
                                        || f.rowFails(p.node)) :: p.node;
                forall n :: Place(n, chunkHash) in cluster.replicas <==>
                  || n in kept
                  || (&& ok && |healthy| < 3 && n in storageNodes && !f.writeFails(n) && !f.recordFails(n)
                      && chunkHash in c.chunkRows && n in c.nodeRecords
                      && exists i: nat :: i < |candidates| && candidates[i] == n &&
                                     |FreeBefore(candidates, kept, i)| < 3 - |healthy|)
      ensures f.listFails ==> cluster == old(cluster)
      ensures forall p: Place :: p.chunkHash != chunkHash ==>
                && (p in cluster.replicas <==> p in old(cluster).replicas)
                && (p in cluster.copies <==> p in old(cluster).copies)
                && (p in cluster.copies ==> cluster.copies[p] == old(cluster).copies[p])
      ensures cluster.nodeRecords == old(cluster).nodeRecords && cluster.chunkRows == old(cluster).chunkRows
    {
      hide NodesWithRow, Healthy, Reported, Cleared, Lookup, Distinct, KeyedById, RepairedTo;
      ghost var c, candidates := cluster, Lookup(hashRing.ring, chunkHash, REPLICATION_FACTOR * 3);
      LookupDistinct(hashRing.ring, chunkHash, REPLICATION_FACTOR * 3);
      var verified, health := VerifyReplicas(chunkHash, f);
      ok := verified;
      if !verified {
        NothingListed(c, storageNodes, digest, chunkHash, candidates, f);
      } else {
        RemoveCorrupted(chunkHash, health.corruptedReplicas, f);
        var currentReplicas := health.replicaCount - |health.corruptedReplicas|;
        if currentReplicas >= REPLICATION_FACTOR {
          CleanupOnly(c, cluster, true, storageNodes, digest, chunkHash, candidates, f);
        } else {
          ok := CopyToNewNodes(chunkHash, health.corruptedReplicas, REPLICATION_FACTOR - currentReplicas, c, f);
        }
      }
      RepairIs(c, cluster, ok, storageNodes, digest, chunkHash, candidates, f);
    }
  }

  /** Candidates `i` and `j` are active, `i` is not selected and `j` is. */
  ghost predicate PassedOverFor(table: NodeTable, candidates: seq<string>, selected: seq<NodeRecord>, i: int, j: int)
    requires 0 <= i < j < |candidates|
  {
    && candidates[i] in table && table[candidates[i]].active && table[candidates[i]] !in selected
    && candidates[j] in table && table[candidates[j]].active && table[candidates[j]] in selected
  }

  lemma ZonesAre(nodes: seq<NodeRecord>)
    ensures Zones(nodes) == set r | r in nodes :: r.availabilityZone
  {
  }

  /** Everything the repair promises, in terms of rows, copies and hashes. */
  lemma RepairIs(c: Cluster, c': Cluster, ok: bool, known: set<string>, digest: Bytes -> string, h: string,
                 candidates: seq<string>, f: Failures)
    requires RepairedTo(c, c', ok, known, digest, h, candidates, f) && Distinct(candidates)
    ensures !f.listFails && (forall n: string :: !f.deleteFails(n) && !f.rowFails(n)) ==>
              forall p :: p in c'.replicas && p.chunkHash == h ==>
                p.node in known && p in c'.copies && digest(c'.copies[p]) == h
    ensures forall p :: p in c'.replicas && p !in c.replicas ==>
              p.chunkHash == h && p.node in known && p in c'.copies && digest(c'.copies[p]) == h
    ensures forall p :: && p in c.replicas && p.chunkHash == h && p.node in known && !f.checkFails(p.node)
                        && p in c.copies && digest(c.copies[p]) == h ==>
              p in c'.replicas && p in c'.copies && c'.copies[p] == c.copies[p]
    ensures var healthy := set p | p in c.replicas && p.chunkHash == h && p.node in known && !f.checkFails(p.node)
                                   && p in c.copies && digest(c.copies[p]) == h :: p.node;
            ok <==> !f.listFails && (|healthy| >= 3 || (!f.relistFails && exists n :: n in healthy && !f.readFails(n)))
    ensures !f.listFails ==>
              var healthy := set p | p in c.replicas && p.chunkHash == h && p.node in known && !f.checkFails(p.node)
                                     && p in c.copies && digest(c.copies[p]) == h :: p.node;
              var kept := set p | && p in c.replicas && p.chunkHash == h
                                  && (|| p.node in healthy || (p.node in known && f.deleteFails(p.node))
                                      || f.rowFails(p.node)) :: p.node;
              forall n :: Place(n, h) in c'.replicas <==>
                || n in kept
                || (&& ok && |healthy| < 3 && n in known && !f.writeFails(n) && !f.recordFails(n)
                    && h in c.chunkRows && n in c.nodeRecords
                    && exists i: nat :: i < |candidates| && candidates[i] == n &&
                                   |FreeBefore(candidates, kept, i)| < 3 - |healthy|)
    ensures f.listFails ==> c' == c
    ensures forall p: Place :: p.chunkHash != h ==>
              SameCopy(c.copies, c'.copies, p) && (p in c.replicas <==> p in c'.replicas)
    ensures c'.nodeRecords == c.nodeRecords && c'.chunkRows == c.chunkRows
  {
    hide RepairedTo, Distinct, SameCopy;
    RepairLeavesOthers(c, c', ok, known, digest, h, candidates, f);
    RowsAddedAreIntact(c, c', ok, known, digest, h, candidates, f);
    CheckedStay(c, c', ok, known, digest, h, candidates, f);
    RepairReturnsIff(c, c', ok, known, digest, h, candidates, f);
    if f.listFails {
      ListFails(c, c', ok, known, digest, h, candidates, f);
    } else {
      if forall n: string :: !f.deleteFails(n) && !f.rowFails(n) {
        RowsLeftAreIntact(c, c', ok, known, digest, h, candidates, f);
      }
      forall n { RowsAfterIff(c, c', ok, known, digest, h, candidates, f, n); }
    }
  }

  lemma NothingListed(c: Cluster, known: set<string>, digest: Bytes -> string, h: string, candidates: seq<string>,
                      f: Failures)
    requires f.listFails
    ensures RepairedTo(c, c, false, known, digest, h, candidates, f)
  {
  }

  /** A repair that ends with the cleanup: enough healthy replicas, or none to read from. */
  lemma CleanupOnly(c: Cluster, c': Cluster, ok: bool, known: set<string>, digest: Bytes -> string, h: string,
                    candidates: seq<string>, f: Failures)
    requires !f.listFails && c' == Cleared(c, known, h, Reported(c, known, digest, h, f), f)
    requires var healthy := Healthy(c, known, digest, h, f);
             if |healthy| >= REPLICATION_FACTOR then ok
             else !ok && (f.relistFails || forall n :: n in healthy ==> f.readFails(n))
    ensures RepairedTo(c, c', ok, known, digest, h, candidates, f)
  {
    hide Healthy, Reported, Cleared;
  }

  lemma CopiesMade(c: Cluster, c': Cluster, known: set<string>, digest: Bytes -> string, h: string,
                   candidates: seq<string>, f: Failures, data: Bytes)
    requires !f.listFails && !f.relistFails && |Healthy(c, known, digest, h, f)| < REPLICATION_FACTOR
    requires exists n :: n in Healthy(c, known, digest, h, f) && !f.readFails(n)
                         && Place(n, h) in c.copies && c.copies[Place(n, h)] == data
    requires var clean := Cleared(c, known, h, Reported(c, known, digest, h, f), f);
             c' == Replenished(clean, known, h, Elements(RepairTargets(c, known, digest, h, candidates, f)), data, f)
    ensures RepairedTo(c, c', true, known, digest, h, candidates, f)
  {
    hide Healthy, Reported, Cleared, Replenished, NodesWithRow, Fresh;
    var n :| n in Healthy(c, known, digest, h, f) && !f.readFails(n)
      && Place(n, h) in c.copies && c.copies[Place(n, h)] == data;
    var clean := Cleared(c, known, h, Reported(c, known, digest, h, f), f);
    assert ReplenishedFrom(c, clean, c', known, h, RepairTargets(c, known, digest, h, candidates, f), n, f);
  }

  lemma ListFails(c: Cluster, c': Cluster, ok: bool, known: set<string>, digest: Bytes -> string, h: string,
                  candidates: seq<string>, f: Failures)
    requires RepairedTo(c, c', ok, known, digest, h, candidates, f) && f.listFails
    ensures c' == c
  {
  }

  lemma CheckedAll(c: Cluster, known: set<string>, digest: Bytes -> string, h: string, f: Failures,
                   replicas: seq<string>, healthy: seq<string>, corrupted: seq<string>)
    requires Elements(replicas) == NodesWithRow(c.replicas, h) && |replicas| == |NodesWithRow(c.replicas, h)|
    requires Distinct(healthy) && Distinct(corrupted)
    requires forall n :: n in corrupted <==> n in replicas && n !in Healthy(c, known, digest, h, f)
    requires forall n :: n in healthy <==> n in replicas && n in Healthy(c, known, digest, h, f)
    ensures Elements(corrupted) == Reported(c, known, digest, h, f) && |healthy| == |Healthy(c, known, digest, h, f)|
  {
    hide NodesWithRow, Healthy;
    forall n | n in Healthy(c, known, digest, h, f) ensures n in replicas {
      HealthyIsGood(c, known, digest, h, f, n);
      assert n in Elements(replicas);
    }
    assert Elements(healthy) == Healthy(c, known, digest, h, f);
    DistinctCardinality(healthy);
    assert forall n :: n in replicas <==> n in Elements(replicas);
  }

  /** What a repair can read from is a healthy replica, and every healthy one is listed with its copy. */
  lemma ReadableIsHealthy(c: Cluster, clean: Cluster, known: set<string>, digest: Bytes -> string, h: string,
                          f: Failures, replicas: seq<string>, corrupted: seq<string>)
    requires Elements(corrupted) == Reported(c, known, digest, h, f)
    requires clean == Cleared(c, known, h, Elements(corrupted), f)
    requires Elements(replicas) == NodesWithRow(clean.replicas, h)
    ensures forall n :: n in replicas && n !in corrupted ==> n in Healthy(c, known, digest, h, f)
    ensures forall n :: n in Healthy(c, known, digest, h, f) ==>
              && n in replicas && n !in corrupted && n in known
              && Place(n, h) in clean.copies && Place(n, h) in c.copies
              && clean.copies[Place(n, h)] == c.copies[Place(n, h)]
  {
    hide NodesWithRow, Healthy, Reported, Cleared;
    forall n
      ensures n in replicas && n !in corrupted ==> n in Healthy(c, known, digest, h, f)
      ensures n in Healthy(c, known, digest, h, f) ==>
                && n in replicas && n !in corrupted && n in known
                && Place(n, h) in clean.copies && Place(n, h) in c.copies
                && clean.copies[Place(n, h)] == c.copies[Place(n, h)]
    {
      ClearedKeepsHealthy(c, known, digest, h, f, n);
      assert n in corrupted <==> n in Elements(corrupted);
      assert n in replicas <==> n in Elements(replicas);
    }
  }

  lemma NodesWithRowAre(replicas: set<Place>, h: string)
    ensures NodesWithRow(replicas, h) == set p | p in replicas && p.chunkHash == h :: p.node
  {
  }

  lemma ClearedIs(c: Cluster, known: set<string>, h: string, corrupted: seq<string>, f: Failures)
    ensures var c' := Cleared(c, known, h, Elements(corrupted), f);
            && (forall p :: p in c'.copies <==>
                  && p in c.copies
                  && !(p.chunkHash == h && p.node in corrupted && p.node in known && !f.deleteFails(p.node)))
            && (forall p :: p in c'.copies ==> c'.copies[p] == c.copies[p])
            && (forall p :: p in c'.replicas <==>
                  && p in c.replicas
                  && !(&& p.chunkHash == h && p.node in corrupted
                       && !(p.node in known && f.deleteFails(p.node)) && !f.rowFails(p.node)))
            && c'.nodeRecords == c.nodeRecords && c'.chunkRows == c.chunkRows
  {
  }

  lemma ReplenishedIs(c: Cluster, known: set<string>, h: string, nodes: seq<string>, data: Bytes, f: Failures, p: Place)
    ensures var c' := Replenished(c, known, h, Elements(nodes), data, f);
            var written := p.chunkHash == h && p.node in nodes && p.node in known;
            && (if written && !f.writeFails(p.node) then p in c'.copies && c'.copies[p] == data
                else if written && f.leftover(p.node).Some? then
                  p in c'.copies && c'.copies[p] == f.leftover(p.node).value
                else
                  (p in c'.copies <==> p in c.copies) && (p in c'.copies ==> c'.copies[p] == c.copies[p]))
            && (p in c'.replicas <==>
                || p in c.replicas
                || (&& written && !f.writeFails(p.node) && !f.recordFails(p.node)
                    && h in c.chunkRows && p.node in c.nodeRecords))
  {
    hide Replenished;
    ReplenishedAt(c, known, h, Elements(nodes), data, f, p);
  }

  lemma RowAllowedSame(c: Cluster, c': Cluster, h: string, n: string)
    requires c'.chunkRows == c.chunkRows && c'.nodeRecords == c.nodeRecords
    ensures RowAllowed(c', h, n) == RowAllowed(c, h, n)
  {
  }

  lemma NothingChanged(c: Cluster, h: string)
    ensures LeavesOthersAlone(c, c, h)
  {
  }

  lemma LookupDistinct(table: Table, hash: string, count: int)
    ensures Distinct(Lookup(table, hash, count))
  {
    hide ClockwiseNodes;
    ClockwiseNodesFacts(table, hash);
  }

  // ---------- one chunk of the cluster ----------

  function NodeIds(nodes: seq<NodeRecord>): (r: seq<string>)
    ensures |r| == |nodes|
  {
    seq(|nodes|, i requires 0 <= i < |nodes| => nodes[i].nodeId)
  }

  function DisksFor(copies: map<Place, Bytes>, h: string): map<string, Bytes> {
    map n | n in (set p | p in copies && p.chunkHash == h :: p.node) :: copies[Place(n, h)]
  }

  /** The cluster with the copies and rows of one chunk replaced. */
  function WithChunk(c: Cluster, h: string, disks: map<string, Bytes>, rows: set<string>): Cluster {
    c.(copies := (map p | p in c.copies && p.chunkHash != h :: c.copies[p])
                 + map p | p in Places(disks.Keys, h) :: disks[p.node],
       replicas := (set p | p in c.replicas && p.chunkHash != h) + Places(rows, h))
  }

  /** The candidates that hold the data and have a row. */
  function Holders(c: Cluster, candidates: seq<string>, h: string, data: Bytes): set<string> {
    set n | n in candidates && Place(n, h) in c.copies && c.copies[Place(n, h)] == data && Place(n, h) in c.replicas
  }

  lemma WithChunkOthers(c: Cluster, h: string, disks: map<string, Bytes>, rows: set<string>)
    ensures LeavesOthersAlone(c, WithChunk(c, h, disks, rows), h)
    ensures WithChunk(c, h, disks, rows).nodeRecords == c.nodeRecords
            && WithChunk(c, h, disks, rows).chunkRows == c.chunkRows
    ensures forall n :: n in disks <==> Place(n, h) in WithChunk(c, h, disks, rows).copies
    ensures forall n :: n in disks ==> WithChunk(c, h, disks, rows).copies[Place(n, h)] == disks[n]
    ensures forall n :: n in rows <==> Place(n, h) in WithChunk(c, h, disks, rows).replicas
  {
  }

  lemma ReplacedOthers(c: Cluster, h: string, disks: map<string, Bytes>, rows: set<string>)
    ensures LeavesOthersAlone(c, WithChunk(c, h, disks, rows), h)
    ensures WithChunk(c, h, disks, rows).nodeRecords == c.nodeRecords
            && WithChunk(c, h, disks, rows).chunkRows == c.chunkRows
  {
    hide LeavesOthersAlone;
    WithChunkOthers(c, h, disks, rows);
  }

  /** Every id is a registered active node that the ring offers for `h`. */
  ghost predicate OfferedActive(c: Cluster, table: Table, h: string, ids: seq<string>) {
    forall n :: n in ids ==>
      && n in c.nodeRecords && c.nodeRecords[n].active && n in Lookup(table, h, REPLICATION_FACTOR * 2)
  }

  /**
   * At least two of the nodes the ring offers hold the data and have a row; the locations are
   * distinct known active nodes of the ring that hold the data.
   */
  ghost predicate ReplicatedWell(c: Cluster, table: Table, known: set<string>, h: string, data: Bytes,
                                 locations: seq<string>) {
    && |Holders(c, Lookup(table, h, REPLICATION_FACTOR * 2), h, data)| >= QUORUM_WRITE
    && Distinct(locations) && OfferedActive(c, table, h, locations)
    && forall n :: n in locations ==> n in known && Place(n, h) in c.copies && c.copies[Place(n, h)] == data
  }

  lemma ReplicatedWellIs(c: Cluster, table: Table, known: set<string>, h: string, data: Bytes, locations: seq<string>)
    requires ReplicatedWell(c, table, known, h, data, locations)
    ensures |set n | n in Lookup(table, h, 6) && Place(n, h) in c.copies && c.copies[Place(n, h)] == data
                     && Place(n, h) in c.replicas| >= 2
    ensures forall n :: n in locations ==>
              && n in known && n in Lookup(table, h, 6) && n in c.nodeRecords && c.nodeRecords[n].active
              && Place(n, h) in c.copies && c.copies[Place(n, h)] == data
  {
    hide Lookup;
  }

  lemma OfferedIds(c: Cluster, table: Table, h: string, selected: seq<NodeRecord>)
    requires forall n :: n in selected ==> && n.active && n.nodeId in Lookup(table, h, REPLICATION_FACTOR * 2)
                                           && n.nodeId in c.nodeRecords && n == c.nodeRecords[n.nodeId]
    ensures OfferedActive(c, table, h, NodeIds(selected))
  {
    hide Lookup;
    forall n | n in NodeIds(selected) ensures exists i :: 0 <= i < |selected| && selected[i].nodeId == n {}
  }

  /** One node after the writes. */
  lemma ChunkAfter(c: Cluster, known: set<string>, h: string, ids: seq<string>, data: Bytes, schedule: seq<Action>,
                   n: string)
    ensures var s := QuorumWrite.Run(Start(ids, known, DisksFor(c.copies, h), NodesWithRow(c.replicas, h)), data,
                                     schedule);
            var c' := WithChunk(c, h, s.disks, s.rows);
            && (Place(n, h) in c'.replicas <==>
                Place(n, h) in c.replicas || (n in ids && n in known && Completes(schedule, n)))
            && (n in s.locations <==> n in ids && n in known && exists i :: WrittenAt(schedule, n, i))
            && (!(n in ids && n in known) ==> SameCopy(c.copies, c'.copies, Place(n, h)))
  {
    hide QuorumWrite.Run, WithChunk, Completes, WrittenAt, NodesWithRow, DisksFor;
    var start := Start(ids, known, DisksFor(c.copies, h), NodesWithRow(c.replicas, h));
    var s := QuorumWrite.Run(start, data, schedule);
    WithChunkOthers(c, h, s.disks, s.rows);
    RowOfNode(c.replicas, h, n);
    RowsFollowSchedule(ids, known, DisksFor(c.copies, h), NodesWithRow(c.replicas, h), data, schedule, n);
    DisksFollowSchedule(start, data, schedule, n);
    DiskOfNode(c.copies, h, n);
  }

  lemma DiskOfNode(copies: map<Place, Bytes>, h: string, n: string)
    ensures n in DisksFor(copies, h) <==> Place(n, h) in copies
    ensures n in DisksFor(copies, h) ==> DisksFor(copies, h)[n] == copies[Place(n, h)]
  {
  }

  lemma SelectedAre(c: Cluster, table: Table, h: string, selected: seq<NodeRecord>)
    requires DistinctIds(selected)
    requires forall n :: n in selected ==> && n.active && n.nodeId in Lookup(table, h, REPLICATION_FACTOR * 2)
                                           && n.nodeId in c.nodeRecords && n == c.nodeRecords[n.nodeId]
    ensures Distinct(NodeIds(selected))
    ensures forall n :: n in NodeIds(selected) ==>
              n in Lookup(table, h, 6) && n in c.nodeRecords && c.nodeRecords[n].active
    ensures Zones(selected) ==
            set n | n in NodeIds(selected) && n in c.nodeRecords :: c.nodeRecords[n].availabilityZone
  {
    hide Lookup;
    var ids := NodeIds(selected);
    forall n | n in ids ensures exists i :: 0 <= i < |selected| && selected[i].nodeId == n {}
    forall z ensures z in Zones(selected) <==> exists n :: n in ids && n in c.nodeRecords
                                                           && c.nodeRecords[n].availabilityZone == z
    {
      if z in Zones(selected) {
        var i :| 0 <= i < |selected| && selected[i].availabilityZone == z;
        assert ids[i] in ids;
      }
    }
  }

  lemma QuorumReplicates(c: Cluster, table: Table, known: set<string>, h: string, data: Bytes, ids: seq<string>,
                         schedule: seq<Action>)
    requires OfferedActive(c, table, h, ids)
    requires var start := Start(ids, known, DisksFor(c.copies, h), NodesWithRow(c.replicas, h));
             var s := QuorumWrite.Run(start, data, schedule);
             Settled(s) && Result(ids, s).Replicated?
    ensures var start := Start(ids, known, DisksFor(c.copies, h), NodesWithRow(c.replicas, h));
            var s := QuorumWrite.Run(start, data, schedule);
            ReplicatedWell(WithChunk(c, h, s.disks, s.rows), table, known, h, data, Result(ids, s).locations)
  {
    hide Lookup, QuorumWrite.Run, Start, Settled, DisksFor, NodesWithRow, WithChunk;
    var start := Start(ids, known, DisksFor(c.copies, h), NodesWithRow(c.replicas, h));
    var s := QuorumWrite.Run(start, data, schedule);
    QuorumIsDurable(ids, known, DisksFor(c.copies, h), NodesWithRow(c.replicas, h), data, schedule);
    WithChunkOthers(c, h, s.disks, s.rows);
    SubsetCardinality(Safe(ids, s, data),
                      Holders(WithChunk(c, h, s.disks, s.rows), Lookup(table, h, REPLICATION_FACTOR * 2), h, data));
  }

  lemma RunNothing(s: QuorumWrite.State, data: Bytes)
    ensures QuorumWrite.Run(s, data, []) == s
  {
  }
}
