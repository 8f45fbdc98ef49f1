/**
 * What verifying and repairing the replicas of a chunk does to the cluster, for every pattern of
 * failing calls (src/replication-service.ts:176-294, src/metadata-store.ts:253-276,
 * docker/init-db.sql:66-74).
 */
module ReplicaRepair {
  import opened Common
  import opened Collections
  import opened Sorting
  import opened ConsistentHashRing
  import opened NodeSelection
  import opened QuorumWrite

  /** One chunk on one node. */
  datatype Place = Place(node: string, chunkHash: string)

  datatype Cluster = Cluster(
    copies: map<Place, Bytes>,      // what the nodes store
    replicas: set<Place>,           // the replica rows
    nodeRecords: NodeTable,         // the storage node rows
    chunkRows: set<string>          // the chunk rows
  )

  /** The copy is there and its bytes hash to the chunk hash. */
  predicate Intact(digest: Bytes -> string, copies: map<Place, Bytes>, p: Place) {
    p in copies && digest(copies[p]) == p.chunkHash
  }

  function NodesWithRow(replicas: set<Place>, h: string): set<string> {
    set p | p in replicas && p.chunkHash == h :: p.node
  }

  lemma RowOfNode(replicas: set<Place>, h: string, n: string)
    ensures n in NodesWithRow(replicas, h) <==> Place(n, h) in replicas
  {
  }

  /** The nodes with a row that are known and hold an intact copy. */
  function Good(c: Cluster, known: set<string>, digest: Bytes -> string, h: string): set<string> {
    set n | n in NodesWithRow(c.replicas, h) && n in known && Intact(digest, c.copies, Place(n, h))
  }

  predicate RowAllowed(c: Cluster, chunkHash: string, node: string) {
    chunkHash in c.chunkRows && node in c.nodeRecords
  }

  ghost predicate SameCopy(a: map<Place, Bytes>, b: map<Place, Bytes>, p: Place) {
    (p in a <==> p in b) && (p in a ==> a[p] == b[p])
  }

  ghost predicate LeavesOthersAlone(c: Cluster, c': Cluster, h: string) {
    forall p: Place :: p.chunkHash != h ==> SameCopy(c.copies, c'.copies, p) && (p in c.replicas <==> p in c'.replicas)
  }

  // ---------- the calls of one repair ----------

  /**
   * Which calls of one repair fail.  Each call to a node, or to the store about a node, is made at
   * most once in a repair, so the node names it.  A check that fails is one that throws or cannot
   * read; a failed write may leave anything behind, or nothing.
   */
  datatype Failures = Failures(
    listFails: bool,
    relistFails: bool,
    checkFails: string -> bool,
    deleteFails: string -> bool,
    rowFails: string -> bool,
    readFails: string -> bool,
    writeFails: string -> bool,
    leftover: string -> Option<Bytes>,
    recordFails: string -> bool
  )

  ghost predicate NoFailures(f: Failures) {
    && !f.listFails && !f.relistFails
    && (forall n: string :: !f.checkFails(n) && !f.deleteFails(n) && !f.rowFails(n))
    && (forall n: string :: !f.readFails(n) && !f.writeFails(n) && !f.recordFails(n))
  }

  /** The replicas whose check comes back positive. */
  function Healthy(c: Cluster, known: set<string>, digest: Bytes -> string, h: string, f: Failures): set<string> {
    set n | n in Good(c, known, digest, h) && !f.checkFails(n)
  }

  function Reported(c: Cluster, known: set<string>, digest: Bytes -> string, h: string, f: Failures): set<string> {
    NodesWithRow(c.replicas, h) - Healthy(c, known, digest, h, f)
  }

  predicate CopyGoes(known: set<string>, f: Failures, n: string) {
    n in known && !f.deleteFails(n)
  }

  /** The row is not touched when deleting the copy throws. */
  predicate RowGoes(known: set<string>, f: Failures, n: string) {
    (n in known ==> !f.deleteFails(n)) && !f.rowFails(n)
  }

  /** The cluster once the replicas `bad` have been removed, as far as their calls succeed. */
  function Cleared(c: Cluster, known: set<string>, h: string, bad: set<string>, f: Failures): Cluster {
    c.(copies := map p | p in c.copies && !(p.chunkHash == h && p.node in bad && CopyGoes(known, f, p.node)) ::
         c.copies[p],
       replicas := set p | p in c.replicas && !(p.chunkHash == h && p.node in bad && RowGoes(known, f, p.node)))
  }

  lemma ClearedNothing(c: Cluster, known: set<string>, h: string, f: Failures)
    ensures Cleared(c, known, h, {}, f) == c
  {
  }

  lemma ClearedStep(c: Cluster, known: set<string>, h: string, bad: set<string>, n: string, f: Failures)
    ensures var before := Cleared(c, known, h, bad, f);
            Cleared(c, known, h, bad + {n}, f) ==
            before.(copies := if CopyGoes(known, f, n) then before.copies - {Place(n, h)} else before.copies,
                    replicas := if RowGoes(known, f, n) then before.replicas - {Place(n, h)} else before.replicas)
  {
    hide CopyGoes, RowGoes;
    var before, after := Cleared(c, known, h, bad, f), Cleared(c, known, h, bad + {n}, f);
    assert after.copies == if CopyGoes(known, f, n) then before.copies - {Place(n, h)} else before.copies;
    assert after.replicas == if RowGoes(known, f, n) then before.replicas - {Place(n, h)} else before.replicas;
  }

  /** The candidates without a row, in ring order. */
  function Fresh(candidates: seq<string>, existing: set<string>): seq<string> {
    if candidates == [] then [] else
      var init, n := Fresh(candidates[..|candidates| - 1], existing), candidates[|candidates| - 1];
      if n in existing then init else init + [n]
  }

  /** The nodes a repair writes to: the next candidates without a row. */
  function Targets(candidates: seq<string>, existing: set<string>, count: int): seq<string> {
    Take(Fresh(candidates, existing), count)
  }

  /** What a write leaves on node `n`. */
  function Leaves(f: Failures, n: string, data: Bytes): Option<Bytes> {
    if f.writeFails(n) then f.leftover(n) else Some(data)
  }

  /** The nodes written to that get a row. */
  function NewRows(c: Cluster, known: set<string>, h: string, nodes: set<string>, f: Failures): set<string> {
    set n | n in nodes && n in known && !f.writeFails(n) && !f.recordFails(n) && RowAllowed(c, h, n)
  }

  function Places(nodes: set<string>, h: string): set<Place> {
    set n | n in nodes :: Place(n, h)
  }

  predicate Overwritten(known: set<string>, h: string, nodes: set<string>, data: Bytes, f: Failures, p: Place) {
    p.chunkHash == h && p.node in nodes && p.node in known && Leaves(f, p.node, data).Some?
  }

  /** The cluster once `data` has been written to `nodes`, as far as the calls succeed. */
  function Replenished(c: Cluster, known: set<string>, h: string, nodes: set<string>, data: Bytes,
                       f: Failures): Cluster {
    c.(copies := map p |
         p in c.copies.Keys + Places(nodes, h) && (Overwritten(known, h, nodes, data, f, p) || p in c.copies) ::
         if Overwritten(known, h, nodes, data, f, p) then Leaves(f, p.node, data).value else c.copies[p],
       replicas := c.replicas + Places(NewRows(c, known, h, nodes, f), h))
  }

  lemma ReplenishedNothing(c: Cluster, known: set<string>, h: string, data: Bytes, f: Failures)
    ensures Replenished(c, known, h, {}, data, f) == c
  {
    assert NewRows(c, known, h, {}, f) == {};
    assert c.replicas + Places({}, h) == c.replicas;
  }

  lemma ReplenishedAt(c: Cluster, known: set<string>, h: string, nodes: set<string>, data: Bytes, f: Failures, p: Place)
    ensures var c' := Replenished(c, known, h, nodes, data, f);
            && (Overwritten(known, h, nodes, data, f, p) ==>
                p in c'.copies && c'.copies[p] == Leaves(f, p.node, data).value)
            && (!Overwritten(known, h, nodes, data, f, p) ==> SameCopy(c.copies, c'.copies, p))
            && (p in c'.replicas <==> p in c.replicas || (p.chunkHash == h && p.node in NewRows(c, known, h, nodes, f)))
  {
    hide Leaves, NewRows;
    if p.chunkHash == h { assert p == Place(p.node, h); }
  }

  lemma ReplenishedStep(c: Cluster, known: set<string>, h: string, nodes: set<string>, n: string, data: Bytes,
                        f: Failures)
    ensures var before, left := Replenished(c, known, h, nodes, data, f), Leaves(f, n, data);
            && RowAllowed(before, h, n) == RowAllowed(c, h, n)
            && Replenished(c, known, h, nodes + {n}, data, f) ==
               if n !in known then before else
                 before.(copies := if left.Some? then before.copies[Place(n, h) := left.value] else before.copies,
                         replicas := if !f.writeFails(n) && !f.recordFails(n) && RowAllowed(c, h, n)
                                     then before.replicas + {Place(n, h)} else before.replicas)
  {
    hide Leaves, RowAllowed, Replenished;
    var before, after := Replenished(c, known, h, nodes, data, f), Replenished(c, known, h, nodes + {n}, data, f);
    ReplenishedTables(c, known, h, nodes, data, f);
    ReplenishedTables(c, known, h, nodes + {n}, data, f);
    forall p: Place
      ensures p in after.copies <==>
              p in before.copies || (p == Place(n, h) && n in known && Leaves(f, n, data).Some?)
      ensures p in after.copies ==>
                after.copies[p] == if p == Place(n, h) && n in known && Leaves(f, n, data).Some?
                                   then Leaves(f, n, data).value else before.copies[p]
      ensures p in after.replicas <==>
              || p in before.replicas
              || (p == Place(n, h) && n in known && !f.writeFails(n) && !f.recordFails(n) && RowAllowed(c, h, n))
    {
      ReplenishedAt(c, known, h, nodes, data, f, p);
      ReplenishedAt(c, known, h, nodes + {n}, data, f, p);
    }
  }

  lemma ReplenishedTables(c: Cluster, known: set<string>, h: string, nodes: set<string>, data: Bytes, f: Failures)
    ensures var c' := Replenished(c, known, h, nodes, data, f);
            && c'.nodeRecords == c.nodeRecords && c'.chunkRows == c.chunkRows
            && forall n :: RowAllowed(c', h, n) == RowAllowed(c, h, n)
  {
  }

  // ---------- the outcome of a repair ----------

  /** Everything a repair does, whatever fails; `ok` is false for the calls that throw. */
  ghost predicate RepairedTo(c: Cluster, c': Cluster, ok: bool, known: set<string>, digest: Bytes -> string, h: string,
                             candidates: seq<string>, f: Failures) {
    if f.listFails then !ok && c' == c else
      var healthy := Healthy(c, known, digest, h, f);
      var clean := Cleared(c, known, h, Reported(c, known, digest, h, f), f);
      if |healthy| >= REPLICATION_FACTOR then ok && c' == clean
      else if f.relistFails || forall n :: n in healthy ==> f.readFails(n) then !ok && c' == clean
      else
        && ok
        && exists source :: source in healthy && !f.readFails(source) &&
             ReplenishedFrom(c, clean, c', known, h, Targets(candidates, NodesWithRow(clean.replicas, h),
                                                         REPLICATION_FACTOR - |healthy|), source, f)
  }

  ghost predicate ReplenishedFrom(c: Cluster, clean: Cluster, c': Cluster, known: set<string>, h: string,
                                  targets: seq<string>, source: string, f: Failures) {
    Place(source, h) in c.copies &&
    c' == Replenished(clean, known, h, Elements(targets), c.copies[Place(source, h)], f)
  }

  // ---------- what the cleanup does ----------

  lemma ClearedAt(c: Cluster, known: set<string>, h: string, bad: set<string>, f: Failures, n: string)
    ensures var clean := Cleared(c, known, h, bad, f);
            && (n in bad && CopyGoes(known, f, n) ==> Place(n, h) !in clean.copies)
            && (!(n in bad && CopyGoes(known, f, n)) ==> SameCopy(c.copies, clean.copies, Place(n, h)))
            && (n in NodesWithRow(clean.replicas, h) <==>
                n in NodesWithRow(c.replicas, h) && !(n in bad && RowGoes(known, f, n)))
    ensures Cleared(c, known, h, bad, f).nodeRecords == c.nodeRecords
            && Cleared(c, known, h, bad, f).chunkRows == c.chunkRows
  {
    hide CopyGoes, RowGoes;
    RowOfNode(c.replicas, h, n);
    RowOfNode(Cleared(c, known, h, bad, f).replicas, h, n);
  }

  /** The healthy replicas stay, and a row that is left is of one of them or could not be removed. */
  lemma ClearedKeepsHealthy(c: Cluster, known: set<string>, digest: Bytes -> string, h: string, f: Failures, n: string)
    ensures var healthy, bad := Healthy(c, known, digest, h, f), Reported(c, known, digest, h, f);
            var clean := Cleared(c, known, h, bad, f);
            && (n in healthy ==>
                  && n in NodesWithRow(clean.replicas, h) && n !in bad && n in known
                  && SameCopy(c.copies, clean.copies, Place(n, h)) && Intact(digest, c.copies, Place(n, h)))
            && (n in NodesWithRow(clean.replicas, h) && n !in bad ==> n in healthy)
  {
    hide NodesWithRow, Cleared, CopyGoes, RowGoes, Intact;
    ClearedAt(c, known, h, Reported(c, known, digest, h, f), f, n);
    HealthyIsGood(c, known, digest, h, f, n);
  }

  lemma HealthyIsGood(c: Cluster, known: set<string>, digest: Bytes -> string, h: string, f: Failures, n: string)
    ensures n in Healthy(c, known, digest, h, f) <==>
            && n in NodesWithRow(c.replicas, h) && n in known
            && Intact(digest, c.copies, Place(n, h)) && !f.checkFails(n)
  {
    hide NodesWithRow, Intact;
  }

  /** What is reported, in terms of rows, checks and hashes. */
  lemma ReportedIff(c: Cluster, known: set<string>, digest: Bytes -> string, h: string, f: Failures, n: string)
    ensures n in Reported(c, known, digest, h, f) <==>
            && Place(n, h) in c.replicas
            && (|| n !in known || f.checkFails(n) || Place(n, h) !in c.copies
                || digest(c.copies[Place(n, h)]) != h)
  {
    hide NodesWithRow, Healthy;
    RowOfNode(c.replicas, h, n);
    HealthyIsGood(c, known, digest, h, f, n);
  }

  /**
   * After the cleanup an intact copy with a row is gone exactly when its node is known, its check
   * failed and its deletion succeeded.
   */
  lemma CleanupDestroysIff(c: Cluster, known: set<string>, digest: Bytes -> string, h: string, f: Failures, n: string)
    requires n in NodesWithRow(c.replicas, h) && Intact(digest, c.copies, Place(n, h))
    ensures var clean := Cleared(c, known, h, Reported(c, known, digest, h, f), f);
            !Intact(digest, clean.copies, Place(n, h)) <==> n in known && f.checkFails(n) && !f.deleteFails(n)
  {
    hide NodesWithRow, Cleared, Healthy;
    ClearedAt(c, known, h, Reported(c, known, digest, h, f), f, n);
    HealthyIsGood(c, known, digest, h, f, n);
  }

  // ---------- what a repair keeps, whatever fails ----------

  lemma {:induction false} FreshFacts(candidates: seq<string>, existing: set<string>)
    ensures forall n :: n in Fresh(candidates, existing) <==> n in candidates && n !in existing
    ensures forall k: int, n :: n in Take(Fresh(candidates, existing), k) ==> n in candidates && n !in existing
  {
    if candidates != [] {
      assert candidates == candidates[..|candidates| - 1] + [candidates[|candidates| - 1]];
      FreshFacts(candidates[..|candidates| - 1], existing);
    }
  }

  /** A repair writes to no node that kept a row, and to no node it does not know. */
  lemma WritesElsewhere(c: Cluster, clean: Cluster, c': Cluster, known: set<string>, h: string, candidates: seq<string>,
                        count: int, source: string, f: Failures, n: string)
    requires ReplenishedFrom(c, clean, c', known, h, Targets(candidates, NodesWithRow(clean.replicas, h), count),
                             source, f)
    ensures n in NodesWithRow(clean.replicas, h) || n !in known ==> SameCopy(clean.copies, c'.copies, Place(n, h))
    ensures n in NodesWithRow(clean.replicas, h) ==> n in NodesWithRow(c'.replicas, h)
  {
    hide NodesWithRow, Fresh, Replenished, Leaves;
    var existing := NodesWithRow(clean.replicas, h);
    FreshFacts(candidates, existing);
    ReplenishedAt(clean, known, h, Elements(Targets(candidates, existing, count)), c.copies[Place(source, h)], f,
                  Place(n, h));
    RowOfNode(clean.replicas, h, n);
    RowOfNode(c'.replicas, h, n);
  }

  /** Replicas whose check came back positive keep their copies and rows through the whole repair. */
  lemma HealthyStay(c: Cluster, c': Cluster, ok: bool, known: set<string>, digest: Bytes -> string, h: string,
                    candidates: seq<string>, f: Failures, n: string)
    requires RepairedTo(c, c', ok, known, digest, h, candidates, f) && n in Healthy(c, known, digest, h, f)
    ensures SameCopy(c.copies, c'.copies, Place(n, h)) && Intact(digest, c'.copies, Place(n, h))
    ensures n in Good(c', known, digest, h)
  {
    hide NodesWithRow, Healthy, Reported, Cleared, ReplenishedFrom, Targets;
    ClearedKeepsHealthy(c, known, digest, h, f, n);
    HealthyIsGood(c, known, digest, h, f, n);
    var clean := Cleared(c, known, h, Reported(c, known, digest, h, f), f);
    if source, count :| ReplenishedFrom(c, clean, c', known, h,
                                        Targets(candidates, NodesWithRow(clean.replicas, h), count), source, f) {
      WritesElsewhere(c, clean, c', known, h, candidates, count, source, f, n);
    }
  }

  /** Copies and rows of other chunks are left alone, and so are the other tables. */
  lemma RepairLeavesOthers(c: Cluster, c': Cluster, ok: bool, known: set<string>, digest: Bytes -> string, h: string,
                           candidates: seq<string>, f: Failures)
    requires RepairedTo(c, c', ok, known, digest, h, candidates, f)
    ensures LeavesOthersAlone(c, c', h) && c'.nodeRecords == c.nodeRecords && c'.chunkRows == c.chunkRows
  {
    hide Healthy, Reported, Targets, NodesWithRow, Leaves, NewRows, Replenished, CopyGoes, RowGoes;
    var clean := Cleared(c, known, h, Reported(c, known, digest, h, f), f);
    if source, targets :| ReplenishedFrom(c, clean, c', known, h, targets, source, f) {
      var data := c.copies[Place(source, h)];
      ReplenishedTables(clean, known, h, Elements(targets), data, f);
      forall p: Place | p.chunkHash != h
        ensures SameCopy(c.copies, c'.copies, p) && (p in c.replicas <==> p in c'.replicas)
      {
        ReplenishedAt(clean, known, h, Elements(targets), data, f, p);
      }
    }
  }

  /** Every row that the repair writes is backed by an intact copy. */
  lemma NewRowsAreIntact(c: Cluster, c': Cluster, ok: bool, known: set<string>, digest: Bytes -> string, h: string,
                         candidates: seq<string>, f: Failures, p: Place)
    requires RepairedTo(c, c', ok, known, digest, h, candidates, f) && p in c'.replicas
    requires !f.listFails ==> p !in Cleared(c, known, h, Reported(c, known, digest, h, f), f).replicas
    requires f.listFails ==> p !in c.replicas
    ensures Intact(digest, c'.copies, p) && p.node in known
  {
    hide Healthy, Reported, Targets, NodesWithRow, Cleared, ReplenishedFrom;
    var clean := Cleared(c, known, h, Reported(c, known, digest, h, f), f);
    var source, targets :| source in Healthy(c, known, digest, h, f)
      && ReplenishedFrom(c, clean, c', known, h, targets, source, f);
    HealthyIsGood(c, known, digest, h, f, source);
    NewRowHoldsSource(c, clean, c', known, h, targets, source, f, p);
  }

  lemma NewRowHoldsSource(c: Cluster, clean: Cluster, c': Cluster, known: set<string>, h: string, targets: seq<string>,
                          source: string, f: Failures, p: Place)
    requires ReplenishedFrom(c, clean, c', known, h, targets, source, f) && p in c'.replicas && p !in clean.replicas
    ensures p.chunkHash == h && p.node in known
    ensures p in c'.copies && Place(source, h) in c.copies && c'.copies[p] == c.copies[Place(source, h)]
  {
    hide Replenished;
    var data := c.copies[Place(source, h)];
    ReplenishedAt(clean, known, h, Elements(targets), data, f, p);
    assert Overwritten(known, h, Elements(targets), data, f, p);
  }

  // ---------- when a repair loses every copy ----------

  /** With no positive check the repair ends with the cleanup. */
  lemma NothingHealthy(c: Cluster, c': Cluster, ok: bool, known: set<string>, digest: Bytes -> string, h: string,
                       candidates: seq<string>, f: Failures)
    requires RepairedTo(c, c', ok, known, digest, h, candidates, f)
    requires !f.listFails && Healthy(c, known, digest, h, f) == {}
    ensures !ok && c' == Cleared(c, known, h, Reported(c, known, digest, h, f), f)
  {
    hide Healthy, Reported, Cleared, Targets, ReplenishedFrom;
  }

  /** An intact copy with a row that the cleanup spares is spared by the whole repair. */
  lemma SparedStays(c: Cluster, c': Cluster, ok: bool, known: set<string>, digest: Bytes -> string, h: string,
                    candidates: seq<string>, f: Failures, n: string)
    requires RepairedTo(c, c', ok, known, digest, h, candidates, f)
    requires n in NodesWithRow(c.replicas, h) && Intact(digest, c.copies, Place(n, h))
    requires !(n in known && f.checkFails(n) && !f.deleteFails(n))
    ensures Intact(digest, c'.copies, Place(n, h))
    ensures n in known ==> n in NodesWithRow(c'.replicas, h)
  {
    hide NodesWithRow, Healthy, Cleared, ReplenishedFrom, Targets;
    var bad := Reported(c, known, digest, h, f);
    var clean := Cleared(c, known, h, bad, f);
    ClearedAt(c, known, h, bad, f, n);
    HealthyIsGood(c, known, digest, h, f, n);
    if source, count :| ReplenishedFrom(c, clean, c', known, h,
                                        Targets(candidates, NodesWithRow(clean.replicas, h), count), source, f) {
      WritesElsewhere(c, clean, c', known, h, candidates, count, source, f, n);
    }
  }

  /**
   * A repair that lists the replicas loses every intact copy with a row exactly when each of them is
   * on a known node, its check fails and its deletion succeeds; and then it throws.
   */
  lemma RepairLosesAllIff(c: Cluster, c': Cluster, ok: bool, known: set<string>, digest: Bytes -> string, h: string,
                          candidates: seq<string>, f: Failures)
    requires RepairedTo(c, c', ok, known, digest, h, candidates, f) && !f.listFails
    ensures (forall n :: n in NodesWithRow(c.replicas, h) && Intact(digest, c.copies, Place(n, h)) ==>
               !Intact(digest, c'.copies, Place(n, h))) <==>
            (forall n :: n in NodesWithRow(c.replicas, h) && Intact(digest, c.copies, Place(n, h)) ==>
               n in known && f.checkFails(n) && !f.deleteFails(n))
    ensures (forall n :: n in NodesWithRow(c.replicas, h) && Intact(digest, c.copies, Place(n, h)) ==>
               !Intact(digest, c'.copies, Place(n, h))) ==> !ok
  {
    hide NodesWithRow, Healthy, Intact, RepairedTo, Reported, Cleared;
    if n :| n in NodesWithRow(c.replicas, h) && Intact(digest, c.copies, Place(n, h))
            && !(n in known && f.checkFails(n) && !f.deleteFails(n)) {
      SparedStays(c, c', ok, known, digest, h, candidates, f, n);
    } else {
      forall n ensures n !in Healthy(c, known, digest, h, f) { HealthyIsGood(c, known, digest, h, f, n); }
      NothingHealthy(c, c', ok, known, digest, h, candidates, f);
      forall n | n in NodesWithRow(c.replicas, h) && Intact(digest, c.copies, Place(n, h))
        ensures !Intact(digest, c'.copies, Place(n, h))
      {
        CleanupDestroysIff(c, known, digest, h, f, n);
      }
    }
  }

  /**
   * The same for usable replicas, those with a row on a known node: none is left exactly when for
   * every one of them the check fails and the deletion succeeds.
   */
  lemma RepairLosesGoodIff(c: Cluster, c': Cluster, ok: bool, known: set<string>, digest: Bytes -> string, h: string,
                           candidates: seq<string>, f: Failures)
    requires RepairedTo(c, c', ok, known, digest, h, candidates, f) && !f.listFails
    ensures Good(c', known, digest, h) == {} <==>
            forall n :: n in Good(c, known, digest, h) ==> f.checkFails(n) && !f.deleteFails(n)
  {
    hide NodesWithRow, Healthy, Intact, RepairedTo, Reported, Cleared;
    if n :| n in Good(c, known, digest, h) && !(f.checkFails(n) && !f.deleteFails(n)) {
      SparedStays(c, c', ok, known, digest, h, candidates, f, n);
      assert n in Good(c', known, digest, h);
    } else {
      forall n ensures n !in Healthy(c, known, digest, h, f) { HealthyIsGood(c, known, digest, h, f, n); }
      NothingHealthy(c, c', ok, known, digest, h, candidates, f);
      forall n ensures n !in Good(c', known, digest, h) {
        ClearedAt(c, known, h, Reported(c, known, digest, h, f), f, n);
        if n in Good(c', known, digest, h) {
          UnspoiltBefore(c, c', known, digest, h, f, n);
        }
      }
    }
  }

  /** The cleanup makes no copy. */
  lemma UnspoiltBefore(c: Cluster, c': Cluster, known: set<string>, digest: Bytes -> string, h: string, f: Failures,
                       n: string)
    requires c' == Cleared(c, known, h, Reported(c, known, digest, h, f), f)
    requires n in Good(c', known, digest, h)
    ensures n in Good(c, known, digest, h) && !(f.checkFails(n) && !f.deleteFails(n))
  {
    hide NodesWithRow, Cleared, Healthy;
    ClearedAt(c, known, h, Reported(c, known, digest, h, f), f, n);
    HealthyIsGood(c, known, digest, h, f, n);
  }

  // ---------- what a repair achieves ----------

  /** The rows of reported replicas that could not be removed. */
  ghost function Stale(c: Cluster, known: set<string>, digest: Bytes -> string, h: string, f: Failures): set<string> {
    var clean := Cleared(c, known, h, Reported(c, known, digest, h, f), f);
    NodesWithRow(clean.replicas, h) - Healthy(c, known, digest, h, f)
  }

  lemma ClearedRows(c: Cluster, known: set<string>, digest: Bytes -> string, h: string, f: Failures)
    ensures var clean := Cleared(c, known, h, Reported(c, known, digest, h, f), f);
            NodesWithRow(clean.replicas, h) == Healthy(c, known, digest, h, f) + Stale(c, known, digest, h, f)
  {
    hide NodesWithRow, Healthy, Reported, Cleared;
    forall n { ClearedKeepsHealthy(c, known, digest, h, f, n); }
  }

  /** Where no removal fails, no reported row is left behind. */
  lemma NothingLeftBehind(c: Cluster, known: set<string>, digest: Bytes -> string, h: string, f: Failures)
    requires forall n: string :: !f.deleteFails(n) && !f.rowFails(n)
    ensures Stale(c, known, digest, h, f) == {}
  {
    hide NodesWithRow, Cleared, Healthy;
    forall n { ClearedAt(c, known, h, Reported(c, known, digest, h, f), f, n); }
  }

  lemma NothingStale(c: Cluster, known: set<string>, digest: Bytes -> string, h: string, f: Failures)
    requires NoFailures(f)
    ensures Stale(c, known, digest, h, f) == {} && Healthy(c, known, digest, h, f) == Good(c, known, digest, h)
  {
    hide Stale;
    NothingLeftBehind(c, known, digest, h, f);
  }

  lemma ReplenishedRows(c: Cluster, known: set<string>, h: string, nodes: set<string>, data: Bytes, f: Failures)
    ensures NodesWithRow(Replenished(c, known, h, nodes, data, f).replicas, h) ==
            NodesWithRow(c.replicas, h) + NewRows(c, known, h, nodes, f)
  {
    hide NewRows, NodesWithRow, Replenished;
    forall n
      ensures n in NodesWithRow(Replenished(c, known, h, nodes, data, f).replicas, h) <==>
              n in NodesWithRow(c.replicas, h) || n in NewRows(c, known, h, nodes, f)
    {
      ReplenishedAt(c, known, h, nodes, data, f, Place(n, h));
      RowOfNode(c.replicas, h, n);
      RowOfNode(Replenished(c, known, h, nodes, data, f).replicas, h, n);
    }
  }

  /** The nodes that a repair with too few healthy replicas turns to. */
  ghost function RepairTargets(c: Cluster, known: set<string>, digest: Bytes -> string, h: string,
                               candidates: seq<string>, f: Failures): seq<string> {
    var clean := Cleared(c, known, h, Reported(c, known, digest, h, f), f);
    Targets(candidates, NodesWithRow(clean.replicas, h), REPLICATION_FACTOR - |Healthy(c, known, digest, h, f)|)
  }

  /** The rows after a repair that had something to copy from. */
  lemma RowsAfterRepair(c: Cluster, c': Cluster, known: set<string>, digest: Bytes -> string, h: string,
                        candidates: seq<string>, f: Failures)
    requires RepairedTo(c, c', true, known, digest, h, candidates, f)
             && |Healthy(c, known, digest, h, f)| < REPLICATION_FACTOR
    ensures var added := NewRows(c, known, h, Elements(RepairTargets(c, known, digest, h, candidates, f)), f);
            && NodesWithRow(c'.replicas, h) == Healthy(c, known, digest, h, f) + Stale(c, known, digest, h, f) + added
            && Healthy(c, known, digest, h, f) !! added && Stale(c, known, digest, h, f) !! added
  {
    hide NodesWithRow, Healthy, Reported, Cleared, Replenished, Fresh, ReplenishedFrom, Stale;
    var clean := Cleared(c, known, h, Reported(c, known, digest, h, f), f);
    var targets := RepairTargets(c, known, digest, h, candidates, f);
    ClearedRows(c, known, digest, h, f);
    FreshFacts(candidates, NodesWithRow(clean.replicas, h));
    var source :| ReplenishedFrom(c, clean, c', known, h, targets, source, f);
    FromRows(c, clean, c', known, h, targets, source, f);
    ClearedAt(c, known, h, Reported(c, known, digest, h, f), f, "");
    assert NewRows(clean, known, h, Elements(targets), f) == NewRows(c, known, h, Elements(targets), f);
  }

  lemma FromRows(c: Cluster, clean: Cluster, c': Cluster, known: set<string>, h: string, targets: seq<string>,
                 source: string, f: Failures)
    requires ReplenishedFrom(c, clean, c', known, h, targets, source, f)
    ensures NodesWithRow(c'.replicas, h) ==
              NodesWithRow(clean.replicas, h) + NewRows(clean, known, h, Elements(targets), f)
  {
    hide NodesWithRow, NewRows, Replenished;
    ReplenishedRows(clean, known, h, Elements(targets), c.copies[Place(source, h)], f);
  }

  /** Whatever fails: after a repair every row that is not a stale one names a known node with an intact copy. */
  lemma RepairedRowsAreGood(c: Cluster, c': Cluster, ok: bool, known: set<string>, digest: Bytes -> string, h: string,
                            candidates: seq<string>, f: Failures)
    requires RepairedTo(c, c', ok, known, digest, h, candidates, f) && !f.listFails
    ensures NodesWithRow(c'.replicas, h) - Stale(c, known, digest, h, f) <= Good(c', known, digest, h)
    ensures (forall n: string :: !f.deleteFails(n) && !f.rowFails(n)) ==>
              NodesWithRow(c'.replicas, h) == Good(c', known, digest, h)
    ensures NoFailures(f) ==> NodesWithRow(c'.replicas, h) == Good(c', known, digest, h)
  {
    hide NodesWithRow, Healthy, Intact, RepairedTo, Reported, Cleared, Stale;
    var clean := Cleared(c, known, h, Reported(c, known, digest, h, f), f);
    ClearedRows(c, known, digest, h, f);
    forall n | n in NodesWithRow(c'.replicas, h) && n !in Stale(c, known, digest, h, f)
      ensures n in Good(c', known, digest, h)
    {
      if n in Healthy(c, known, digest, h, f) {
        HealthyStay(c, c', ok, known, digest, h, candidates, f, n);
      } else {
        RowOfNode(clean.replicas, h, n);
        RowOfNode(c'.replicas, h, n);
        NewRowsAreIntact(c, c', ok, known, digest, h, candidates, f, Place(n, h));
      }
    }
    if forall n: string :: !f.deleteFails(n) && !f.rowFails(n) {
      NothingLeftBehind(c, known, digest, h, f);
    }
  }

  // ---------- the same in terms of rows, copies and hashes ----------

  /** When no removal fails, every row that is left names a known node with a copy that has the right hash. */
  lemma RowsLeftAreIntact(c: Cluster, c': Cluster, ok: bool, known: set<string>, digest: Bytes -> string, h: string,
                          candidates: seq<string>, f: Failures)
    requires RepairedTo(c, c', ok, known, digest, h, candidates, f) && !f.listFails
    requires forall n: string :: !f.deleteFails(n) && !f.rowFails(n)
    ensures forall p :: p in c'.replicas && p.chunkHash == h ==>
              p.node in known && p in c'.copies && digest(c'.copies[p]) == h
  {
    hide NodesWithRow, RepairedTo;
    RepairedRowsAreGood(c, c', ok, known, digest, h, candidates, f);
    forall p | p in c'.replicas && p.chunkHash == h ensures p.node in known && Intact(digest, c'.copies, p) {
      assert p == Place(p.node, h);
      RowOfNode(c'.replicas, h, p.node);
    }
  }

  /** Whatever fails, every row that was not there before does. */
  lemma RowsAddedAreIntact(c: Cluster, c': Cluster, ok: bool, known: set<string>, digest: Bytes -> string, h: string,
                           candidates: seq<string>, f: Failures)
    requires RepairedTo(c, c', ok, known, digest, h, candidates, f)
    ensures forall p :: p in c'.replicas && p !in c.replicas ==>
              p.chunkHash == h && p.node in known && p in c'.copies && digest(c'.copies[p]) == h
  {
    hide RepairedTo, Reported, Healthy, CopyGoes, RowGoes;
    RepairLeavesOthers(c, c', ok, known, digest, h, candidates, f);
    forall p | p in c'.replicas && p !in c.replicas
      ensures p.chunkHash == h && p.node in known && Intact(digest, c'.copies, p)
    {
      NewRowsAreIntact(c, c', ok, known, digest, h, candidates, f, p);
    }
  }

  /** Whatever fails: known replicas that are checked and have the right hash keep row and copy. */
  lemma CheckedStay(c: Cluster, c': Cluster, ok: bool, known: set<string>, digest: Bytes -> string, h: string,
                    candidates: seq<string>, f: Failures)
    requires RepairedTo(c, c', ok, known, digest, h, candidates, f)
    ensures forall p :: && p in c.replicas && p.chunkHash == h && p.node in known && !f.checkFails(p.node)
                        && p in c.copies && digest(c.copies[p]) == h ==>
              p in c'.replicas && p in c'.copies && c'.copies[p] == c.copies[p]
  {
    hide RepairedTo, NodesWithRow, Healthy;
    forall p | && p in c.replicas && p.chunkHash == h && p.node in known && !f.checkFails(p.node)
               && p in c.copies && digest(c.copies[p]) == h
      ensures p in c'.replicas && p in c'.copies && c'.copies[p] == c.copies[p]
    {
      assert p == Place(p.node, h);
      RowOfNode(c.replicas, h, p.node);
      RowOfNode(c'.replicas, h, p.node);
      HealthyIsGood(c, known, digest, h, f, p.node);
      HealthyStay(c, c', ok, known, digest, h, candidates, f, p.node);
    }
  }

  lemma {:induction false} FreshDistinct(candidates: seq<string>, existing: set<string>)
    requires Distinct(candidates)
    ensures Distinct(Fresh(candidates, existing))
  {
    if candidates != [] {
      var init := candidates[..|candidates| - 1];
      FreshDistinct(init, existing);
      FreshFacts(init, existing);
      assert candidates[|candidates| - 1] !in init;
    }
  }

  lemma FreshCount(candidates: seq<string>, existing: set<string>)
    requires Distinct(candidates)
    ensures Distinct(Fresh(candidates, existing))
    ensures |Fresh(candidates, existing)| + |existing| >= |candidates|
  {
    FreshFacts(candidates, existing);
    FreshDistinct(candidates, existing);
    DistinctCardinality(candidates);
    var free := Fresh(candidates, existing);
    DistinctCardinality(free);
    forall n | n in Elements(candidates) ensures n in Elements(free) + existing {}
    SubsetCardinality(Elements(candidates), Elements(free) + existing);
  }

  /** Does node `n` get its copy and row? */
  predicate Serves(c: Cluster, known: set<string>, h: string, f: Failures, n: string) {
    n in known && !f.writeFails(n) && !f.recordFails(n) && RowAllowed(c, h, n)
  }

  /**
   * Whatever fails: a repair with a replica to copy from, and fewer than three healthy ones, reaches
   * three rows besides stale ones exactly when enough candidates were free and every one it turned to
   * is known, registered and takes its copy and row.
   */
  lemma RepairReachesFactorIff(c: Cluster, c': Cluster, known: set<string>, digest: Bytes -> string, h: string,
                               candidates: seq<string>, f: Failures)
    requires RepairedTo(c, c', true, known, digest, h, candidates, f)
             && |Healthy(c, known, digest, h, f)| < REPLICATION_FACTOR
    requires Distinct(candidates)
    ensures var targets := RepairTargets(c, known, digest, h, candidates, f);
            |NodesWithRow(c'.replicas, h) - Stale(c, known, digest, h, f)| >= REPLICATION_FACTOR <==>
            && |targets| == REPLICATION_FACTOR - |Healthy(c, known, digest, h, f)|
            && forall n :: n in targets ==> Serves(c, known, h, f, n)
  {
    hide NodesWithRow, Healthy, RepairedTo, Serves, NewRows, Fresh, Stale, Elements, Distinct, Cleared, Reported;
    var healthy, stale := Healthy(c, known, digest, h, f), Stale(c, known, digest, h, f);
    var targets := RepairTargets(c, known, digest, h, candidates, f);
    var added := NewRows(c, known, h, Elements(targets), f);
    RowsAfterRepair(c, c', known, digest, h, candidates, f);
    HealthyNotStale(c, known, digest, h, f);
    var existing := NodesWithRow(Cleared(c, known, h, Reported(c, known, digest, h, f), f).replicas, h);
    FreshDistinct(candidates, existing);
    TakeDistinct(Fresh(candidates, existing), REPLICATION_FACTOR - |healthy|);
    ServeIff(c, known, h, targets, f);
    RowsCountIff(healthy, stale, added, targets, REPLICATION_FACTOR);
  }

  /** Healthy and added rows make `factor` exactly when every target was added and there were enough. */
  lemma RowsCountIff(healthy: set<string>, stale: set<string>, added: set<string>, targets: seq<string>, factor: nat)
    requires healthy !! added && stale !! added && healthy !! stale
    requires Distinct(targets) && added <= Elements(targets) && |targets| <= factor - |healthy|
    ensures |healthy + stale + added - stale| >= factor <==>
            |targets| == factor - |healthy| && Elements(targets) == added
  {
    assert healthy + stale + added - stale == healthy + added;
    assert |healthy + added| == |healthy| + |added|;
    DistinctCardinality(targets);
    SubsetCardinality(added, Elements(targets));
    if |added| == |targets| {
      SubsetEqual(added, Elements(targets));
    }
  }

  lemma ServeIff(c: Cluster, known: set<string>, h: string, targets: seq<string>, f: Failures)
    ensures NewRows(c, known, h, Elements(targets), f) <= Elements(targets)
    ensures Elements(targets) == NewRows(c, known, h, Elements(targets), f) <==>
            forall n :: n in targets ==> Serves(c, known, h, f, n)
  {
    hide RowAllowed;
    if forall n :: n in targets ==> Serves(c, known, h, f, n) {
      assert Elements(targets) == NewRows(c, known, h, Elements(targets), f);
    } else {
      var n :| n in targets && !Serves(c, known, h, f, n);
      assert n in Elements(targets);
    }
  }

  lemma HealthyNotStale(c: Cluster, known: set<string>, digest: Bytes -> string, h: string, f: Failures)
    ensures Healthy(c, known, digest, h, f) !! Stale(c, known, digest, h, f)
  {
    hide NodesWithRow, Healthy, Cleared;
  }

  /** A ring with three nodes offers at least three distinct candidates, all from the ring. */
  lemma RingOffersCandidates(table: Table, h: string)
    requires |table.Values - {""}| >= REPLICATION_FACTOR
    ensures var candidates := Lookup(table, h, REPLICATION_FACTOR * 3);
            && |candidates| >= REPLICATION_FACTOR && Distinct(candidates)
            && forall n :: n in candidates ==> n in table.Values
  {
    hide ClockwiseNodes;
    ClockwiseNodesFacts(table, h);
    var nodes := ClockwiseNodes(table, h);
    forall n | n in Lookup(table, h, REPLICATION_FACTOR * 3) ensures n in table.Values {
      assert n in nodes;
      assert n in Elements(nodes);
    }
  }

  /** A repair with a replica to copy from does not throw when nothing fails. */
  lemma GoodIsEnough(c: Cluster, c': Cluster, ok: bool, known: set<string>, digest: Bytes -> string, h: string,
                     candidates: seq<string>, f: Failures)
    requires RepairedTo(c, c', ok, known, digest, h, candidates, f) && NoFailures(f)
    ensures ok <==> Good(c, known, digest, h) != {}
    ensures |Good(c, known, digest, h)| >= REPLICATION_FACTOR ==>
              NodesWithRow(c'.replicas, h) == Good(c, known, digest, h)
  {
    hide NodesWithRow, Good, Reported, Cleared, ReplenishedFrom, Targets, Stale;
    NothingStale(c, known, digest, h, f);
    ClearedRows(c, known, digest, h, f);
  }

  /**
   * Repair restores replication: with one intact replica and at least three ring nodes, all of
   * them known and registered, three rows remain, all on nodes with intact copies.
   */
  lemma RepairRestores(c: Cluster, c': Cluster, ok: bool, known: set<string>, digest: Bytes -> string, h: string,
                       table: Table, f: Failures)
    requires RepairedTo(c, c', ok, known, digest, h, Lookup(table, h, REPLICATION_FACTOR * 3), f) && NoFailures(f)
    requires Good(c, known, digest, h) != {}
    requires |table.Values - {""}| >= REPLICATION_FACTOR
    requires forall n :: n in table.Values ==> n in known && RowAllowed(c, h, n)
    ensures ok && |NodesWithRow(c'.replicas, h)| >= REPLICATION_FACTOR
    ensures Good(c', known, digest, h) == NodesWithRow(c'.replicas, h)
  {
    hide Good, NodesWithRow, RowAllowed, Lookup, RepairedTo, Stale, Distinct;
    var candidates := Lookup(table, h, REPLICATION_FACTOR * 3);
    RingOffersCandidates(table, h);
    GoodIsEnough(c, c', ok, known, digest, h, candidates, f);
    RepairedRowsAreGood(c, c', ok, known, digest, h, candidates, f);
    hide NoFailures;
    if |Good(c, known, digest, h)| < REPLICATION_FACTOR {
      FewGoodReachFactor(c, c', known, digest, h, candidates, f);
    }
  }

  /** With fewer than three intact replicas the usable candidates make up for the rest. */
  lemma FewGoodReachFactor(c: Cluster, c': Cluster, known: set<string>, digest: Bytes -> string, h: string,
                           candidates: seq<string>, f: Failures)
    requires RepairedTo(c, c', true, known, digest, h, candidates, f) && NoFailures(f)
    requires |Good(c, known, digest, h)| < REPLICATION_FACTOR
    requires |candidates| >= REPLICATION_FACTOR && Distinct(candidates)
    requires forall n :: n in candidates ==> n in known && RowAllowed(c, h, n)
    ensures |NodesWithRow(c'.replicas, h)| >= REPLICATION_FACTOR
  {
    hide Good, NodesWithRow, RowAllowed, RepairedTo, Healthy, Stale, Targets, Cleared, Reported, Distinct, NoFailures,
      Serves;
    NothingStale(c, known, digest, h, f);
    ClearedRows(c, known, digest, h, f);
    var existing := NodesWithRow(Cleared(c, known, h, Reported(c, known, digest, h, f), f).replicas, h);
    assert existing == Good(c, known, digest, h);
    EnoughTargets(candidates, existing, REPLICATION_FACTOR);
    AllServe(c, known, h, RepairTargets(c, known, digest, h, candidates, f), f);
    RepairReachesFactorIff(c, c', known, digest, h, candidates, f);
    assert NodesWithRow(c'.replicas, h) - {} == NodesWithRow(c'.replicas, h);
  }

  lemma AllServe(c: Cluster, known: set<string>, h: string, targets: seq<string>, f: Failures)
    requires NoFailures(f) && forall n :: n in targets ==> n in known && RowAllowed(c, h, n)
    ensures forall n :: n in targets ==> Serves(c, known, h, f, n)
  {
    hide RowAllowed;
  }

  // ---------- which rows there are after a repair ----------

  lemma FreshStep(candidates: seq<string>, existing: set<string>, i: nat)
    requires i < |candidates|
    ensures Fresh(candidates[..i + 1], existing) ==
            if candidates[i] in existing then Fresh(candidates[..i], existing)
            else Fresh(candidates[..i], existing) + [candidates[i]]
  {
    assert candidates[..i + 1][..i] == candidates[..i];
  }

  lemma {:induction false} FreshPrefix(candidates: seq<string>, existing: set<string>, i: nat)
    requires i <= |candidates|
    ensures Fresh(candidates[..i], existing) <= Fresh(candidates, existing)
    decreases |candidates| - i
  {
    hide Fresh;
    if i == |candidates| {
      assert candidates[..i] == candidates;
    } else {
      FreshStep(candidates, existing, i);
      FreshPrefix(candidates, existing, i + 1);
    }
  }

  /** The positions before `i` of candidates without a row. */
  function FreeBefore(candidates: seq<string>, existing: set<string>, i: nat): set<int>
    requires i <= |candidates|
  {
    set k | 0 <= k < i && candidates[k] !in existing
  }

  lemma {:induction false} FreshLength(candidates: seq<string>, existing: set<string>, i: nat)
    requires i <= |candidates|
    ensures |Fresh(candidates[..i], existing)| == |FreeBefore(candidates, existing, i)|
  {
    hide Fresh;
    if i == 0 {
      assert FreeBefore(candidates, existing, 0) == {};
      NothingFresh(existing);
    } else {
      FreshLength(candidates, existing, i - 1);
      FreshStep(candidates, existing, i - 1);
      var before := FreeBefore(candidates, existing, i - 1);
      assert FreeBefore(candidates, existing, i) ==
             if candidates[i - 1] in existing then before else before + {i - 1};
    }
  }

  lemma NothingFresh(existing: set<string>)
    ensures Fresh([], existing) == []
  {
  }

  /** A repair turns to a free candidate exactly when fewer than `count` free ones come before it. */
  lemma TargetsIff(candidates: seq<string>, existing: set<string>, count: int, i: nat)
    requires Distinct(candidates) && i < |candidates|
    ensures candidates[i] in Targets(candidates, existing, count) <==>
            candidates[i] !in existing && |FreeBefore(candidates, existing, i)| < count
  {
    hide Fresh, Distinct, FreeBefore;
    var free, rank := Fresh(candidates, existing), |FreeBefore(candidates, existing, i)|;
    FreshFacts(candidates, existing);
    if candidates[i] !in existing {
      FreshLength(candidates, existing, i);
      FreshStep(candidates, existing, i);
      FreshPrefix(candidates, existing, i + 1);
      assert free[rank] == candidates[i];
      FreshDistinct(candidates, existing);
      TakenIff(free, count, rank);
    }
  }

  lemma TakenIff<T>(s: seq<T>, count: int, i: nat)
    requires Distinct(s) && i < |s|
    ensures s[i] in Take(s, count) <==> i < count
  {
    if i < count {
      assert Take(s, count)[i] == s[i];
    }
  }

  /** The healthy replicas and the rows that survive the cleanup. */
  lemma KeptIs(c: Cluster, known: set<string>, digest: Bytes -> string, h: string, f: Failures)
    ensures var healthy := set p | p in c.replicas && p.chunkHash == h && p.node in known && !f.checkFails(p.node)
                                   && p in c.copies && digest(c.copies[p]) == h :: p.node;
            var kept := set p | && p in c.replicas && p.chunkHash == h
                                && (|| p.node in healthy || (p.node in known && f.deleteFails(p.node))
                                    || f.rowFails(p.node)) :: p.node;
            && Healthy(c, known, digest, h, f) == healthy
            && NodesWithRow(Cleared(c, known, h, Reported(c, known, digest, h, f), f).replicas, h) == kept
  {
    hide NodesWithRow, Cleared;
    var healthy := set p | p in c.replicas && p.chunkHash == h && p.node in known && !f.checkFails(p.node)
                           && p in c.copies && digest(c.copies[p]) == h :: p.node;
    var kept := set p | && p in c.replicas && p.chunkHash == h
                        && (p.node in healthy || (p.node in known && f.deleteFails(p.node)) || f.rowFails(p.node)) ::
                    p.node;
    forall n
      ensures n in healthy <==> n in Healthy(c, known, digest, h, f)
      ensures n in kept <==>
              n in NodesWithRow(Cleared(c, known, h, Reported(c, known, digest, h, f), f).replicas, h)
    {
      hide Healthy;
      HealthyIsGood(c, known, digest, h, f, n);
      ClearedAt(c, known, h, Reported(c, known, digest, h, f), f, n);
      RowOfNode(c.replicas, h, n);
      if Place(n, h) in c.replicas {
        assert Place(n, h).node == n;
      }
    }
  }

  /** When the call returns: three replicas are checked and have the right hash, or one of them can be read. */
  lemma RepairReturnsIff(c: Cluster, c': Cluster, ok: bool, known: set<string>, digest: Bytes -> string, h: string,
                         candidates: seq<string>, f: Failures)
    requires RepairedTo(c, c', ok, known, digest, h, candidates, f)
    ensures var healthy := set p | p in c.replicas && p.chunkHash == h && p.node in known && !f.checkFails(p.node)
                                   && p in c.copies && digest(c.copies[p]) == h :: p.node;
            ok <==> !f.listFails && (|healthy| >= 3 || (!f.relistFails && exists n :: n in healthy && !f.readFails(n)))
  {
    hide NodesWithRow, Reported, Cleared, ReplenishedFrom, Targets, Healthy;
    KeptIs(c, known, digest, h, f);
  }

  lemma IsTargetIff(candidates: seq<string>, existing: set<string>, count: int, n: string)
    requires Distinct(candidates)
    ensures n in Targets(candidates, existing, count) <==>
            && n !in existing
            && exists i: nat :: i < |candidates| && candidates[i] == n && |FreeBefore(candidates, existing, i)| < count
  {
    hide Distinct, Fresh, FreeBefore;
    FreshFacts(candidates, existing);
    if n in candidates {
      var i: nat :| i < |candidates| && candidates[i] == n;
      TargetsIff(candidates, existing, count, i);
      OnlyPosition(candidates, i);
    }
  }

  lemma OnlyPosition<T>(s: seq<T>, i: nat)
    requires Distinct(s) && i < |s|
    ensures forall j :: 0 <= j < |s| && s[j] == s[i] ==> j == i
  {
  }

  /** The nodes a repair writes to, among them those that get a row. */
  lemma AddedIff(c: Cluster, known: set<string>, h: string, candidates: seq<string>, existing: set<string>, count: int,
                 f: Failures, n: string)
    requires Distinct(candidates)
    ensures n in NewRows(c, known, h, Elements(Targets(candidates, existing, count)), f) <==>
            && n in known && !f.writeFails(n) && !f.recordFails(n) && h in c.chunkRows && n in c.nodeRecords
            && n !in existing
            && exists i: nat :: i < |candidates| && candidates[i] == n && |FreeBefore(candidates, existing, i)| < count
  {
    hide Distinct, Targets, FreeBefore;
    IsTargetIff(candidates, existing, count, n);
    assert n in Elements(Targets(candidates, existing, count)) <==> n in Targets(candidates, existing, count);
  }

  /**
   * Whatever fails: after a repair a node has a row exactly when it kept its own, or the repair had fewer than
   * three healthy replicas and something to copy from, turned to the node because too few free candidates
   * come before it on the ring, and the node is known, registered and took its copy and row.
   */
  lemma RowsAfterIff(c: Cluster, c': Cluster, ok: bool, known: set<string>, digest: Bytes -> string, h: string,
                     candidates: seq<string>, f: Failures, n: string)
    requires RepairedTo(c, c', ok, known, digest, h, candidates, f) && !f.listFails && Distinct(candidates)
    ensures var healthy := set p | p in c.replicas && p.chunkHash == h && p.node in known && !f.checkFails(p.node)
                                   && p in c.copies && digest(c.copies[p]) == h :: p.node;
            var kept := set p | && p in c.replicas && p.chunkHash == h
                                && (|| p.node in healthy || (p.node in known && f.deleteFails(p.node))
                                    || f.rowFails(p.node)) :: p.node;
            Place(n, h) in c'.replicas <==>
            || n in kept
            || (&& ok && |healthy| < 3
                && n in known && !f.writeFails(n) && !f.recordFails(n) && h in c.chunkRows && n in c.nodeRecords
                && exists i: nat :: i < |candidates| && candidates[i] == n &&
                               |FreeBefore(candidates, kept, i)| < 3 - |healthy|)
  {
    hide NodesWithRow, Healthy, Cleared, Reported, Targets, ReplenishedFrom, NewRows, Stale, Distinct;
    KeptIs(c, known, digest, h, f);
    RowOfNode(c'.replicas, h, n);
    var clean := Cleared(c, known, h, Reported(c, known, digest, h, f), f);
    if ok && |Healthy(c, known, digest, h, f)| < REPLICATION_FACTOR {
      ClearedRows(c, known, digest, h, f);
      RowsAfterRepair(c, c', known, digest, h, candidates, f);
      AddedIff(c, known, h, candidates, NodesWithRow(clean.replicas, h),
               REPLICATION_FACTOR - |Healthy(c, known, digest, h, f)|, f, n);
    } else {
      assert c' == clean;
    }
  }

  /** With as many candidates as the factor, those without a row make up for what is missing. */
  lemma EnoughTargets(candidates: seq<string>, existing: set<string>, factor: nat)
    requires Distinct(candidates) && |candidates| >= factor && |existing| < factor
    ensures |Targets(candidates, existing, factor - |existing|)| == factor - |existing|
    ensures forall n :: n in Targets(candidates, existing, factor - |existing|) ==> n in candidates
  {
    hide Fresh;
    FreshCount(candidates, existing);
    FreshFacts(candidates, existing);
  }

  /** Where three rows remain and all are intact, as after such a repair, repairing changes nothing. */
  lemma RepairIsIdempotent(c: Cluster, c': Cluster, ok: bool, known: set<string>, digest: Bytes -> string, h: string,
                           candidates: seq<string>, f: Failures)
    requires RepairedTo(c, c', ok, known, digest, h, candidates, f) && !f.listFails
    requires Good(c, known, digest, h) == NodesWithRow(c.replicas, h)
             && |NodesWithRow(c.replicas, h)| >= REPLICATION_FACTOR
    requires forall n :: n in NodesWithRow(c.replicas, h) ==> !f.checkFails(n)
    ensures ok && c' == c
  {
    hide Good, NodesWithRow;
    assert Healthy(c, known, digest, h, f) == NodesWithRow(c.replicas, h);
    assert Reported(c, known, digest, h, f) == {};
    ClearedNothing(c, known, h, f);
  }

  // ---------- a repair that destroys every copy ----------

  /** Three intact copies of the chunk "0" with rows. */
  function ThreeCopies(data: Bytes): Cluster {
    Cluster(map[Place("a", "0") := data, Place("b", "0") := data, Place("c", "0") := data],
            {Place("a", "0"), Place("b", "0"), Place("c", "0")},
            map n | n in {"a", "b", "c"} :: NodeRecord(n, "zone", true), {"0"})
  }

  /** All checks fail and all deletions succeed: three intact copies become none. */
  lemma FailedChecksDestroyCopies(digest: Bytes -> string, data: Bytes, c': Cluster, ok: bool, candidates: seq<string>,
                                  f: Failures)
    requires digest(data) == "0" && !f.listFails && forall n: string :: f.checkFails(n) && !f.deleteFails(n)
    requires RepairedTo(ThreeCopies(data), c', ok, {"a", "b", "c"}, digest, "0", candidates, f)
    ensures Good(ThreeCopies(data), {"a", "b", "c"}, digest, "0") == {"a", "b", "c"}
    ensures !ok && forall n :: n in {"a", "b", "c"} ==> !Intact(digest, c'.copies, Place(n, "0"))
  {
    hide RepairedTo;
    var c := ThreeCopies(data);
    assert NodesWithRow(c.replicas, "0") == {"a", "b", "c"} by {
      assert Place("a", "0") in c.replicas && Place("b", "0") in c.replicas && Place("c", "0") in c.replicas;
    }
    RepairLosesAllIff(c, c', ok, {"a", "b", "c"}, digest, "0", candidates, f);
  }

  /** There is such a pattern of failures. */
  lemma ChecksMayFail()
    ensures exists f: Failures :: !f.listFails && forall n: string :: f.checkFails(n) && !f.deleteFails(n)
  {
    var f := Failures(false, false, _ => true, _ => false, _ => false, _ => false, _ => false, _ => None, _ => false);
    assert !f.listFails && forall n: string :: f.checkFails(n) && !f.deleteFails(n);
  }

  // ---------- a repair that stops short ----------

  const FOUR_NODES := ["a", "b", "c", "d"]

  /** One point per node, and a chunk whose hash comes first. */
  const FOUR_POINTS: Table := map["0" := "a", "1" := "b", "2" := "c", "3" := "d"]

  lemma {:induction false} DistinctFirstOccurrences(s: seq<string>)
    requires Distinct(s) && "" !in s
    ensures FirstOccurrences(s) == s
  {
    if s != [] {
      var init := s[..|s| - 1];
      assert s == init + [s[|s| - 1]];
      DistinctFirstOccurrences(init);
    }
  }

  const DIGITS := ["0", "1", "2", "3"]

  lemma DigitsSorted()
    ensures SortedStrings(DIGITS) && IsStart(DIGITS, "0", 0) && Elements(DIGITS) == FOUR_POINTS.Keys
  {
  }

  lemma FourDistinct()
    ensures Distinct(FOUR_NODES)
  {
  }

  /** A lookup that starts at the first point, every node having one point. */
  lemma LookupFromStart(table: Table, s: seq<string>, hash: string, nodes: seq<string>, count: nat)
    requires SortedStrings(s) && Elements(s) == table.Keys && IsStart(s, hash, 0)
    requires |nodes| == |s| <= count && forall i :: 0 <= i < |s| ==> s[i] in table && table[s[i]] == nodes[i]
    requires Distinct(nodes) && "" !in nodes
    ensures Lookup(table, hash, count) == nodes
  {
    hide ClockwiseOwners, SortedStrings, IsStart, Elements, FirstOccurrences, Distinct;
    forall i: nat | i < |s| { ClockwiseOwnerAt(table, s, hash, 0, i); }
    OwnersLength(table, hash);
    if s == [] {
      assert Elements(s) == {} by { ElementsAppend(s, ""); }
    } else {
      ClockwiseOwnerAt(table, s, hash, 0, 0);
    }
    assert ClockwiseOwners(table, hash) == nodes;
    DistinctFirstOccurrences(nodes);
  }

  lemma FourCandidates()
    ensures Lookup(FOUR_POINTS, "0", REPLICATION_FACTOR * 3) == FOUR_NODES
  {
    hide Lookup, SortedStrings, IsStart, Elements, Distinct;
    DigitsSorted();
    FourDistinct();
    LookupFromStart(FOUR_POINTS, DIGITS, "0", FOUR_NODES, REPLICATION_FACTOR * 3);
  }

  /** Nodes a and b hold the chunk intact; a, b and d are known and all four are registered. */
  function TwoCopies(data: Bytes): Cluster {
    Cluster(map[Place("a", "0") := data, Place("b", "0") := data], {Place("a", "0"), Place("b", "0")},
            map n | n in FOUR_NODES :: NodeRecord(n, "zone", true), {"0"})
  }

  lemma TwoCopiesGood(digest: Bytes -> string, data: Bytes)
    requires digest(data) == "0"
    ensures Good(TwoCopies(data), {"a", "b", "d"}, digest, "0") == {"a", "b"}
  {
    assert NodesWithRow(TwoCopies(data).replicas, "0") == {"a", "b"};
  }

  lemma FirstFreeIsC()
    ensures Targets(FOUR_NODES, {"a", "b"}, 1) == ["c"]
  {
    assert FOUR_NODES == ["a"] + ["b"] + ["c"] + ["d"];
    assert Fresh(["a"], {"a", "b"}) == [];
    assert Fresh(["a"] + ["b"], {"a", "b"}) == [];
    assert Fresh(["a"] + ["b"] + ["c"], {"a", "b"}) == ["c"];
    assert Fresh(FOUR_NODES, {"a", "b"}) == ["c", "d"];
  }

  /**
   * The repair turns to c, which is not known, and gives up: two rows remain although d is on the
   * ring, known, registered and free.
   */
  lemma RepairStopsShort(digest: Bytes -> string, data: Bytes, c': Cluster, ok: bool, f: Failures)
    requires digest(data) == "0" && NoFailures(f)
    requires RepairedTo(TwoCopies(data), c', ok, {"a", "b", "d"}, digest, "0",
                        Lookup(FOUR_POINTS, "0", REPLICATION_FACTOR * 3), f)
    ensures |NodesWithRow(c'.replicas, "0")| < REPLICATION_FACTOR
  {
    hide RepairedTo, Targets, Lookup, Cleared, Stale, TwoCopies, Good, NodesWithRow, Reported, Healthy, Distinct;
    FourCandidates();
    FirstFreeIsC();
    var c, known := TwoCopies(data), {"a", "b", "d"};
    TwoCopiesGood(digest, data);
    assert |{"a", "b"}| == 2;
    NothingStale(c, known, digest, "0", f);
    ClearedRows(c, known, digest, "0", f);
    GoodIsEnough(c, c', ok, known, digest, "0", FOUR_NODES, f);
    assert RepairTargets(c, known, digest, "0", FOUR_NODES, f) == ["c"];
    assert "c" in RepairTargets(c, known, digest, "0", FOUR_NODES, f) && !Serves(c, known, "0", f, "c");
    FourDistinct();
    RepairReachesFactorIff(c, c', known, digest, "0", FOUR_NODES, f);
    assert NodesWithRow(c'.replicas, "0") - {} == NodesWithRow(c'.replicas, "0");
  }
}
