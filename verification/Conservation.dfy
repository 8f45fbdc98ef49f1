/**
 * Conservation of reference counts and bytes over whole runs of atomic operations, with the
 * exact condition under which each operation keeps it (src/version-manager.ts:22-148,
 * src/upload-manager.ts:218-242, src/metadata-store.ts:133-250, src/background-jobs.ts:63-86).
 */
module Conservation {
  import opened MetadataStore
  import opened ReferenceCounts
  import opened VersionManager

  datatype Op =
    | Register(chunkHash: string, chunk: Chunk)
    | CreateFile(fileId: string, file: File)
    | CreateVersion(fileId: string, chunkHashes: seq<string>, now: int)
    | Finalize(fileId: string, file: File, chunkHashes: seq<string>, now: int)
    | DeleteFile(fileId: string)
    | Prune(fileId: string, cutoff: int)
    | Collect(rowFails: string -> bool)

  function WithFile(t: Tables, fileId: string, file: File): Tables {
    if fileId in t.files then t else t.(files := t.files[fileId := file])
  }

  /** What finalizing an upload writes: a file and its version 1, no counts. */
  function Finalized(t: Tables, fileId: string, file: File, chunkHashes: seq<string>, now: int): Tables {
    var key := VersionKey(fileId, 1);
    if fileId in t.files then t else
      var t' := WithFile(t, fileId, file);
      if key in t'.versions then t' else
        t'.(versions := t'.versions[key := Version(chunkHashes, ListSize(t.chunks, chunkHashes), now)])
  }

  ghost function Apply(t: Tables, op: Op): Tables {
    match op
    case Register(h, c) => if h in t.chunks then t else t.(chunks := t.chunks[h := c])
    case CreateFile(f, file) => WithFile(t, f, file)
    case CreateVersion(f, list, now) => Created(t, f, list, now)
    case Finalize(f, file, list, now) => Finalized(t, f, file, list, now)
    case DeleteFile(f) => WithoutFile(t, f)
    case Prune(f, cutoff) => Pruned(t, f, cutoff)
    case Collect(rowFails) => Collected(t, rowFails)
  }

  const EMPTY := Tables(map[], map[], map[])

  ghost function Run(ops: seq<Op>): Tables {
    if ops == [] then EMPTY else Apply(Run(ops[..|ops| - 1]), ops[|ops| - 1])
  }

  // ---------- what is conserved ----------

  predicate Registered(chunks: Chunks, list: seq<string>) {
    forall h :: h in list ==> h in chunks
  }

  /** Every listed chunk has a row, and each row counts its occurrences in stored versions. */
  ghost predicate Conserved(t: Tables) {
    && (forall k :: k in t.versions ==> Registered(t.chunks, t.versions[k].chunkHashes))
    && (forall h :: h in t.chunks ==> t.chunks[h].referenceCount == Occurrences(t.versions, h))
  }

  /** Every stored version records the size of its list. */
  ghost predicate SizesRecorded(t: Tables) {
    forall k :: k in t.versions ==> t.versions[k].size == ListSize(t.chunks, t.versions[k].chunkHashes)
  }

  /** When an operation keeps the counts: a test a caller can make beforehand. */
  predicate Safe(t: Tables, op: Op) {
    match op
    case Register(h, c) => h in t.chunks || c.referenceCount == 0
    case CreateFile(_, _) => true
    case CreateVersion(f, list, _) =>
      f !in t.files || VersionKey(f, NextVersion(t.versions, f)) in t.versions || Registered(t.chunks, list)
    case Finalize(f, _, list, _) => f in t.files || VersionKey(f, 1) in t.versions || list == []
    case DeleteFile(f) => forall k :: k in t.versions && k.fileId == f ==> t.versions[k].chunkHashes == []
    case Prune(_, _) => true
    case Collect(_) => true
  }

  // ---------- one lemma per operation ----------

  lemma RegisterConserves(t: Tables, h: string, c: Chunk)
    requires Conserved(t)
    ensures Conserved(Apply(t, Register(h, c))) <==> Safe(t, Register(h, c))
  {
    hide Occurrences;
    OccurrencesZeroIff(t.versions, h);
    if h !in t.chunks {
      forall k | k in t.versions ensures h !in t.versions[k].chunkHashes {}
      assert Apply(t, Register(h, c)).chunks[h] == c;
    }
  }

  lemma StoreVersionOccurrences(t: Tables, key: VersionKey, v: Version)
    requires key !in t.versions
    ensures forall h :: Occurrences(t.versions[key := v], h) == Occurrences(t.versions, h) + Mult(v.chunkHashes, h)
  {
    forall h { OccurrencesInsert(t.versions, key, v, h); }
  }

  lemma CreateVersionConserves(t: Tables, f: string, list: seq<string>, now: int)
    requires Conserved(t)
    ensures Conserved(Apply(t, CreateVersion(f, list, now))) <==> Safe(t, CreateVersion(f, list, now))
  {
    hide Occurrences, NextVersion, ListSize;
    var key := VersionKey(f, NextVersion(t.versions, f));
    if key !in t.versions && f in t.files {
      var v := Version(list, ListSize(t.chunks, list), now);
      StoreVersionOccurrences(t, key, v);
      var t' := Created(t, f, list, now);
      assert t'.versions[key] == v;
      assert t'.chunks.Keys == t.chunks.Keys;
    }
  }

  lemma FinalizeConserves(t: Tables, f: string, file: File, list: seq<string>, now: int)
    requires Conserved(t)
    ensures Conserved(Apply(t, Finalize(f, file, list, now))) <==> Safe(t, Finalize(f, file, list, now))
  {
    hide Occurrences, ListSize, Mult;
    var key := VersionKey(f, 1);
    if f !in t.files && key !in t.versions {
      var v := Version(list, ListSize(t.chunks, list), now);
      StoreVersionOccurrences(t, key, v);
      var t' := Finalized(t, f, file, list, now);
      assert t'.versions == t.versions[key := v] && t'.chunks == t.chunks;
      if list == [] {
        forall h { MultStep([], h, h); }
      } else {
        MultPositive(list, list[0]);
        assert t'.versions[key].chunkHashes == list && list[0] in list;
      }
    }
  }

  lemma MultPositive(list: seq<string>, h: string)
    ensures h in list <==> Mult(list, h) > 0
  {
  }

  lemma DeleteFileConserves(t: Tables, f: string)
    requires Conserved(t)
    ensures Conserved(Apply(t, DeleteFile(f))) <==> Safe(t, DeleteFile(f))
  {
    hide Occurrences, Mult;
    var gone: Versions := map k | k in t.versions && k.fileId == f :: t.versions[k];
    var t' := WithoutFile(t, f);
    assert t'.versions == t.versions - gone.Keys;
    forall h
      ensures Occurrences(t.versions, h) == Occurrences(gone, h) + Occurrences(t'.versions, h)
      ensures Occurrences(gone, h) == 0 <==> forall k :: k in gone ==> h !in gone[k].chunkHashes
    {
      OccurrencesSplit(t.versions, gone, h);
      OccurrencesZeroIff(gone, h);
    }
    if !Safe(t, DeleteFile(f)) {
      var k :| k in t.versions && k.fileId == f && t.versions[k].chunkHashes != [];
      var h := t.versions[k].chunkHashes[0];
      assert h in gone[k].chunkHashes;
      assert h in t.chunks;
    }
  }

  lemma PruneConserves(t: Tables, f: string, cutoff: int)
    requires Conserved(t)
    ensures Conserved(Pruned(t, f, cutoff))
    ensures forall h | h in t.chunks ::
              Pruned(t, f, cutoff).chunks[h].referenceCount ==
              t.chunks[h].referenceCount - Occurrences(Doomed(t.versions, f, cutoff), h)
  {
    hide Occurrences, IsDoomed;
    var gone := Doomed(t.versions, f, cutoff);
    forall h { OccurrencesSplit(t.versions, gone, h); }
  }

  /** Collecting never touches a chunk that a stored version mentions. */
  lemma CollectConserves(t: Tables, rowFails: string -> bool)
    requires Conserved(t)
    ensures Conserved(Collected(t, rowFails))
    ensures forall k, h :: k in t.versions && h in t.versions[k].chunkHashes ==> h in Collected(t, rowFails).chunks
    ensures (forall h :: !rowFails(h)) ==>
              forall h :: h in Collected(t, rowFails).chunks ==> Collected(t, rowFails).chunks[h].referenceCount > 0
  {
    hide Occurrences;
    forall h { OccurrencesZeroIff(t.versions, h); }
  }

  /** Nor does the sweep over the storage nodes take away a copy of such a chunk. */
  lemma CollectKeepsCopies(t: Tables, nodes: seq<set<string>>, nodeFails: (nat, string) -> bool, k: VersionKey,
                           h: string, n: nat)
    requires Conserved(t) && k in t.versions && h in t.versions[k].chunkHashes
    requires n < |nodes| && h in nodes[n]
    ensures h in ClearedOf(nodes, Orphans(t.chunks), nodeFails)[n]
  {
    hide Occurrences;
    OccurrencesZeroIff(t.versions, h);
  }

  /**
   * With no operation in flight: a collection that lists its orphans in one state and deletes them
   * in a later one keeps the counts exactly when every listed chunk that still has a row still
   * counts zero.  `CollectionInterleaving` has the condition for operations in flight.
   */
  lemma StaleCollectConservesIff(t: Tables, listed: set<string>)
    requires Conserved(t)
    ensures Conserved(t.(chunks := t.chunks - listed)) <==>
            forall h :: h in listed && h in t.chunks ==> t.chunks[h].referenceCount == 0
  {
    hide Occurrences;
    forall h | h in listed && h in t.chunks
      ensures t.chunks[h].referenceCount == 0 <==> forall k :: k in t.versions ==> h !in t.versions[k].chunkHashes
    {
      OccurrencesZeroIff(t.versions, h);
    }
  }

  /** One step keeps the counts exactly when it is safe. */
  lemma StepConservesIff(t: Tables, op: Op)
    requires Conserved(t)
    ensures Conserved(Apply(t, op)) <==> Safe(t, op)
  {
    hide Conserved, Apply, Safe;
    match op
    case Register(h, c) => RegisterConserves(t, h, c);
    case CreateFile(f, file) => CreateFileConserves(t, f, file);
    case CreateVersion(f, list, now) => CreateVersionConserves(t, f, list, now);
    case Finalize(f, file, list, now) => FinalizeConserves(t, f, file, list, now);
    case DeleteFile(f) => DeleteFileConserves(t, f);
    case Prune(f, cutoff) => PruneConserves(t, f, cutoff); SafePruneCollect(t, op);
    case Collect(rowFails) => CollectConserves(t, rowFails); SafePruneCollect(t, op);
  }

  lemma CreateFileConserves(t: Tables, f: string, file: File)
    requires Conserved(t)
    ensures Conserved(Apply(t, CreateFile(f, file))) && Safe(t, CreateFile(f, file))
  {
  }

  lemma SafePruneCollect(t: Tables, op: Op)
    ensures op.Prune? ==> Safe(t, op) && Apply(t, op) == Pruned(t, op.fileId, op.cutoff)
    ensures op.Collect? ==> Safe(t, op) && Apply(t, op) == Collected(t, op.rowFails)
  {
  }

  // ---------- whole runs ----------

  ghost predicate AllSafe(ops: seq<Op>) {
    forall i :: 0 <= i < |ops| ==> Safe(Run(ops[..i]), ops[i])
  }

  ghost predicate AlwaysConserved(ops: seq<Op>) {
    forall i :: 0 <= i <= |ops| ==> Conserved(Run(ops[..i]))
  }

  lemma RunStep(ops: seq<Op>, i: nat)
    requires i < |ops|
    ensures Run(ops[..i + 1]) == Apply(Run(ops[..i]), ops[i])
  {
    assert ops[..i + 1][..i] == ops[..i];
  }

  lemma EmptyConserved()
    ensures Conserved(EMPTY) && SizesRecorded(EMPTY)
  {
  }

  lemma {:induction false} SafeRunConserves(ops: seq<Op>, i: nat)
    requires AllSafe(ops) && i <= |ops|
    ensures Conserved(Run(ops[..i]))
  {
    hide Conserved, Safe, Apply;
    if i == 0 {
      EmptyConserved();
    } else {
      SafeRunConserves(ops, i - 1);
      RunStep(ops, i - 1);
      StepConservesIff(Run(ops[..i - 1]), ops[i - 1]);
    }
  }

  /** The conservation law holds throughout a run exactly when every operation in it is safe. */
  lemma AlwaysConservedIffAllSafe(ops: seq<Op>)
    ensures AlwaysConserved(ops) <==> AllSafe(ops)
  {
    hide Conserved, Safe, Apply, Run;
    if AllSafe(ops) {
      forall i | 0 <= i <= |ops| ensures Conserved(Run(ops[..i])) { SafeRunConserves(ops, i); }
    }
    if AlwaysConserved(ops) {
      forall i | 0 <= i < |ops| ensures Safe(Run(ops[..i]), ops[i]) {
        RunStep(ops, i);
        StepConservesIff(Run(ops[..i]), ops[i]);
        assert Conserved(Run(ops[..i + 1]));
      }
    }
  }

  // ---------- runs that break the promises ----------

  lemma RunAppend(ops: seq<Op>, op: Op)
    ensures Run(ops + [op]) == Apply(Run(ops), op)
  {
    assert (ops + [op])[..|ops|] == ops;
  }

  /** A chunk and a version that lists it, created as the code asks for: the counts are exact. */
  function CreateOne(f: string, file: File, h: string, size: nat): seq<Op> {
    [Register(h, Chunk(size, 0))] + [CreateFile(f, file)] + [CreateVersion(f, [h], 0)]
  }

  lemma CreateOneRun(f: string, file: File, h: string, size: nat)
    ensures var t := Run(CreateOne(f, file, h, size));
            && t.chunks == map[h := Chunk(size, 1)] && t.versions.Keys == {VersionKey(f, 1)}
            && t.versions[VersionKey(f, 1)].chunkHashes == [h]
    ensures Conserved(Run(CreateOne(f, file, h, size)))
  {
    hide ListSize;
    var a := [Register(h, Chunk(size, 0))];
    RunAppend([], Register(h, Chunk(size, 0)));
    assert [] + a == a;
    RunAppend(a, CreateFile(f, file));
    RunAppend(a + [CreateFile(f, file)], CreateVersion(f, [h], 0));
    assert VersionNumbers(map[], f) == {};
    var t := Run(a + [CreateFile(f, file)]);
    EmptyOccurrences();
    CreateVersionConserves(t, f, [h], 0);
  }

  lemma EmptyOccurrences()
    ensures forall h :: Occurrences(map[], h) == 0
  {
    forall h { OccurrencesZeroIff(map[], h); }
  }

  /** Deleting that file leaves a count of one for a chunk no version lists. */
  lemma DeletingBreaksCounts(f: string, file: File, h: string, size: nat)
    ensures !Conserved(Run(CreateOne(f, file, h, size) + [DeleteFile(f)]))
  {
    hide Conserved, Run;
    CreateOneRun(f, file, h, size);
    RunAppend(CreateOne(f, file, h, size), DeleteFile(f));
    DeleteFileConserves(Run(CreateOne(f, file, h, size)), f);
  }

  /** An upload that is finalized leaves a count of zero for a chunk its version lists. */
  lemma FinalizingBreaksCounts(f: string, file: File, h: string, size: nat)
    ensures !Conserved(Run([Register(h, Chunk(size, 0))] + [Finalize(f, file, [h], 0)]))
  {
    hide Conserved;
    var a := [Register(h, Chunk(size, 0))];
    RunAppend([], a[0]);
    assert [] + a == a;
    RunAppend(a, Finalize(f, file, [h], 0));
    EmptyConserved();
    RegisterConserves(EMPTY, h, Chunk(size, 0));
    FinalizeConserves(Run(a), f, file, [h], 0);
  }

  /** A version whose chunk was never registered is created all the same. */
  lemma UnregisteredChunkBreaksCounts(f: string, file: File, h: string)
    ensures !Conserved(Run([CreateFile(f, file)] + [CreateVersion(f, [h], 0)]))
  {
    hide Conserved;
    var a := [CreateFile(f, file)];
    RunAppend([], a[0]);
    assert [] + a == a;
    RunAppend(a, CreateVersion(f, [h], 0));
    EmptyConserved();
    CreateFileConserves(EMPTY, f, file);
    assert VersionNumbers(map[], f) == {};
    assert h in [h];
    CreateVersionConserves(Run(a), f, [h], 0);
  }

  /** The chunk was an orphan when the collection listed it; the version came before the deletion. */
  lemma StaleListBreaksCounts(f: string, file: File, h: string, size: nat)
    ensures var listed := Orphans(Run([Register(h, Chunk(size, 0))]).chunks);
            var t := Run(CreateOne(f, file, h, size));
            h in listed && Conserved(t) && !Conserved(t.(chunks := t.chunks - listed))
  {
    hide Conserved;
    RunAppend([], Register(h, Chunk(size, 0)));
    assert [] + [Register(h, Chunk(size, 0))] == [Register(h, Chunk(size, 0))];
    CreateOneRun(f, file, h, size);
    StaleCollectConservesIff(Run(CreateOne(f, file, h, size)), Orphans(Run([Register(h, Chunk(size, 0))]).chunks));
  }
}
