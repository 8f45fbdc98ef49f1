/** Runs in which a collection harms a stored version (src/background-jobs.ts:63-86, src/version-manager.ts:42-60). */
module HarmfulSweeps {
  import opened Collections
  import opened MetadataStore
  import opened ReferenceCounts
  import opened VersionManager
  import opened RefcountInterleaving
  import opened CollectionInterleaving

  /** A version of `f` that lists `h` alone has been inserted, and its chunk not counted yet. */
  function InsertedUncounted(f: string, file: File, h: string, size: nat): State {
    State(Tables(map[f := file], map[VersionKey(f, 1) := Version([h], ListSize(map[h := Chunk(size, 0)], [h]), 0)],
                 map[h := Chunk(size, 0)]),
          map[0 := Counting(f, 1, [h], 0, false)])
  }

  lemma FourCalls(f: string, file: File, h: string, size: nat)
    ensures var s1 := RefcountInterleaving.Next(NOTHING, Action.Register(h, size));
            var s2 := RefcountInterleaving.Next(s1, AddFile(f, file));
            var s3 := RefcountInterleaving.Next(s2, BeginCreate(0, f, [h], 0));
            && s1.tables.chunks == map[h := Chunk(size, 0)] && s2.tables.chunks == s1.tables.chunks
            && RefcountInterleaving.Next(s3, Tick(0)) == InsertedUncounted(f, file, h, size)
  {
    hide ListSize;
    assert VersionNumbers(map[], f) == {};
  }

  function HarmfulMoves(f: string, file: File, h: string, size: nat): seq<Move> {
    [Upload(h), Do(Action.Register(h, size)), Do(AddFile(f, file)), Do(BeginCreate(0, f, [h], 0)), Do(Tick(0)),
     List([h]), Sweep(false, false)]
  }

  lemma HarmfulStart(f: string, file: File, h: string, size: nat)
    ensures var moves := HarmfulMoves(f, file, h, size);
            && CollectionInterleaving.Disciplined(moves)
            && Play(moves[..5]) == World(InsertedUncounted(f, file, h, size), [], {h})
  {
    hide RefcountInterleaving.Next, ListSize;
    var moves := HarmfulMoves(f, file, h, size);
    FourCalls(f, file, h, size);
    PlayStep(moves, 0);
    PlayStep(moves, 1);
    PlayStep(moves, 2);
    PlayStep(moves, 3);
    PlayStep(moves, 4);
    assert moves[..0] == [];
  }

  /** A chunk that counts zero is listed afresh and swept from under a stored version, row and copies. */
  lemma SweepDuringCreate(f: string, file: File, h: string, size: nat)
    ensures var moves := HarmfulMoves(f, file, h, size);
            && CollectionInterleaving.Disciplined(moves)
            && Deletes(Play(moves[..6]), moves[6], h)
            && h in Play(moves[..6]).state.tables.chunks
            && Play(moves[..6]).state.tables.chunks[h].referenceCount == 0
            && Served(Play(moves[..6])) && !Served(Play(moves)) && !AllRegistered(Play(moves).state)
  {
    hide RefcountInterleaving.Next, ListSize, CollectionInterleaving.Disciplined, Play;
    var moves := HarmfulMoves(f, file, h, size);
    HarmfulStart(f, file, h, size);
    PlayStep(moves, 5);
    PlayStep(moves, 6);
    assert Orphans(map[h := Chunk(size, 0)]) == {h} == Elements([h]);
    assert Play(moves[..6]) == World(InsertedUncounted(f, file, h, size), [h], {h});
    assert moves[..7] == moves;
    var after := Play(moves).state.tables;
    assert h in after.versions[VersionKey(f, 1)].chunkHashes && h !in after.chunks;
  }

  // ---------- a row without copies ----------

  /** The copies of an orphan are swept, its row stays, and a version of it is created afterwards. */
  function CopylessMoves(f: string, file: File, h: string, size: nat): seq<Move> {
    [Upload(h), Do(Action.Register(h, size)), List([h]), Sweep(false, true), Do(AddFile(f, file)),
     Do(BeginCreate(0, f, [h], 0)), Do(Tick(0))]
  }

  lemma CopylessStart(f: string, file: File, h: string, size: nat)
    ensures var moves := CopylessMoves(f, file, h, size);
            Play(moves[..4]) == World(RefcountInterleaving.Next(NOTHING, Action.Register(h, size)), [], {})
  {
    hide RefcountInterleaving.Next, ListSize;
    var moves := CopylessMoves(f, file, h, size);
    FourCalls(f, file, h, size);
    PlayStep(moves, 0);
    PlayStep(moves, 1);
    assert Orphans(map[h := Chunk(size, 0)]) == {h} == Elements([h]);
    PlayStep(moves, 2);
    PlayStep(moves, 3);
    assert moves[..0] == [];
  }

  /** No two calls overlap and every sweep is of an idle chunk; still a version lists a chunk without a copy. */
  lemma VersionWithoutCopy(f: string, file: File, h: string, size: nat)
    ensures var moves := CopylessMoves(f, file, h, size);
            && CollectionInterleaving.Disciplined(moves)
            && VersionKey(f, 1) in Play(moves).state.tables.versions
            && h in Play(moves).state.tables.versions[VersionKey(f, 1)].chunkHashes
            && h in Play(moves).state.tables.chunks && h !in Play(moves).copies
  {
    hide RefcountInterleaving.Next, ListSize, Play;
    var moves := CopylessMoves(f, file, h, size);
    FourCalls(f, file, h, size);
    CopylessStart(f, file, h, size);
    PlayStep(moves, 4);
    PlayStep(moves, 5);
    PlayStep(moves, 6);
    assert moves[..7] == moves;
  }
}
