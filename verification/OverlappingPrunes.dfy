/**
 * Two prunes of one file that overlap and lose a count (src/version-manager.ts:122-148,
 * src/deduplication-engine.ts:73-89).
 */
module OverlappingPrunes {
  import opened Collections
  import opened Sorting
  import opened MetadataStore
  import opened ReferenceCounts
  import opened RefcountInterleaving
  import Conservation

  function RunFrom(s: State, actions: seq<Action>): State
    decreases |actions|
  {
    if actions == [] then s else RunFrom(Next(s, actions[0]), actions[1..])
  }

  lemma {:induction false} RunIsFrom(before: seq<Action>, after: seq<Action>)
    ensures Run(before + after) == RunFrom(Run(before), after)
    decreases |after|
  {
    hide Next;
    if after == [] {
      assert before + after == before;
    } else {
      var first := before + [after[0]];
      assert before + after == first + after[1..];
      assert first[..|before|] == before;
      RunIsFrom(first, after[1..]);
    }
  }

  /** A file with versions that list one chunk, which has a count, and nothing in flight. */
  function OneChunk(f: string, file: File, versions: Versions, h: string, size: nat, count: int): State {
    State(Tables(map[f := file], versions, map[h := Chunk(size, count)]), map[])
  }

  function CreateCalls(f: string, h: string): seq<Action> {
    [BeginCreate(0, f, [h], 0), Tick(0), Tick(0), Tick(0), Tick(0)]
  }

  function Listing(h: string, size: nat): Version {
    Version([h], size, 0)
  }

  lemma CreateStage(f: string, file: File, versions: Versions, h: string, size: nat, count: int)
    requires VersionKey(f, NextVersion(versions, f)) !in versions
    ensures var n := NextVersion(versions, f);
            RunFrom(OneChunk(f, file, versions, h, size, count), CreateCalls(f, h)) ==
            OneChunk(f, file.(currentVersion := n), versions[VersionKey(f, n) := Listing(h, size)], h, size, count + 1)
  {
    hide NextVersion;
    var n, s := NextVersion(versions, f), OneChunk(f, file, versions, h, size, count);
    var t1 := s.tables.(versions := versions[VersionKey(f, n) := Listing(h, size)]);
    assert ListSize(s.tables.chunks, [h]) == size;
    var s1 := Next(s, BeginCreate(0, f, [h], 0));
    var s2 := Next(s1, Tick(0));
    assert s2 == State(t1, map[0 := Counting(f, n, [h], 0, false)]);
    var s3 := Next(s2, Tick(0));
    assert s3 == State(t1, map[0 := Counting(f, n, [h], 0, true)]);
    var s4 := Next(s3, Tick(0));
    var s5 := Next(s4, Tick(0));
    FiveSteps(s, CreateCalls(f, h), s1, s2, s3, s4, s5);
  }

  lemma FiveSteps(s: State, a: seq<Action>, s1: State, s2: State, s3: State, s4: State, s5: State)
    requires |a| == 5 && s1 == Next(s, a[0]) && s2 == Next(s1, a[1]) && s3 == Next(s2, a[2])
    requires s4 == Next(s3, a[3]) && s5 == Next(s4, a[4])
    ensures RunFrom(s, a) == s5
  {
    hide Next;
    assert RunFrom(s4, a[4..]) == RunFrom(s5, []);
    assert RunFrom(s3, a[3..]) == RunFrom(s4, a[4..]);
    assert RunFrom(s2, a[2..]) == RunFrom(s3, a[3..]);
    assert RunFrom(s1, a[1..]) == RunFrom(s2, a[2..]);
  }

  function BothVersions(f: string, h: string, size: nat): Versions {
    map[VersionKey(f, 1) := Listing(h, size), VersionKey(f, 2) := Listing(h, size)]
  }

  lemma BothQueues(f: string, h: string, size: nat)
    ensures PruneQueue(BothVersions(f, h, size), f, 1) == [Row(1, [h])]
  {
    var versions := BothVersions(f, h, size);
    var doomed := Doomed(versions, f, 1);
    assert IsDoomed(versions, f, 1, VersionKey(f, 1)) && !IsDoomed(versions, f, 1, VersionKey(f, 2));
    assert VersionNumbers(doomed, f) == {1} by { assert VersionKey(f, 1) in doomed; }
    assert 1 in Elements(SortAscending({1}));
    assert SortAscending({1}) == [1];
  }

  /** Both prunes list version 1, both read its chunk, and both decrement it. */
  function BothDecrement(f: string): seq<Action> {
    [BeginPrune(1, f, 1), BeginPrune(2, f, 1), Tick(1), Tick(2), Tick(1)]
  }

  function BothFinish(): seq<Action> {
    [Tick(2), Tick(1), Tick(2), Tick(1), Tick(2)]
  }

  lemma DecrementStage(f: string, file: File, h: string, size: nat)
    ensures var half := Pruning(f, [Row(1, [h])], 0, true);
            RunFrom(OneChunk(f, file, BothVersions(f, h, size), h, size, 2), BothDecrement(f)) ==
            State(OneChunk(f, file, BothVersions(f, h, size), h, size, 1).tables,
                  map[1 := Pruning(f, [Row(1, [h])], 1, false), 2 := half])
  {
    hide PruneQueue;
    BothQueues(f, h, size);
    var s := OneChunk(f, file, BothVersions(f, h, size), h, size, 2);
    var start, half := Pruning(f, [Row(1, [h])], 0, false), Pruning(f, [Row(1, [h])], 0, true);
    var s1 := Next(s, BeginPrune(1, f, 1));
    var s2 := Next(s1, BeginPrune(2, f, 1));
    assert s2 == State(s.tables, map[1 := start, 2 := start]);
    var s3 := Next(s2, Tick(1));
    var s4 := Next(s3, Tick(2));
    assert s4 == State(s.tables, map[1 := half, 2 := half]);
    var s5 := Next(s4, Tick(1));
    FiveSteps(s, BothDecrement(f), s1, s2, s3, s4, s5);
  }

  /** The second decrement, and the two deletions of the one version. */
  lemma DeleteStage(f: string, file: File, h: string, size: nat)
    ensures var done, gone := Pruning(f, [Row(1, [h])], 1, false), Pruning(f, [], 0, false);
            var t := OneChunk(f, file, BothVersions(f, h, size), h, size, 1).tables;
            var left := OneChunk(f, file, map[VersionKey(f, 2) := Listing(h, size)], h, size, 0).tables;
            var s1 := Next(State(t, map[1 := done, 2 := Pruning(f, [Row(1, [h])], 0, true)]), Tick(2));
            var s2 := Next(s1, Tick(1));
            Next(s2, Tick(2)) == State(left, map[1 := gone, 2 := gone])
  {
    var done, gone := Pruning(f, [Row(1, [h])], 1, false), Pruning(f, [], 0, false);
    var t := OneChunk(f, file, BothVersions(f, h, size), h, size, 1).tables;
    var left := OneChunk(f, file, map[VersionKey(f, 2) := Listing(h, size)], h, size, 0).tables;
    var s1 := Next(State(t, map[1 := done, 2 := Pruning(f, [Row(1, [h])], 0, true)]), Tick(2));
    assert s1 == State(OneChunk(f, file, BothVersions(f, h, size), h, size, 0).tables, map[1 := done, 2 := done]);
    var s2 := Next(s1, Tick(1));
    assert [Row(1, [h])][1..] == [];
    assert s2 == State(left, map[1 := gone, 2 := done]);
  }

  lemma FinishStage(f: string, file: File, h: string, size: nat)
    ensures var s := State(OneChunk(f, file, BothVersions(f, h, size), h, size, 1).tables,
                           map[1 := Pruning(f, [Row(1, [h])], 1, false), 2 := Pruning(f, [Row(1, [h])], 0, true)]);
            RunFrom(s, BothFinish()) == OneChunk(f, file, map[VersionKey(f, 2) := Listing(h, size)], h, size, 0)
  {
    hide BothVersions, RunFrom;
    var s := State(OneChunk(f, file, BothVersions(f, h, size), h, size, 1).tables,
                   map[1 := Pruning(f, [Row(1, [h])], 1, false), 2 := Pruning(f, [Row(1, [h])], 0, true)]);
    DeleteStage(f, file, h, size);
    var s1 := Next(s, Tick(2));
    var s2 := Next(s1, Tick(1));
    var s3 := Next(s2, Tick(2));
    var s4 := Next(s3, Tick(1));
    var s5 := Next(s4, Tick(2));
    assert s5.procs == map[];
    FiveSteps(s, BothFinish(), s1, s2, s3, s4, s5);
  }

  function Setup(f: string, file: File, h: string, size: nat): seq<Action> {
    [Action.Register(h, size), AddFile(f, file)]
  }

  function TwoPrunes(f: string, file: File, h: string, size: nat): seq<Action> {
    Setup(f, file, h, size) + CreateCalls(f, h) + CreateCalls(f, h) + BothDecrement(f) + BothFinish()
  }

  lemma {:induction false} RowsStay(actions: seq<Action>, i: nat, h: string)
    requires 0 < i <= |actions| && actions[0].Register? && actions[0].chunkHash == h
    ensures h in Run(actions[..i]).tables.chunks
  {
    RunStep(actions, i - 1);
    if i > 1 {
      RowsStay(actions, i - 1, h);
      KeepsRows(Run(actions[..i - 1]), actions[i - 1], h);
    }
  }

  lemma KeepsRows(s: State, a: Action, h: string)
    requires h in s.tables.chunks
    ensures h in Next(s, a).tables.chunks
  {
    hide NextVersion, ListSize, PruneQueue;
  }

  lemma TwoPrunesDisciplined(f: string, file: File, h: string, size: nat)
    ensures Disciplined(TwoPrunes(f, file, h, size))
  {
    hide Run;
    var actions := TwoPrunes(f, file, h, size);
    forall i | 0 <= i < |actions| && actions[i].BeginCreate?
      ensures Conservation.Registered(Run(actions[..i]).tables.chunks, actions[i].hashes)
    {
      RowsStay(actions, i, h);
    }
  }

  /**
   * Two prunes of one file that overlap give up the chunk of the version they both list twice:
   * they end with a count of zero for a chunk that a stored version lists.
   */
  lemma TwoPrunesLoseCount(f: string, file: File, h: string, size: nat)
    ensures var s := Run(TwoPrunes(f, file, h, size));
            && Disciplined(TwoPrunes(f, file, h, size))
            && s.procs == map[] && h in s.tables.chunks && s.tables.chunks[h].referenceCount == 0
            && VersionKey(f, 2) in s.tables.versions && h in s.tables.versions[VersionKey(f, 2)].chunkHashes
  {
    hide Run, RunFrom, NextVersion;
    TwoPrunesDisciplined(f, file, h, size);
    var v1 := map[VersionKey(f, 1) := Listing(h, size)];
    var a := Setup(f, file, h, size);
    SetupStage(f, file, h, size);
    NextNumbers(f, h, size);
    RunIsFrom(a, CreateCalls(f, h));
    CreateStage(f, file, map[], h, size, 0);
    RunIsFrom(a + CreateCalls(f, h), CreateCalls(f, h));
    CreateStage(f, file.(currentVersion := 1), v1, h, size, 1);
    assert v1[VersionKey(f, 2) := Listing(h, size)] == BothVersions(f, h, size);
    RunIsFrom(a + CreateCalls(f, h) + CreateCalls(f, h), BothDecrement(f));
    DecrementStage(f, file.(currentVersion := 2), h, size);
    RunIsFrom(a + CreateCalls(f, h) + CreateCalls(f, h) + BothDecrement(f), BothFinish());
    FinishStage(f, file.(currentVersion := 2), h, size);
  }

  lemma SetupStage(f: string, file: File, h: string, size: nat)
    ensures Run(Setup(f, file, h, size)) == OneChunk(f, file, map[], h, size, 0)
  {
    var a := Setup(f, file, h, size);
    RunStep(a, 0);
    RunStep(a, 1);
    assert a[..0] == [] && a[..2] == a;
  }

  lemma NextNumbers(f: string, h: string, size: nat)
    ensures NextVersion(map[], f) == 1 && NextVersion(map[VersionKey(f, 1) := Listing(h, size)], f) == 2
  {
    assert VersionNumbers(map[], f) == {};
    var v1: Versions := map[VersionKey(f, 1) := Listing(h, size)];
    assert VersionNumbers(v1, f) == {1} by { assert VersionKey(f, 1) in v1; }
  }
}
