/**
 * The call-by-call form of creating and pruning, run without interference, is the atomic
 * operation: the interleaved model refines the sequential one.
 */
module SoloRuns {
  import opened Collections
  import opened Sorting
  import opened MetadataStore
  import opened ReferenceCounts
  import opened RefcountInterleaving
  import opened VersionNumbering

  function Ticks(s: State, c: nat, n: nat): State
    decreases n
  {
    if n == 0 then s else Ticks(Next(s, Tick(c)), c, n - 1)
  }

  /** Stepping the call `c` often enough, and nothing else, leads from `s` to `s'`. */
  ghost predicate Reaches(s: State, c: nat, s': State) {
    exists n: nat :: Ticks(s, c, n) == s'
  }

  lemma ReachesSelf(s: State, c: nat)
    ensures Reaches(s, c, s)
  {
    assert Ticks(s, c, 0) == s;
  }

  lemma ReachesTick(s: State, c: nat, s': State)
    requires Reaches(Next(s, Tick(c)), c, s')
    ensures Reaches(s, c, s')
  {
    hide Next;
    var n: nat :| Ticks(Next(s, Tick(c)), c, n) == s';
    assert Ticks(s, c, n + 1) == s';
  }

  lemma {:induction false} TicksAdd(s: State, c: nat, m: nat, n: nat)
    ensures Ticks(s, c, m + n) == Ticks(Ticks(s, c, m), c, n)
    decreases m
  {
    hide Next;
    if m > 0 {
      TicksAdd(Next(s, Tick(c)), c, m - 1, n);
    }
  }

  lemma ReachesThrough(s: State, c: nat, mid: State, s': State)
    requires Reaches(s, c, mid) && Reaches(mid, c, s')
    ensures Reaches(s, c, s')
  {
    hide Ticks;
    var m: nat :| Ticks(s, c, m) == mid;
    var n: nat :| Ticks(mid, c, n) == s';
    TicksAdd(s, c, m, n);
    assert Ticks(s, c, m + n) == s';
  }

  // ---------- creating ----------

  /** The state of the increments loop after `i` entries. */
  function Midway(t: Tables, procs: Procs, c: nat, f: string, number: int, hashes: seq<string>, i: nat): State
    requires i <= |hashes|
  {
    State(t.(chunks := Bumped(t.chunks, hashes[..i])), procs[c := Counting(f, number, hashes, i, false)])
  }

  lemma IncrementEntry(t: Tables, procs: Procs, c: nat, f: string, number: int, hashes: seq<string>, i: nat, s': State)
    requires i < |hashes| && Reaches(Midway(t, procs, c, f, number, hashes, i + 1), c, s')
    ensures Reaches(Midway(t, procs, c, f, number, hashes, i), c, s')
  {
    hide Bumped, Reaches;
    var s := Midway(t, procs, c, f, number, hashes, i);
    var h := hashes[i];
    assert hashes[..i + 1] == hashes[..i] + [h];
    BumpedStep(t.chunks, hashes[..i], h);
    var s1 := Next(s, Tick(c));
    if h in s.tables.chunks {
      var s2 := Next(s1, Tick(c));
      assert s2 == Midway(t, procs, c, f, number, hashes, i + 1);
      ReachesTick(s1, c, s');
    } else {
      assert s1 == Midway(t, procs, c, f, number, hashes, i + 1);
    }
    ReachesTick(s, c, s');
  }

  function CreateDone(t: Tables, f: string, number: int, hashes: seq<string>): Tables {
    Tables(if f in t.files then t.files[f := t.files[f].(currentVersion := number)] else t.files,
           t.versions, Bumped(t.chunks, hashes))
  }

  lemma {:induction false} IncrementRest(t: Tables, procs: Procs, c: nat, f: string, number: int, hashes: seq<string>,
                                         i: nat)
    requires i <= |hashes| && c !in procs
    ensures Reaches(Midway(t, procs, c, f, number, hashes, i), c, State(CreateDone(t, f, number, hashes), procs))
    decreases |hashes| - i
  {
    hide Bumped, Reaches;
    if i < |hashes| {
      IncrementRest(t, procs, c, f, number, hashes, i + 1);
      IncrementEntry(t, procs, c, f, number, hashes, i, State(CreateDone(t, f, number, hashes), procs));
    } else {
      var s := Midway(t, procs, c, f, number, hashes, i);
      assert hashes[..i] == hashes;
      assert procs[c := s.procs[c]] - {c} == procs;
      ReachesSelf(Next(s, Tick(c)), c);
      ReachesTick(s, c, Next(s, Tick(c)));
    }
  }

  /** Creating a version alone, call by call, ends where the atomic operation ends. */
  lemma CreateAloneIsCreated(s: State, c: nat, f: string, hashes: seq<string>, now: int)
    requires c !in s.procs
    ensures Reaches(Next(s, BeginCreate(c, f, hashes, now)), c, State(Created(s.tables, f, hashes, now), s.procs))
  {
    hide Bumped, Reaches, NextVersion, ListSize;
    var t := s.tables;
    var number := NextVersion(t.versions, f);
    var key := VersionKey(f, number);
    var s1 := Next(s, BeginCreate(c, f, hashes, now));
    var s2 := Next(s1, Tick(c));
    if key in t.versions || f !in t.files {
      assert s.procs[c := s1.procs[c]] - {c} == s.procs;
      ReachesSelf(s2, c);
    } else {
      var t2 := t.(versions := t.versions[key := Version(hashes, ListSize(t.chunks, hashes), now)]);
      BumpedStep(t.chunks, [], "");
      assert hashes[..0] == [];
      assert s2 == Midway(t2, s.procs, c, f, number, hashes, 0);
      IncrementRest(t2, s.procs, c, f, number, hashes, 0);
      assert CreateDone(t2, f, number, hashes) == Created(t, f, hashes, now);
    }
    ReachesTick(s1, c, State(Created(t, f, hashes, now), s.procs));
  }

  // ---------- pruning ----------

  function Releasing(t: Tables, procs: Procs, c: nat, f: string, queue: seq<Row>, i: nat): State
    requires queue != [] && i <= |queue[0].hashes|
  {
    State(t.(chunks := LoweredBy(t.chunks, queue[0].hashes[..i])), procs[c := Pruning(f, queue, i, false)])
  }

  lemma DecrementEntry(t: Tables, procs: Procs, c: nat, f: string, queue: seq<Row>, i: nat, s': State)
    requires queue != [] && i < |queue[0].hashes| && Reaches(Releasing(t, procs, c, f, queue, i + 1), c, s')
    ensures Reaches(Releasing(t, procs, c, f, queue, i), c, s')
  {
    hide LoweredBy, Reaches;
    var list := queue[0].hashes;
    var s := Releasing(t, procs, c, f, queue, i);
    var h := list[i];
    assert list[..i + 1] == list[..i] + [h];
    LoweredByStep(t.chunks, list[..i], h);
    var s1 := Next(s, Tick(c));
    if h in s.tables.chunks && s.tables.chunks[h].referenceCount > 0 {
      assert Next(s1, Tick(c)) == Releasing(t, procs, c, f, queue, i + 1);
      ReachesTick(s1, c, s');
    } else {
      assert s1 == Releasing(t, procs, c, f, queue, i + 1);
    }
    ReachesTick(s, c, s');
  }

  /** The tables once the head of the queue has been released and deleted. */
  function HeadGone(t: Tables, f: string, row: Row): Tables {
    Tables(t.files, t.versions - {VersionKey(f, row.number)}, LoweredBy(t.chunks, row.hashes))
  }

  lemma {:induction false} ReleaseRest(t: Tables, procs: Procs, c: nat, f: string, queue: seq<Row>, i: nat)
    requires queue != [] && i <= |queue[0].hashes|
    ensures Reaches(Releasing(t, procs, c, f, queue, i), c,
                    State(HeadGone(t, f, queue[0]), procs[c := Pruning(f, queue[1..], 0, false)]))
    decreases |queue[0].hashes| - i
  {
    hide LoweredBy, Reaches;
    var s' := State(HeadGone(t, f, queue[0]), procs[c := Pruning(f, queue[1..], 0, false)]);
    if i < |queue[0].hashes| {
      ReleaseRest(t, procs, c, f, queue, i + 1);
      DecrementEntry(t, procs, c, f, queue, i, s');
    } else {
      var s := Releasing(t, procs, c, f, queue, i);
      assert queue[0].hashes[..i] == queue[0].hashes;
      assert Next(s, Tick(c)) == s';
      ReachesSelf(s', c);
      ReachesTick(s, c, s');
    }
  }

  function QueueGone(t: Tables, f: string, queue: seq<Row>): Tables
    decreases |queue|
  {
    if queue == [] then t else QueueGone(HeadGone(t, f, queue[0]), f, queue[1..])
  }

  lemma {:induction false} PruneRest(t: Tables, procs: Procs, c: nat, f: string, queue: seq<Row>)
    requires c !in procs
    ensures Reaches(State(t, procs[c := Pruning(f, queue, 0, false)]), c, State(QueueGone(t, f, queue), procs))
    decreases |queue|
  {
    hide LoweredBy, Reaches;
    var s := State(t, procs[c := Pruning(f, queue, 0, false)]);
    if queue == [] {
      assert procs[c := s.procs[c]] - {c} == procs;
      ReachesSelf(Next(s, Tick(c)), c);
      ReachesTick(s, c, Next(s, Tick(c)));
    } else {
      LoweredByStep(t.chunks, [], "");
      assert queue[0].hashes[..0] == [];
      assert s == Releasing(t, procs, c, f, queue, 0);
      ReleaseRest(t, procs, c, f, queue, 0);
      var mid := State(HeadGone(t, f, queue[0]), procs[c := Pruning(f, queue[1..], 0, false)]);
      PruneRest(HeadGone(t, f, queue[0]), procs, c, f, queue[1..]);
      ReachesThrough(s, c, mid, State(QueueGone(t, f, queue), procs));
    }
  }

  /** The rows of `queue` as versions of the file. */
  ghost function QueuedVersions(versions: Versions, f: string, queue: seq<Row>): Versions {
    map k | k in versions && k.fileId == f && InQueue(queue, k.version) :: versions[k]
  }

  ghost predicate QueueOk(versions: Versions, f: string, queue: seq<Row>) {
    && (forall i :: 0 <= i < |queue| ==>
          && VersionKey(f, queue[i].number) in versions
          && versions[VersionKey(f, queue[i].number)].chunkHashes == queue[i].hashes)
    && (forall i, j :: 0 <= i < j < |queue| ==> queue[i].number != queue[j].number)
  }

  lemma QueuedHead(versions: Versions, f: string, queue: seq<Row>)
    requires QueueOk(versions, f, queue) && queue != []
    ensures var k := VersionKey(f, queue[0].number);
            && QueueOk(versions - {k}, f, queue[1..])
            && QueuedVersions(versions, f, queue) == QueuedVersions(versions - {k}, f, queue[1..])[k := versions[k]]
            && k !in QueuedVersions(versions - {k}, f, queue[1..])
  {
    var k := VersionKey(f, queue[0].number);
    forall j | j in versions && j.fileId == f
      ensures InQueue(queue, j.version) <==> j == k || InQueue(queue[1..], j.version)
    {
      if i :| 0 <= i < |queue| && queue[i].number == j.version {
        if i > 0 { assert queue[1..][i - 1].number == j.version; }
      }
      if i :| 0 <= i < |queue[1..]| && queue[1..][i].number == j.version {
        assert queue[i + 1].number == j.version;
      }
    }
  }

  /** Releasing one version and then the others, or all of them at once. */
  lemma {:induction false} QueueGoneIsReleased(t: Tables, f: string, queue: seq<Row>)
    requires QueueOk(t.versions, f, queue)
    ensures var gone := QueuedVersions(t.versions, f, queue);
            QueueGone(t, f, queue) == Tables(t.files, t.versions - gone.Keys, Released(t.chunks, gone))
    decreases |queue|
  {
    hide Released, LoweredBy, QueueOk, QueuedVersions;
    if queue == [] {
      NoRows(t.versions, f);
      ReleasedNothing(t.chunks);
      assert t.versions - {} == t.versions;
    } else {
      var k := VersionKey(f, queue[0].number);
      var t1 := HeadGone(t, f, queue[0]);
      QueuedHead(t.versions, f, queue);
      QueueRow(t.versions, f, queue);
      var rest := QueuedVersions(t1.versions, f, queue[1..]);
      QueueGoneIsReleased(t1, f, queue[1..]);
      ReleasedOneFirst(t.chunks, rest, k, t.versions[k]);
      assert t.versions - {k} - rest.Keys == t.versions - rest[k := t.versions[k]].Keys;
    }
  }

  lemma NoRows(versions: Versions, f: string)
    ensures QueuedVersions(versions, f, []) == map[]
  {
  }

  lemma QueueRow(versions: Versions, f: string, queue: seq<Row>)
    requires QueueOk(versions, f, queue) && queue != []
    ensures VersionKey(f, queue[0].number) in versions
            && versions[VersionKey(f, queue[0].number)].chunkHashes == queue[0].hashes
  {
  }

  lemma ReleasedOneFirst(chunks: Chunks, rest: Versions, k: VersionKey, v: Version)
    requires k !in rest
    ensures Released(LoweredBy(chunks, v.chunkHashes), rest) == Released(chunks, rest[k := v])
  {
    hide Occurrences, Mult;
    forall h ensures Occurrences(rest[k := v], h) == Occurrences(rest, h) + Mult(v.chunkHashes, h) {
      OccurrencesInsert(rest, k, v, h);
    }
  }

  ghost predicate InQueue(queue: seq<Row>, number: int) {
    exists i :: 0 <= i < |queue| && queue[i].number == number
  }

  lemma QueueNumbers(versions: Versions, f: string, cutoff: int, number: int)
    ensures InQueue(PruneQueue(versions, f, cutoff), number) <==>
            number in VersionNumbers(Doomed(versions, f, cutoff), f)
  {
    hide Doomed, VersionNumbers;
    var queue := PruneQueue(versions, f, cutoff);
    var numbers := SortAscending(VersionNumbers(Doomed(versions, f, cutoff), f));
    assert |queue| == |numbers| && forall i :: 0 <= i < |queue| ==> queue[i].number == numbers[i];
    if number in Elements(numbers) {
      var i :| 0 <= i < |numbers| && numbers[i] == number;
      assert queue[i].number == number;
    }
    if i :| 0 <= i < |queue| && queue[i].number == number {
      assert numbers[i] in Elements(numbers);
    }
  }

  lemma DoomedRows(versions: Versions, f: string, cutoff: int)
    ensures QueueOk(versions, f, PruneQueue(versions, f, cutoff))
    ensures QueuedVersions(versions, f, PruneQueue(versions, f, cutoff)) == Doomed(versions, f, cutoff)
  {
    hide IsDoomed, PruneQueue, VersionNumbers;
    PruneQueueRows(versions, f, cutoff);
    var doomed, queue := Doomed(versions, f, cutoff), PruneQueue(versions, f, cutoff);
    forall k | k in versions && k.fileId == f ensures InQueue(queue, k.version) <==> k in doomed {
      QueueNumbers(versions, f, cutoff, k.version);
      NumberIn(doomed, f, k.version);
      assert k == VersionKey(f, k.version);
    }
    forall k | k in doomed ensures k.fileId == f { DoomedFile(versions, f, cutoff, k); }
  }

  lemma DoomedFile(versions: Versions, f: string, cutoff: int, k: VersionKey)
    requires k in Doomed(versions, f, cutoff)
    ensures k.fileId == f
  {
  }

  /** Pruning alone, call by call, ends where the atomic operation ends. */
  lemma PruneAloneIsPruned(s: State, c: nat, f: string, cutoff: int)
    requires c !in s.procs
    ensures Reaches(Next(s, BeginPrune(c, f, cutoff)), c, State(Pruned(s.tables, f, cutoff), s.procs))
  {
    hide Reaches, Released, Doomed, PruneQueue, QueuedVersions, QueueOk, QueueGone;
    var queue := PruneQueue(s.tables.versions, f, cutoff);
    PruneRest(s.tables, s.procs, c, f, queue);
    DoomedRows(s.tables.versions, f, cutoff);
    QueueGoneIsReleased(s.tables, f, queue);
  }
}
