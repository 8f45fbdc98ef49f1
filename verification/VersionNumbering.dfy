/**
 * Version numbers are drawn from a count (src/version-manager.ts:27-29): sequential as long as
 * nothing is pruned, and exactly then sure to be one above the latest.  Once numbers are missing
 * below, creations go on only up to the first number that is taken.
 */
module VersionNumbering {
  import opened Collections
  import opened MetadataStore
  import opened ReferenceCounts
  import opened Conservation

  predicate IsLatest(numbers: set<int>, latest: int) {
    latest in numbers && forall v :: v in numbers ==> v <= latest
  }

  /** With positive numbers, the next number follows the latest exactly when none is missing below. */
  lemma NextFollowsLatestIff(versions: Versions, f: string, latest: int)
    requires IsLatest(VersionNumbers(versions, f), latest)
    requires forall v :: v in VersionNumbers(versions, f) ==> v >= 1
    ensures NextVersion(versions, f) == latest + 1 <==>
            VersionNumbers(versions, f) == Interval(1, |VersionNumbers(versions, f)|)
  {
    var numbers := VersionNumbers(versions, f);
    assert numbers <= Interval(1, latest);
    SubsetCardinality(numbers, Interval(1, latest));
    if |numbers| == latest {
      SubsetEqual(numbers, Interval(1, latest));
    }
    if numbers == Interval(1, |numbers|) {
      assert |numbers| in numbers;
    }
  }

  /** A number that is already taken makes every further attempt fail without any effect. */
  lemma TakenNumberBlocksIff(t: Tables, f: string, list: seq<string>, now: int)
    requires f in t.files
    ensures Created(t, f, list, now) == t <==> VersionKey(f, NextVersion(t.versions, f)) in t.versions
  {
    hide ListSize, Bumped, NextVersion;
    var key := VersionKey(f, NextVersion(t.versions, f));
    if key !in t.versions {
      assert key in Created(t, f, list, now).versions;
    }
  }

  /** Numbers p + 1 to n are left: the next creation is refused exactly when at least half were kept. */
  lemma PrunedPrefixBlocksIff(t: Tables, f: string, p: int, n: int, list: seq<string>, now: int)
    requires f in t.files && 1 <= p < n && VersionNumbers(t.versions, f) == Interval(p + 1, n - p)
    ensures Created(t, f, list, now) == t <==> 2 * p <= n
  {
    hide Created;
    TakenNumberBlocksIff(t, f, list, now);
    NumberIn(t.versions, f, NextVersion(t.versions, f));
  }

  // ---------- whole runs ----------

  ghost predicate NeverPruned(ops: seq<Op>, f: string) {
    forall i :: 0 <= i < |ops| ==> !(ops[i].Prune? && ops[i].fileId == f)
  }

  /** Versions belong to existing files, and those of `f` are numbered without gaps. */
  ghost predicate Numbered(t: Tables, f: string) {
    && (forall k :: k in t.versions ==> k.fileId in t.files)
    && VersionNumbers(t.versions, f) == Interval(1, |VersionNumbers(t.versions, f)|)
  }

  lemma NumbersInsert(versions: Versions, k: VersionKey, v: Version, f: string)
    ensures VersionNumbers(versions[k := v], f) ==
            if k.fileId == f then VersionNumbers(versions, f) + {k.version} else VersionNumbers(versions, f)
  {
    var after := versions[k := v];
    forall n
      ensures n in VersionNumbers(after, f) <==> n in VersionNumbers(versions, f) || (k.fileId == f && n == k.version)
    {
      NumberIn(after, f, n);
      NumberIn(versions, f, n);
    }
  }

  lemma NumberIn(versions: Versions, f: string, n: int)
    ensures n in VersionNumbers(versions, f) <==> VersionKey(f, n) in versions
  {
    if VersionKey(f, n) in versions {
      assert VersionKey(f, n).version == n;
    }
  }

  lemma IntervalStep(numbers: set<int>)
    requires numbers == Interval(1, |numbers|)
    ensures numbers + {|numbers| + 1} == Interval(1, |numbers| + 1) && |numbers + {|numbers| + 1}| == |numbers| + 1
  {
  }

  lemma NoFileNoNumbers(t: Tables, f: string)
    requires f !in t.files && forall k :: k in t.versions ==> k.fileId in t.files
    ensures VersionNumbers(t.versions, f) == {}
  {
  }

  lemma SameNumbers(a: Versions, b: Versions, f: string)
    requires forall k: VersionKey :: k.fileId == f ==> (k in a <==> k in b)
    ensures VersionNumbers(a, f) == VersionNumbers(b, f)
  {
    forall n ensures n in VersionNumbers(a, f) <==> n in VersionNumbers(b, f) {
      NumberIn(a, f, n);
      NumberIn(b, f, n);
    }
  }

  /** A new version keeps the numbering when it takes the next number. */
  lemma InsertNumbered(t: Tables, t': Tables, k: VersionKey, v: Version, f: string)
    requires Numbered(t, f) && t'.versions == t.versions[k := v]
    requires t.files.Keys <= t'.files.Keys && k.fileId in t'.files
    requires k.fileId == f ==> k.version == NextVersion(t.versions, f)
    ensures Numbered(t', f)
  {
    hide VersionNumbers;
    NumbersInsert(t.versions, k, v, f);
    IntervalStep(VersionNumbers(t.versions, f));
  }

  lemma FinalizeNumbered(t: Tables, f: string, g: string, file: File, list: seq<string>, now: int)
    requires Numbered(t, f)
    ensures Numbered(Finalized(t, g, file, list, now), f)
  {
    hide VersionNumbers, ListSize;
    var key, t' := VersionKey(g, 1), Finalized(t, g, file, list, now);
    if g !in t.files && key !in t.versions {
      if g == f { NoFileNoNumbers(t, f); }
      InsertNumbered(t, t', key, t'.versions[key], f);
    }
  }

  lemma CreateNumbered(t: Tables, f: string, g: string, list: seq<string>, now: int)
    requires Numbered(t, f)
    ensures Numbered(Created(t, g, list, now), f)
  {
    hide VersionNumbers, ListSize, Bumped, NextVersion;
    var key, t' := VersionKey(g, NextVersion(t.versions, g)), Created(t, g, list, now);
    if key !in t.versions && g in t.files {
      InsertNumbered(t, t', key, t'.versions[key], f);
    }
  }

  lemma RemoveNumbered(t: Tables, f: string, g: string, cutoff: int)
    requires Numbered(t, f)
    ensures Numbered(WithoutFile(t, g), f)
    ensures g != f ==> Numbered(Pruned(t, g, cutoff), f)
  {
    hide VersionNumbers, Released, Doomed;
    if g == f {
      NoFileNoNumbers(WithoutFile(t, g), f);
    } else {
      SameNumbers(t.versions, WithoutFile(t, g).versions, f);
      forall k: VersionKey { DoomedOfFile(t.versions, g, cutoff, k); }
      SameNumbers(t.versions, Pruned(t, g, cutoff).versions, f);
    }
  }

  lemma StepNumbered(t: Tables, op: Op, f: string)
    requires Numbered(t, f) && !(op.Prune? && op.fileId == f)
    ensures Numbered(Apply(t, op), f)
  {
    hide VersionNumbers, Finalized, Created, Pruned, WithoutFile;
    match op
    case CreateVersion(g, list, now) => CreateNumbered(t, f, g, list, now);
    case Finalize(g, file, list, now) => FinalizeNumbered(t, f, g, file, list, now);
    case DeleteFile(g) => RemoveNumbered(t, f, g, 0);
    case Prune(g, cutoff) => RemoveNumbered(t, f, g, cutoff);
    case _ =>
  }

  lemma DoomedOfFile(versions: Versions, g: string, cutoff: int, k: VersionKey)
    ensures k in Doomed(versions, g, cutoff) ==> k.fileId == g
  {
  }

  lemma {:induction false} RunNumbered(ops: seq<Op>, f: string)
    requires NeverPruned(ops, f)
    ensures Numbered(Run(ops), f)
  {
    hide Apply, Numbered;
    if ops == [] {
      NothingNumbered(f);
    } else {
      RunNumbered(ops[..|ops| - 1], f);
      StepNumbered(Run(ops[..|ops| - 1]), ops[|ops| - 1], f);
    }
  }

  lemma NothingNumbered(f: string)
    ensures Numbered(EMPTY, f)
  {
  }

  /** In every run that does not prune `f`, its versions are numbered 1 to n and the next gets n + 1. */
  lemma VersionsAreSequential(ops: seq<Op>, f: string)
    requires NeverPruned(ops, f)
    ensures var numbers := VersionNumbers(Run(ops).versions, f);
            numbers == Interval(1, |numbers|) && VersionKey(f, NextVersion(Run(ops).versions, f)) !in Run(ops).versions
  {
    hide Run, VersionNumbers;
    RunNumbered(ops, f);
    NumberIn(Run(ops).versions, f, NextVersion(Run(ops).versions, f));
  }

  // ---------- runs after a prune ----------

  /** No operation of the run prunes or deletes the file. */
  ghost predicate KeepsHistory(ops: seq<Op>, f: string) {
    NeverPruned(ops, f) && NeverDeleted(ops, f)
  }

  ghost predicate NeverDeleted(ops: seq<Op>, f: string) {
    forall i :: 0 <= i < |ops| ==> !(ops[i].DeleteFile? && ops[i].fileId == f)
  }

  /** How often a run tries to create a version of `f`. */
  function Attempts(ops: seq<Op>, f: string): nat {
    if ops == [] then 0 else
      var op := ops[|ops| - 1];
      Attempts(ops[..|ops| - 1], f) + if op.CreateVersion? && op.fileId == f then 1 else 0
  }

  /** The first number from the next one on that a stored version has. */
  ghost predicate FirstTaken(numbers: set<int>, m: int) {
    m in numbers && m > |numbers| && forall j :: |numbers| < j < m ==> j !in numbers
  }

  /** What other operations do to the numbers of `f`. */
  lemma OtherStepKeepsNumbers(t: Tables, op: Op, f: string)
    requires f in t.files && !(op.CreateVersion? && op.fileId == f)
    requires !(op.Prune? && op.fileId == f) && !(op.DeleteFile? && op.fileId == f)
    ensures f in Apply(t, op).files && VersionNumbers(Apply(t, op).versions, f) == VersionNumbers(t.versions, f)
  {
    hide VersionNumbers, Released, Doomed, ListSize, Bumped, NextVersion;
    if op.Prune? { forall k: VersionKey { DoomedOfFile(t.versions, op.fileId, op.cutoff, k); } }
    SameNumbers(t.versions, Apply(t, op).versions, f);
  }

  lemma CreateStepNumbers(t: Tables, f: string, list: seq<string>, now: int)
    requires f in t.files
    ensures var numbers := VersionNumbers(t.versions, f);
            VersionNumbers(Created(t, f, list, now).versions, f) ==
            if |numbers| + 1 in numbers then numbers else numbers + {|numbers| + 1}
    ensures f in Created(t, f, list, now).files
  {
    hide ListSize, Bumped, VersionNumbers;
    var key, t' := VersionKey(f, NextVersion(t.versions, f)), Created(t, f, list, now);
    NumberIn(t.versions, f, key.version);
    if key !in t.versions {
      NumbersInsert(t.versions, key, t'.versions[key], f);
    }
  }

  /** `c` numbers after the count have been added. */
  lemma NextAfter(numbers: set<int>, c: nat)
    requires forall j :: |numbers| < j <= |numbers| + c ==> j !in numbers
    ensures |numbers + Interval(|numbers| + 1, c)| == |numbers| + c
    ensures numbers + Interval(|numbers| + 1, c) + {|numbers| + c + 1} == numbers + Interval(|numbers| + 1, c + 1)
  {
    assert numbers !! Interval(|numbers| + 1, c);
  }

  /** The file has `numbers` and the `c` numbers after their count. */
  ghost predicate Grown(t: Tables, f: string, numbers: set<int>, c: nat) {
    f in t.files && VersionNumbers(t.versions, f) == numbers + Interval(|numbers| + 1, c)
  }

  lemma GrowOnce(t: Tables, op: Op, f: string, numbers: set<int>, c: nat)
    requires Grown(t, f, numbers, c) && op.CreateVersion? && op.fileId == f
    requires forall j :: |numbers| < j <= |numbers| + c ==> j !in numbers
    ensures Grown(Apply(t, op), f, numbers, if |numbers| + c + 1 in numbers then c else c + 1)
  {
    hide VersionNumbers, Apply;
    CreateIsApplied(t, op);
    CreateStepNumbers(t, f, op.chunkHashes, op.now);
    NextAfter(numbers, c);
  }

  lemma GrowNot(t: Tables, op: Op, f: string, numbers: set<int>, c: nat)
    requires Grown(t, f, numbers, c) && !(op.CreateVersion? && op.fileId == f)
    requires !(op.Prune? && op.fileId == f) && !(op.DeleteFile? && op.fileId == f)
    ensures Grown(Apply(t, op), f, numbers, c)
  {
    hide VersionNumbers, Apply;
    OtherStepKeepsNumbers(t, op, f);
  }

  lemma NotGrown(t: Tables, f: string)
    requires f in t.files
    ensures Grown(t, f, VersionNumbers(t.versions, f), 0)
  {
  }

  lemma {:induction false} CreationsFillRoom(before: seq<Op>, ops: seq<Op>, f: string, numbers: set<int>, room: nat)
    requires f in Run(before).files && KeepsHistory(ops, f) && numbers == VersionNumbers(Run(before).versions, f)
    requires forall j :: |numbers| < j <= |numbers| + room ==> j !in numbers
    requires |numbers| + room + 1 in numbers || Attempts(ops, f) <= room
    ensures Grown(Run(before + ops), f, numbers, Min(Attempts(ops, f), room))
  {
    hide Grown, Run, Apply, VersionNumbers;
    if ops == [] {
      assert before + ops == before;
      NotGrown(Run(before), f);
    } else {
      var init, op := ops[..|ops| - 1], ops[|ops| - 1];
      CreationsFillRoom(before, init, f, numbers, room);
      assert before + ops == before + init + [op];
      RunAppend(before + init, op);
      if op.CreateVersion? && op.fileId == f {
        GrowOnce(Run(before + init), op, f, numbers, Min(Attempts(init, f), room));
      } else {
        GrowNot(Run(before + init), op, f, numbers, Min(Attempts(init, f), room));
      }
    }
  }

  lemma CreateIsApplied(t: Tables, op: Op)
    requires op.CreateVersion?
    ensures Apply(t, op) == Created(t, op.fileId, op.chunkHashes, op.now)
  {
  }

  /**
   * In every run that neither prunes nor deletes the file, creations succeed, each with the next
   * number, exactly until the first number that is taken; from then on none does.
   */
  lemma CreationsStopAtTaken(before: seq<Op>, ops: seq<Op>, f: string)
    requires f in Run(before).files && KeepsHistory(ops, f)
    ensures var numbers, tried := VersionNumbers(Run(before).versions, f), Attempts(ops, f);
            && (forall m :: FirstTaken(numbers, m) ==>
                  Grown(Run(before + ops), f, numbers, Min(tried, m - |numbers| - 1)))
            && ((forall v :: v in numbers ==> v <= |numbers|) ==> Grown(Run(before + ops), f, numbers, tried))
  {
    hide VersionNumbers, Run, Grown;
    var numbers, tried := VersionNumbers(Run(before).versions, f), Attempts(ops, f);
    forall m | FirstTaken(numbers, m) ensures Grown(Run(before + ops), f, numbers, Min(tried, m - |numbers| - 1)) {
      CreationsFillRoom(before, ops, f, numbers, m - |numbers| - 1);
    }
    if forall v :: v in numbers ==> v <= |numbers| {
      CreationsFillRoom(before, ops, f, numbers, tried);
    }
  }

  /** A file left with version 2 alone never gets another one, whatever happens, until it is deleted. */
  lemma {:induction false} PruneCanBlockForEver(before: seq<Op>, ops: seq<Op>, f: string)
    requires f in Run(before).files && VersionNumbers(Run(before).versions, f) == {2} && NeverDeleted(ops, f)
    ensures f in Run(before + ops).files && VersionNumbers(Run(before + ops).versions, f) == {2}
  {
    hide VersionNumbers, Run, Apply;
    if ops == [] {
      assert before + ops == before;
    } else {
      var init, op := ops[..|ops| - 1], ops[|ops| - 1];
      PruneCanBlockForEver(before, init, f);
      assert before + ops == before + init + [op];
      RunAppend(before + init, op);
      var t := Run(before + init);
      if op.CreateVersion? && op.fileId == f {
        CreateIsApplied(t, op);
        CreateStepNumbers(t, f, op.chunkHashes, op.now);
      } else if op.Prune? && op.fileId == f {
        PruneIsApplied(t, op);
        LonelyIsKept(t, f, op.cutoff, 2);
      } else {
        OtherStepKeepsNumbers(t, op, f);
      }
    }
  }

  lemma PruneIsApplied(t: Tables, op: Op)
    requires op.Prune?
    ensures Apply(t, op) == Pruned(t, op.fileId, op.cutoff) && Apply(t, op).files == t.files
  {
  }

  lemma LonelyIsKept(t: Tables, f: string, cutoff: int, latest: int)
    requires VersionNumbers(t.versions, f) == {latest}
    ensures VersionNumbers(Pruned(t, f, cutoff).versions, f) == {latest}
  {
    hide VersionNumbers, Released;
    forall k | k in t.versions && k.fileId == f ensures k !in Doomed(t.versions, f, cutoff) {
      forall j | j in t.versions && j.fileId == f ensures j.version == latest { NumberIn(t.versions, f, j.version); }
    }
    SameNumbers(t.versions, Pruned(t, f, cutoff).versions, f);
  }

  // ---------- pruning and the current version ----------

  /** Pruning when every version is old leaves the highest-numbered one alone. */
  lemma PruneLeavesLatest(t: Tables, f: string, cutoff: int, latest: int)
    requires IsLatest(VersionNumbers(t.versions, f), latest)
    requires forall k :: k in t.versions && k.fileId == f ==> t.versions[k].createdAt < cutoff
    ensures VersionNumbers(Pruned(t, f, cutoff).versions, f) == {latest}
  {
    hide VersionNumbers, Released;
    var t' := Pruned(t, f, cutoff);
    NumberIn(t.versions, f, latest);
    forall n ensures n in VersionNumbers(t'.versions, f) <==> n == latest {
      NumberIn(t'.versions, f, n);
      NumberIn(t.versions, f, n);
      forall k | k in t.versions && k.fileId == f ensures k.version <= latest { NumberIn(t.versions, f, k.version); }
    }
  }

  /** Pruning keeps the file's current version exactly when it is the highest-numbered or young enough. */
  lemma PruneKeepsCurrentIff(t: Tables, f: string, cutoff: int)
    requires f in t.files && VersionKey(f, t.files[f].currentVersion) in t.versions
    ensures var current := VersionKey(f, t.files[f].currentVersion);
            current in Pruned(t, f, cutoff).versions <==>
            IsLatest(VersionNumbers(t.versions, f), current.version) || t.versions[current].createdAt >= cutoff
  {
    hide VersionNumbers, Released;
    var current := VersionKey(f, t.files[f].currentVersion);
    NumberIn(t.versions, f, current.version);
    forall k | k in t.versions && k.fileId == f ensures k.version in VersionNumbers(t.versions, f) {
      NumberIn(t.versions, f, k.version);
    }
    forall v | v in VersionNumbers(t.versions, f) ensures VersionKey(f, v) in t.versions { NumberIn(t.versions, f, v); }
  }

  /** The tables of a store with one file and no chunks. */
  function OneFile(f: string, file: File, versions: Versions): Tables {
    Tables(map[f := file], versions, map[])
  }

  lemma CreateEmpty(f: string, file: File, versions: Versions, now: int)
    requires VersionKey(f, NextVersion(versions, f)) !in versions
    ensures var next := NextVersion(versions, f);
            Created(OneFile(f, file, versions), f, [], now) ==
            OneFile(f, file.(currentVersion := next), versions[VersionKey(f, next) := Version([], 0, now)])
  {
    hide VersionNumbers;
  }

  lemma PruneEmpty(f: string, file: File, versions: Versions, cutoff: int)
    ensures var t := Pruned(OneFile(f, file, versions), f, cutoff); t == OneFile(f, file, t.versions)
  {
  }

  // ---------- runs that show it ----------

  /** Three versions created at the start, and all but the last pruned. */
  function ThreePruned(f: string, file: File): seq<Op> {
    TwoCreated(f, file) + [CreateVersion(f, [], 0)] + [Prune(f, 1)]
  }

  function TwoCreated(f: string, file: File): seq<Op> {
    [CreateFile(f, file)] + [CreateVersion(f, [], 0)] + [CreateVersion(f, [], 0)]
  }

  /** Versions 1 to `n`, without chunks, from clock 0. */
  function EmptyVersions(f: string, n: nat): Versions {
    if n == 0 then map[] else EmptyVersions(f, n - 1)[VersionKey(f, n) := Version([], 0, 0)]
  }

  lemma {:induction false} EmptyVersionsFacts(f: string, n: nat)
    ensures VersionNumbers(EmptyVersions(f, n), f) == Interval(1, n) && NextVersion(EmptyVersions(f, n), f) == n + 1
    ensures forall k :: k in EmptyVersions(f, n) <==> k.fileId == f && 1 <= k.version <= n
    ensures forall k :: k in EmptyVersions(f, n) ==> EmptyVersions(f, n)[k] == Version([], 0, 0)
  {
    hide VersionNumbers;
    if n == 0 {
      NoNumbers(f);
    } else {
      EmptyVersionsFacts(f, n - 1);
      NumbersInsert(EmptyVersions(f, n - 1), VersionKey(f, n), Version([], 0, 0), f);
    }
  }

  lemma CreateNth(f: string, file: File, n: nat)
    ensures Created(OneFile(f, file, EmptyVersions(f, n)), f, [], 0) ==
            OneFile(f, file.(currentVersion := n + 1), EmptyVersions(f, n + 1))
  {
    hide Created;
    EmptyVersionsFacts(f, n);
    CreateEmpty(f, file, EmptyVersions(f, n), 0);
  }

  lemma TwoCreatedRun(f: string, file: File)
    ensures Run(TwoCreated(f, file)) == OneFile(f, file.(currentVersion := 2), EmptyVersions(f, 2))
  {
    hide Created, EmptyVersions;
    var a := [CreateFile(f, file)];
    RunAppend([], a[0]);
    assert [] + a == a;
    EmptyVersionsFacts(f, 0);
    RunAppend(a, CreateVersion(f, [], 0));
    CreateNth(f, file, 0);
    RunAppend(a + [CreateVersion(f, [], 0)], CreateVersion(f, [], 0));
    CreateNth(f, file.(currentVersion := 1), 1);
  }

  /** What pruning at clock 1 leaves of `n` versions created at clock 0. */
  lemma PruneNth(f: string, file: File, n: nat)
    requires n > 0
    ensures Pruned(OneFile(f, file, EmptyVersions(f, n)), f, 1) == OneFile(f, file, Lonely(f, n))
    ensures VersionNumbers(Lonely(f, n), f) == {n}
  {
    hide Released, VersionNumbers, EmptyVersions;
    EmptyVersionsFacts(f, n);
    var versions := Pruned(OneFile(f, file, EmptyVersions(f, n)), f, 1).versions;
    PruneEmpty(f, file, EmptyVersions(f, n), 1);
    PruneLeavesLatest(OneFile(f, file, EmptyVersions(f, n)), f, 1, n);
    forall k ensures k in versions <==> k == VersionKey(f, n) { NumberIn(versions, f, k.version); }
    assert versions == Lonely(f, n);
  }

  function Lonely(f: string, n: nat): Versions {
    map[VersionKey(f, n) := Version([], 0, 0)]
  }

  /** A run that leaves version 2 alone, and every run that follows without deleting the file. */
  lemma PrunedToTwoStaysThere(f: string, file: File, ops: seq<Op>)
    requires NeverDeleted(ops, f)
    ensures var before := TwoCreated(f, file) + [Prune(f, 1)];
            f in Run(before + ops).files && VersionNumbers(Run(before + ops).versions, f) == {2}
  {
    hide VersionNumbers, EmptyVersions, Pruned, Run;
    var before := TwoCreated(f, file) + [Prune(f, 1)];
    TwoCreatedRun(f, file);
    RunAppend(TwoCreated(f, file), Prune(f, 1));
    PruneIsApplied(Run(TwoCreated(f, file)), Prune(f, 1));
    PruneNth(f, file.(currentVersion := 2), 2);
    PruneCanBlockForEver(before, ops, f);
  }

  /**
   * Left with version 3 alone, the file gets version 2 as its current one, and the next prune
   * deletes that while the file still points at it.
   */
  lemma PruneDeletesCurrent(f: string, file: File)
    ensures var t := Run(ThreePruned(f, file) + [CreateVersion(f, [], 5)] + [Prune(f, 6)]);
            && f in t.files && t.files[f].currentVersion == 2
            && VersionNumbers(t.versions, f) == {3}
  {
    hide VersionNumbers, EmptyVersions, Pruned, Run, Created, Apply;
    var a := TwoCreated(f, file) + [CreateVersion(f, [], 0)];
    TwoCreatedRun(f, file);
    RunAppend(TwoCreated(f, file), CreateVersion(f, [], 0));
    CreateIsApplied(Run(TwoCreated(f, file)), CreateVersion(f, [], 0));
    CreateNth(f, file.(currentVersion := 2), 2);
    RunAppend(a, Prune(f, 1));
    PruneIsApplied(Run(a), Prune(f, 1));
    PruneNth(f, file.(currentVersion := 3), 3);
    var b := ThreePruned(f, file);
    RunAppend(b, CreateVersion(f, [], 5));
    CreateIsApplied(Run(b), CreateVersion(f, [], 5));
    RunAppend(b + [CreateVersion(f, [], 5)], Prune(f, 6));
    PruneIsApplied(Run(b + [CreateVersion(f, [], 5)]), Prune(f, 6));
    ReuseAndPrune(f, file.(currentVersion := 3));
  }

  lemma ReuseAndPrune(f: string, file: File)
    ensures var t := Created(OneFile(f, file, Lonely(f, 3)), f, [], 5);
            && t.files == map[f := file.(currentVersion := 2)]
            && VersionNumbers(Pruned(t, f, 6).versions, f) == {3}
  {
    hide VersionNumbers, Released;
    var versions := Lonely(f, 3);
    NumbersInsert(map[], VersionKey(f, 3), Version([], 0, 0), f);
    NumberIn(map[], f, 3);
    NoNumbers(f);
    CreateEmpty(f, file, versions, 5);
    NumbersInsert(versions, VersionKey(f, 2), Version([], 0, 5), f);
    var t := Created(OneFile(f, file, versions), f, [], 5);
    assert VersionNumbers(t.versions, f) == {2, 3};
    PruneLeavesLatest(t, f, 6, 3);
  }

  lemma NoNumbers(f: string)
    ensures VersionNumbers(map[], f) == {}
  {
  }
}
