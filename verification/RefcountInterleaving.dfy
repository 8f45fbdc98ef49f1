/**
 * Creating and pruning versions at the same time, one store call per step, any calls overlapping,
 * on the same file or on different ones (src/version-manager.ts:22-77, 122-148,
 * src/deduplication-engine.ts:55-89).
 */
module RefcountInterleaving {
  import opened Collections
  import opened Sorting
  import opened Sums
  import opened MetadataStore
  import opened ReferenceCounts
  import opened Conservation

  datatype Row = Row(number: int, hashes: seq<string>)

  /**
   * Where a call in flight stands.  `checked` means that the row of the current chunk has been
   * read and the update is the next store call.
   */
  datatype Proc =
    | Creating(fileId: string, number: int, hashes: seq<string>, size: nat, createdAt: int)
    | Counting(fileId: string, number: int, hashes: seq<string>, done: nat, checked: bool)
    | Pruning(fileId: string, queue: seq<Row>, done: nat, checked: bool)

  /** The calls in flight, by a name that each call gets when it begins. */
  type Procs = map<nat, Proc>

  datatype State = State(tables: Tables, procs: Procs)

  datatype Action =
    | Register(chunkHash: string, size: nat)
    | AddFile(fileId: string, file: File)
    | BeginCreate(call: nat, fileId: string, hashes: seq<string>, now: int)
    | BeginPrune(call: nat, fileId: string, cutoff: int)
    | Tick(call: nat)

  /** The rows a prune will delete, as listed when it starts. */
  function PruneQueue(versions: Versions, fileId: string, cutoff: int): seq<Row> {
    var numbers := SortAscending(VersionNumbers(Doomed(versions, fileId, cutoff), fileId));
    seq(|numbers|, i requires 0 <= i < |numbers| =>
      var key := VersionKey(fileId, numbers[i]);
      Row(numbers[i], if key in versions then versions[key].chunkHashes else []))
  }

  function Put(s: State, chunks: Chunks, c: nat, p: Proc): State {
    State(s.tables.(chunks := chunks), s.procs[c := p])
  }

  /** Will the next store call of `p` be an insert that the store accepts? */
  predicate Inserts(t: Tables, p: Proc) {
    p.Creating? && VersionKey(p.fileId, p.number) !in t.versions && p.fileId in t.files
  }

  function TickCreating(s: State, c: nat, p: Proc): State
    requires p.Creating?
  {
    var key := VersionKey(p.fileId, p.number);
    if !Inserts(s.tables, p) then State(s.tables, s.procs - {c}) else
      State(s.tables.(versions := s.tables.versions[key := Version(p.hashes, p.size, p.createdAt)]),
            s.procs[c := Counting(p.fileId, p.number, p.hashes, 0, false)])
  }

  function TickCounting(s: State, c: nat, p: Proc): State
    requires p.Counting?
  {
    var t, f := s.tables, p.fileId;
    if p.done >= |p.hashes| then
      var t' := if f in t.files then t.(files := t.files[f := t.files[f].(currentVersion := p.number)]) else t;
      State(t', s.procs - {c})
    else
      var h := p.hashes[p.done];
      if !p.checked then
        Put(s, t.chunks, c, if h in t.chunks then Counting(f, p.number, p.hashes, p.done, true)
                            else Counting(f, p.number, p.hashes, p.done + 1, false))
      else
        Put(s, Adjusted(t.chunks, h, 1), c, Counting(f, p.number, p.hashes, p.done + 1, false))
  }

  function TickPruning(s: State, c: nat, p: Proc): State
    requires p.Pruning?
  {
    var t := s.tables;
    if p.queue == [] then State(t, s.procs - {c}) else
      var row := p.queue[0];
      if p.done >= |row.hashes| then
        State(t.(versions := t.versions - {VersionKey(p.fileId, row.number)}),
              s.procs[c := Pruning(p.fileId, p.queue[1..], 0, false)])
      else
        var h := row.hashes[p.done];
        if !p.checked then
          var found := h in t.chunks && t.chunks[h].referenceCount > 0;
          Put(s, t.chunks, c, Pruning(p.fileId, p.queue, if found then p.done else p.done + 1, found))
        else
          Put(s, Adjusted(t.chunks, h, -1), c, Pruning(p.fileId, p.queue, p.done + 1, false))
  }

  /** A call begins under a name that is not in use. */
  function Next(s: State, a: Action): State {
    var t := s.tables;
    match a
    case Register(h, size) => if h in t.chunks then s else State(t.(chunks := t.chunks[h := Chunk(size, 0)]), s.procs)
    case AddFile(f, file) => State(WithFile(t, f, file), s.procs)
    case BeginCreate(c, f, hashes, now) =>
      if c in s.procs then s else
        State(t, s.procs[c := Creating(f, NextVersion(t.versions, f), hashes, ListSize(t.chunks, hashes), now)])
    case BeginPrune(c, f, cutoff) =>
      if c in s.procs then s else
        State(t, s.procs[c := Pruning(f, PruneQueue(t.versions, f, cutoff), 0, false)])
    case Tick(c) =>
      if c !in s.procs then s else
        var p := s.procs[c];
        if p.Creating? then TickCreating(s, c, p)
        else if p.Counting? then TickCounting(s, c, p)
        else TickPruning(s, c, p)
  }

  const NOTHING := State(EMPTY, map[])

  function Run(actions: seq<Action>): State {
    if actions == [] then NOTHING else Next(Run(actions[..|actions| - 1]), actions[|actions| - 1])
  }

  /** Callers register chunks before they name them in a version. */
  ghost predicate Disciplined(actions: seq<Action>) {
    forall i :: 0 <= i < |actions| && actions[i].BeginCreate? ==>
      Registered(Run(actions[..i]).tables.chunks, actions[i].hashes)
  }

  // ---------- what is outstanding ----------

  /** Increments still to come. */
  function PendingOf(p: Proc, h: string): nat {
    match p
    case Counting(_, _, hashes, done, _) => if done <= |hashes| then Mult(hashes[done..], h) else 0
    case _ => 0
  }

  /** Decrements already made for the version about to be deleted. */
  function TakenOf(p: Proc, h: string): nat {
    match p
    case Pruning(_, queue, done, _) =>
      if queue != [] && done <= |queue[0].hashes| then Mult(queue[0].hashes[..done], h) else 0
    case _ => 0
  }

  ghost function Pending(procs: Procs, h: string): map<nat, int> {
    map c | c in procs :: PendingOf(procs[c], h)
  }

  ghost function Taken(procs: Procs, h: string): map<nat, int> {
    map c | c in procs :: TakenOf(procs[c], h)
  }

  /** Count, increments to come and decrements made early add up to the occurrences of `h`. */
  ghost predicate Balanced(s: State, h: string)
    requires h in s.tables.chunks
  {
    s.tables.chunks[h].referenceCount + Sum(Pending(s.procs, h)) + Sum(Taken(s.procs, h)) ==
    Occurrences(s.tables.versions, h)
  }

  ghost predicate AllBalanced(s: State) {
    forall h :: h in s.tables.chunks ==> Balanced(s, h)
  }

  /** What the stored version lists at this moment. */
  function StoredList(versions: Versions, k: VersionKey): seq<string> {
    if k in versions then versions[k].chunkHashes else []
  }

  /**
   * A prune finds what it listed: a positive count where it is about to decrement, and under the
   * key it is about to delete the same chunks still.  No other step can go wrong.
   */
  ghost predicate Effective(s: State, a: Action) {
    a.Tick? && a.call in s.procs && s.procs[a.call].Pruning? && s.procs[a.call].queue != [] ==>
      var p := s.procs[a.call];
      var row := p.queue[0];
      if p.done < |row.hashes| then
        !p.checked ==> var h := row.hashes[p.done]; h in s.tables.chunks && s.tables.chunks[h].referenceCount > 0
      else
        multiset(StoredList(s.tables.versions, VersionKey(p.fileId, row.number))) == multiset(row.hashes)
  }

  // ---------- what every state satisfies ----------

  ghost predicate ProcOk(chunks: Chunks, p: Proc) {
    match p
    case Creating(_, _, _, _, _) => true
    case Counting(_, _, hashes, done, checked) =>
      done <= |hashes| && (checked ==> done < |hashes|) && Registered(chunks, hashes)
    case Pruning(_, queue, done, checked) =>
      && (forall i :: 0 <= i < |queue| ==> Registered(chunks, queue[i].hashes))
      && (queue == [] ==> !checked)
      && (queue != [] ==> done <= |queue[0].hashes| && (checked ==> done < |queue[0].hashes|))
  }

  ghost predicate ListsRegistered(t: Tables) {
    forall k :: k in t.versions ==> Registered(t.chunks, t.versions[k].chunkHashes)
  }

  ghost predicate Sound(s: State) {
    ListsRegistered(s.tables) && forall c :: c in s.procs ==> ProcOk(s.tables.chunks, s.procs[c])
  }

  /** The chunks of versions about to be inserted have rows. */
  ghost predicate CreatorsRegistered(s: State) {
    forall c :: c in s.procs && s.procs[c].Creating? ==> Registered(s.tables.chunks, s.procs[c].hashes)
  }

  /** An insert that succeeds finds the rows of its chunks. */
  ghost predicate InsertsRegistered(s: State, a: Action) {
    a.Tick? && a.call in s.procs && Inserts(s.tables, s.procs[a.call]) ==>
      Registered(s.tables.chunks, s.procs[a.call].hashes)
  }

  lemma PruneQueueNumbers(versions: Versions, f: string, cutoff: int, number: int)
    requires number in VersionNumbers(Doomed(versions, f, cutoff), f)
    ensures VersionKey(f, number) in Doomed(versions, f, cutoff)
  {
    hide IsDoomed;
    var k :| k in Doomed(versions, f, cutoff) && k.fileId == f && k.version == number;
    assert k == VersionKey(f, number);
  }

  lemma PruneQueueRows(versions: Versions, f: string, cutoff: int)
    ensures var queue := PruneQueue(versions, f, cutoff);
            && (forall i :: 0 <= i < |queue| ==>
                  && VersionKey(f, queue[i].number) in Doomed(versions, f, cutoff)
                  && VersionKey(f, queue[i].number) in versions
                  && versions[VersionKey(f, queue[i].number)].chunkHashes == queue[i].hashes)
            && (forall i, j :: 0 <= i < j < |queue| ==> queue[i].number != queue[j].number)
  {
    hide VersionNumbers, IsDoomed;
    var numbers := SortAscending(VersionNumbers(Doomed(versions, f, cutoff), f));
    forall i | 0 <= i < |numbers| ensures VersionKey(f, numbers[i]) in Doomed(versions, f, cutoff) {
      assert numbers[i] in Elements(numbers);
      PruneQueueNumbers(versions, f, cutoff, numbers[i]);
    }
  }

  /** The queue of a prune names exactly the doomed versions. */
  lemma PruneQueueKeys(versions: Versions, f: string, cutoff: int, k: VersionKey)
    ensures k in Doomed(versions, f, cutoff) <==>
            var queue := PruneQueue(versions, f, cutoff);
            k.fileId == f && exists i :: 0 <= i < |queue| && queue[i].number == k.version
  {
    hide VersionNumbers;
    var doomed, queue := Doomed(versions, f, cutoff), PruneQueue(versions, f, cutoff);
    PruneQueueRows(versions, f, cutoff);
    if k in doomed {
      var numbers := SortAscending(VersionNumbers(doomed, f));
      DoomedNumber(versions, f, cutoff, k);
      assert k.version in Elements(numbers);
      var i :| 0 <= i < |numbers| && numbers[i] == k.version;
      assert queue[i].number == k.version;
    }
    if k.fileId == f && exists i :: 0 <= i < |queue| && queue[i].number == k.version {
      var i :| 0 <= i < |queue| && queue[i].number == k.version;
      assert VersionKey(f, queue[i].number) == k;
    }
  }

  lemma DoomedNumber(versions: Versions, f: string, cutoff: int, k: VersionKey)
    requires k in Doomed(versions, f, cutoff)
    ensures k.fileId == f && k.version in VersionNumbers(Doomed(versions, f, cutoff), f)
  {
  }

  lemma MoreRowsOk(chunks: Chunks, chunks': Chunks, p: Proc)
    requires ProcOk(chunks, p) && chunks.Keys <= chunks'.Keys
    ensures ProcOk(chunks', p)
  {
  }

  /** The shape of a step that changes one call and keeps the rows and lists. */
  lemma ProcSound(s: State, s': State, c: nat)
    requires Sound(s) && s'.tables.versions == s.tables.versions && s'.tables.chunks.Keys == s.tables.chunks.Keys
    requires forall d :: d != c ==> (d in s'.procs <==> d in s.procs) && (d in s.procs ==> s'.procs[d] == s.procs[d])
    requires c in s'.procs ==> ProcOk(s.tables.chunks, s'.procs[c])
    ensures Sound(s')
  {
    hide ProcOk;
    forall d | d in s'.procs ensures ProcOk(s'.tables.chunks, s'.procs[d]) {
      MoreRowsOk(s.tables.chunks, s'.tables.chunks, s'.procs[d]);
    }
  }

  lemma BeginPruneSound(s: State, c: nat, f: string, cutoff: int)
    requires Sound(s)
    ensures Sound(Next(s, BeginPrune(c, f, cutoff)))
  {
    hide PruneQueue, Doomed;
    if c !in s.procs {
      PruneQueueRows(s.tables.versions, f, cutoff);
      ProcSound(s, Next(s, BeginPrune(c, f, cutoff)), c);
    }
  }

  lemma InsertSound(s: State, c: nat)
    requires Sound(s) && c in s.procs && s.procs[c].Creating?
    requires Inserts(s.tables, s.procs[c]) ==> Registered(s.tables.chunks, s.procs[c].hashes)
    ensures Sound(TickCreating(s, c, s.procs[c]))
  {
    var s' := TickCreating(s, c, s.procs[c]);
    forall d | d in s'.procs ensures ProcOk(s'.tables.chunks, s'.procs[d]) {}
  }

  lemma TickSound(s: State, c: nat)
    requires Sound(s) && c in s.procs && !s.procs[c].Creating?
    ensures Sound(Next(s, Tick(c)))
  {
    var s' := Next(s, Tick(c));
    if s.procs[c].Pruning? && s.procs[c].queue != [] && s.procs[c].done >= |s.procs[c].queue[0].hashes| {
      forall d | d in s'.procs ensures ProcOk(s'.tables.chunks, s'.procs[d]) {}
    } else {
      ProcSound(s, s', c);
    }
  }

  lemma StepSound(s: State, a: Action)
    requires Sound(s) && InsertsRegistered(s, a)
    ensures Sound(Next(s, a))
  {
    hide TickCounting, TickPruning, TickCreating, PruneQueue, ListSize, NextVersion, ProcOk;
    match a
    case Register(_, _) =>
      forall c | c in s.procs ensures ProcOk(Next(s, a).tables.chunks, s.procs[c]) {
        MoreRowsOk(s.tables.chunks, Next(s, a).tables.chunks, s.procs[c]);
      }
    case AddFile(_, _) =>
    case BeginCreate(c, f, hashes, now) => BeginCreateSound(s, c, f, hashes, now);
    case BeginPrune(c, f, cutoff) => BeginPruneSound(s, c, f, cutoff);
    case Tick(c) =>
      if c in s.procs {
        if s.procs[c].Creating? { InsertSound(s, c); } else { TickSound(s, c); }
      }
  }

  lemma BeginCreateSound(s: State, c: nat, f: string, hashes: seq<string>, now: int)
    requires Sound(s)
    ensures Sound(Next(s, BeginCreate(c, f, hashes, now)))
  {
    hide ListSize, NextVersion;
    if c !in s.procs {
      ProcSound(s, Next(s, BeginCreate(c, f, hashes, now)), c);
    }
  }

  // ---------- how sums move ----------

  lemma ProcPut(procs: Procs, c: nat, p: Proc, h: string)
    ensures var before := if c in procs then PendingOf(procs[c], h) else 0;
            Sum(Pending(procs[c := p], h)) == Sum(Pending(procs, h)) + PendingOf(p, h) - before
    ensures var before := if c in procs then TakenOf(procs[c], h) else 0;
            Sum(Taken(procs[c := p], h)) == Sum(Taken(procs, h)) + TakenOf(p, h) - before
  {
    hide PendingOf, TakenOf;
    assert Pending(procs[c := p], h) == Pending(procs, h)[c := PendingOf(p, h)];
    assert Taken(procs[c := p], h) == Taken(procs, h)[c := TakenOf(p, h)];
    SumUpdate(Pending(procs, h), c, PendingOf(p, h));
    SumUpdate(Taken(procs, h), c, TakenOf(p, h));
  }

  lemma ProcDrop(procs: Procs, c: nat, h: string)
    requires c in procs
    ensures Sum(Pending(procs - {c}, h)) == Sum(Pending(procs, h)) - PendingOf(procs[c], h)
    ensures Sum(Taken(procs - {c}, h)) == Sum(Taken(procs, h)) - TakenOf(procs[c], h)
  {
    hide PendingOf, TakenOf;
    assert Pending(procs - {c}, h) == Pending(procs, h) - {c};
    assert Taken(procs - {c}, h) == Taken(procs, h) - {c};
    SumRemove(Pending(procs, h), c);
    SumRemove(Taken(procs, h), c);
  }

  lemma MultSplit(list: seq<string>, i: nat, h: string)
    requires i <= |list|
    ensures Mult(list, h) == Mult(list[..i], h) + Mult(list[i..], h)
    ensures i < |list| ==> Mult(list[..i + 1], h) == Mult(list[..i], h) + (if list[i] == h then 1 else 0)
    ensures i < |list| ==> Mult(list[i..], h) == Mult(list[i + 1..], h) + (if list[i] == h then 1 else 0)
    ensures Mult(list[|list|..], h) == 0 && Mult(list[..0], h) == 0
    ensures list[..|list|] == list && list[0..] == list
  {
    assert list == list[..i] + list[i..];
    if i < |list| {
      assert list[..i + 1] == list[..i] + [list[i]];
      assert list[i..] == [list[i]] + list[i + 1..];
    }
  }

  /** What a call owes to, or has taken from, the count of `h`. */
  function OwedBy(procs: Procs, c: nat, h: string): nat {
    if c in procs then PendingOf(procs[c], h) + TakenOf(procs[c], h) else 0
  }

  /** The shape of all steps that change one call and leave the versions alone. */
  lemma PutBalancedIff(s: State, s': State, c: nat, h: string, delta: int)
    requires h in s.tables.chunks && h in s'.tables.chunks && Balanced(s, h)
    requires s'.tables.versions == s.tables.versions
    requires s'.procs == (if c in s'.procs then s.procs[c := s'.procs[c]] else s.procs - {c})
    requires c in s.procs || c in s'.procs
    requires s'.tables.chunks[h].referenceCount == s.tables.chunks[h].referenceCount + delta
    ensures Balanced(s', h) <==> OwedBy(s'.procs, c, h) + delta == OwedBy(s.procs, c, h)
  {
    hide PendingOf, TakenOf, Pending, Taken, Sum, Occurrences;
    if c in s'.procs {
      ProcPut(s.procs, c, s'.procs[c], h);
    } else {
      ProcDrop(s.procs, c, h);
    }
  }

  /** Without a change to versions, calls or the row there is nothing to rebalance. */
  lemma BalancedFrame(s: State, s': State, h: string)
    requires h in s.tables.chunks && h in s'.tables.chunks
    requires s'.procs == s.procs && s'.tables.versions == s.tables.versions
    requires s'.tables.chunks[h].referenceCount == s.tables.chunks[h].referenceCount
    ensures Balanced(s', h) == Balanced(s, h)
  {
  }

  // ---------- a step keeps the balance exactly when it is effective ----------

  lemma BeginBalanced(s: State, a: Action)
    requires AllBalanced(s) && (a.BeginCreate? || a.BeginPrune?)
    ensures AllBalanced(Next(s, a))
  {
    hide Balanced, Mult, NextVersion, ListSize, PruneQueue;
    var s' := Next(s, a);
    forall h | h in s'.tables.chunks ensures Balanced(s', h) {
      if a.call !in s.procs {
        if a.BeginPrune? && s'.procs[a.call].queue != [] { MultSplit(s'.procs[a.call].queue[0].hashes, 0, h); }
        PutBalancedIff(s, s', a.call, h, 0);
      }
    }
  }

  lemma UnregisteredUnlisted(s: State, h: string)
    requires Sound(s) && h !in s.tables.chunks
    ensures Sum(Pending(s.procs, h)) == 0 && Sum(Taken(s.procs, h)) == 0
    ensures Occurrences(s.tables.versions, h) == 0
  {
    hide Mult, Occurrences, Sum;
    forall k | k in s.tables.versions ensures h !in s.tables.versions[k].chunkHashes {}
    OccurrencesZeroIff(s.tables.versions, h);
    forall list: seq<string> ensures Mult(list, h) > 0 <==> h in list { MultPositive(list, h); }
    forall c | c in s.procs ensures PendingOf(s.procs[c], h) == 0 && TakenOf(s.procs[c], h) == 0 {
      assert ProcOk(s.tables.chunks, s.procs[c]);
    }
    SumZero(Pending(s.procs, h));
    SumZero(Taken(s.procs, h));
  }

  lemma RegisterBalanced(s: State, a: Action)
    requires Sound(s) && AllBalanced(s) && (a.Register? || a.AddFile?)
    ensures AllBalanced(Next(s, a))
  {
    hide Sound, Occurrences, Sum, Pending, Taken;
    var s' := Next(s, a);
    forall h | h in s'.tables.chunks ensures Balanced(s', h) {
      if h in s.tables.chunks {
        BalancedFrame(s, s', h);
      } else {
        UnregisteredUnlisted(s, h);
      }
    }
  }

  lemma InsertBalanced(s: State, c: nat, h: string)
    requires h in s.tables.chunks && Balanced(s, h) && c in s.procs && s.procs[c].Creating?
    ensures var s' := TickCreating(s, c, s.procs[c]); h in s'.tables.chunks && Balanced(s', h)
  {
    hide Occurrences, Mult, Sum, Pending, Taken;
    var p, s' := s.procs[c], TickCreating(s, c, s.procs[c]);
    if Inserts(s.tables, p) {
      MultSplit(p.hashes, 0, h);
      ProcPut(s.procs, c, s'.procs[c], h);
      OccurrencesInsert(s.tables.versions, VersionKey(p.fileId, p.number), Version(p.hashes, p.size, p.createdAt), h);
    } else {
      PutBalancedIff(s, s', c, h, 0);
    }
  }

  lemma CountingBalanced(s: State, c: nat, h: string)
    requires Sound(s) && h in s.tables.chunks && Balanced(s, h) && c in s.procs && s.procs[c].Counting?
    ensures var s' := TickCounting(s, c, s.procs[c]); h in s'.tables.chunks && Balanced(s', h)
  {
    hide Balanced, Mult;
    var p, s' := s.procs[c], TickCounting(s, c, s.procs[c]);
    assert ProcOk(s.tables.chunks, p);
    MultSplit(p.hashes, p.done, h);
    if p.done < |p.hashes| {
      assert p.hashes[p.done] in p.hashes;
      PutBalancedIff(s, s', c, h, if p.checked && p.hashes[p.done] == h then 1 else 0);
    } else {
      PutBalancedIff(s, s', c, h, 0);
    }
  }

  /** A refusal leaves its chunk unbalanced; a decrement that is made does not. */
  lemma DecrementBalancedIff(s: State, c: nat, h: string)
    requires Sound(s) && h in s.tables.chunks && Balanced(s, h) && c in s.procs && s.procs[c].Pruning?
    requires s.procs[c].queue != [] ==> s.procs[c].done < |s.procs[c].queue[0].hashes|
    ensures var s' := TickPruning(s, c, s.procs[c]);
            && h in s'.tables.chunks
            && (Balanced(s', h) <==> (s.procs[c].queue != [] && s.procs[c].queue[0].hashes[s.procs[c].done] == h ==>
                                        Effective(s, Tick(c))))
  {
    hide Balanced, Mult;
    var p, s' := s.procs[c], TickPruning(s, c, s.procs[c]);
    assert ProcOk(s.tables.chunks, p);
    if p.queue == [] {
      PutBalancedIff(s, s', c, h, 0);
    } else {
      var list := p.queue[0].hashes;
      assert list[p.done] in list;
      MultSplit(list, p.done, h);
      PutBalancedIff(s, s', c, h, if p.checked && list[p.done] == h then -1 else 0);
    }
  }

  lemma DeleteOccurrences(versions: Versions, k: VersionKey, h: string)
    ensures Occurrences(versions - {k}, h) == Occurrences(versions, h) - Mult(StoredList(versions, k), h)
  {
    hide Occurrences;
    if k in versions {
      OccurrencesRemove(versions, k, h);
    } else {
      assert versions - {k} == versions;
    }
  }

  /** Deleting a version is right for `h` when it lists `h` as often as the prune gave it up. */
  lemma DeleteBalancedIff(s: State, c: nat, h: string)
    requires Sound(s) && h in s.tables.chunks && Balanced(s, h) && c in s.procs && s.procs[c].Pruning?
    requires s.procs[c].queue != [] && s.procs[c].done >= |s.procs[c].queue[0].hashes|
    ensures var s', row := TickPruning(s, c, s.procs[c]), s.procs[c].queue[0];
            var stored := StoredList(s.tables.versions, VersionKey(s.procs[c].fileId, row.number));
            h in s'.tables.chunks && (Balanced(s', h) <==> Mult(stored, h) == Mult(row.hashes, h))
  {
    hide Occurrences, Mult, Sum, Pending, Taken, StoredList;
    var p, s' := s.procs[c], TickPruning(s, c, s.procs[c]);
    assert ProcOk(s.tables.chunks, p);
    MultSplit(p.queue[0].hashes, p.done, h);
    if |p.queue| > 1 { MultSplit(p.queue[1].hashes, 0, h); }
    ProcPut(s.procs, c, s'.procs[c], h);
    DeleteOccurrences(s.tables.versions, VersionKey(p.fileId, p.queue[0].number), h);
  }

  /** Two registered lists agree when they do on the chunks that have rows. */
  lemma SameMultiset(chunks: Chunks, a: seq<string>, b: seq<string>)
    requires Registered(chunks, a) && Registered(chunks, b)
    ensures multiset(a) == multiset(b) <==> forall h :: h in chunks ==> Mult(a, h) == Mult(b, h)
  {
    if forall h :: h in chunks ==> Mult(a, h) == Mult(b, h) {
      forall h ensures multiset(a)[h] == multiset(b)[h] {
        if h !in chunks { assert h !in multiset(a) && h !in multiset(b); }
        assert Mult(a, h) == multiset(a)[h] && Mult(b, h) == multiset(b)[h];
      }
    }
  }

  lemma TickPruningBalancedIff(s: State, c: nat)
    requires Sound(s) && AllBalanced(s) && c in s.procs && s.procs[c].Pruning?
    ensures AllBalanced(TickPruning(s, c, s.procs[c])) <==> Effective(s, Tick(c))
  {
    hide Balanced, Mult, Sound;
    var p, s' := s.procs[c], TickPruning(s, c, s.procs[c]);
    PruningRegistered(s, c);
    if p.queue != [] && p.done >= |p.queue[0].hashes| {
      var stored, list := StoredList(s.tables.versions, VersionKey(p.fileId, p.queue[0].number)), p.queue[0].hashes;
      SameMultiset(s.tables.chunks, stored, list);
      forall h | h in s.tables.chunks
        ensures h in s'.tables.chunks && (Balanced(s', h) <==> Mult(stored, h) == Mult(list, h))
      {
        DeleteBalancedIff(s, c, h);
      }
    } else {
      forall h | h in s.tables.chunks
        ensures && h in s'.tables.chunks
                && (Balanced(s', h) <==> (p.queue != [] && p.queue[0].hashes[p.done] == h ==> Effective(s, Tick(c))))
      {
        DecrementBalancedIff(s, c, h);
      }
    }
  }

  lemma PruningRegistered(s: State, c: nat)
    requires Sound(s) && c in s.procs && s.procs[c].Pruning?
    ensures s.procs[c].queue != [] ==>
              var row := s.procs[c].queue[0];
              && Registered(s.tables.chunks, row.hashes)
              && Registered(s.tables.chunks, StoredList(s.tables.versions, VersionKey(s.procs[c].fileId, row.number)))
              && forall i :: 0 <= i < |row.hashes| ==> row.hashes[i] in s.tables.chunks
    ensures TickPruning(s, c, s.procs[c]).tables.chunks.Keys == s.tables.chunks.Keys
  {
    assert ProcOk(s.tables.chunks, s.procs[c]);
  }

  lemma StepBalancedIff(s: State, a: Action)
    requires Sound(s) && AllBalanced(s)
    ensures AllBalanced(Next(s, a)) <==> Effective(s, a)
  {
    hide Balanced, TickCreating, TickCounting, TickPruning, Sound;
    match a
    case Register(_, _) => RegisterBalanced(s, a);
    case AddFile(_, _) => RegisterBalanced(s, a);
    case BeginCreate(_, _, _, _) => BeginBalanced(s, a);
    case BeginPrune(_, _, _) => BeginBalanced(s, a);
    case Tick(c) =>
      if c in s.procs {
        if s.procs[c].Pruning? {
          TickPruningBalancedIff(s, c);
        } else {
          TickOthersBalanced(s, c);
        }
      }
  }

  lemma TickOthersBalanced(s: State, c: nat)
    requires Sound(s) && AllBalanced(s) && c in s.procs && !s.procs[c].Pruning?
    ensures AllBalanced(Next(s, Tick(c)))
  {
    hide Balanced, Sound, ListSize;
    var s' := Next(s, Tick(c));
    assert s'.tables.chunks.Keys == s.tables.chunks.Keys;
    forall h | h in s'.tables.chunks ensures Balanced(s', h) {
      if s.procs[c].Creating? { InsertBalanced(s, c, h); } else { CountingBalanced(s, c, h); }
    }
  }

  // ---------- every reachable state ----------

  lemma RunStep(actions: seq<Action>, i: nat)
    requires i < |actions|
    ensures Run(actions[..i + 1]) == Next(Run(actions[..i]), actions[i])
  {
    assert actions[..i + 1][..i] == actions[..i];
  }

  lemma CreatorsStayRegistered(s: State, a: Action)
    requires CreatorsRegistered(s) && (a.BeginCreate? ==> Registered(s.tables.chunks, a.hashes))
    ensures CreatorsRegistered(Next(s, a)) && InsertsRegistered(s, a)
  {
    hide ListSize, NextVersion, PruneQueue;
  }

  lemma {:induction false} RunSound(actions: seq<Action>, i: nat)
    requires Disciplined(actions) && i <= |actions|
    ensures Sound(Run(actions[..i])) && CreatorsRegistered(Run(actions[..i]))
  {
    hide Next, Sound, CreatorsRegistered;
    if i == 0 {
      NothingSound();
    } else {
      RunSound(actions, i - 1);
      RunStep(actions, i - 1);
      CreatorsStayRegistered(Run(actions[..i - 1]), actions[i - 1]);
      StepSound(Run(actions[..i - 1]), actions[i - 1]);
    }
  }

  lemma NothingSound()
    ensures Sound(Run([])) && CreatorsRegistered(Run([])) && AllBalanced(Run([]))
  {
  }

  ghost predicate AlwaysBalanced(actions: seq<Action>) {
    forall i :: 0 <= i <= |actions| ==> AllBalanced(Run(actions[..i]))
  }

  ghost predicate AllEffective(actions: seq<Action>) {
    forall i :: 0 <= i < |actions| ==> Effective(Run(actions[..i]), actions[i])
  }

  lemma {:induction false} EffectiveRunBalanced(actions: seq<Action>, i: nat)
    requires Disciplined(actions) && AllEffective(actions) && i <= |actions|
    ensures AllBalanced(Run(actions[..i]))
  {
    hide Next, Sound, AllBalanced, Effective, CreatorsRegistered, Disciplined;
    if i == 0 {
      NothingSound();
    } else {
      EffectiveRunBalanced(actions, i - 1);
      RunSound(actions, i - 1);
      RunStep(actions, i - 1);
      StepBalancedIff(Run(actions[..i - 1]), actions[i - 1]);
    }
  }

  /**
   * In every interleaving of calls, those on one file included, the counts stay balanced at every
   * moment exactly when no prune meets a zero count, and each deletes under its key the chunks it
   * has given up.
   */
  lemma AlwaysBalancedIff(actions: seq<Action>)
    requires Disciplined(actions)
    ensures AlwaysBalanced(actions) <==> AllEffective(actions)
  {
    hide Run, Next, Sound, AllBalanced, Effective, CreatorsRegistered, Disciplined;
    if AllEffective(actions) {
      forall i | 0 <= i <= |actions| ensures AllBalanced(Run(actions[..i])) { EffectiveRunBalanced(actions, i); }
    }
    if AlwaysBalanced(actions) {
      forall i | 0 <= i < |actions| ensures Effective(Run(actions[..i]), actions[i]) {
        RunSound(actions, i);
        RunStep(actions, i);
        assert AllBalanced(Run(actions[..i + 1]));
        StepBalancedIff(Run(actions[..i]), actions[i]);
      }
    }
  }

  /** With nothing in flight, balanced counts are exact. */
  lemma QuiescentIsConserved(actions: seq<Action>)
    requires Disciplined(actions) && Run(actions).procs == map[]
    ensures Conserved(Run(actions).tables) <==> AllBalanced(Run(actions))
  {
    hide Run, Occurrences, Sum, CreatorsRegistered, Disciplined;
    assert actions[..|actions|] == actions;
    RunSound(actions, |actions|);
    var s := Run(actions);
    forall h | h in s.tables.chunks
      ensures Balanced(s, h) <==> s.tables.chunks[h].referenceCount == Occurrences(s.tables.versions, h)
    {
      SumZero(Pending(s.procs, h));
      SumZero(Taken(s.procs, h));
    }
  }
}
