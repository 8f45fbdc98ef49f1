/**
 * Overlapping calls that stay out of each other's way: no prune lists a version that another call
 * in flight is counting or pruning (src/version-manager.ts:42-60, 131-144).
 */
module SeparateCalls {
  import opened Sums
  import opened MetadataStore
  import opened ReferenceCounts
  import opened RefcountInterleaving

  /** The stored versions that a call in flight counts up or gives up. */
  function Claims(p: Proc): set<VersionKey> {
    match p
    case Creating(_, _, _, _, _) => {}
    case Counting(f, number, _, _, _) => {VersionKey(f, number)}
    case Pruning(f, queue, _, _) => set i | 0 <= i < |queue| :: VersionKey(f, queue[i].number)
  }

  /** No call in flight is at work on a version that the prune will list. */
  ghost predicate KeepsApart(s: State, a: Action) {
    a.BeginPrune? ==>
      forall c :: c in s.procs ==> Doomed(s.tables.versions, a.fileId, a.cutoff).Keys !! Claims(s.procs[c])
  }

  ghost predicate AllApart(actions: seq<Action>) {
    forall i :: 0 <= i < |actions| ==> KeepsApart(Run(actions[..i]), actions[i])
  }

  // ---------- calls kept apart stand on what they listed ----------

  /** The versions of a call are still stored as it knows them. */
  ghost predicate Stands(versions: Versions, p: Proc) {
    match p
    case Creating(_, _, _, _, _) => true
    case Counting(f, number, hashes, _, _) =>
      VersionKey(f, number) in versions && versions[VersionKey(f, number)].chunkHashes == hashes
    case Pruning(f, queue, _, _) =>
      && (forall i :: 0 <= i < |queue| ==>
            && VersionKey(f, queue[i].number) in versions
            && versions[VersionKey(f, queue[i].number)].chunkHashes == queue[i].hashes)
      && (forall i, j :: 0 <= i < j < |queue| ==> queue[i].number != queue[j].number)
  }

  ghost predicate Apart(s: State) {
    && (forall c :: c in s.procs ==> Stands(s.tables.versions, s.procs[c]))
    && (forall c, d :: c in s.procs && d in s.procs && c != d ==> Claims(s.procs[c]) !! Claims(s.procs[d]))
  }

  lemma StandsOnStored(versions: Versions, p: Proc)
    requires Stands(versions, p)
    ensures Claims(p) <= versions.Keys
  {
  }

  /** Changes outside what a call claims leave it standing. */
  lemma StandsFrame(versions: Versions, versions': Versions, p: Proc)
    requires Stands(versions, p)
    requires forall k :: k in Claims(p) && k in versions ==> k in versions' && versions'[k] == versions[k]
    ensures Stands(versions', p)
  {
    match p
    case Pruning(f, queue, _, _) =>
      forall i | 0 <= i < |queue| ensures VersionKey(f, queue[i].number) in Claims(p) {}
    case _ =>
  }

  /** The shape of a step of call `c`: its own standing, its claims, and what it does to versions of others. */
  lemma ApartStep(s: State, s': State, c: nat)
    requires Apart(s)
    requires forall d :: d != c ==> (d in s'.procs <==> d in s.procs) && (d in s.procs ==> s'.procs[d] == s.procs[d])
    requires c in s'.procs ==> Stands(s'.tables.versions, s'.procs[c])
    requires c in s'.procs ==> forall d :: d in s.procs && d != c ==> Claims(s'.procs[c]) !! Claims(s.procs[d])
    requires forall d, k :: d in s.procs && d != c && k in Claims(s.procs[d]) && k in s.tables.versions ==>
               k in s'.tables.versions && s'.tables.versions[k] == s.tables.versions[k]
    ensures Apart(s')
  {
    hide Claims, Stands;
    forall d | d in s'.procs ensures Stands(s'.tables.versions, s'.procs[d]) {
      if d != c { StandsFrame(s.tables.versions, s'.tables.versions, s.procs[d]); }
    }
  }

  lemma BeginPruneApart(s: State, a: Action)
    requires Apart(s) && a.BeginPrune? && KeepsApart(s, a)
    ensures Apart(Next(s, a))
  {
    hide Doomed, PruneQueue;
    if a.call !in s.procs {
      var s' := Next(s, a);
      PruneQueueRows(s.tables.versions, a.fileId, a.cutoff);
      assert Claims(s'.procs[a.call]) <= Doomed(s.tables.versions, a.fileId, a.cutoff).Keys;
      assert Stands(s'.tables.versions, s'.procs[a.call]);
      hide Claims, Stands;
      ApartStep(s, s', a.call);
    }
  }

  /** A prune may begin exactly when it keeps apart. */
  lemma BeginPruneApartIff(s: State, a: Action)
    requires Apart(s) && a.BeginPrune? && a.call !in s.procs
    ensures Apart(Next(s, a)) <==> KeepsApart(s, a)
  {
    hide Doomed, PruneQueue;
    var s' := Next(s, a);
    if KeepsApart(s, a) {
      BeginPruneApart(s, a);
    } else {
      var c :| c in s.procs && !(Doomed(s.tables.versions, a.fileId, a.cutoff).Keys !! Claims(s.procs[c]));
      var k :| k in Doomed(s.tables.versions, a.fileId, a.cutoff) && k in Claims(s.procs[c]);
      PruneQueueKeys(s.tables.versions, a.fileId, a.cutoff, k);
      assert k in Claims(s'.procs[a.call]) && k in Claims(s'.procs[c]);
    }
  }

  lemma InsertApart(s: State, c: nat)
    requires Apart(s) && c in s.procs && s.procs[c].Creating?
    ensures Apart(TickCreating(s, c, s.procs[c]))
  {
    var p, s' := s.procs[c], TickCreating(s, c, s.procs[c]);
    forall d | d in s.procs && d != c ensures Claims(s.procs[d]) <= s.tables.versions.Keys {
      StandsOnStored(s.tables.versions, s.procs[d]);
    }
    ApartStep(s, s', c);
  }

  /** Deleting the head of a queue touches no version that another call claims. */
  lemma DeleteApart(s: State, c: nat)
    requires Apart(s) && c in s.procs && s.procs[c].Pruning? && s.procs[c].queue != []
    requires s.procs[c].done >= |s.procs[c].queue[0].hashes|
    ensures Apart(TickPruning(s, c, s.procs[c]))
  {
    var p, s' := s.procs[c], TickPruning(s, c, s.procs[c]);
    assert VersionKey(p.fileId, p.queue[0].number) in Claims(p);
    assert Stands(s.tables.versions, p);
    assert forall i :: 0 <= i < |p.queue[1..]| ==> p.queue[1..][i] == p.queue[i + 1];
    assert Claims(s'.procs[c]) <= Claims(p);
    ApartStep(s, s', c);
  }

  lemma TickApart(s: State, c: nat)
    requires Apart(s) && c in s.procs && !s.procs[c].Creating?
    ensures Apart(Next(s, Tick(c)))
  {
    var p, s' := s.procs[c], Next(s, Tick(c));
    if p.Pruning? && p.queue != [] && p.done >= |p.queue[0].hashes| {
      DeleteApart(s, c);
    } else {
      assert Stands(s.tables.versions, p);
      assert c in s'.procs ==> Claims(s'.procs[c]) == Claims(p);
      hide Claims;
      ApartStep(s, s', c);
    }
  }

  lemma StepApart(s: State, a: Action)
    requires Apart(s) && KeepsApart(s, a)
    ensures Apart(Next(s, a))
  {
    hide Claims, Stands, TickCreating, TickCounting, TickPruning, PruneQueue, ListSize, NextVersion;
    match a
    case Register(_, _) =>
    case AddFile(_, _) =>
    case BeginCreate(c, f, hashes, now) => BeginCreateApart(s, a);
    case BeginPrune(_, _, _) => BeginPruneApart(s, a);
    case Tick(c) =>
      if c in s.procs {
        if s.procs[c].Creating? { InsertApart(s, c); } else { TickApart(s, c); }
      }
  }

  lemma BeginCreateApart(s: State, a: Action)
    requires Apart(s) && a.BeginCreate?
    ensures Apart(Next(s, a))
  {
    hide NextVersion, ListSize;
    if a.call !in s.procs {
      ApartStep(s, Next(s, a), a.call);
    }
  }

  // ---------- and then their updates are never refused ----------

  /** The version whose chunks a call is in the middle of. */
  function HeadOf(p: Proc): VersionKey
    requires p.Counting? || (p.Pruning? && p.queue != [])
  {
    if p.Counting? then VersionKey(p.fileId, p.number) else VersionKey(p.fileId, p.queue[0].number)
  }

  ghost function Heads(procs: Procs): map<nat, VersionKey> {
    map c | c in procs && (procs[c].Counting? || (procs[c].Pruning? && procs[c].queue != [])) :: HeadOf(procs[c])
  }

  /** What each call has outstanding for `h`, and one more for call `c`. */
  ghost function Outstanding(procs: Procs, h: string, c: nat, more: nat): map<nat, int> {
    map d | d in procs :: PendingOf(procs[d], h) + TakenOf(procs[d], h) + if d == c then more else 0
  }

  lemma OutstandingSum(procs: Procs, h: string, c: nat, more: nat)
    requires c in procs || more == 0
    ensures Sum(Outstanding(procs, h, c, more)) == Sum(Pending(procs, h)) + Sum(Taken(procs, h)) + more
  {
    hide PendingOf, TakenOf;
    SumAdd(Pending(procs, h), Taken(procs, h), Outstanding(procs, h, c, 0));
    if c in procs {
      assert Outstanding(procs, h, c, more) ==
             Outstanding(procs, h, c, 0)[c := PendingOf(procs[c], h) + TakenOf(procs[c], h) + more];
      SumUpdate(Outstanding(procs, h, c, 0), c, PendingOf(procs[c], h) + TakenOf(procs[c], h) + more);
    } else {
      assert Outstanding(procs, h, c, more) == Outstanding(procs, h, c, 0);
    }
  }

  lemma HeadsApart(s: State)
    requires Apart(s)
    ensures forall c, d :: c in Heads(s.procs) && d in Heads(s.procs) && Heads(s.procs)[c] == Heads(s.procs)[d] ==>
              c == d
    ensures forall c :: c in Heads(s.procs) ==> Heads(s.procs)[c] in s.tables.versions
  {
    forall c | c in Heads(s.procs)
      ensures Heads(s.procs)[c] in Claims(s.procs[c]) && Heads(s.procs)[c] in s.tables.versions
    {
      assert Stands(s.tables.versions, s.procs[c]);
      if s.procs[c].Pruning? { assert VersionKey(s.procs[c].fileId, s.procs[c].queue[0].number) in Claims(s.procs[c]); }
    }
  }

  /** A call has no more outstanding for `h` than its version lists, and less while it is about to take one. */
  lemma OutstandingBound(s: State, d: nat, h: string)
    requires Sound(s) && Apart(s) && d in s.procs
    ensures d !in Heads(s.procs) ==> PendingOf(s.procs[d], h) + TakenOf(s.procs[d], h) == 0
    ensures d in Heads(s.procs) ==>
              && Heads(s.procs)[d] in s.tables.versions
              && PendingOf(s.procs[d], h) + TakenOf(s.procs[d], h) + (if Takes(s.procs[d], h) then 1 else 0) <=
                 Mult(s.tables.versions[Heads(s.procs)[d]].chunkHashes, h)
  {
    hide Mult;
    var p := s.procs[d];
    assert ProcOk(s.tables.chunks, p) && Stands(s.tables.versions, p);
    if p.Counting? {
      MultSplit(p.hashes, p.done, h);
    } else if p.Pruning? && p.queue != [] {
      MultSplit(p.queue[0].hashes, p.done, h);
      if Takes(p, h) { MultSplit(p.queue[0].hashes, p.done + 1, h); }
    }
  }

  /** The next decrement of `p` is of `h`. */
  predicate Takes(p: Proc, h: string) {
    p.Pruning? && p.queue != [] && p.done < |p.queue[0].hashes| && p.queue[0].hashes[p.done] == h
  }

  lemma OutstandingCharged(s: State, h: string, c: nat, more: nat)
    requires Sound(s) && Apart(s) && more <= 1 && (more == 1 ==> c in s.procs && Takes(s.procs[c], h))
    ensures Sum(Pending(s.procs, h)) + Sum(Taken(s.procs, h)) + more <= Occurrences(s.tables.versions, h)
  {
    hide PendingOf, TakenOf, Sound, Apart, Mult, Heads, Takes;
    HeadsApart(s);
    forall d | d in s.procs
      ensures Outstanding(s.procs, h, c, more)[d] > 0 ==>
                && d in Heads(s.procs) && Heads(s.procs)[d] in Mentions(s.tables.versions, h)
                && Outstanding(s.procs, h, c, more)[d] <= Mentions(s.tables.versions, h)[Heads(s.procs)[d]]
    {
      OutstandingBound(s, d, h);
      if d == c && more == 1 { TakesHasHead(s.procs, d, h); }
    }
    SumCharged(Outstanding(s.procs, h, c, more), Mentions(s.tables.versions, h), Heads(s.procs));
    OutstandingSum(s.procs, h, c, more);
  }

  lemma TakesHasHead(procs: Procs, d: nat, h: string)
    requires d in procs && Takes(procs[d], h)
    ensures d in Heads(procs)
  {
  }

  lemma ApartEffective(s: State, a: Action)
    requires Sound(s) && Apart(s) && AllBalanced(s)
    ensures Effective(s, a)
  {
    hide Sound, Apart, Occurrences, Sum, Mult;
    if a.Tick? && a.call in s.procs && s.procs[a.call].Pruning? && s.procs[a.call].queue != [] {
      var p := s.procs[a.call];
      PruningRegistered(s, a.call);
      HeadStored(s, a.call);
      if p.done < |p.queue[0].hashes| {
        var h := p.queue[0].hashes[p.done];
        assert Balanced(s, h);
        OutstandingCharged(s, h, a.call, 1);
      }
    }
  }

  lemma HeadStored(s: State, c: nat)
    requires Apart(s) && c in s.procs && s.procs[c].Pruning? && s.procs[c].queue != []
    ensures var row := s.procs[c].queue[0];
            StoredList(s.tables.versions, VersionKey(s.procs[c].fileId, row.number)) == row.hashes
  {
    assert Stands(s.tables.versions, s.procs[c]);
  }

  // ---------- every reachable state ----------

  ghost predicate Inv(s: State) {
    Sound(s) && Apart(s) && AllBalanced(s)
  }

  lemma StepInv(s: State, a: Action)
    requires Inv(s) && KeepsApart(s, a) && InsertsRegistered(s, a)
    ensures Inv(Next(s, a)) && Effective(s, a)
  {
    hide Sound, Apart, AllBalanced, Effective, KeepsApart, InsertsRegistered, Next;
    ApartEffective(s, a);
    StepSound(s, a);
    StepApart(s, a);
    StepBalancedIff(s, a);
  }

  lemma NothingInv()
    ensures Inv(Run([])) && CreatorsRegistered(Run([]))
  {
    NothingSound();
  }

  lemma {:induction false} RunInv(actions: seq<Action>, i: nat)
    requires Disciplined(actions) && AllApart(actions) && i <= |actions|
    ensures Inv(Run(actions[..i])) && CreatorsRegistered(Run(actions[..i]))
  {
    hide Inv, Next, KeepsApart, CreatorsRegistered;
    if i == 0 {
      NothingInv();
    } else {
      RunInv(actions, i - 1);
      RunStep(actions, i - 1);
      CreatorsStayRegistered(Run(actions[..i - 1]), actions[i - 1]);
      StepInv(Run(actions[..i - 1]), actions[i - 1]);
    }
  }

  /** Calls kept apart are effective throughout, whatever else overlaps. */
  lemma ApartRunsAreEffective(actions: seq<Action>)
    requires Disciplined(actions) && AllApart(actions)
    ensures AllEffective(actions) && AlwaysBalanced(actions)
  {
    hide Inv, Run, Next, KeepsApart, CreatorsRegistered, Disciplined, Effective, AlwaysBalanced;
    forall i | 0 <= i < |actions| ensures Effective(Run(actions[..i]), actions[i]) {
      RunInv(actions, i);
      InvEffective(Run(actions[..i]), actions[i]);
    }
    AlwaysBalancedIff(actions);
  }

  lemma InvEffective(s: State, a: Action)
    requires Inv(s)
    ensures Effective(s, a)
  {
    ApartEffective(s, a);
  }

  /**
   * At every moment of every interleaving of calls kept apart: the stored count, plus the
   * increments still to come, plus the decrements already made for versions not yet deleted, is the
   * number of occurrences in stored versions, and no count is negative.
   */
  lemma InterleavedConservation(actions: seq<Action>, h: string)
    requires Disciplined(actions) && AllApart(actions) && h in Run(actions).tables.chunks
    ensures var s := Run(actions);
            && s.tables.chunks[h].referenceCount + Sum(Pending(s.procs, h)) + Sum(Taken(s.procs, h)) ==
               Occurrences(s.tables.versions, h)
            && s.tables.chunks[h].referenceCount >= 0
  {
    hide Run, Occurrences, Mult, Sum, Sound, Apart, KeepsApart, Disciplined, CreatorsRegistered;
    assert actions[..|actions|] == actions;
    RunInv(actions, |actions|);
    assert Balanced(Run(actions), h);
    OutstandingCharged(Run(actions), h, 0, 0);
  }

  /** No read of a prune ever meets a missing row or a zero count, and no increment is lost. */
  lemma NoUpdateRefused(actions: seq<Action>, c: nat)
    requires Disciplined(actions) && AllApart(actions) && c in Run(actions).procs
    ensures var s, p := Run(actions), Run(actions).procs[c];
            && (p.Pruning? && p.queue != [] && p.done < |p.queue[0].hashes| ==>
                  var h := p.queue[0].hashes[p.done]; h in s.tables.chunks && s.tables.chunks[h].referenceCount > 0)
            && (p.Counting? && p.done < |p.hashes| ==> p.hashes[p.done] in s.tables.chunks)
  {
    hide Run, Apart, Occurrences, Sum, Mult, KeepsApart, Disciplined, CreatorsRegistered;
    assert actions[..|actions|] == actions;
    RunInv(actions, |actions|);
    var s, p := Run(actions), Run(actions).procs[c];
    assert ProcOk(s.tables.chunks, p);
    if p.Pruning? && p.queue != [] && p.done < |p.queue[0].hashes| {
      var h := p.queue[0].hashes[p.done];
      PruningRegistered(s, c);
      assert Balanced(s, h);
      OutstandingCharged(s, h, c, 1);
    }
    if p.Counting? && p.done < |p.hashes| { assert p.hashes[p.done] in p.hashes; }
  }
}
