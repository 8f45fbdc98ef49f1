/**
 * Garbage collection while versions are being created and pruned, one store call per step
 * (src/background-jobs.ts:63-86, src/version-manager.ts:42-60, 131-144).
 */
module CollectionInterleaving {
  import opened Collections
  import opened Sums
  import opened MetadataStore
  import opened ReferenceCounts
  import opened VersionManager
  import opened RefcountInterleaving
  import opened SeparateCalls
  import Conservation

  /**
   * The calls on versions, the orphans a collection has listed and not handled yet, and the chunks
   * of which some storage node has a copy.
   */
  datatype World = World(state: State, queue: seq<string>, copies: set<string>)

  /**
   * `List` reads the orphans in any order.  `Sweep` handles the next one: it deletes the copies,
   * unless some node keeps its own, and then the row, unless that fails.
   */
  datatype Move =
    | Do(action: Action)
    | Upload(chunkHash: string)
    | List(order: seq<string>)
    | Sweep(nodeKeeps: bool, rowFails: bool)

  function WithoutChunk(s: State, h: string): State {
    s.(tables := s.tables.(chunks := s.tables.chunks - {h}))
  }

  predicate Lists(order: seq<string>, orphans: set<string>) {
    Elements(order) == orphans && |order| == |orphans|
  }

  /** A collection only begins when none is under way. */
  function Advance(w: World, m: Move): World {
    match m
    case Do(a) => w.(state := RefcountInterleaving.Next(w.state, a))
    case Upload(h) => w.(copies := w.copies + {h})
    case List(order) =>
      if w.queue == [] && Lists(order, Orphans(w.state.tables.chunks)) then w.(queue := order) else w
    case Sweep(nodeKeeps, rowFails) =>
      if w.queue == [] then w else
        var h := w.queue[0];
        World(if rowFails then w.state else WithoutChunk(w.state, h), w.queue[1..],
              if nodeKeeps then w.copies else w.copies - {h})
  }

  function Play(moves: seq<Move>): World {
    if moves == [] then World(NOTHING, [], {}) else Advance(Play(moves[..|moves| - 1]), moves[|moves| - 1])
  }

  /** Callers register chunks before they name them in a version. */
  ghost predicate Disciplined(moves: seq<Move>) {
    forall i :: 0 <= i < |moves| && moves[i].Do? && moves[i].action.BeginCreate? ==>
      Conservation.Registered(Play(moves[..i]).state.tables.chunks, moves[i].action.hashes)
  }

  /** No prune lists a version that another call in flight is at work on. */
  ghost predicate AllApart(moves: seq<Move>) {
    forall i :: 0 <= i < |moves| && moves[i].Do? ==> KeepsApart(Play(moves[..i]).state, moves[i].action)
  }

  lemma PlayStep(moves: seq<Move>, i: nat)
    requires i < |moves|
    ensures Play(moves[..i + 1]) == Advance(Play(moves[..i]), moves[i])
  {
    assert moves[..i + 1][..i] == moves[..i];
  }

  // ---------- a collection with nothing in between ----------

  /** The sweeps of everything listed; `keeps` and `rowFails` say which deletions fail. */
  function SweepAll(w: World, keeps: string -> bool, rowFails: string -> bool): World
    decreases |w.queue|
  {
    if w.queue == [] then w
    else SweepAll(Advance(w, Sweep(keeps(w.queue[0]), rowFails(w.queue[0]))), keeps, rowFails)
  }

  lemma {:induction false} SweepAllIs(w: World, keeps: string -> bool, rowFails: string -> bool)
    ensures var t := w.state.tables;
            SweepAll(w, keeps, rowFails) ==
            World(w.state.(tables := t.(chunks := Swept(t.chunks, w.queue, rowFails))), [],
                  set h | h in w.copies && !(h in w.queue && !keeps(h)))
    decreases |w.queue|
  {
    var chunks := w.state.tables.chunks;
    if w.queue == [] {
      assert Swept(chunks, [], rowFails) == chunks;
    } else {
      var h, rest := w.queue[0], w.queue[1..];
      assert w.queue == [h] + rest;
      var next := Advance(w, Sweep(keeps(h), rowFails(h)));
      SweepAllIs(next, keeps, rowFails);
      assert Swept(chunks, w.queue, rowFails) == Swept(next.state.tables.chunks, rest, rowFails);
      assert (set x | x in w.copies && !(x in w.queue && !keeps(x))) ==
             set x | x in next.copies && !(x in rest && !keeps(x));
    }
  }

  /** It is the collection that runs as one step: the orphans' rows and copies go, as far as the deletions succeed. */
  lemma CollectAlone(w: World, order: seq<string>, keeps: string -> bool, rowFails: string -> bool)
    requires w.queue == [] && Lists(order, Orphans(w.state.tables.chunks))
    ensures SweepAll(Advance(w, List(order)), keeps, rowFails) ==
            World(w.state.(tables := Collected(w.state.tables, rowFails)), [],
                  set h | h in w.copies && !(h in Orphans(w.state.tables.chunks) && !keeps(h)))
  {
    hide Lists, Orphans;
    var listed := w.(queue := order);
    ListedOrphans(w, order);
    SweepAllIs(listed, keeps, rowFails);
    SweptIsCollected(w.state.tables, order, rowFails);
  }

  lemma ListedOrphans(w: World, order: seq<string>)
    requires w.queue == [] && Lists(order, Orphans(w.state.tables.chunks))
    ensures Advance(w, List(order)) == w.(queue := order)
    ensures forall h :: h in order <==> h in Orphans(w.state.tables.chunks)
    ensures forall h :: h in order <==> h in w.state.tables.chunks && w.state.tables.chunks[h].referenceCount == 0
  {
    forall h ensures h in order <==> h in Orphans(w.state.tables.chunks) {
      assert h in order <==> h in Elements(order);
    }
  }

  // ---------- which chunks a sweep may hit ----------

  /** The count is zero, and nothing in flight has yet to count `h` or has counted it down early. */
  ghost predicate Idle(s: State, h: string) {
    h in s.tables.chunks ==>
      && s.tables.chunks[h].referenceCount == 0
      && Sum(Pending(s.procs, h)) == 0 && Sum(Taken(s.procs, h)) == 0
  }

  /** Some version about to be inserted names `h`. */
  ghost predicate Expected(procs: Procs, h: string) {
    exists c :: c in procs && procs[c].Creating? && h in procs[c].hashes
  }

  ghost predicate Unused(s: State, h: string) {
    h in s.tables.chunks ==> Idle(s, h) && !Expected(s.procs, h)
  }

  ghost predicate Listed(versions: Versions, h: string) {
    exists k :: k in versions && h in versions[k].chunkHashes
  }

  /** The counters tell whether a stored version lists the chunk. */
  lemma UnlistedIff(s: State, h: string)
    requires Inv(s) && h in s.tables.chunks
    ensures !Listed(s.tables.versions, h) <==> Idle(s, h)
  {
    hide Occurrences, Mult, Pending, Taken, Sum, Sound, Apart;
    assert Balanced(s, h);
    OutstandingCharged(s, h, 0, 0);
    OutstandingNotNegative(s.procs, h);
    OccurrencesZeroIff(s.tables.versions, h);
  }

  lemma OutstandingNotNegative(procs: Procs, h: string)
    ensures Sum(Pending(procs, h)) >= 0 && Sum(Taken(procs, h)) >= 0
  {
    hide Sum;
    SumNonNegative(Pending(procs, h));
    SumNonNegative(Taken(procs, h));
  }

  lemma UnlistedWithoutRow(s: State, h: string)
    requires ListsRegistered(s.tables) && h !in s.tables.chunks
    ensures !Listed(s.tables.versions, h)
  {
  }

  lemma IdleIsUnlisted(s: State, h: string)
    requires Inv(s)
    ensures Idle(s, h) <==> !Listed(s.tables.versions, h)
  {
    hide Sum, Pending, Taken, Listed, Apart, AllBalanced;
    if h in s.tables.chunks { UnlistedIff(s, h); } else { UnlistedWithoutRow(s, h); }
  }

  /** What a call at work on unlisted chunks only would be. */
  lemma UnlistedRowGoes(s: State, h: string, c: nat)
    requires Sound(s) && Apart(s) && !Listed(s.tables.versions, h) && c in s.procs
    ensures ProcOk(s.tables.chunks - {h}, s.procs[c])
  {
    var p := s.procs[c];
    assert ProcOk(s.tables.chunks, p) && Stands(s.tables.versions, p);
    if p.Pruning? {
      forall i | 0 <= i < |p.queue| ensures h !in p.queue[i].hashes {
        assert VersionKey(p.fileId, p.queue[i].number) in s.tables.versions;
      }
    }
  }

  /** Sweeping an unlisted chunk keeps the invariant of the calls. */
  lemma SweepInv(s: State, h: string)
    requires Inv(s) && !Listed(s.tables.versions, h)
    ensures Inv(WithoutChunk(s, h))
  {
    hide Balanced, ProcOk, Stands, Claims;
    var s' := WithoutChunk(s, h);
    forall c | c in s'.procs ensures ProcOk(s'.tables.chunks, s'.procs[c]) { UnlistedRowGoes(s, h, c); }
    forall x | x in s'.tables.chunks ensures Balanced(s', x) { BalancedFrame(s, s', x); }
  }

  // ---------- rows of chunks in use ----------

  /** Every chunk that a stored version lists, or a version about to be inserted names, has a row. */
  ghost predicate AllRegistered(s: State) {
    ListsRegistered(s.tables) && CreatorsRegistered(s)
  }

  /** Deleting the row of `h` leaves every chunk in use registered exactly when `h` is unused. */
  lemma SweepKeepsRegisteredIff(s: State, h: string)
    requires Inv(s) && CreatorsRegistered(s)
    ensures AllRegistered(WithoutChunk(s, h)) <==> Unused(s, h)
  {
    hide Inv, Sum, Pending, Taken, Idle;
    InvRegisters(s);
    var s' := WithoutChunk(s, h);
    if h !in s.tables.chunks {
      assert s'.tables.chunks == s.tables.chunks;
    } else {
      UnlistedIff(s, h);
      if k :| k in s.tables.versions && h in s.tables.versions[k].chunkHashes {
        assert !Conservation.Registered(s'.tables.chunks, s'.tables.versions[k].chunkHashes);
      } else {
        assert ListsRegistered(s'.tables);
      }
    }
  }

  lemma InvRegisters(s: State)
    requires Inv(s)
    ensures ListsRegistered(s.tables)
  {
  }

  /** The chunk whose row a move deletes. */
  ghost predicate Deletes(w: World, m: Move, h: string) {
    m.Sweep? && !m.rowFails && w.queue != [] && w.queue[0] == h
  }

  ghost predicate SweepsUnused(moves: seq<Move>) {
    forall i, h :: 0 <= i < |moves| && Deletes(Play(moves[..i]), moves[i], h) ==> Unused(Play(moves[..i]).state, h)
  }

  ghost predicate AlwaysRegistered(moves: seq<Move>) {
    forall i :: 0 <= i <= |moves| ==> AllRegistered(Play(moves[..i]).state)
  }

  lemma MoveInv(w: World, m: Move)
    requires Inv(w.state) && CreatorsRegistered(w.state)
    requires m.Do? ==> KeepsApart(w.state, m.action)
    requires m.Do? && m.action.BeginCreate? ==> Conservation.Registered(w.state.tables.chunks, m.action.hashes)
    requires forall h :: Deletes(w, m, h) ==> Unused(w.state, h)
    ensures Inv(Advance(w, m).state) && CreatorsRegistered(Advance(w, m).state)
  {
    hide Inv, CreatorsRegistered, RefcountInterleaving.Next, KeepsApart;
    match m
    case Do(a) =>
      CreatorsStayRegistered(w.state, a);
      StepInv(w.state, a);
    case Sweep(_, rowFails) =>
      if w.queue != [] && !rowFails {
        var h := w.queue[0];
        assert Deletes(w, m, h);
        IdleIsUnlisted(w.state, h);
        SweepInv(w.state, h);
        SweepKeepsRegisteredIff(w.state, h);
        assert AllRegistered(WithoutChunk(w.state, h));
      }
    case _ =>
  }

  lemma StartInv()
    ensures Inv(Play([]).state) && CreatorsRegistered(Play([]).state)
  {
    NothingInv();
  }

  lemma {:induction false} PlayInv(moves: seq<Move>, i: nat)
    requires Disciplined(moves) && AllApart(moves) && i <= |moves|
    requires forall j, h :: 0 <= j < i && Deletes(Play(moves[..j]), moves[j], h) ==> Unused(Play(moves[..j]).state, h)
    ensures Inv(Play(moves[..i]).state) && CreatorsRegistered(Play(moves[..i]).state)
  {
    hide Inv, CreatorsRegistered, Advance, Unused, Deletes, KeepsApart;
    if i == 0 {
      StartInv();
    } else {
      PlayInv(moves, i - 1);
      PlayStep(moves, i - 1);
      MoveInv(Play(moves[..i - 1]), moves[i - 1]);
    }
  }

  /** As long as everything stays registered, every sweep so far was of an unused chunk. */
  lemma {:induction false} RegisteredSweepsUnused(moves: seq<Move>, i: nat)
    requires Disciplined(moves) && AllApart(moves) && AlwaysRegistered(moves) && i <= |moves|
    ensures forall j, h :: 0 <= j < i && Deletes(Play(moves[..j]), moves[j], h) ==> Unused(Play(moves[..j]).state, h)
  {
    hide Play, AllRegistered, Unused, Inv, CreatorsRegistered, Disciplined, AllApart;
    if i > 0 {
      RegisteredSweepsUnused(moves, i - 1);
      PlayInv(moves, i - 1) by { hide Deletes; }
      PlayStep(moves, i - 1);
      var w := Play(moves[..i - 1]);
      forall h | Deletes(w, moves[i - 1], h) ensures Unused(w.state, h) {
        assert AllRegistered(Play(moves[..i]).state);
        SweepKeepsRegisteredIff(w.state, h);
      }
    }
  }

  /**
   * In every interleaving with garbage collection, every chunk that a stored version lists or one
   * about to be inserted names keeps its row throughout exactly when each sweep deletes a chunk that
   * counts zero, with no increment to come, no decrement made early and no version about to name it.
   */
  lemma AlwaysRegisteredIff(moves: seq<Move>)
    requires Disciplined(moves) && AllApart(moves)
    ensures AlwaysRegistered(moves) <==> SweepsUnused(moves)
  {
    hide Play, Unused, Deletes, Inv, CreatorsRegistered, Disciplined, AllApart;
    if AlwaysRegistered(moves) {
      RegisteredSweepsUnused(moves, |moves|) by { hide AllRegistered; }
    }
    if SweepsUnused(moves) {
      forall i | 0 <= i <= |moves| ensures AllRegistered(Play(moves[..i]).state) {
        PlayInv(moves, i);
        InvRegisters(Play(moves[..i]).state);
      }
    }
  }

  /** And then the counts stay exact, up to what is in flight, through collections too. */
  lemma CollectedConservation(moves: seq<Move>, h: string)
    requires Disciplined(moves) && AllApart(moves) && SweepsUnused(moves) && h in Play(moves).state.tables.chunks
    ensures var s := Play(moves).state;
            && s.tables.chunks[h].referenceCount + Sum(Pending(s.procs, h)) + Sum(Taken(s.procs, h)) ==
               Occurrences(s.tables.versions, h)
            && s.tables.chunks[h].referenceCount >= 0
  {
    hide Play, Occurrences, Mult, Sum, Unused, Deletes, Sound, Apart, CreatorsRegistered, Disciplined, AllApart;
    assert moves[..|moves|] == moves;
    PlayInv(moves, |moves|);
    assert Balanced(Play(moves).state, h);
    OutstandingCharged(Play(moves).state, h, 0, 0);
  }

  /** With nothing in flight a zero count does suffice. */
  lemma QuietUnusedIff(s: State, h: string)
    requires s.procs == map[] && h in s.tables.chunks
    ensures Unused(s, h) <==> s.tables.chunks[h].referenceCount == 0
  {
    hide Sum;
    SumZero(Pending(s.procs, h));
    SumZero(Taken(s.procs, h));
  }

  // ---------- rows and copies of listed chunks ----------

  /** Every chunk that a stored version lists has a row and a copy. */
  ghost predicate Served(w: World) {
    forall k, h :: k in w.state.tables.versions && h in w.state.tables.versions[k].chunkHashes ==>
      h in w.state.tables.chunks && h in w.copies
  }

  /** A sweep that deletes anything hits a chunk that the counters say is idle. */
  ghost predicate SweepsIdle(w: World, m: Move) {
    m.Sweep? && w.queue != [] && !(m.nodeKeeps && m.rowFails) ==> Idle(w.state, w.queue[0])
  }

  /** An insert that succeeds finds a row and a copy of each of its chunks. */
  ghost predicate InsertsServed(w: World, m: Move) {
    m.Do? && m.action.Tick? && m.action.call in w.state.procs &&
    Inserts(w.state.tables, w.state.procs[m.action.call]) ==>
      forall h :: h in w.state.procs[m.action.call].hashes ==> h in w.state.tables.chunks && h in w.copies
  }

  ghost predicate Careful(w: World, m: Move) {
    SweepsIdle(w, m) && InsertsServed(w, m)
  }

  /** What one step does to versions, rows and copies. */
  lemma DoTables(s: State, a: Action)
    ensures s.tables.chunks.Keys <= RefcountInterleaving.Next(s, a).tables.chunks.Keys
    ensures a.Tick? && a.call in s.procs && Inserts(s.tables, s.procs[a.call]) ==>
              var p := s.procs[a.call];
              RefcountInterleaving.Next(s, a).tables ==
              var key, version := VersionKey(p.fileId, p.number), Version(p.hashes, p.size, p.createdAt);
              s.tables.(versions := s.tables.versions[key := version])
    ensures !(a.Tick? && a.call in s.procs && Inserts(s.tables, s.procs[a.call])) ==>
              forall k :: k in RefcountInterleaving.Next(s, a).tables.versions ==>
                k in s.tables.versions && RefcountInterleaving.Next(s, a).tables.versions[k] == s.tables.versions[k]
  {
    hide NextVersion, ListSize, PruneQueue;
  }

  lemma DoServedIff(w: World, a: Action)
    requires Served(w)
    ensures Served(Advance(w, Do(a))) <==> InsertsServed(w, Do(a))
  {
    hide RefcountInterleaving.Next;
    DoTables(w.state, a);
    var w' := Advance(w, Do(a));
    if a.Tick? && a.call in w.state.procs && Inserts(w.state.tables, w.state.procs[a.call]) {
      var p := w.state.procs[a.call];
      var key := VersionKey(p.fileId, p.number);
      assert key in w'.state.tables.versions && w'.state.tables.versions[key].chunkHashes == p.hashes;
    }
  }

  lemma SweepServedIff(w: World, m: Move)
    requires Served(w) && Inv(w.state) && m.Sweep?
    ensures Served(Advance(w, m)) <==> SweepsIdle(w, m)
  {
    hide Inv, Idle;
    if w.queue != [] {
      IdleIsUnlisted(w.state, w.queue[0]);
    }
  }

  /** A move keeps every listed chunk served exactly when it is careful. */
  lemma MoveServedIff(w: World, m: Move)
    requires Served(w) && Inv(w.state)
    ensures Served(Advance(w, m)) <==> Careful(w, m)
  {
    hide Inv, Idle, RefcountInterleaving.Next;
    match m
    case Do(a) => DoServedIff(w, a);
    case Sweep(_, _) => SweepServedIff(w, m);
    case _ =>
  }

  lemma CarefulInv(w: World, m: Move)
    requires Served(w) && Inv(w.state) && Careful(w, m)
    requires m.Do? ==> KeepsApart(w.state, m.action)
    ensures Inv(Advance(w, m).state)
  {
    hide Inv, Idle, RefcountInterleaving.Next, KeepsApart;
    match m
    case Do(a) => StepInv(w.state, a);
    case Sweep(_, rowFails) =>
      if w.queue != [] && !rowFails {
        IdleIsUnlisted(w.state, w.queue[0]);
        SweepInv(w.state, w.queue[0]);
      }
    case _ =>
  }

  ghost predicate AlwaysServed(moves: seq<Move>) {
    forall i :: 0 <= i <= |moves| ==> Served(Play(moves[..i]))
  }

  ghost predicate AllCareful(moves: seq<Move>) {
    forall i :: 0 <= i < |moves| ==> Careful(Play(moves[..i]), moves[i])
  }

  lemma StartServed()
    ensures Served(Play([]))
  {
  }

  lemma {:induction false} CarefulPlayServed(moves: seq<Move>, i: nat)
    requires AllApart(moves) && AllCareful(moves) && i <= |moves|
    ensures Served(Play(moves[..i])) && Inv(Play(moves[..i]).state)
  {
    hide Inv, Served, Careful, Advance, KeepsApart;
    if i == 0 {
      StartInv();
      StartServed();
    } else {
      CarefulPlayServed(moves, i - 1);
      PlayStep(moves, i - 1);
      MoveServedIff(Play(moves[..i - 1]), moves[i - 1]);
      CarefulInv(Play(moves[..i - 1]), moves[i - 1]);
    }
  }

  lemma {:induction false} ServedPlayCareful(moves: seq<Move>, i: nat)
    requires AllApart(moves) && AlwaysServed(moves) && i <= |moves|
    ensures Inv(Play(moves[..i]).state)
    ensures forall j :: 0 <= j < i ==> Careful(Play(moves[..j]), moves[j])
  {
    hide Inv, Served, Careful, Play, KeepsApart;
    if i == 0 {
      StartInv();
      assert moves[..0] == [];
    } else {
      ServedPlayCareful(moves, i - 1);
      PlayStep(moves, i - 1);
      assert Served(Play(moves[..i - 1])) && Served(Play(moves[..i]));
      MoveServedIff(Play(moves[..i - 1]), moves[i - 1]);
      CarefulInv(Play(moves[..i - 1]), moves[i - 1]);
    }
  }

  /**
   * In every interleaving, every chunk that a stored version lists keeps its row and a copy throughout
   * exactly when each sweep that deletes a row or copies hits an idle chunk, and each version is
   * inserted while its chunks have rows and copies.
   */
  lemma AlwaysServedIff(moves: seq<Move>)
    requires AllApart(moves)
    ensures AlwaysServed(moves) <==> AllCareful(moves)
  {
    hide Inv, Served, Careful, Play, AllApart;
    if AlwaysServed(moves) {
      ServedPlayCareful(moves, |moves|);
    }
    if AllCareful(moves) {
      forall i | 0 <= i <= |moves| ensures Served(Play(moves[..i])) { CarefulPlayServed(moves, i); }
    }
  }
}
