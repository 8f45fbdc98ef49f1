/**
 * Upload sessions (src/upload-manager.ts:35-274, src/background-jobs.ts:91-107,
 * src/metadata-store.ts:363-440, docker/init-db.sql:77-101).
 */
module UploadManager {
  import opened Common
  import opened Collections
  import opened Sorting
  import opened MetadataStore
  import opened ReferenceCounts
  import opened VersionManager
  import opened Conservation

  datatype Status = Active | Completed | Expired

  datatype Session = Session(fileId: string, totalChunks: int, userId: string, expiresAt: int, status: Status)

  datatype Slot = Slot(sessionId: string, sequenceNumber: int)

  datatype UploadError =
    NotFound | SessionExpired | AlreadyCompleted | NotActive | InvalidSequence | NotComplete | StoreRefused

  datatype Result<+T> = Ok(value: T) | Err(error: UploadError)

  type Sessions = map<string, Session>
  type Uploaded = map<Slot, string>

  datatype State = State(sessions: Sessions, uploaded: Uploaded, tables: Tables)

  const SESSION_EXPIRY_DAYS := 7

  /** The sequence numbers a session has received. */
  function Received(uploaded: Uploaded, sessionId: string): set<int> {
    set k | k in uploaded && k.sessionId == sessionId :: k.sequenceNumber
  }

  // ---------- the effect of each operation ----------

  function WithSession(s: State, sessionId: string, session: Session): State {
    if sessionId in s.sessions then s else s.(sessions := s.sessions[sessionId := session])
  }

  function MarkError(s: State, sessionId: string, sequenceNumber: int, now: int): Option<UploadError> {
    if sessionId !in s.sessions then Some(NotFound)
    else
      var session := s.sessions[sessionId];
      if session.status != Active then Some(NotActive)
      else if now > session.expiresAt then Some(SessionExpired)
      else if sequenceNumber < 0 || sequenceNumber >= session.totalChunks then Some(InvalidSequence)
      else None
  }

  /** The first hash accepted for a slot stays. */
  function Marked(s: State, sessionId: string, sequenceNumber: int, chunkHash: string, now: int): State {
    var slot := Slot(sessionId, sequenceNumber);
    if MarkError(s, sessionId, sequenceNumber, now).Some? || slot in s.uploaded then s
    else s.(uploaded := s.uploaded[slot := chunkHash])
  }

  predicate IsComplete(s: State, sessionId: string) {
    sessionId in s.sessions && |Received(s.uploaded, sessionId)| == s.sessions[sessionId].totalChunks
  }

  /** The hashes received, in sequence order. */
  function ReceivedHashes(uploaded: Uploaded, sessionId: string): (r: seq<string>)
    ensures |r| == |Received(uploaded, sessionId)|
  {
    var numbers := SortAscending(Received(uploaded, sessionId));
    seq(|numbers|, i requires 0 <= i < |numbers| =>
      assert numbers[i] in Elements(numbers);
      uploaded[Slot(sessionId, numbers[i])])
  }

  function FinalizeError(s: State, sessionId: string): Option<UploadError> {
    if sessionId !in s.sessions then Some(NotFound)
    else if !IsComplete(s, sessionId) then Some(NotComplete)
    else
      var f := s.sessions[sessionId].fileId;
      if f in s.tables.files || VersionKey(f, 1) in s.tables.versions then Some(StoreRefused) else None
  }

  /** A file, its version 1 and the end of the session. */
  function FinalizedSession(s: State, sessionId: string, now: int): State {
    if sessionId !in s.sessions || !IsComplete(s, sessionId) then s else
      var session := s.sessions[sessionId];
      var list := ReceivedHashes(s.uploaded, sessionId);
      var tables := Finalized(s.tables, session.fileId, File(session.userId, 1), list, now);
      if FinalizeError(s, sessionId).Some? then s.(tables := tables)
      else s.(tables := tables, sessions := s.sessions[sessionId := session.(status := Completed)])
  }

  predicate Due(session: Session, now: int) {
    session.expiresAt < now && session.status == Active
  }

  /** Deleting a session deletes its rows; one whose deletion fails stays behind as expired. */
  function CleanedUp(s: State, now: int, updateFails: string -> bool, deleteFails: string -> bool): State {
    var removed := set id | id in s.sessions && Due(s.sessions[id], now) && !updateFails(id) && !deleteFails(id);
    s.(sessions := map id | id in s.sessions && id !in removed ::
         if Due(s.sessions[id], now) && !updateFails(id) then s.sessions[id].(status := Expired) else s.sessions[id],
       uploaded := map k | k in s.uploaded && k.sessionId !in removed :: s.uploaded[k])
  }

  /** Every received row belongs to a session and lies within its range. */
  ghost predicate RowsOk(s: State) {
    forall k :: k in s.uploaded ==>
      k.sessionId in s.sessions && 0 <= k.sequenceNumber < s.sessions[k.sessionId].totalChunks
  }

  // ---------- counting decides completion ----------

  /** The pigeonhole step: as many rows as chunks means every sequence number is there. */
  lemma CompleteMeansAllReceived(s: State, sessionId: string)
    requires RowsOk(s) && sessionId in s.sessions
    ensures IsComplete(s, sessionId) <==>
            s.sessions[sessionId].totalChunks >= 0
              && Received(s.uploaded, sessionId) == Interval(0, s.sessions[sessionId].totalChunks)
  {
    var n, received := s.sessions[sessionId].totalChunks, Received(s.uploaded, sessionId);
    if n >= 0 {
      assert received <= Interval(0, n);
      if |received| == n {
        SubsetEqual(received, Interval(0, n));
      }
    }
  }

  /** The same without counting: every number from 0 to n - 1 has a row. */
  lemma CompleteIff(s: State, sessionId: string)
    requires RowsOk(s) && sessionId in s.sessions
    ensures IsComplete(s, sessionId) <==>
            var n := s.sessions[sessionId].totalChunks;
            n >= 0 && forall i :: 0 <= i < n ==> Slot(sessionId, i) in s.uploaded
  {
    var n, received := s.sessions[sessionId].totalChunks, Received(s.uploaded, sessionId);
    CompleteMeansAllReceived(s, sessionId);
    forall i ensures i in received <==> Slot(sessionId, i) in s.uploaded {
      if Slot(sessionId, i) in s.uploaded { assert Slot(sessionId, i).sequenceNumber == i; }
    }
    if n >= 0 && forall i :: 0 <= i < n ==> Slot(sessionId, i) in s.uploaded {
      assert received == Interval(0, n);
    } else if n >= 0 {
      var i :| 0 <= i < n && Slot(sessionId, i) !in s.uploaded;
      assert i in Interval(0, n) && i !in received;
    }
  }

  /** An ascending list of n numbers below n counts from 0. */
  lemma {:induction false} AscendingCounts(a: seq<int>, i: nat)
    requires forall p, q :: 0 <= p < q < |a| ==> a[p] < a[q]
    requires forall p :: 0 <= p < |a| ==> 0 <= a[p] < |a|
    requires i < |a|
    ensures a[i] >= i && a[|a| - 1 - i] <= |a| - 1 - i
  {
    if i > 0 {
      AscendingCounts(a, i - 1);
    }
  }

  lemma AscendingIsIdentity(a: seq<int>)
    requires forall p, q :: 0 <= p < q < |a| ==> a[p] < a[q]
    requires forall p :: 0 <= p < |a| ==> 0 <= a[p] < |a|
    ensures forall i :: 0 <= i < |a| ==> a[i] == i
  {
    forall i | 0 <= i < |a| ensures a[i] == i {
      AscendingCounts(a, i);
      AscendingCounts(a, |a| - 1 - i);
    }
  }

  lemma CompleteHasSession(s: State, sessionId: string)
    requires IsComplete(s, sessionId)
    ensures sessionId in s.sessions
  {
  }

  lemma SortedInterval(n: nat)
    ensures |SortAscending(Interval(0, n))| == n
    ensures forall i :: 0 <= i < n ==> SortAscending(Interval(0, n))[i] == i
  {
    hide SortAscending;
    var numbers := SortAscending(Interval(0, n));
    forall p | 0 <= p < n ensures 0 <= numbers[p] < n {
      assert numbers[p] in Elements(numbers);
    }
    AscendingIsIdentity(numbers);
  }

  /** The list a complete session is finalized with: entry i is the hash received for i. */
  lemma FinalizedList(s: State, sessionId: string)
    requires RowsOk(s) && IsComplete(s, sessionId)
    ensures var list := ReceivedHashes(s.uploaded, sessionId);
            && |list| == s.sessions[sessionId].totalChunks
            && forall i :: 0 <= i < |list| ==>
               Slot(sessionId, i) in s.uploaded && list[i] == s.uploaded[Slot(sessionId, i)]
  {
    hide ReceivedHashes, Received, RowsOk, IsComplete, SortAscending, Interval;
    var list := ReceivedHashes(s.uploaded, sessionId);
    assert sessionId in s.sessions by { CompleteHasSession(s, sessionId); }
    CompleteMeansAllReceived(s, sessionId);
    ReceivedHashesAt(s.uploaded, sessionId);
    SortedInterval(s.sessions[sessionId].totalChunks);
    forall i | 0 <= i < |list|
      ensures Slot(sessionId, i) in s.uploaded && list[i] == s.uploaded[Slot(sessionId, i)]
    {
      assert SortAscending(Received(s.uploaded, sessionId))[i] == i;
      assert Lookup(s.uploaded, sessionId, i) == Some(list[i]);
    }
  }

  // ---------- order does not matter ----------

  datatype Attempt = Attempt(sequenceNumber: int, chunkHash: string, now: int)

  function MarkAll(s: State, sessionId: string, attempts: seq<Attempt>): State {
    if attempts == [] then s else
      var a := attempts[|attempts| - 1];
      Marked(MarkAll(s, sessionId, attempts[..|attempts| - 1]), sessionId, a.sequenceNumber, a.chunkHash, a.now)
  }

  /** The hash of the first attempt for `i` that is in range and in time. */
  function FirstHash(session: Session, attempts: seq<Attempt>, i: int): Option<string> {
    if attempts == [] then None else
      var before, a := FirstHash(session, attempts[..|attempts| - 1], i), attempts[|attempts| - 1];
      if before.Some? then before
      else if a.sequenceNumber == i && 0 <= i < session.totalChunks && a.now <= session.expiresAt then Some(a.chunkHash)
      else None
  }

  function Lookup(uploaded: Uploaded, sessionId: string, i: int): Option<string> {
    if Slot(sessionId, i) in uploaded then Some(uploaded[Slot(sessionId, i)]) else None
  }

  lemma {:induction false} RowsAreFirstHashes(s: State, sessionId: string, attempts: seq<Attempt>)
    requires sessionId in s.sessions && s.sessions[sessionId].status == Active && Received(s.uploaded, sessionId) == {}
    ensures MarkAll(s, sessionId, attempts).sessions == s.sessions
    ensures forall i :: Lookup(MarkAll(s, sessionId, attempts).uploaded, sessionId, i) ==
              FirstHash(s.sessions[sessionId], attempts, i)
  {
    if attempts == [] {
      assert forall i :: Slot(sessionId, i) in s.uploaded ==> i in Received(s.uploaded, sessionId);
    } else {
      RowsAreFirstHashes(s, sessionId, attempts[..|attempts| - 1]);
    }
  }

  lemma {:induction false} MarkAllRowsOk(s: State, sessionId: string, attempts: seq<Attempt>)
    requires RowsOk(s)
    ensures RowsOk(MarkAll(s, sessionId, attempts))
  {
    if attempts != [] {
      MarkAllRowsOk(s, sessionId, attempts[..|attempts| - 1]);
    }
  }

  /** A finalized list holds the first accepted hash for each sequence number. */
  lemma FinalizedListIsFirstHashes(s: State, sessionId: string, attempts: seq<Attempt>)
    requires RowsOk(s) && sessionId in s.sessions && s.sessions[sessionId].status == Active
    requires Received(s.uploaded, sessionId) == {}
    requires IsComplete(MarkAll(s, sessionId, attempts), sessionId)
    ensures var list := ReceivedHashes(MarkAll(s, sessionId, attempts).uploaded, sessionId);
            && |list| == s.sessions[sessionId].totalChunks
            && forall i :: 0 <= i < |list| ==> FirstHash(s.sessions[sessionId], attempts, i) == Some(list[i])
  {
    hide MarkAll, FirstHash, ReceivedHashes, IsComplete, RowsOk, Received;
    RowsAreFirstHashes(s, sessionId, attempts);
    MarkAllRowsOk(s, sessionId, attempts);
    var t := MarkAll(s, sessionId, attempts);
    FinalizedList(t, sessionId);
    var list := ReceivedHashes(t.uploaded, sessionId);
    forall i | 0 <= i < |list| ensures FirstHash(s.sessions[sessionId], attempts, i) == Some(list[i]) {
      assert Lookup(t.uploaded, sessionId, i) == Some(list[i]);
    }
  }

  /** Two orders or retry patterns with the same first hashes finalize the same list. */
  lemma FinalizationIgnoresOrder(s: State, sessionId: string, attempts: seq<Attempt>, attempts': seq<Attempt>)
    requires RowsOk(s) && sessionId in s.sessions && s.sessions[sessionId].status == Active
    requires Received(s.uploaded, sessionId) == {}
    requires forall i :: FirstHash(s.sessions[sessionId], attempts, i) == FirstHash(s.sessions[sessionId], attempts', i)
    ensures IsComplete(MarkAll(s, sessionId, attempts), sessionId) <==>
            IsComplete(MarkAll(s, sessionId, attempts'), sessionId)
    ensures ReceivedHashes(MarkAll(s, sessionId, attempts).uploaded, sessionId) ==
            ReceivedHashes(MarkAll(s, sessionId, attempts').uploaded, sessionId)
  {
    hide MarkAll, FirstHash;
    RowsAreFirstHashes(s, sessionId, attempts);
    RowsAreFirstHashes(s, sessionId, attempts');
    SameRowsSameList(MarkAll(s, sessionId, attempts).uploaded, MarkAll(s, sessionId, attempts').uploaded, sessionId);
  }

  lemma ReceivedHashesAt(uploaded: Uploaded, sessionId: string)
    ensures var numbers := SortAscending(Received(uploaded, sessionId));
            && |ReceivedHashes(uploaded, sessionId)| == |numbers|
            && forall k :: 0 <= k < |numbers| ==>
                 Lookup(uploaded, sessionId, numbers[k]) == Some(ReceivedHashes(uploaded, sessionId)[k])
  {
    var numbers := SortAscending(Received(uploaded, sessionId));
    forall k | 0 <= k < |numbers|
      ensures Lookup(uploaded, sessionId, numbers[k]) == Some(ReceivedHashes(uploaded, sessionId)[k])
    {
      assert numbers[k] in Elements(numbers);
    }
  }

  lemma SameReceived(a: Uploaded, b: Uploaded, sessionId: string)
    requires forall i :: Lookup(a, sessionId, i) == Lookup(b, sessionId, i)
    ensures Received(a, sessionId) == Received(b, sessionId)
  {
    forall i ensures i in Received(a, sessionId) <==> i in Received(b, sessionId) {
      assert i in Received(a, sessionId) <==> Slot(sessionId, i) in a;
      assert i in Received(b, sessionId) <==> Slot(sessionId, i) in b;
      assert Lookup(a, sessionId, i) == Lookup(b, sessionId, i);
    }
  }

  lemma SameRowsSameList(a: Uploaded, b: Uploaded, sessionId: string)
    requires forall i :: Lookup(a, sessionId, i) == Lookup(b, sessionId, i)
    ensures Received(a, sessionId) == Received(b, sessionId)
    ensures ReceivedHashes(a, sessionId) == ReceivedHashes(b, sessionId)
  {
    hide ReceivedHashes, Received, Lookup;
    SameReceived(a, b, sessionId);
    ReceivedHashesAt(a, sessionId);
    ReceivedHashesAt(b, sessionId);
    var numbers := SortAscending(Received(a, sessionId));
    forall k | 0 <= k < |numbers| ensures ReceivedHashes(a, sessionId)[k] == ReceivedHashes(b, sessionId)[k] {
      assert Lookup(a, sessionId, numbers[k]) == Lookup(b, sessionId, numbers[k]);
    }
  }

  /** A client that sends the right hash with every attempt gets its own list back, in any order. */
  lemma ConsistentUploadsFinalizeContent(s: State, sessionId: string, attempts: seq<Attempt>, content: int -> string)
    requires RowsOk(s) && sessionId in s.sessions && s.sessions[sessionId].status == Active
    requires Received(s.uploaded, sessionId) == {}
    requires forall a :: a in attempts ==> a.chunkHash == content(a.sequenceNumber)
    requires IsComplete(MarkAll(s, sessionId, attempts), sessionId)
    ensures var list := ReceivedHashes(MarkAll(s, sessionId, attempts).uploaded, sessionId);
            |list| == s.sessions[sessionId].totalChunks && forall i :: 0 <= i < |list| ==> list[i] == content(i)
  {
    hide MarkAll, FirstHash, ReceivedHashes, IsComplete, RowsOk, Received;
    FinalizedListIsFirstHashes(s, sessionId, attempts);
    var list := ReceivedHashes(MarkAll(s, sessionId, attempts).uploaded, sessionId);
    forall i | 0 <= i < |list| ensures list[i] == content(i) {
      FirstHashIsContent(s.sessions[sessionId], attempts, i, content);
    }
  }

  lemma {:induction false} FirstHashIsContent(session: Session, attempts: seq<Attempt>, i: int, content: int -> string)
    requires forall a :: a in attempts ==> a.chunkHash == content(a.sequenceNumber)
    ensures FirstHash(session, attempts, i).Some? ==> FirstHash(session, attempts, i).value == content(i)
  {
    if attempts != [] {
      FirstHashIsContent(session, attempts[..|attempts| - 1], i, content);
    }
  }

  // ---------- the life of a session ----------

  datatype Op =
    | Create(sessionId: string, session: Session)
    | Mark(sessionId: string, sequenceNumber: int, chunkHash: string, now: int)
    | Finalize(sessionId: string, now: int)
    | Cleanup(now: int, updateFails: string -> bool, deleteFails: string -> bool)

  function Step(s: State, op: Op): State {
    match op
    case Create(id, session) => WithSession(s, id, session)
    case Mark(id, i, h, now) => Marked(s, id, i, h, now)
    case Finalize(id, now) => FinalizedSession(s, id, now)
    case Cleanup(now, updateFails, deleteFails) => CleanedUp(s, now, updateFails, deleteFails)
  }

  function Run(s: State, ops: seq<Op>): State {
    if ops == [] then s else Step(Run(s, ops[..|ops| - 1]), ops[|ops| - 1])
  }

  function RowsOf(uploaded: Uploaded, sessionId: string): Uploaded {
    map k | k in uploaded && k.sessionId == sessionId :: uploaded[k]
  }

  lemma StepRowsOk(s: State, op: Op)
    requires RowsOk(s)
    ensures RowsOk(Step(s, op))
  {
    hide ReceivedHashes, Received, Finalized;
  }

  /** What one operation may do to an existing session and its rows. */
  lemma StepLifecycle(s: State, op: Op, id: string)
    requires id in s.sessions && id in Step(s, op).sessions
    ensures s.sessions[id].status != Active ==> Step(s, op).sessions[id].status != Active
    ensures s.sessions[id].status == Completed ==>
              Step(s, op).sessions[id] == s.sessions[id] && RowsOf(Step(s, op).uploaded, id) == RowsOf(s.uploaded, id)
    ensures forall k :: k in s.uploaded && k.sessionId == id ==>
              k in Step(s, op).uploaded && Step(s, op).uploaded[k] == s.uploaded[k]
    ensures RowsOf(Step(s, op).uploaded, id) != RowsOf(s.uploaded, id) ==>
              op.Mark? && op.sessionId == id && s.sessions[id].status == Active && op.now <= s.sessions[id].expiresAt
  {
    hide ReceivedHashes, Received, Finalized;
    var s' := Step(s, op);
    if op.Create? || op.Finalize? || (op.Mark? && op.sessionId != id) {
      assert RowsOf(s'.uploaded, id) == RowsOf(s.uploaded, id);
    }
    if op.Cleanup? {
      assert RowsOf(s'.uploaded, id) == RowsOf(s.uploaded, id);
    }
  }

  /** A completed session is never removed. */
  lemma CompletedStays(s: State, op: Op, id: string)
    requires id in s.sessions && s.sessions[id].status == Completed
    ensures id in Step(s, op).sessions
  {
    hide ReceivedHashes, Received, Finalized;
  }

  /** Once completed, a session and its rows are frozen for ever. */
  lemma {:induction false} CompletedIsFrozen(s: State, ops: seq<Op>, id: string)
    requires id in s.sessions && s.sessions[id].status == Completed
    ensures id in Run(s, ops).sessions && Run(s, ops).sessions[id] == s.sessions[id]
    ensures RowsOf(Run(s, ops).uploaded, id) == RowsOf(s.uploaded, id)
  {
    hide Step, RowsOf;
    if ops != [] {
      var t, op := Run(s, ops[..|ops| - 1]), ops[|ops| - 1];
      CompletedIsFrozen(s, ops[..|ops| - 1], id);
      CompletedStays(t, op, id);
      StepLifecycle(t, op, id);
    }
  }

  /** Session ids are fresh: nobody creates `id` again. */
  ghost predicate NeverRecreated(ops: seq<Op>, id: string) {
    forall i :: 0 <= i < |ops| ==> !(ops[i].Create? && ops[i].sessionId == id)
  }

  lemma StaysRemoved(s: State, op: Op, id: string)
    requires id !in s.sessions && !(op.Create? && op.sessionId == id)
    ensures id !in Step(s, op).sessions
  {
    hide ReceivedHashes, Received, Finalized;
  }

  /**
   * Over a whole run, as long as a session is there: what it has received is never lost or
   * replaced, and once it has left the active state it stays out of it and receives nothing more.
   */
  lemma {:induction false} SessionOverRun(s: State, ops: seq<Op>, id: string)
    requires id in s.sessions && NeverRecreated(ops, id) && id in Run(s, ops).sessions
    ensures forall k :: k in s.uploaded && k.sessionId == id ==>
              k in Run(s, ops).uploaded && Run(s, ops).uploaded[k] == s.uploaded[k]
    ensures s.sessions[id].status != Active ==>
              Run(s, ops).sessions[id].status != Active && RowsOf(Run(s, ops).uploaded, id) == RowsOf(s.uploaded, id)
  {
    hide Step, RowsOf;
    if ops != [] {
      var n := |ops| - 1;
      var t := Run(s, ops[..n]);
      if id !in t.sessions {
        StaysRemoved(t, ops[n], id);
      } else {
        SessionOverRun(s, ops[..n], id);
        StepLifecycle(t, ops[n], id);
      }
    }
  }

  /** When its calls succeed, cleanup removes exactly the active sessions past expiry, rows and all. */
  lemma CleanupIsExact(s: State, now: int, updateFails: string -> bool, deleteFails: string -> bool)
    requires RowsOk(s) && forall id: string :: !updateFails(id) && !deleteFails(id)
    ensures var s' := CleanedUp(s, now, updateFails, deleteFails);
            && (forall id :: id in s'.sessions <==> id in s.sessions && !Due(s.sessions[id], now))
            && (forall id :: id in s'.sessions ==> s'.sessions[id] == s.sessions[id])
            && (forall k :: k in s'.uploaded <==> k in s.uploaded && k.sessionId in s'.sessions)
            && (forall k :: k in s'.uploaded ==> s'.uploaded[k] == s.uploaded[k])
  {
  }

  /**
   * Under any failures: a cleanup removes a session past expiry exactly when it is still active and
   * its calls succeed.
   */
  lemma CleanupRemovesIff(s: State, id: string, now: int, updateFails: string -> bool, deleteFails: string -> bool)
    requires id in s.sessions && s.sessions[id].expiresAt < now
    ensures id !in CleanedUp(s, now, updateFails, deleteFails).sessions <==>
            s.sessions[id].status == Active && !updateFails(id) && !deleteFails(id)
  {
  }

  lemma InactiveStays(s: State, op: Op, id: string)
    requires id in s.sessions && s.sessions[id].status != Active
    ensures id in Step(s, op).sessions && RowsOf(Step(s, op).uploaded, id) == RowsOf(s.uploaded, id)
    ensures Step(s, op).sessions[id] == s.sessions[id].(status := Step(s, op).sessions[id].status)
    ensures Step(s, op).sessions[id].status != Active
  {
    hide ReceivedHashes, Received, Finalized;
    assert RowsOf(Step(s, op).uploaded, id) == RowsOf(s.uploaded, id);
  }

  /**
   * A session that has left the active state, such as one whose deletion failed after it was
   * marked expired, stays with its rows in every run: no cleanup ever removes it.
   */
  lemma {:induction false} ExpiredIsNeverCleaned(s: State, ops: seq<Op>, id: string)
    requires id in s.sessions && s.sessions[id].status != Active
    ensures id in Run(s, ops).sessions && Run(s, ops).sessions[id].status != Active
    ensures RowsOf(Run(s, ops).uploaded, id) == RowsOf(s.uploaded, id)
  {
    hide Step, RowsOf;
    if ops != [] {
      ExpiredIsNeverCleaned(s, ops[..|ops| - 1], id);
      InactiveStays(Run(s, ops[..|ops| - 1]), ops[|ops| - 1], id);
    }
  }

  const NOTHING := State(map[], map[], EMPTY)

  /** The first cleanup after expiry, in which the deletion of the session fails. */
  ghost function FailedCleanup(id: string, session: Session, now: int): seq<Op> {
    [Create(id, session)] + [Cleanup(now, _ => false, _ => true)]
  }

  lemma RunAppend(s: State, ops: seq<Op>, op: Op)
    ensures Run(s, ops + [op]) == Step(Run(s, ops), op)
  {
    assert (ops + [op])[..|ops|] == ops;
  }

  /** One failed deletion, and every run after it, with any number of cleanups, keeps the expired session. */
  lemma FailedDeletionLeavesSession(id: string, session: Session, now: int, ops: seq<Op>)
    requires session.status == Active && session.expiresAt < now
    ensures id in Run(NOTHING, FailedCleanup(id, session, now) + ops).sessions
    ensures id !in Run(NOTHING, [Create(id, session)] + [Cleanup(now, _ => false, _ => false)]).sessions
  {
    var create := [Create(id, session)];
    var failed := FailedCleanup(id, session, now);
    RunAppend(NOTHING, [], create[0]);
    assert [] + create == create;
    RunAppend(NOTHING, create, Cleanup(now, _ => false, _ => true));
    RunAppend(NOTHING, create, Cleanup(now, _ => false, _ => false));
    ExpiredIsNeverCleaned(Run(NOTHING, failed), ops, id);
    RunConcat(NOTHING, failed, ops);
  }

  lemma {:induction false} RunConcat(s: State, a: seq<Op>, b: seq<Op>)
    ensures Run(s, a + b) == Run(Run(s, a), b)
  {
    hide Step;
    if b == [] {
      assert a + b == a;
    } else {
      RunConcat(s, a, b[..|b| - 1]);
      assert a + b == a + b[..|b| - 1] + [b[|b| - 1]];
      RunAppend(s, a + b[..|b| - 1], b[|b| - 1]);
    }
  }

  // ---------- the manager object ----------

  class Manager {
    const metadataStore: Store
    var sessions: Sessions
    var uploaded: Uploaded

    ghost function Contents(): State
      reads this, metadataStore
    {
      State(sessions, uploaded, metadataStore.Contents())
    }

    ghost predicate Valid()
      reads this, metadataStore
    {
      RowsOk(Contents())
    }

    constructor (metadataStore: Store)
      ensures Valid() && this.metadataStore == metadataStore && sessions == map[] && uploaded == map[]
    {
      this.metadataStore := metadataStore;
      sessions, uploaded := map[], map[];
    }

    /** `sessionId` is the fresh identifier drawn by the caller's random source. */
    method CreateSession(sessionId: string, fileId: string, totalChunks: int, userId: string, now: int)
      returns (r: Result<Session>)
      requires Valid()
      modifies this
      ensures Valid()
      ensures var session := Session(fileId, totalChunks, userId, now + SESSION_EXPIRY_DAYS * MS_PER_DAY, Active);
              && Contents() == Step(old(Contents()), Create(sessionId, session))
              && r == if sessionId in old(sessions) then Err(StoreRefused) else Ok(session)
      // Written out: seven days of 86400000 milliseconds.
      ensures r.Ok? <==> sessionId !in old(sessions)
      ensures r.Ok? ==> r.value == Session(fileId, totalChunks, userId, now + 604800000, Active)
      ensures sessions == if r.Ok? then old(sessions)[sessionId := r.value] else old(sessions)
      ensures uploaded == old(uploaded) && metadataStore.Contents() == old(metadataStore.Contents())
    {
      var expiresAt := now + SESSION_EXPIRY_DAYS * MS_PER_DAY;
      var session := Session(fileId, totalChunks, userId, expiresAt, Active);
      if sessionId in sessions {
        return Err(StoreRefused);
      }
      sessions := sessions[sessionId := session];
      return Ok(session);
    }

    /** Resuming an active session in time returns exactly the sequence numbers accepted so far. */
    method ResumeSession(sessionId: string, now: int) returns (r: Result<set<int>>)
      ensures r.Ok? <==>
              sessionId in sessions && sessions[sessionId].status == Active && now <= sessions[sessionId].expiresAt
      ensures r.Ok? ==> forall i :: i in r.value <==> Slot(sessionId, i) in uploaded
      ensures r == Err(NotFound) <==> sessionId !in sessions
      ensures r == Err(AlreadyCompleted) <==>
              sessionId in sessions && sessions[sessionId].status == Completed && now <= sessions[sessionId].expiresAt
      ensures r == Err(SessionExpired) <==>
              && sessionId in sessions
              && (sessions[sessionId].status == Expired || now > sessions[sessionId].expiresAt)
    {
      if sessionId !in sessions {
        return Err(NotFound);
      }
      var session := sessions[sessionId];
      if session.status == Expired || now > session.expiresAt {
        return Err(SessionExpired);
      }
      if session.status == Completed {
        return Err(AlreadyCompleted);
      }
      r := Ok(Received(uploaded, sessionId));
      forall i ensures i in r.value <==> Slot(sessionId, i) in uploaded {
        if Slot(sessionId, i) in uploaded { assert Slot(sessionId, i).sequenceNumber == i; }
      }
    }

    method MarkChunkUploaded(sessionId: string, sequenceNumber: int, chunkHash: string, now: int)
      returns (r: Result<()>)
      requires Valid()
      modifies this
      ensures Valid()
      ensures Contents() == Step(old(Contents()), Mark(sessionId, sequenceNumber, chunkHash, now))
      ensures var error := MarkError(old(Contents()), sessionId, sequenceNumber, now);
              r == if error.Some? then Err(error.value) else Ok(())
      // Written out: the rejections in their order, and the row.
      ensures r == Err(NotFound) <==> sessionId !in old(sessions)
      ensures r == Err(NotActive) <==> sessionId in old(sessions) && old(sessions)[sessionId].status != Active
      ensures r == Err(SessionExpired) <==>
              && sessionId in old(sessions) && old(sessions)[sessionId].status == Active
              && now > old(sessions)[sessionId].expiresAt
      ensures r == Err(InvalidSequence) <==>
              && sessionId in old(sessions) && old(sessions)[sessionId].status == Active
              && now <= old(sessions)[sessionId].expiresAt
              && !(0 <= sequenceNumber < old(sessions)[sessionId].totalChunks)
      ensures r.Ok? <==>
              && sessionId in old(sessions) && old(sessions)[sessionId].status == Active
              && now <= old(sessions)[sessionId].expiresAt
              && 0 <= sequenceNumber < old(sessions)[sessionId].totalChunks
      ensures uploaded == if r.Ok? && Slot(sessionId, sequenceNumber) !in old(uploaded)
                          then old(uploaded)[Slot(sessionId, sequenceNumber) := chunkHash] else old(uploaded)
      ensures sessions == old(sessions) && metadataStore.Contents() == old(metadataStore.Contents())
    {
      if sessionId !in sessions {
        return Err(NotFound);
      }
      var session := sessions[sessionId];
      if session.status != Active {
        return Err(NotActive);
      }
      if now > session.expiresAt {
        return Err(SessionExpired);
      }
      if sequenceNumber < 0 || sequenceNumber >= session.totalChunks {
        return Err(InvalidSequence);
      }
      if Slot(sessionId, sequenceNumber) !in uploaded {
        uploaded := uploaded[Slot(sessionId, sequenceNumber) := chunkHash];
      }
      return Ok(());
    }

    /** Counting the rows answers whether every sequence number is there. */
    method IsUploadComplete(sessionId: string) returns (r: Result<bool>)
      requires Valid()
      ensures r == if sessionId in sessions then Ok(IsComplete(Contents(), sessionId)) else Err(NotFound)
      ensures r.Err? <==> sessionId !in sessions
      ensures r == Ok(true) <==>
              && sessionId in sessions && sessions[sessionId].totalChunks >= 0
              && forall i :: 0 <= i < sessions[sessionId].totalChunks ==> Slot(sessionId, i) in uploaded
    {
      if sessionId !in sessions {
        return Err(NotFound);
      }
      r := Ok(|Received(uploaded, sessionId)| == sessions[sessionId].totalChunks);
      CompleteIff(Contents(), sessionId);
    }

    method FinalizeUpload(sessionId: string, now: int) returns (r: Result<nat>)
      requires Valid()
      modifies this, metadataStore
      ensures Valid()
      ensures Contents() == Step(old(Contents()), Op.Finalize(sessionId, now))
      ensures var error := FinalizeError(old(Contents()), sessionId);
              r == if error.Some? then Err(error.value)
                   else Ok(ListSize(old(metadataStore.chunks), ReceivedHashes(old(uploaded), sessionId)))
      // Written out: the errors in their order, and everything a success stores.
      ensures r == Err(NotFound) <==> sessionId !in old(sessions)
      ensures r == Err(NotComplete) <==>
              && sessionId in old(sessions)
              && var n := old(sessions)[sessionId].totalChunks;
                 n < 0 || exists i :: 0 <= i < n && Slot(sessionId, i) !in old(uploaded)
      ensures r.Ok? ==>
                && sessionId in old(sessions)
                && var session, key := old(sessions)[sessionId], VersionKey(old(sessions)[sessionId].fileId, 1);
                && session.fileId !in old(metadataStore.files) && key !in old(metadataStore.versions)
                && key in metadataStore.versions
                && var stored := metadataStore.versions[key];
                && |stored.chunkHashes| == session.totalChunks
                && (forall i :: 0 <= i < session.totalChunks ==>
                    Slot(sessionId, i) in old(uploaded) && stored.chunkHashes[i] == old(uploaded)[Slot(sessionId, i)])
                && stored.size == r.value == ListSize(old(metadataStore.chunks), stored.chunkHashes)
                && stored.createdAt == now
                && metadataStore.files == old(metadataStore.files)[session.fileId := File(session.userId, 1)]
                && metadataStore.versions == old(metadataStore.versions)[key := stored]
                && sessions == old(sessions)[sessionId := session.(status := Completed)]
      ensures r.Err? ==> r.error == NotFound || r.error == NotComplete || r.error == StoreRefused
      ensures r == Err(StoreRefused) ==>
                && sessionId in old(sessions)
                && var fileId := old(sessions)[sessionId].fileId;
                   fileId in old(metadataStore.files) || VersionKey(fileId, 1) in old(metadataStore.versions)
      ensures !r.Ok? ==> sessions == old(sessions) && metadataStore.versions == old(metadataStore.versions)
      ensures uploaded == old(uploaded) && metadataStore.chunks == old(metadataStore.chunks)
    {
      hide ReceivedHashes, ListSize;
      ghost var s := Contents();
      if sessionId !in sessions {
        return Err(NotFound);
      }
      var session := sessions[sessionId];
      var complete := IsUploadComplete(sessionId);
      CompleteIff(s, sessionId);
      if complete != Ok(true) {
        return Err(NotComplete);
      }
      var chunkHashes := ReceivedHashes(uploaded, sessionId);
      var totalSize := 0;
      var i := 0;
      ListSizeStep(metadataStore.chunks, chunkHashes, 0);
      while i < |chunkHashes|
        invariant 0 <= i <= |chunkHashes| && Contents() == s
        invariant totalSize == ListSize(metadataStore.chunks, chunkHashes[..i])
      {
        ListSizeStep(metadataStore.chunks, chunkHashes, i);
        var chunk := metadataStore.GetChunk(chunkHashes[i]);
        if chunk.Some? {
          totalSize := totalSize + chunk.value.size;
        }
        i := i + 1;
      }
      assert chunkHashes[..i] == chunkHashes;
      var ok := metadataStore.CreateFile(session.fileId, File(session.userId, 1));
      if ok {
        ok := metadataStore.CreateFileVersion(VersionKey(session.fileId, 1), Version(chunkHashes, totalSize, now));
      }
      if !ok {
        return Err(StoreRefused);
      }
      FinalizedList(s, sessionId);
      sessions := sessions[sessionId := session.(status := Completed)];
      return Ok(totalSize);
    }

    /** Marks a session expired, then deletes it; either call may fail. */
    method CleanOne(id: string, updateFails: bool, deleteFails: bool) returns (removed: bool)
      requires id in sessions
      modifies this
      ensures Contents() == CleanedOne(old(Contents()), id, updateFails, deleteFails)
      ensures SessionCount(Contents()) == SessionCount(old(Contents())) - (if removed then 1 else 0)
    {
      removed := false;
      if !updateFails {
        sessions := sessions[id := sessions[id].(status := Expired)];
        if !deleteFails {
          sessions := sessions - {id};
          uploaded := WithoutSessionRows(uploaded, id);
          removed := true;
          assert sessions == old(sessions) - {id};
        }
      }
    }

    /** `cleaned` counts the sessions removed. */
    method CleanupExpiredSessions(now: int, updateFails: string -> bool, deleteFails: string -> bool)
      returns (cleaned: nat)
      requires Valid()
      modifies this
      ensures Valid()
      ensures Contents() == Step(old(Contents()), Cleanup(now, updateFails, deleteFails))
      ensures cleaned == SessionCount(old(Contents())) - SessionCount(Contents())
      // Written out: what was due and whose calls succeed goes, rows and all.
      ensures forall id :: id in sessions <==>
                && id in old(sessions)
                && !(&& old(sessions)[id].expiresAt < now && old(sessions)[id].status == Active
                     && !updateFails(id) && !deleteFails(id))
      ensures forall id :: id in sessions ==>
                sessions[id] == if old(sessions)[id].expiresAt < now && old(sessions)[id].status == Active
                                   && !updateFails(id)
                                then old(sessions)[id].(status := Expired) else old(sessions)[id]
      ensures forall k :: k in uploaded <==> k in old(uploaded) && k.sessionId in sessions
      ensures forall k :: k in uploaded ==> uploaded[k] == old(uploaded)[k]
      ensures cleaned == |old(sessions)| - |sessions| && metadataStore.Contents() == old(metadataStore.Contents())
    {
      hide SessionCount, CleanedSoFar, Step, CleanedOne, DueSessions, SortedStrings, Distinct, Elements, RowsOk;
      ghost var s := Contents();
      var expired := SortStrings(DueSessions(sessions, now));   // in some order
      SortedDistinct(expired);
      cleaned := 0;
      NoneCleaned(s, expired, updateFails, deleteFails);
      var i := 0;
      while i < |expired|
        invariant 0 <= i <= |expired|
        invariant Contents() == CleanedSoFar(s, expired, i, updateFails, deleteFails)
        invariant cleaned == SessionCount(s) - SessionCount(Contents())
      {
        var id := expired[i];
        OneMoreCleaned(s, now, expired, i, updateFails, deleteFails);
        var removed := CleanOne(id, updateFails(id), deleteFails(id));
        if removed {
          cleaned := cleaned + 1;
        }
        i := i + 1;
      }
      AllCleaned(s, now, expired, updateFails, deleteFails);
      CleanupStep(s, now, updateFails, deleteFails);
      CleanedWritten(s, now, updateFails, deleteFails);
    }
  }

  function SessionCount(s: State): nat {
    |s.sessions|
  }

  lemma CleanedWritten(s: State, now: int, updateFails: string -> bool, deleteFails: string -> bool)
    requires RowsOk(s)
    ensures var s' := CleanedUp(s, now, updateFails, deleteFails);
            && (forall id :: id in s'.sessions <==>
                  && id in s.sessions
                  && !(&& s.sessions[id].expiresAt < now && s.sessions[id].status == Active
                       && !updateFails(id) && !deleteFails(id)))
            && (forall id :: id in s'.sessions ==>
                  s'.sessions[id] == if s.sessions[id].expiresAt < now && s.sessions[id].status == Active
                                        && !updateFails(id)
                                     then s.sessions[id].(status := Expired) else s.sessions[id])
            && (forall k :: k in s'.uploaded <==> k in s.uploaded && k.sessionId in s'.sessions)
            && (forall k :: k in s'.uploaded ==> s'.uploaded[k] == s.uploaded[k])
            && SessionCount(s) == |s.sessions| && SessionCount(s') == |s'.sessions| && s'.tables == s.tables
  {
  }

  /** Cleanup after the first `i` of the `expired` sessions. */
  ghost function CleanedSoFar(s: State, expired: seq<string>, i: nat, updateFails: string -> bool,
                              deleteFails: string -> bool): State
    requires i <= |expired|
  {
    CleanedAmong(s, Elements(expired[..i]), updateFails, deleteFails)
  }

  lemma NoneCleaned(s: State, expired: seq<string>, updateFails: string -> bool, deleteFails: string -> bool)
    ensures CleanedSoFar(s, expired, 0, updateFails, deleteFails) == s
  {
    assert Elements(expired[..0]) == {};
    CleanedAmongNone(s, updateFails, deleteFails);
  }

  lemma OneMoreCleaned(s: State, now: int, expired: seq<string>, i: nat, updateFails: string -> bool,
                       deleteFails: string -> bool)
    requires i < |expired| && Elements(expired) == DueSessions(s.sessions, now) && Distinct(expired)
    ensures var id, before := expired[i], CleanedSoFar(s, expired, i, updateFails, deleteFails);
            && id in before.sessions
            && CleanedSoFar(s, expired, i + 1, updateFails, deleteFails) ==
               CleanedOne(before, id, updateFails(id), deleteFails(id))
  {
    hide CleanedAmong, CleanedOne, DueSessions, Elements;
    ExpiredStep(s.sessions, now, expired, i);
    CleanedAmongStep(s, Elements(expired[..i]), expired[i], updateFails, deleteFails);
  }

  lemma AllCleaned(s: State, now: int, expired: seq<string>, updateFails: string -> bool, deleteFails: string -> bool)
    requires RowsOk(s) && Elements(expired) == DueSessions(s.sessions, now)
    ensures CleanedSoFar(s, expired, |expired|, updateFails, deleteFails) == CleanedUp(s, now, updateFails, deleteFails)
  {
    hide CleanedAmong, CleanedUp, RowsOk, DueSessions;
    assert expired[..|expired|] == expired;
    CleanedAmongAll(s, Elements(expired), now, updateFails, deleteFails);
  }

  lemma CleanupStep(s: State, now: int, updateFails: string -> bool, deleteFails: string -> bool)
    requires RowsOk(s)
    ensures Step(s, Cleanup(now, updateFails, deleteFails)) == CleanedUp(s, now, updateFails, deleteFails)
    ensures RowsOk(CleanedUp(s, now, updateFails, deleteFails))
  {
    StepRowsOk(s, Cleanup(now, updateFails, deleteFails));
  }

  lemma ExpiredStep(sessions: Sessions, now: int, expired: seq<string>, i: nat)
    requires i < |expired| && Elements(expired) == DueSessions(sessions, now)
    requires Distinct(expired)
    ensures expired[i] in sessions && expired[i] !in Elements(expired[..i])
    ensures Elements(expired[..i + 1]) == Elements(expired[..i]) + {expired[i]}
  {
    assert expired[i] in Elements(expired);
    PrefixElements(expired, i);
  }

  function DueSessions(sessions: Sessions, now: int): set<string> {
    set id | id in sessions && Due(sessions[id], now)
  }

  function CleanedOne(s: State, id: string, updateFails: bool, deleteFails: bool): State
    requires id in s.sessions
  {
    if updateFails then s
    else if deleteFails then s.(sessions := s.sessions[id := s.sessions[id].(status := Expired)])
    else s.(sessions := s.sessions - {id}, uploaded := WithoutSessionRows(s.uploaded, id))
  }

  /** `ON DELETE CASCADE`. */
  function WithoutSessionRows(uploaded: Uploaded, sessionId: string): Uploaded {
    map k | k in uploaded && k.sessionId != sessionId :: uploaded[k]
  }

  /** Cleanup after the sessions in `seen` have been handled. */
  function CleanedAmong(s: State, seen: set<string>, updateFails: string -> bool, deleteFails: string -> bool): State {
    s.(sessions := map id | id in s.sessions && !(id in seen && !updateFails(id) && !deleteFails(id)) ::
         if id in seen && !updateFails(id) then s.sessions[id].(status := Expired) else s.sessions[id],
       uploaded := map k | k in s.uploaded
         && (k.sessionId in seen ==> updateFails(k.sessionId) || deleteFails(k.sessionId)) ::
         s.uploaded[k])
  }

  lemma CleanedAmongNone(s: State, updateFails: string -> bool, deleteFails: string -> bool)
    ensures CleanedAmong(s, {}, updateFails, deleteFails) == s
  {
  }

  lemma CleanedAmongStep(s: State, seen: set<string>, id: string, updateFails: string -> bool,
                         deleteFails: string -> bool)
    requires id in s.sessions && id !in seen
    ensures id in CleanedAmong(s, seen, updateFails, deleteFails).sessions
    ensures CleanedAmong(s, seen + {id}, updateFails, deleteFails) ==
            CleanedOne(CleanedAmong(s, seen, updateFails, deleteFails), id, updateFails(id), deleteFails(id))
  {
    var t := CleanedAmong(s, seen, updateFails, deleteFails);
    var t' := CleanedAmong(s, seen + {id}, updateFails, deleteFails);
    var u := CleanedOne(t, id, updateFails(id), deleteFails(id));
    assert t'.sessions == u.sessions;
    assert t'.uploaded == u.uploaded;
  }

  lemma CleanedAmongAll(s: State, due: set<string>, now: int, updateFails: string -> bool, deleteFails: string -> bool)
    requires RowsOk(s) && due == DueSessions(s.sessions, now)
    ensures CleanedAmong(s, due, updateFails, deleteFails) == CleanedUp(s, now, updateFails, deleteFails)
  {
  }
}
