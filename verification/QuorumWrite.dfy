/**
 * The quorum write (src/replication-service.ts:34-94): one write-then-record step sequence per
 * selected node, all running at once, any call of which may fail.
 */
module QuorumWrite {
  import opened Common
  import opened Collections

  const REPLICATION_FACTOR := 3
  const QUORUM_WRITE := 2

  datatype Phase = Writing | Recording | Recorded | WriteFailed | RecordFailed

  datatype State = State(
    disks: map<string, Bytes>,
    rows: set<string>,
    phases: map<string, Phase>,
    locations: seq<string>,
    successCount: nat
  )

  /** A failed write may leave anything behind, or nothing. */
  datatype Action =
    | WriteOk(node: string)
    | WriteFails(node: string, left: Option<Bytes>)
    | RecordOk(node: string)
    | RecordFails(node: string)

  /** One promise per selected node that the service knows. */
  function Start(selected: seq<string>, known: set<string>, disks: map<string, Bytes>, rows: set<string>): State {
    State(disks, rows, map n | n in selected && n in known :: Writing, [], 0)
  }

  function Next(s: State, data: Bytes, a: Action): State {
    var n := a.node;
    if n !in s.phases then s else
      match a
      case WriteOk(_) =>
        if s.phases[n] != Writing then s else
          s.(disks := s.disks[n := data], locations := s.locations + [n], phases := s.phases[n := Recording])
      case WriteFails(_, left) =>
        if s.phases[n] != Writing then s else
          s.(disks := if left.Some? then s.disks[n := left.value] else s.disks, phases := s.phases[n := WriteFailed])
      case RecordOk(_) =>
        if s.phases[n] != Recording then s else
          s.(rows := s.rows + {n}, successCount := s.successCount + 1, phases := s.phases[n := Recorded])
      case RecordFails(_) =>
        if s.phases[n] != Recording then s else s.(phases := s.phases[n := RecordFailed])
  }

  function Run(s: State, data: Bytes, schedule: seq<Action>): State {
    if schedule == [] then s else Next(Run(s, data, schedule[..|schedule| - 1]), data, schedule[|schedule| - 1])
  }

  /** All promises have settled. */
  ghost predicate Settled(s: State) {
    forall n :: n in s.phases ==> s.phases[n] != Writing && s.phases[n] != Recording
  }

  datatype Outcome = Replicated(locations: seq<string>) | InsufficientNodes | QuorumFailed(successes: nat)

  function Result(selected: seq<string>, s: State): Outcome {
    if |selected| < REPLICATION_FACTOR then InsufficientNodes
    else if s.successCount < QUORUM_WRITE then QuorumFailed(s.successCount)
    else Replicated(s.locations)
  }

  // ---------- invariant ----------

  function InPhase(s: State, phase: Phase): set<string> {
    set n | n in s.phases && s.phases[n] == phase
  }

  function Written(s: State): set<string> {
    set n | n in s.phases && s.phases[n] != Writing && s.phases[n] != WriteFailed
  }

  ghost predicate Inv(s: State, data: Bytes, participants: set<string>) {
    && s.phases.Keys == participants
    && s.successCount == |InPhase(s, Recorded)|
    && Distinct(s.locations) && Elements(s.locations) == Written(s)
    && (forall n :: n in Written(s) ==> n in s.disks && s.disks[n] == data)
    && (forall n :: n in InPhase(s, Recorded) ==> n in s.rows)
  }

  /** A write has settled well: one more location. */
  lemma WriteOkInv(s: State, data: Bytes, participants: set<string>, n: string)
    requires Inv(s, data, participants) && n in s.phases && s.phases[n] == Writing
    ensures Inv(Next(s, data, WriteOk(n)), data, participants)
  {
    var s' := Next(s, data, WriteOk(n));
    assert Written(s') == Written(s) + {n};
    assert InPhase(s', Recorded) == InPhase(s, Recorded);
    ElementsAppend(s.locations, n);
    assert n !in s.locations by { assert n !in Elements(s.locations); }
  }

  lemma RecordOkInv(s: State, data: Bytes, participants: set<string>, n: string)
    requires Inv(s, data, participants) && n in s.phases && s.phases[n] == Recording
    ensures Inv(Next(s, data, RecordOk(n)), data, participants)
  {
    var s' := Next(s, data, RecordOk(n));
    assert Written(s') == Written(s);
    assert InPhase(s', Recorded) == InPhase(s, Recorded) + {n};
  }

  lemma FailureInv(s: State, data: Bytes, participants: set<string>, a: Action)
    requires Inv(s, data, participants) && (a.WriteFails? || a.RecordFails?)
    ensures Inv(Next(s, data, a), data, participants)
  {
    var s' := Next(s, data, a);
    assert Written(s') == Written(s);
    assert InPhase(s', Recorded) == InPhase(s, Recorded);
  }

  lemma StepInv(s: State, data: Bytes, participants: set<string>, a: Action)
    requires Inv(s, data, participants)
    ensures Inv(Next(s, data, a), data, participants)
  {
    hide Inv;
    if a.node in s.phases {
      match a
      case WriteOk(n) => if s.phases[n] == Writing { WriteOkInv(s, data, participants, n); }
      case RecordOk(n) => if s.phases[n] == Recording { RecordOkInv(s, data, participants, n); }
      case WriteFails(_, _) => FailureInv(s, data, participants, a);
      case RecordFails(_) => FailureInv(s, data, participants, a);
    }
  }

  lemma StartInv(selected: seq<string>, known: set<string>, disks: map<string, Bytes>, rows: set<string>, data: Bytes)
    ensures Inv(Start(selected, known, disks, rows), data, Elements(selected) * known)
  {
    var s := Start(selected, known, disks, rows);
    assert InPhase(s, Recorded) == {} && Written(s) == {};
  }

  lemma {:induction false} RunInv(s: State, data: Bytes, participants: set<string>, schedule: seq<Action>)
    requires Inv(s, data, participants)
    ensures Inv(Run(s, data, schedule), data, participants)
  {
    hide Inv, Next;
    if schedule != [] {
      RunInv(s, data, participants, schedule[..|schedule| - 1]);
      StepInv(Run(s, data, schedule[..|schedule| - 1]), data, participants, schedule[|schedule| - 1]);
    }
  }

  // ---------- what the caller may rely on ----------

  /** The selected nodes that hold the data and have a row. */
  function Safe(selected: seq<string>, s: State, data: Bytes): set<string> {
    set n | n in selected && n in s.disks && s.disks[n] == data && n in s.rows
  }

  /**
   * For every schedule and every failure pattern: when the call returns, at least two distinct
   * selected nodes hold the data and have a row, and the returned locations are distinct
   * selected nodes, exactly those whose write succeeded.
   */
  lemma QuorumIsDurable(selected: seq<string>, known: set<string>, disks: map<string, Bytes>, rows: set<string>,
                        data: Bytes, schedule: seq<Action>)
    ensures var s := Run(Start(selected, known, disks, rows), data, schedule);
            Settled(s) && Result(selected, s).Replicated? ==>
              && |set n | n in selected && n in s.disks && s.disks[n] == data && n in s.rows| >= 2
              && |Safe(selected, s, data)| >= QUORUM_WRITE
              && Distinct(s.locations)
              && Elements(Result(selected, s).locations) == InPhase(s, Recorded) + InPhase(s, RecordFailed)
              && (forall n :: n in s.locations ==> n in selected && n in known && n in s.disks && s.disks[n] == data)
  {
    hide Run, Start;
    StartInv(selected, known, disks, rows, data);
    RunInv(Start(selected, known, disks, rows), data, Elements(selected) * known, schedule);
    var s := Run(Start(selected, known, disks, rows), data, schedule);
    if Settled(s) && Result(selected, s).Replicated? {
      forall n | n in InPhase(s, Recorded) ensures n in Safe(selected, s, data) {
        assert n in Written(s);
        assert n in Elements(selected) * known;
      }
      SubsetCardinality(InPhase(s, Recorded), Safe(selected, s, data));
      assert Written(s) == InPhase(s, Recorded) + InPhase(s, RecordFailed);
      forall n | n in s.locations ensures n in selected && n in known && n in s.disks && s.disks[n] == data {
        assert n in Elements(s.locations);
        assert n in Elements(selected) * known;
      }
    }
  }

  /** The call fails for want of a quorum exactly when fewer than two nodes completed both steps. */
  lemma QuorumFailsIff(selected: seq<string>, known: set<string>, disks: map<string, Bytes>, rows: set<string>,
                       data: Bytes, schedule: seq<Action>)
    ensures var s := Run(Start(selected, known, disks, rows), data, schedule);
            && (Result(selected, s).InsufficientNodes? <==> |selected| < 3)
            && (Result(selected, s).QuorumFailed? <==> |selected| >= 3 && |InPhase(s, Recorded)| < 2)
            && (Result(selected, s).QuorumFailed? ==> Result(selected, s).successes == |InPhase(s, Recorded)|)
  {
    hide Run, Start;
    StartInv(selected, known, disks, rows, data);
    RunInv(Start(selected, known, disks, rows), data, Elements(selected) * known, schedule);
  }

  // ---------- reading the outcome off the schedule ----------

  predicate IsWrite(a: Action) { a.WriteOk? || a.WriteFails? }

  /** The write to `n` that settled first is the one at `i`. */
  ghost predicate FirstWriteAt(schedule: seq<Action>, n: string, i: int) {
    && 0 <= i < |schedule| && schedule[i].node == n && IsWrite(schedule[i])
    && forall k :: 0 <= k < i && schedule[k].node == n ==> !IsWrite(schedule[k])
  }

  /** It succeeded. */
  ghost predicate WrittenAt(schedule: seq<Action>, n: string, i: int) {
    FirstWriteAt(schedule, n, i) && schedule[i].WriteOk?
  }

  /** After the write at `i`, this is the first recording for `n` that settled. */
  ghost predicate RecordedAt(schedule: seq<Action>, n: string, i: int, j: int) {
    && WrittenAt(schedule, n, i) && i < j < |schedule| && schedule[j].node == n && !IsWrite(schedule[j])
    && forall k :: i < k < j && schedule[k].node == n ==> IsWrite(schedule[k])
  }

  /** In the schedule the write to `n` succeeds and the recording that follows fails. */
  ghost predicate LosesRecord(schedule: seq<Action>, n: string) {
    exists i, j :: RecordedAt(schedule, n, i, j) && schedule[j].RecordFails?
  }

  /** The write to `n` succeeds and so does the recording that follows. */
  ghost predicate Completes(schedule: seq<Action>, n: string) {
    exists i, j :: RecordedAt(schedule, n, i, j) && schedule[j].RecordOk?
  }

  /** What the schedule says about the phase of a participant. */
  ghost predicate PhaseFits(schedule: seq<Action>, n: string, phase: Phase) {
    match phase
    case Writing => forall k :: 0 <= k < |schedule| && schedule[k].node == n ==> !IsWrite(schedule[k])
    case WriteFailed => FirstWriteFails(schedule, n)
    case Recording => exists i :: WrittenAt(schedule, n, i) && NoRecordAfter(schedule, n, i)
    case Recorded => Completes(schedule, n)
    case RecordFailed => LosesRecord(schedule, n)
  }

  ghost predicate FirstWriteFails(schedule: seq<Action>, n: string) {
    exists i :: FirstWriteAt(schedule, n, i) && schedule[i].WriteFails?
  }

  ghost predicate NoRecordAfter(schedule: seq<Action>, n: string, i: nat) {
    forall k :: i < k < |schedule| && schedule[k].node == n ==> IsWrite(schedule[k])
  }

  /** Written at one position only, and recorded at one position only. */
  lemma PositionsUnique(schedule: seq<Action>, n: string)
    ensures forall i, i' :: WrittenAt(schedule, n, i) && WrittenAt(schedule, n, i') ==> i == i'
    ensures forall i, j, i', j' :: RecordedAt(schedule, n, i, j) && RecordedAt(schedule, n, i', j') ==> j == j'
  {
  }

  lemma EarlierActions(before: seq<Action>, a: Action, n: string)
    ensures forall i :: WrittenAt(before, n, i) ==> WrittenAt(before + [a], n, i)
    ensures forall i, j :: RecordedAt(before, n, i, j) ==> RecordedAt(before + [a], n, i, j)
    ensures FirstWriteFails(before, n) ==> FirstWriteFails(before + [a], n)
  {
    var after := before + [a];
    assert forall k :: 0 <= k < |before| ==> after[k] == before[k];
    forall i | WrittenAt(before, n, i) ensures WrittenAt(after, n, i) {}
    forall i, j | RecordedAt(before, n, i, j) ensures RecordedAt(after, n, i, j) {}
    if FirstWriteFails(before, n) {
      var i :| FirstWriteAt(before, n, i) && before[i].WriteFails?;
      assert FirstWriteAt(after, n, i);
    }
  }

  function NextPhase(phase: Phase, a: Action, n: string): Phase {
    if a.node != n then phase else
      match a
      case WriteOk(_) => if phase == Writing then Recording else phase
      case WriteFails(_, _) => if phase == Writing then WriteFailed else phase
      case RecordOk(_) => if phase == Recording then Recorded else phase
      case RecordFails(_) => if phase == Recording then RecordFailed else phase
  }

  lemma PhaseStep(before: seq<Action>, a: Action, n: string, phase: Phase)
    requires PhaseFits(before, n, phase)
    ensures PhaseFits(before + [a], n, NextPhase(phase, a, n))
  {
    hide FirstWriteFails;
    var after := before + [a];
    EarlierActions(before, a, n);
    assert after[|before|] == a && forall k :: 0 <= k < |before| ==> after[k] == before[k];
    match phase
    case Writing =>
      if a == WriteOk(n) {
        assert WrittenAt(after, n, |before|) && NoRecordAfter(after, n, |before|);
      } else if a.WriteFails? && a.node == n {
        FirstWriteHere(before, a, n);
      }
    case Recording =>
      var i :| WrittenAt(before, n, i) && NoRecordAfter(before, n, i);
      if a.node == n && !IsWrite(a) {
        FirstRecordHere(before, a, n, i);
      } else {
        assert WrittenAt(after, n, i) && NoRecordAfter(after, n, i);
      }
    case Recorded =>
      var i, j :| RecordedAt(before, n, i, j) && before[j].RecordOk?;
      assert RecordedAt(after, n, i, j);
    case RecordFailed =>
      var i, j :| RecordedAt(before, n, i, j) && before[j].RecordFails?;
      assert RecordedAt(after, n, i, j);
    case WriteFailed =>
  }

  lemma FirstWriteHere(before: seq<Action>, a: Action, n: string)
    requires a.WriteFails? && a.node == n
    requires forall k :: 0 <= k < |before| && before[k].node == n ==> !IsWrite(before[k])
    ensures FirstWriteFails(before + [a], n)
  {
    assert (before + [a])[|before|] == a;
  }

  lemma FirstRecordHere(before: seq<Action>, a: Action, n: string, i: int)
    requires WrittenAt(before, n, i) && NoRecordAfter(before, n, i) && a.node == n && !IsWrite(a)
    ensures RecordedAt(before + [a], n, i, |before|)
  {
    EarlierActions(before, a, n);
  }

  /** Only in the phase `RecordFailed` has a schedule lost the record. */
  lemma LosesRecordIff(schedule: seq<Action>, n: string, phase: Phase)
    requires PhaseFits(schedule, n, phase)
    ensures LosesRecord(schedule, n) <==> phase == RecordFailed
  {
    PositionsUnique(schedule, n);
  }

  lemma {:induction false} PhasesFollowSchedule(s: State, data: Bytes, schedule: seq<Action>)
    requires forall n :: n in s.phases ==> s.phases[n] == Writing
    ensures Run(s, data, schedule).phases.Keys == s.phases.Keys
    ensures forall n :: n in s.phases ==> PhaseFits(schedule, n, Run(s, data, schedule).phases[n])
  {
    hide PhaseFits;
    if schedule == [] {
      forall n ensures PhaseFits([], n, Writing) { NothingWritten(n); }
    } else {
      var before, a := schedule[..|schedule| - 1], schedule[|schedule| - 1];
      assert schedule == before + [a];
      PhasesFollowSchedule(s, data, before);
      var t := Run(s, data, before);
      forall n | n in s.phases ensures PhaseFits(schedule, n, Next(t, data, a).phases[n]) {
        PhaseStep(before, a, n, t.phases[n]);
      }
    }
  }

  lemma CompletesIff(schedule: seq<Action>, n: string, phase: Phase)
    requires PhaseFits(schedule, n, phase)
    ensures Completes(schedule, n) <==> phase == Recorded
  {
    PositionsUnique(schedule, n);
  }

  /** Off the schedule: the call fails for want of a quorum exactly when it lets fewer than two nodes complete. */
  lemma QuorumFailsBySchedule(selected: seq<string>, known: set<string>, disks: map<string, Bytes>, rows: set<string>,
                              data: Bytes, schedule: seq<Action>)
    ensures Result(selected, Run(Start(selected, known, disks, rows), data, schedule)).QuorumFailed? <==>
            |selected| >= 3 && |set n | n in selected && n in known && Completes(schedule, n)| < 2
  {
    hide Run, PhaseFits, Completes, Result;
    var s := Run(Start(selected, known, disks, rows), data, schedule);
    QuorumFailsIff(selected, known, disks, rows, data, schedule);
    PhasesFollowSchedule(Start(selected, known, disks, rows), data, schedule);
    forall n | n in s.phases ensures Completes(schedule, n) <==> s.phases[n] == Recorded {
      CompletesIff(schedule, n, s.phases[n]);
    }
    assert InPhase(s, Recorded) == set n | n in selected && n in known && Completes(schedule, n);
  }

  function Disk(s: State, n: string): Option<Bytes> {
    if n in s.disks then Some(s.disks[n]) else None
  }

  lemma FirstWriteStep(before: seq<Action>, a: Action, n: string, phase: Phase)
    requires PhaseFits(before, n, phase)
    ensures phase == Writing <==> forall i :: !FirstWriteAt(before, n, i)
    ensures forall i :: FirstWriteAt(before, n, i) ==> 0 <= i < |before|
    ensures FirstWriteAt(before + [a], n, |before|) <==> phase == Writing && a.node == n && IsWrite(a)
    ensures forall i :: FirstWriteAt(before + [a], n, i) <==>
              FirstWriteAt(before, n, i) || (i == |before| && phase == Writing && a.node == n && IsWrite(a))
  {
    var after := before + [a];
    assert after[|before|] == a && forall k :: 0 <= k < |before| ==> after[k] == before[k];
    if phase == WriteFailed {
      var i :| FirstWriteAt(before, n, i) && before[i].WriteFails?;
    } else if phase == Recording {
      var i :| WrittenAt(before, n, i) && NoRecordAfter(before, n, i);
    } else if phase != Writing {
      var i, j :| RecordedAt(before, n, i, j);
    }
  }

  lemma NoWriteYet(n: string)
    ensures forall i :: !FirstWriteAt([], n, i)
  {
  }

  /** What is on a selected node's disk: the data, what a failed first write left, or what was there. */
  lemma {:induction false} DisksFollowSchedule(s: State, data: Bytes, schedule: seq<Action>, n: string)
    requires forall m :: m in s.phases ==> s.phases[m] == Writing
    ensures var after := Disk(Run(s, data, schedule), n);
            && (n !in s.phases || (forall i :: !FirstWriteAt(schedule, n, i)) ==> after == Disk(s, n))
            && (n in s.phases ==> forall i :: FirstWriteAt(schedule, n, i) ==>
                after == match schedule[i]
                         case WriteOk(_) => Some(data)
                         case WriteFails(_, left) => if left.Some? then left else Disk(s, n)
                         case _ => None)
  {
    hide PhaseFits, FirstWriteAt;
    if schedule == [] {
      NoWriteYet(n);
    } else {
      var before, a := schedule[..|schedule| - 1], schedule[|schedule| - 1];
      assert schedule == before + [a];
      DisksFollowSchedule(s, data, before, n);
      PhasesFollowSchedule(s, data, before);
      if n in s.phases {
        FirstWriteStep(before, a, n, Run(s, data, before).phases[n]);
      }
    }
  }

  lemma NothingWritten(n: string)
    ensures PhaseFits([], n, Writing)
  {
  }

  /**
   * Every returned location has a row exactly when, for each node that had no row before, the
   * schedule does not let a recording fail after the write succeeded.
   */
  lemma LocationsRecordedIff(selected: seq<string>, known: set<string>, disks: map<string, Bytes>, rows: set<string>,
                             data: Bytes, schedule: seq<Action>)
    ensures var s := Run(Start(selected, known, disks, rows), data, schedule);
            Settled(s) ==>
              ((forall n :: n in s.locations ==> n in s.rows) <==>
               forall n :: n in selected && n in known && n !in rows ==> !LosesRecord(schedule, n))
  {
    hide Run, PhaseFits, LosesRecord;
    var s0 := Start(selected, known, disks, rows);
    StartInv(selected, known, disks, rows, data);
    RunInv(s0, data, Elements(selected) * known, schedule);
    assert InPhase(s0, Recorded) == {};
    RunRows(s0, data, schedule);
    PhasesFollowSchedule(s0, data, schedule);
    var s := Run(s0, data, schedule);
    forall n | n in s.phases ensures LosesRecord(schedule, n) <==> s.phases[n] == RecordFailed {
      LosesRecordIff(schedule, n, s.phases[n]);
    }
    forall n ensures n in s.phases <==> n in selected && n in known {}
    if Settled(s) {
      SettledLocationsIff(s, rows);
      hide Settled;
      if forall n :: n in s.locations ==> n in s.rows {
        forall n | n in selected && n in known && n !in rows ensures !LosesRecord(schedule, n) {
          assert n in s.phases;
        }
      }
    }
  }

  /** In terms of the final phases. */
  lemma SettledLocationsIff(s: State, rows: set<string>)
    requires Settled(s) && Elements(s.locations) == Written(s) && s.rows == rows + InPhase(s, Recorded)
    ensures (forall n :: n in s.locations ==> n in s.rows) <==>
            forall n :: n in s.phases && s.phases[n] == RecordFailed ==> n in rows
  {
    var failed := InPhase(s, RecordFailed);
    forall n ensures n in s.locations <==> n in InPhase(s, Recorded) || n in failed {
      assert n in s.locations <==> n in Elements(s.locations);
    }
    forall n | n in s.phases && s.phases[n] == RecordFailed ensures n in s.locations && (n in s.rows <==> n in rows) {
      assert n in failed;
    }
  }

  lemma {:induction false} RunRows(s: State, data: Bytes, schedule: seq<Action>)
    requires InPhase(s, Recorded) == {}
    ensures Run(s, data, schedule).rows == s.rows + InPhase(Run(s, data, schedule), Recorded)
  {
    if schedule != [] {
      var n := |schedule| - 1;
      RunRows(s, data, schedule[..n]);
      var t := Run(s, data, schedule[..n]);
      var t' := Next(t, data, schedule[n]);
      assert || InPhase(t', Recorded) == InPhase(t, Recorded)
             || (schedule[n].RecordOk? && InPhase(t', Recorded) == InPhase(t, Recorded) + {schedule[n].node});
    }
  }

  lemma WrittenIff(schedule: seq<Action>, n: string, phase: Phase)
    requires PhaseFits(schedule, n, phase)
    ensures (exists i :: WrittenAt(schedule, n, i)) <==> phase != Writing && phase != WriteFailed
  {
    match phase
    case Writing =>
    case WriteFailed =>
    case Recording => var i :| WrittenAt(schedule, n, i) && NoRecordAfter(schedule, n, i);
    case Recorded => var i, j :| RecordedAt(schedule, n, i, j) && schedule[j].RecordOk?;
    case RecordFailed => var i, j :| RecordedAt(schedule, n, i, j) && schedule[j].RecordFails?;
  }

  /** Rows and locations off the schedule: a row for each node that completes, a location for each one written. */
  lemma RowsFollowSchedule(selected: seq<string>, known: set<string>, disks: map<string, Bytes>, rows: set<string>,
                           data: Bytes, schedule: seq<Action>, n: string)
    ensures var s := Run(Start(selected, known, disks, rows), data, schedule);
            && (n in s.rows <==> n in rows || (n in selected && n in known && Completes(schedule, n)))
            && (n in s.locations <==> n in selected && n in known && exists i :: WrittenAt(schedule, n, i))
  {
    hide Run, PhaseFits, Completes, WrittenAt;
    var s0 := Start(selected, known, disks, rows);
    StartInv(selected, known, disks, rows, data);
    RunInv(s0, data, Elements(selected) * known, schedule);
    assert InPhase(s0, Recorded) == {};
    RunRows(s0, data, schedule);
    PhasesFollowSchedule(s0, data, schedule);
    var s := Run(s0, data, schedule);
    assert n in s.locations <==> n in Elements(s.locations);
    assert n in s.phases <==> n in selected && n in known;
    if n in s.phases {
      CompletesIff(schedule, n, s.phases[n]);
      WrittenIff(schedule, n, s.phases[n]);
    }
  }

  // ---------- a call that returns a location without a row ----------

  const ABC := ["a", "b", "c"]

  const LOSSY_SCHEDULE :=
    [WriteOk("a"), WriteOk("b"), WriteOk("c"), RecordOk("a"), RecordOk("b"), RecordFails("c")]

  lemma RunStep(s: State, data: Bytes, schedule: seq<Action>, i: nat)
    requires i < |schedule|
    ensures Run(s, data, schedule[..i + 1]) == Next(Run(s, data, schedule[..i]), data, schedule[i])
  {
    assert schedule[..i + 1][..i] == schedule[..i];
  }

  lemma ThreeWrites(data: Bytes)
    ensures var s0 := Start(ABC, {"a", "b", "c"}, map[], {});
            Next(Next(Next(s0, data, WriteOk("a")), data, WriteOk("b")), data, WriteOk("c")) == AllWritten(data)
  {
    var s0 := Start(ABC, {"a", "b", "c"}, map[], {});
    assert s0.phases == map["a" := Writing, "b" := Writing, "c" := Writing];
    var s1 := Next(s0, data, WriteOk("a"));
    assert s1.phases == map["a" := Recording, "b" := Writing, "c" := Writing];
    var s2 := Next(s1, data, WriteOk("b"));
    assert s2.phases == map["a" := Recording, "b" := Recording, "c" := Writing];
  }

  function AllWritten(data: Bytes): State {
    State(map["a" := data, "b" := data, "c" := data], {},
          map["a" := Recording, "b" := Recording, "c" := Recording], ABC, 0)
  }

  lemma TwoRecords(data: Bytes)
    ensures var s2 := Next(Next(AllWritten(data), data, RecordOk("a")), data, RecordOk("b"));
            var s := Next(s2, data, RecordFails("c"));
            Settled(s) && Result(ABC, s) == Replicated(ABC) && s.rows == {"a", "b"}
  {
    var s1 := Next(AllWritten(data), data, RecordOk("a"));
    assert s1.phases == map["a" := Recorded, "b" := Recording, "c" := Recording];
    var s2 := Next(s1, data, RecordOk("b"));
    assert s2.phases == map["a" := Recorded, "b" := Recorded, "c" := Recording];
    var s3 := Next(s2, data, RecordFails("c"));
    assert s3.phases == map["a" := Recorded, "b" := Recorded, "c" := RecordFailed];
  }

  /** All three nodes are written and the third recording fails: three locations, two rows. */
  lemma LocationWithoutRow(data: Bytes)
    ensures var s := Run(Start(ABC, {"a", "b", "c"}, map[], {}), data, LOSSY_SCHEDULE);
            Settled(s) && Result(ABC, s) == Replicated(ABC) && s.rows == {"a", "b"}
  {
    hide Next, Start, Settled, Result, AllWritten;
    var s0, schedule := Start(ABC, {"a", "b", "c"}, map[], {}), LOSSY_SCHEDULE;
    assert schedule[..0] == [] && schedule[..6] == schedule;
    RunStep(s0, data, schedule, 0);
    RunStep(s0, data, schedule, 1);
    RunStep(s0, data, schedule, 2);
    ThreeWrites(data);
    RunStep(s0, data, schedule, 3);
    RunStep(s0, data, schedule, 4);
    RunStep(s0, data, schedule, 5);
    TwoRecords(data);
  }
}
