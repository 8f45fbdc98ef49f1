/** The circuit breaker under overlapping calls (src/error-handling.ts:62-110). */
module CircuitBreaker {

  datatype CircuitState = Closed | Open | HalfOpen

  datatype Breaker = Breaker(state: CircuitState, failureCount: int, lastFailureTime: int)

  /** A call starts, or a call that was admitted finishes; calls may overlap in any way. */
  datatype Event = Start(now: int) | Succeed | Fail(now: int)

  function Started(b: Breaker, resetTimeoutMs: int, now: int): Breaker {
    if b.state == Open && now - b.lastFailureTime >= resetTimeoutMs then b.(state := HalfOpen) else b
  }

  function Succeeded(b: Breaker): Breaker {
    b.(failureCount := 0, state := Closed)
  }

  function Failed(b: Breaker, failureThreshold: int, now: int): Breaker {
    Breaker(if b.failureCount + 1 >= failureThreshold then Open else b.state, b.failureCount + 1, now)
  }

  function Next(b: Breaker, failureThreshold: int, resetTimeoutMs: int, e: Event): Breaker {
    match e
    case Start(now) => Started(b, resetTimeoutMs, now)
    case Succeed => Succeeded(b)
    case Fail(now) => Failed(b, failureThreshold, now)
  }

  const INITIAL := Breaker(Closed, 0, 0)

  function Run(failureThreshold: int, resetTimeoutMs: int, events: seq<Event>): Breaker {
    if events == [] then INITIAL
    else
      var before := Run(failureThreshold, resetTimeoutMs, events[..|events| - 1]);
      Next(before, failureThreshold, resetTimeoutMs, events[|events| - 1])
  }

  // ---------- the history a reader would keep ----------

  /** The positions of the failures after which no success has finished. */
  ghost function Unresolved(events: seq<Event>): set<int> {
    set i | 0 <= i < |events| && events[i].Fail? && NoSuccessAfter(events, i)
  }

  ghost predicate NoSuccessAfter(events: seq<Event>, i: nat) {
    forall j :: i < j < |events| ==> !events[j].Succeed?
  }

  /** How many failures have finished since the last success. */
  ghost function TrailingFailures(events: seq<Event>): nat {
    |Unresolved(events)|
  }

  /** The failure at position `i` was the last to finish. */
  ghost predicate IsLastFailure(events: seq<Event>, i: int) {
    0 <= i < |events| && events[i].Fail? && forall j :: i < j < |events| ==> !events[j].Fail?
  }

  /** When the latest failure finished; 0 before any. */
  ghost predicate LatestFailureAt(events: seq<Event>, time: int) {
    if exists i :: IsLastFailure(events, i)
    then exists i :: IsLastFailure(events, i) && events[i].now == time
    else time == 0
  }

  /** The call at position `p` started and nothing has finished since. */
  ghost predicate StartedLast(events: seq<Event>, p: int) {
    0 <= p < |events| && forall j :: p <= j < |events| ==> events[j].Start?
  }

  /** Since the latest completion, some call started after the reset timeout had passed. */
  ghost predicate ProbeStarted(resetTimeoutMs: int, events: seq<Event>) {
    exists p, time :: StartedLast(events, p) && LatestFailureAt(events, time) && events[p].now - time >= resetTimeoutMs
  }

  /** Is a call starting at `now` let through? */
  predicate Admits(b: Breaker, resetTimeoutMs: int, now: int) {
    b.state != Open || now - b.lastFailureTime >= resetTimeoutMs
  }

  // ---------- how the history grows ----------

  lemma UnresolvedStep(before: seq<Event>, e: Event)
    ensures Unresolved(before + [e]) ==
            if e.Succeed? then {} else if e.Fail? then Unresolved(before) + {|before|} else Unresolved(before)
    ensures |before| !in Unresolved(before) && Unresolved([]) == {}
  {
    var after := before + [e];
    forall i | 0 <= i < |before| ensures NoSuccessAfter(after, i) <==> NoSuccessAfter(before, i) && !e.Succeed? {
      assert after[|before|] == e;
      forall j | i < j < |before| ensures after[j] == before[j] {}
    }
  }

  lemma LatestFailureStep(before: seq<Event>, e: Event, time: int)
    requires LatestFailureAt(before, time)
    ensures LatestFailureAt(before + [e], if e.Fail? then e.now else time)
  {
    var after := before + [e];
    if e.Fail? {
      assert IsLastFailure(after, |before|);
    } else {
      forall i ensures IsLastFailure(after, i) <==> IsLastFailure(before, i) {
        assert after[|before|] == e;
        assert forall j :: 0 <= j < |before| ==> after[j] == before[j];
      }
    }
  }

  lemma LatestFailureUnique(events: seq<Event>, t: int, u: int)
    requires LatestFailureAt(events, t) && LatestFailureAt(events, u)
    ensures t == u
  {
  }

  lemma ProbeStep(resetTimeoutMs: int, before: seq<Event>, e: Event, time: int)
    requires LatestFailureAt(before, time)
    ensures ProbeStarted(resetTimeoutMs, before + [e]) <==>
            e.Start? && (ProbeStarted(resetTimeoutMs, before) || e.now - time >= resetTimeoutMs)
  {
    hide LatestFailureAt;
    var after := before + [e];
    LatestFailureStep(before, e, time);
    assert forall j :: 0 <= j < |before| ==> after[j] == before[j];
    if e.Start? {
      if e.now - time >= resetTimeoutMs {
        assert StartedLast(after, |before|);
      }
      if ProbeStarted(resetTimeoutMs, before) {
        var p, t :| StartedLast(before, p) && LatestFailureAt(before, t) && before[p].now - t >= resetTimeoutMs;
        LatestFailureUnique(before, t, time);
        assert StartedLast(after, p);
      }
      if ProbeStarted(resetTimeoutMs, after) {
        var p, t :| StartedLast(after, p) && LatestFailureAt(after, t) && after[p].now - t >= resetTimeoutMs;
        LatestFailureUnique(after, t, time);
        if p < |before| { assert StartedLast(before, p); }
      }
    } else {
      forall p ensures !StartedLast(after, p) { assert !after[|before|].Start?; }
    }
  }

  // ---------- the breaker follows its history ----------

  /** For every interleaving the breaker's fields are what the positions of the completions say. */
  lemma {:induction false} CountsFollowHistory(failureThreshold: int, resetTimeoutMs: int, events: seq<Event>)
    ensures Run(failureThreshold, resetTimeoutMs, events).failureCount == TrailingFailures(events)
    ensures LatestFailureAt(events, Run(failureThreshold, resetTimeoutMs, events).lastFailureTime)
  {
    hide LatestFailureAt, Unresolved;
    if events == [] {
      NothingFailed();
    } else {
      var before, e := events[..|events| - 1], events[|events| - 1];
      assert events == before + [e];
      CountsFollowHistory(failureThreshold, resetTimeoutMs, before);
      UnresolvedStep(before, e);
      LatestFailureStep(before, e, Run(failureThreshold, resetTimeoutMs, before).lastFailureTime);
    }
  }

  lemma NothingFailed()
    ensures Unresolved([]) == {} && LatestFailureAt([], 0)
  {
  }

  /**
   * The trailing failures lie after some cut that is the start or the last success, and are all
   * failures from there.
   */
  lemma TrailingRun(events: seq<Event>)
    ensures exists c ::
              && LastSuccessEnds(events, c)
              && Unresolved(events) == (set i | c <= i < |events| && events[i].Fail?)
  {
    var c := CutAt(events, |events|);
    assert LastSuccessEnds(events, c);
  }

  /** Position `c` is the start or comes right after a success, and no success comes from there on. */
  ghost predicate LastSuccessEnds(events: seq<Event>, c: int) {
    && 0 <= c <= |events| && (c == 0 || events[c - 1].Succeed?)
    && forall i :: c <= i < |events| ==> !events[i].Succeed?
  }

  ghost function CutAt(events: seq<Event>, n: nat): (c: nat)
    requires n <= |events|
    ensures c <= n && (c == 0 || events[c - 1].Succeed?) && forall i :: c <= i < n ==> !events[i].Succeed?
  {
    if n == 0 || events[n - 1].Succeed? then n else CutAt(events, n - 1)
  }

  /** For every interleaving the state is a function of the history. */
  lemma {:induction false} StateFollowsHistory(failureThreshold: int, resetTimeoutMs: int, events: seq<Event>)
    requires failureThreshold >= 1
    ensures Run(failureThreshold, resetTimeoutMs, events).state ==
            if TrailingFailures(events) < failureThreshold then Closed
            else if ProbeStarted(resetTimeoutMs, events) then HalfOpen
            else Open
  {
    hide LatestFailureAt, Unresolved, ProbeStarted;
    CountsFollowHistory(failureThreshold, resetTimeoutMs, events);
    if events != [] {
      var before, e := events[..|events| - 1], events[|events| - 1];
      assert events == before + [e];
      StateFollowsHistory(failureThreshold, resetTimeoutMs, before);
      CountsFollowHistory(failureThreshold, resetTimeoutMs, before);
      UnresolvedStep(before, e);
      ProbeStep(resetTimeoutMs, before, e, Run(failureThreshold, resetTimeoutMs, before).lastFailureTime);
    }
  }

  ghost predicate ClosedMeansBelow(failureThreshold: int, resetTimeoutMs: int) {
    forall events ::
      Run(failureThreshold, resetTimeoutMs, events).state == Closed <==> TrailingFailures(events) < failureThreshold
  }

  /** "Closed exactly while below the threshold" holds on all runs exactly for thresholds of at least 1. */
  lemma ClosedMeansBelowIff(failureThreshold: int, resetTimeoutMs: int)
    ensures ClosedMeansBelow(failureThreshold, resetTimeoutMs) <==> failureThreshold >= 1
  {
    hide Unresolved;
    NothingFailed();
    if failureThreshold >= 1 {
      forall events
        ensures Run(failureThreshold, resetTimeoutMs, events).state == Closed <==>
                TrailingFailures(events) < failureThreshold
      {
        StateFollowsHistory(failureThreshold, resetTimeoutMs, events);
      }
    } else {
      assert Run(failureThreshold, resetTimeoutMs, []).state == Closed && TrailingFailures([]) == 0;
    }
  }

  /** With such a threshold a breaker no call has used has reached it, and is closed. */
  lemma UnusedBreakerIsClosed(failureThreshold: int, resetTimeoutMs: int)
    requires failureThreshold < 1
    ensures Run(failureThreshold, resetTimeoutMs, []).state == Closed && TrailingFailures([]) >= failureThreshold
  {
  }

  /**
   * Who is rejected: a start while the trailing failures have reached the threshold, the reset
   * timeout since the latest failure has not passed, and no probe got in before.
   */
  lemma RejectedIff(failureThreshold: int, resetTimeoutMs: int, events: seq<Event>, now: int, latest: int)
    requires failureThreshold >= 1 && LatestFailureAt(events, latest)
    ensures !Admits(Run(failureThreshold, resetTimeoutMs, events), resetTimeoutMs, now) <==>
            && TrailingFailures(events) >= failureThreshold
            && now - latest < resetTimeoutMs
            && !ProbeStarted(resetTimeoutMs, events)
  {
    hide LatestFailureAt, Unresolved, ProbeStarted;
    StateFollowsHistory(failureThreshold, resetTimeoutMs, events);
    CountsFollowHistory(failureThreshold, resetTimeoutMs, events);
    LatestFailureUnique(events, latest, Run(failureThreshold, resetTimeoutMs, events).lastFailureTime);
  }

  // ---------- the object ----------

  class CircuitBreaker {
    const failureThreshold: int
    const resetTimeoutMs: int
    var state: CircuitState
    var failureCount: int
    var lastFailureTime: int

    ghost function Contents(): Breaker
      reads this
    {
      Breaker(state, failureCount, lastFailureTime)
    }

    constructor (failureThreshold: int, resetTimeoutMs: int)
      ensures this.failureThreshold == failureThreshold && this.resetTimeoutMs == resetTimeoutMs
      ensures Contents() == INITIAL
    {
      this.failureThreshold, this.resetTimeoutMs := failureThreshold, resetTimeoutMs;
      state, failureCount, lastFailureTime := Closed, 0, 0;
    }

    /** The part of a call before its operation runs. */
    method Begin(now: int) returns (admitted: bool)
      modifies this
      ensures admitted == Admits(old(Contents()), resetTimeoutMs, now)
      ensures Contents() == Next(old(Contents()), failureThreshold, resetTimeoutMs, Start(now))
    {
      if state == Open {
        if now - lastFailureTime >= resetTimeoutMs {
          state := HalfOpen;
        } else {
          return false;
        }
      }
      return true;
    }

    method OnSuccess()
      modifies this
      ensures Contents() == Next(old(Contents()), failureThreshold, resetTimeoutMs, Succeed)
    {
      failureCount := 0;
      state := Closed;
    }

    method OnFailure(now: int)
      modifies this
      ensures Contents() == Next(old(Contents()), failureThreshold, resetTimeoutMs, Fail(now))
    {
      failureCount := failureCount + 1;
      lastFailureTime := now;
      if failureCount >= failureThreshold {
        state := Open;
      }
    }

    /** One call with nothing else in between: it runs from `now` to `finished`. */
    method Execute(succeeds: bool, now: int, finished: int) returns (admitted: bool)
      modifies this
      ensures admitted == Admits(old(Contents()), resetTimeoutMs, now)
      ensures var started := Next(old(Contents()), failureThreshold, resetTimeoutMs, Start(now));
              var end := if succeeds then Succeed else Fail(finished);
              Contents() == if !admitted then old(Contents()) else Next(started, failureThreshold, resetTimeoutMs, end)
    {
      admitted := Begin(now);
      if !admitted {
        return;
      }
      if succeeds {
        OnSuccess();
      } else {
        OnFailure(finished);
      }
    }
  }
}
