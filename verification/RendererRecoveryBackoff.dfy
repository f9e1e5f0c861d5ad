/** How long the recovery circuit breaker waits after failures. */
module RendererRecoveryBackoff {
  import opened Basics
  import opened RendererRecovery
  import opened RendererRecoveryRuns

  /** How many recoveries failed since the last one that succeeded. */
  function FailuresInARow(log: seq<Entry>): nat {
    if log == [] then 0 else
    var front := log[..|log| - 1];
    match log[|log| - 1]
    case Succeeded => 0
    case Failed => FailuresInARow(front) + 1
    case _ => FailuresInARow(front)
  }

  /** When the latest recovery failed. */
  function LastFailure(events: seq<Event>, n: nat): Option<int>
    requires n <= |events| && Run(events, n).Some?
  {
    if n == 0 then None
    else if Failed in Step(Run(events, n - 1).value.state, events[n - 1]).log then Some(events[n - 1].now)
    else LastFailure(events, n - 1)
  }

  lemma FailuresOneMore(log: seq<Entry>, entry: Entry)
    ensures FailuresInARow(log + [entry]) ==
      if entry.Succeeded? then 0 else FailuresInARow(log) + if entry.Failed? then 1 else 0
  {
    assert (log + [entry])[..|log|] == log;
  }

  lemma FailuresAfter(log: seq<Entry>, more: seq<Entry>)
    requires |more| <= 2 && (|more| == 2 ==> more[0].Started? && more[1].Failed?)
    ensures FailuresInARow(log + more) ==
      if more == [] then FailuresInARow(log)
      else if more[|more| - 1].Succeeded? then 0
      else FailuresInARow(log) + if more[|more| - 1].Failed? then 1 else 0
  {
    if more == [] {
      assert log + more == log;
    } else if |more| == 1 {
      assert more == [more[0]];
      FailuresOneMore(log, more[0]);
    } else {
      assert log + more == log + [more[0]] + [more[1]];
      FailuresOneMore(log, more[0]);
      FailuresOneMore(log + [more[0]], more[1]);
    }
  }

  /** What a step does to the failure count, and the shape of what it logs. */
  lemma StepCounts(s: State, e: Event)
    requires Enabled(s, e)
    ensures
      var r := Step(s, e);
      && |r.log| <= 2 && (|r.log| == 2 ==> r.log[0].Started? && r.log[1].Failed?)
      && (Failed in r.log <==> r.log != [] && r.log[|r.log| - 1].Failed?)
      && r.state.failures ==
           if r.log == [] then s.failures
           else if r.log[|r.log| - 1].Succeeded? then 0
           else s.failures + if r.log[|r.log| - 1].Failed? then 1 else 0
  {
  }

  /** The breaker's counter is the number of failures in a row. */
  lemma {:induction false} CounterIsFailuresInARow(events: seq<Event>, n: nat)
    requires n <= |events| && Run(events, n).Some?
    ensures var r := Run(events, n).value; r.state.failures == FailuresInARow(r.log)
  {
    if n > 0 {
      CounterIsFailuresInARow(events, n - 1);
      var before := Run(events, n - 1).value;
      StepCounts(before.state, events[n - 1]);
      FailuresAfter(before.log, Step(before.state, events[n - 1]).log);
    }
  }

  /** A recorded failure, and a timer set for long enough after it. */
  predicate Waits(s: State, lastFailure: Option<int>, now: int) {
    && (s.failures > 0 ==> lastFailure.Some? && lastFailure.value <= now)
    && (s.scheduled.Some? ==> s.failures > 0 && s.scheduled.value.due >= lastFailure.value + RetryDelay(s.failures))
  }

  lemma StepWaits(s: State, lastFailure: Option<int>, before: int, e: Event)
    requires Enabled(s, e) && Waits(s, lastFailure, before) && before <= e.now
    requires !(s.inFlight && s.scheduled.Some?)
    ensures var r := Step(s, e); Waits(r.state, if Failed in r.log then Some(e.now) else lastFailure, e.now)
    ensures var r := Step(s, e);
      s.failures > 0 && r.log != [] && r.log[0].Started? ==> e.now >= lastFailure.value + RetryDelay(s.failures)
  {
    StepCounts(s, e);
  }

  lemma {:induction false} RunWaits(events: seq<Event>, n: nat) returns (s: State, lastFailure: Option<int>)
    requires n <= |events| && ClockForward(events) && Run(events, n).Some?
    ensures s == Run(events, n).value.state && lastFailure == LastFailure(events, n)
    ensures Waits(s, lastFailure, NowAfter(events, n))
  {
    s, lastFailure := Run(events, n).value.state, LastFailure(events, n);
    if n > 0 {
      var before, earlier := RunWaits(events, n - 1);
      NeverInFlightAndScheduled(events, n - 1);
      StepWaits(before, earlier, NowAfter(events, n - 1), events[n - 1]);
    }
  }

  /** After one, two, or more failures in a row, no recovery starts within 250 ms, 1 s or 3 s of the
      last of them, whatever asks for it. */
  lemma StartsBackOff(events: seq<Event>, n: nat)
    requires n < |events| && ClockForward(events) && Run(events, n + 1).Some?
    requires var log := Step(Run(events, n).value.state, events[n]).log; log != [] && log[0].Started?
    requires FailuresInARow(Run(events, n).value.log) > 0
    ensures
      var failures := FailuresInARow(Run(events, n).value.log);
      LastFailure(events, n).Some? &&
      events[n].now - LastFailure(events, n).value >=
        (if failures == 1 then 250 else if failures == 2 then 1000 else 3000)
  {
    CounterIsFailuresInARow(events, n);
    var s, lastFailure := RunWaits(events, n);
    NeverInFlightAndScheduled(events, n);
    StepWaits(s, lastFailure, NowAfter(events, n), events[n]);
  }
}
