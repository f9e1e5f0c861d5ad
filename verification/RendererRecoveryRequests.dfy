/** What becomes of every request for a recovery, told by the events and the log alone. */
module RendererRecoveryRequests {
  import opened Basics
  import opened RendererRecovery
  import opened RendererRecoveryRuns
  import opened RendererRecoveryBackoff

  // ---- What the events and the log say. ----

  function LogAt(events: seq<Event>, n: nat): seq<Entry>
    requires n <= |events|
  {
    if Run(events, n).Some? then Run(events, n).value.log else []
  }

  /** What event `n` adds to the log. */
  function Added(events: seq<Event>, n: nat): seq<Entry>
    requires n < |events|
  {
    if |LogAt(events, n)| <= |LogAt(events, n + 1)| then LogAt(events, n + 1)[|LogAt(events, n)|..] else []
  }

  /** The recovery an event asks for. */
  function Asks(e: Event): Option<Request> {
    match e.what
    case RenderProcessGone => Some(Request(GoneTrigger, Reload, false))
    case DidFailLoad(errorCode, isMainFrame) =>
      if isMainFrame && errorCode != -3 then Some(Request(FailLoadTrigger, LoadUrl, false)) else None
    case UnresponsiveTimerFires => Some(Request(UnresponsiveTrigger, Reload, true))
    case _ => None
  }

  /** Some recovery started and has neither succeeded nor failed since. */
  predicate Running(log: seq<Entry>) {
    exists i :: 0 <= i < |log| && log[i].Started? && forall k :: i < k < |log| ==> !Settles(log[k])
  }

  predicate Settles(entry: Entry) {
    entry.Succeeded? || entry.Failed?
  }

  /** The wait after one, two, or more failures in a row. */
  function Backoff(failures: nat): int {
    if failures == 0 then 0 else if failures == 1 then 250 else if failures == 2 then 1000 else 3000
  }

  /** Event `j` asks for `r`, and nothing is said about it: it is accepted for later. */
  predicate Defers(events: seq<Event>, j: nat, r: Request)
    requires j < |events|
  {
    Asks(events[j]) == Some(r) && Added(events, j) == []
  }

  function DueOf(events: seq<Event>, j: nat): int
    requires j < |events|
  {
    events[j].now + Backoff(FailuresInARow(LogAt(events, j)))
  }

  /** Becoming responsive withdraws a request made for being unresponsive, and no other. */
  predicate Withdraws(e: Event, r: Request) {
    e.what.Responsive? && r.trigger.UnresponsiveTrigger?
  }

  predicate Passes(e: Event, r: Request) {
    !e.what.ScheduledTimerFires? && !Withdraws(e, r)
  }

  /** `r`, accepted for later at event `j`, still waits before event `n`. */
  predicate WaitsSince(events: seq<Event>, j: nat, n: nat, r: Request)
    requires n <= |events|
  {
    j < n && Defers(events, j, r) && forall k :: j < k < n ==> Passes(events[k], r)
  }

  ghost predicate SomethingWaits(events: seq<Event>, n: nat)
    requires n <= |events|
  {
    exists j: nat, r :: WaitsSince(events, j, n, r)
  }

  /** The renderer became unresponsive at event `j`, and that wait neither ended nor began anew. */
  predicate HangsSince(events: seq<Event>, j: nat, n: nat)
    requires n <= |events|
  {
    j < n && events[j].what.Unresponsive? && forall k :: j < k < n ==> !EndsHang(events[k])
  }

  predicate EndsHang(e: Event) {
    e.what.Unresponsive? || e.what.Responsive? || e.what.UnresponsiveTimerFires?
  }

  // ---- One step. ----

  lemma {:induction false} RunPrefix(events: seq<Event>, j: nat, n: nat)
    requires j <= n <= |events| && Run(events, n).Some?
    ensures Run(events, j).Some?
  {
    if j < n { RunPrefix(events, j, n - 1); }
  }

  lemma AddedIs(events: seq<Event>, n: nat) returns (s: State, log: seq<Entry>, r: Result)
    requires n < |events| && Run(events, n + 1).Some?
    ensures Run(events, n).Some? && s == Run(events, n).value.state && log == LogAt(events, n)
    ensures Enabled(s, events[n]) && r == Step(s, events[n])
    ensures Added(events, n) == r.log && Run(events, n + 1).value == Result(r.state, log + r.log)
  {
    s, log := Run(events, n).value.state, Run(events, n).value.log;
    r := Step(s, events[n]);
    assert (log + r.log)[|log|..] == r.log;
  }

  /** What the step at event `n` does, without the step function. */
  predicate Moves(e: Event, s: State, log: seq<Entry>, added: seq<Entry>, after: State) {
    && ((s.inFlight <==> Running(log)) ==> (after.inFlight <==> Running(log + added)))
    && TimerMoves(e, s, added, after)
    && HangMoves(e, s.unresponsiveDue, after.unresponsiveDue)
    && (s.scheduled.Some? && !e.what.ScheduledTimerFires? ==> after.attempts == s.attempts)
  }

  predicate TimerMoves(e: Event, s: State, added: seq<Entry>, after: State) {
    if Asks(e).Some? && added == [] then
      && s.scheduled.None? && after.scheduled == Some(Timer(e.now + Backoff(s.failures), Asks(e).value))
      && after.attempts == Pruned(s.attempts, e.now)
    else after.scheduled == if s.scheduled.Some? && Passes(e, s.scheduled.value.request) then s.scheduled else None
  }

  predicate HangMoves(e: Event, before: Option<int>, after: Option<int>) {
    && after == (if e.what.Unresponsive? then Some(e.now + 15_000) else if EndsHang(e) then None else before)
    && (e.what.UnresponsiveTimerFires? ==> before.Some? && e.now >= before.value)
  }

  /** The states around event `n`, and what it adds. */
  lemma RunMoves(events: seq<Event>, n: nat) returns (s: State, log: seq<Entry>, added: seq<Entry>, after: State)
    requires n < |events| && Run(events, n + 1).Some?
    ensures Run(events, n).Some? && s == Run(events, n).value.state && log == LogAt(events, n)
    ensures after == Run(events, n + 1).value.state && added == Added(events, n)
    ensures LogAt(events, n + 1) == log + added
    ensures Moves(events[n], s, log, added, after)
  {
    var r;
    s, log, r := AddedIs(events, n);
    added, after := r.log, r.state;
    StepRuns(s, log, events[n]);
    StepSchedules(s, events[n]);
    StepHangs(s, events[n]);
  }

  lemma FailuresAreTold(events: seq<Event>, n: nat, s: State)
    requires n <= |events| && Run(events, n).Some? && s == Run(events, n).value.state
    ensures s.failures == FailuresInARow(LogAt(events, n))
  {
    CounterIsFailuresInARow(events, n);
  }

  lemma RunningOneMore(log: seq<Entry>, entry: Entry)
    ensures Running(log + [entry]) <==> entry.Started? || (Running(log) && !Settles(entry))
  {
    var longer := log + [entry];
    if Running(log) && !Settles(entry) {
      var i :| 0 <= i < |log| && log[i].Started? && forall k :: i < k < |log| ==> !Settles(log[k]);
      assert longer[i].Started? && forall k :: i < k < |longer| ==> !Settles(longer[k]);
    }
    if Running(longer) && !entry.Started? {
      var i :| 0 <= i < |longer| && longer[i].Started? && forall k :: i < k < |longer| ==> !Settles(longer[k]);
      assert log[i].Started? && forall k :: i < k < |log| ==> !Settles(log[k]) by {
        assert forall k :: 0 <= k < |log| ==> longer[k] == log[k];
      }
      assert !Settles(longer[|log|]);
    }
    if entry.Started? { assert longer[|log|].Started?; }
  }

  lemma StepRuns(s: State, log: seq<Entry>, e: Event)
    requires Enabled(s, e)
    ensures (s.inFlight <==> Running(log)) ==> (Step(s, e).state.inFlight <==> Running(log + Step(s, e).log))
  {
    var more := Step(s, e).log;
    if more == [] {
      assert log + more == log;
    } else if |more| == 1 {
      assert more == [more[0]];
      RunningOneMore(log, more[0]);
    } else {
      assert log + more == log + [more[0]] + [more[1]];
      RunningOneMore(log, more[0]);
      RunningOneMore(log + [more[0]], more[1]);
    }
  }

  /** A recovery is under way exactly when the log says so. */
  lemma {:induction false} RunningIsInFlight(events: seq<Event>, n: nat)
    requires n <= |events| && Run(events, n).Some?
    ensures Run(events, n).value.state.inFlight <==> Running(LogAt(events, n))
  {
    if n > 0 {
      var s, log, added, after := RunMoves(events, n - 1);
      RunningIsInFlight(events, n - 1);
    }
  }

  /** What one step does to the scheduled timer. */
  lemma StepSchedules(s: State, e: Event)
    requires Enabled(s, e)
    ensures TimerMoves(e, s, Step(s, e).log, Step(s, e).state)
    ensures s.scheduled.Some? && !e.what.ScheduledTimerFires? ==> Step(s, e).state.attempts == s.attempts
  {
  }

  /** What one step does to the threshold timer. */
  lemma StepHangs(s: State, e: Event)
    requires Enabled(s, e)
    ensures HangMoves(e, s.unresponsiveDue, Step(s, e).state.unresponsiveDue)
  {
  }

  // ---- The two timers. ----

  lemma WaitsOneMore(events: seq<Event>, j: nat, n: nat, r: Request)
    requires n < |events|
    ensures WaitsSince(events, j, n + 1, r) <==>
      (j == n && Defers(events, n, r)) || (WaitsSince(events, j, n, r) && Passes(events[n], r))
  {
  }

  /** The scheduled timer is that of the request that waits. */
  ghost predicate TimerIsTold(events: seq<Event>, n: nat, timer: Option<Timer>)
    requires n <= |events|
  {
    && (forall j: nat, r :: WaitsSince(events, j, n, r) ==> timer == Some(Timer(DueOf(events, j), r)))
    && (timer.Some? ==> exists j: nat :: WaitsSince(events, j, n, timer.value.request))
  }

  lemma TimerToldOneMore(events: seq<Event>, k: nat, s: State, after: State)
    requires k < |events| && TimerIsTold(events, k, s.scheduled)
    requires s.failures == FailuresInARow(LogAt(events, k)) && TimerMoves(events[k], s, Added(events, k), after)
    ensures TimerIsTold(events, k + 1, after.scheduled)
  {
    forall j: nat, r | WaitsSince(events, j, k + 1, r) ensures after.scheduled == Some(Timer(DueOf(events, j), r)) {
      WaitsOneMore(events, j, k, r);
      TimerStays(events, j, k, r, s, after);
    }
    if after.scheduled.Some? {
      var j := TimerHasRequest(events, k, s, after);
    }
  }

  lemma TimerStays(events: seq<Event>, j: nat, k: nat, r: Request, s: State, after: State)
    requires k < |events| && TimerIsTold(events, k, s.scheduled)
    requires s.failures == FailuresInARow(LogAt(events, k)) && TimerMoves(events[k], s, Added(events, k), after)
    requires (j == k && Defers(events, k, r)) || (WaitsSince(events, j, k, r) && Passes(events[k], r))
    ensures after.scheduled == Some(Timer(DueOf(events, j), r))
  {
    if WaitsSince(events, j, k, r) {
      assert s.scheduled == Some(Timer(DueOf(events, j), r));
    }
  }

  lemma TimerHasRequest(events: seq<Event>, k: nat, s: State, after: State) returns (j: nat)
    requires k < |events| && TimerIsTold(events, k, s.scheduled) && after.scheduled.Some?
    requires TimerMoves(events[k], s, Added(events, k), after)
    ensures WaitsSince(events, j, k + 1, after.scheduled.value.request)
  {
    var r := after.scheduled.value.request;
    if Defers(events, k, r) {
      j := k;
    } else {
      j :| WaitsSince(events, j, k, r);
    }
    WaitsOneMore(events, j, k, r);
  }

  lemma {:induction false} ScheduledTimerIsTold(events: seq<Event>, n: nat)
    requires n <= |events| && Run(events, n).Some?
    ensures TimerIsTold(events, n, Run(events, n).value.state.scheduled)
  {
    if n > 0 {
      var s, log, added, after := RunMoves(events, n - 1);
      ScheduledTimerIsTold(events, n - 1);
      FailuresAreTold(events, n - 1, s);
      TimerToldOneMore(events, n - 1, s, after);
    }
  }

  lemma HangsOneMore(events: seq<Event>, j: nat, n: nat)
    requires n < |events|
    ensures HangsSince(events, j, n + 1) <==>
      (j == n && events[n].what.Unresponsive?) || (HangsSince(events, j, n) && !EndsHang(events[n]))
  {
  }

  /** The threshold timer is that of the unresponsive event that still counts, 15 seconds after it. */
  ghost predicate HangIsTold(events: seq<Event>, n: nat, due: Option<int>)
    requires n <= |events|
  {
    && (forall j: nat :: HangsSince(events, j, n) ==> due == Some(events[j].now + 15_000))
    && (due.Some? ==> exists j: nat :: HangsSince(events, j, n))
  }

  lemma HangToldOneMore(events: seq<Event>, k: nat, before: Option<int>, after: Option<int>)
    requires k < |events| && HangIsTold(events, k, before) && HangMoves(events[k], before, after)
    ensures HangIsTold(events, k + 1, after)
  {
    forall j: nat | HangsSince(events, j, k + 1) ensures after == Some(events[j].now + 15_000) {
      HangsOneMore(events, j, k);
    }
    if after.Some? {
      HangsOneMore(events, k, k);
      if !events[k].what.Unresponsive? {
        var j: nat :| HangsSince(events, j, k);
        HangsOneMore(events, j, k);
      }
    }
  }

  lemma RunHangs(events: seq<Event>, n: nat) returns (before: Option<int>, after: Option<int>)
    requires n < |events| && Run(events, n + 1).Some?
    ensures Run(events, n).Some? && before == Run(events, n).value.state.unresponsiveDue
    ensures after == Run(events, n + 1).value.state.unresponsiveDue && HangMoves(events[n], before, after)
  {
    var s, log, added, state := RunMoves(events, n);
    before, after := s.unresponsiveDue, state.unresponsiveDue;
  }

  lemma {:induction false} ThresholdTimerIsTold(events: seq<Event>, n: nat) returns (due: Option<int>)
    requires n <= |events| && Run(events, n).Some?
    ensures due == Run(events, n).value.state.unresponsiveDue && HangIsTold(events, n, due)
  {
    if n == 0 {
      due := None;
    } else {
      var before;
      before, due := RunHangs(events, n - 1);
      var told := ThresholdTimerIsTold(events, n - 1);
      HangToldOneMore(events, n - 1, before, due);
    }
  }

  /** What the timers and the running recovery can do next, and when. */
  lemma EnabledExactly(events: seq<Event>, n: nat, e: Event)
    requires n <= |events| && Run(events, n).Some?
    ensures Enabled(Run(events, n).value.state, e) <==>
      match e.what
      case UnresponsiveTimerFires => exists j: nat :: HangsSince(events, j, n) && e.now >= events[j].now + 15_000
      case ScheduledTimerFires => exists j: nat, r :: WaitsSince(events, j, n, r) && e.now >= DueOf(events, j)
      case RecoverySettles(_) => Running(LogAt(events, n))
      case _ => true
  {
    RunningIsInFlight(events, n);
    ScheduledTimerIsTold(events, n);
    var due := ThresholdTimerIsTold(events, n);
  }

  // ---- What is said to each event. ----

  /** The start of a recovery for `r`, which fails at once when the window is destroyed. */
  ghost predicate StartsFor(added: seq<Entry>, r: Request, e: Event) {
    exists attempt :: added == [Started(e.now, attempt, r)] + if e.destroyed then [Failed] else []
  }

  ghost predicate Refuses(added: seq<Entry>, r: Request) {
    exists count: nat :: added == [CircuitOpen(r.trigger, count)] && count >= 3
  }

  /** The answer by the state alone. */
  lemma StepAnswers(s: State, e: Event, r: Request) returns (added: seq<Entry>, kept: nat)
    requires Enabled(s, e) && Asks(e) == Some(r)
    ensures added == Step(s, e).log && kept == |Pruned(s.attempts, e.now)|
    ensures added ==
      if s.inFlight then [SkippedInFlight(r.trigger)]
      else if s.scheduled.Some? then [SkippedScheduled(r.trigger)]
      else if kept >= 3 then [CircuitOpen(r.trigger, kept)]
      else if s.failures > 0 then []
      else [Started(e.now, kept + 1, r)] + if e.destroyed then [Failed] else []
  {
    added, kept := Step(s, e).log, |Pruned(s.attempts, e.now)|;
  }

  /** The state and the log before event `n`: who runs, who waits, how many failed. */
  lemma StateIsTold(events: seq<Event>, n: nat) returns (s: State, log: seq<Entry>)
    requires n <= |events| && Run(events, n).Some?
    ensures s == Run(events, n).value.state && log == LogAt(events, n)
    ensures (s.inFlight <==> Running(log)) && s.failures == FailuresInARow(log)
    ensures TimerIsTold(events, n, s.scheduled) && (s.scheduled.Some? <==> SomethingWaits(events, n))
  {
    s, log := Run(events, n).value.state, LogAt(events, n);
    RunningIsInFlight(events, n);
    FailuresAreTold(events, n, s);
    ScheduledTimerIsTold(events, n);
  }

  /** The same by the events and the log, but for what the breaker kept of its starts. */
  lemma AnswerIsTold(events: seq<Event>, n: nat, r: Request) returns (s: State, log: seq<Entry>, kept: nat)
    requires n < |events| && Run(events, n + 1).Some? && Asks(events[n]) == Some(r)
    ensures Run(events, n).Some? && s == Run(events, n).value.state && log == LogAt(events, n)
    ensures kept == |Pruned(s.attempts, events[n].now)|
    ensures Added(events, n) ==
      if Running(log) then [SkippedInFlight(r.trigger)]
      else if SomethingWaits(events, n) then [SkippedScheduled(r.trigger)]
      else if kept >= 3 then [CircuitOpen(r.trigger, kept)]
      else if FailuresInARow(log) > 0 then []
      else [Started(events[n].now, kept + 1, r)] + if events[n].destroyed then [Failed] else []
  {
    var step, added;
    s, log, step := AddedIs(events, n);
    added, kept := StepAnswers(s, events[n], r);
    var same, text := StateIsTold(events, n);
  }

  /** One request: skipped while a recovery runs or another request waits; otherwise, unless the circuit is
      open, started at once after a success and accepted for later after a failure. */
  lemma RequestIsAnswered(events: seq<Event>, n: nat, r: Request)
    requires n < |events| && Run(events, n + 1).Some? && Asks(events[n]) == Some(r)
    ensures
      var log, added := LogAt(events, n), Added(events, n);
      if Running(log) then added == [SkippedInFlight(r.trigger)]
      else if SomethingWaits(events, n) then added == [SkippedScheduled(r.trigger)]
      else
        || Refuses(added, r)
        || (if FailuresInARow(log) == 0 then StartsFor(added, r, events[n]) else added == [])
  {
    var s, earlier, kept := AnswerIsTold(events, n, r);
  }

  /** What the firing does, by the state. */
  lemma StepFires(s: State, e: Event) returns (added: seq<Entry>)
    requires Enabled(s, e) && e.what.ScheduledTimerFires?
    ensures added == Step(s, e).log && s.scheduled.Some? && e.now >= s.scheduled.value.due
    ensures added ==
      [Started(e.now, |s.attempts| + 1, s.scheduled.value.request)] + if e.destroyed then [Failed] else []
  {
    added := Step(s, e).log;
  }

  lemma FiringIsTold(events: seq<Event>, n: nat) returns (s: State, j: nat, r: Request)
    requires n < |events| && Run(events, n + 1).Some? && events[n].what.ScheduledTimerFires?
    ensures Run(events, n).Some? && s == Run(events, n).value.state
    ensures WaitsSince(events, j, n, r) && s.scheduled == Some(Timer(DueOf(events, j), r))
    ensures events[n].now >= DueOf(events, j)
    ensures Added(events, n) ==
      [Started(events[n].now, |s.attempts| + 1, r)] + if events[n].destroyed then [Failed] else []
  {
    var log, step;
    s, log, step := AddedIs(events, n);
    var added := StepFires(s, events[n]);
    ScheduledTimerIsTold(events, n);
    r := s.scheduled.value.request;
    j :| WaitsSince(events, j, n, r);
  }

  /** The firing of the scheduled timer starts the very request that was accepted, after its delay. */
  lemma ScheduledTimerStarts(events: seq<Event>, n: nat) returns (j: nat, r: Request)
    requires n < |events| && Run(events, n + 1).Some? && events[n].what.ScheduledTimerFires?
    ensures WaitsSince(events, j, n, r) && events[n].now >= DueOf(events, j)
    ensures StartsFor(Added(events, n), r, events[n])
  {
    var s;
    s, j, r := FiringIsTold(events, n);
  }

  lemma OnlyOneWaits(events: seq<Event>, i: nat, j: nat, n: nat, q: Request, r: Request)
    requires n <= |events| && Run(events, n).Some? && WaitsSince(events, i, n, q) && WaitsSince(events, j, n, r)
    ensures q == r && DueOf(events, i) == DueOf(events, j)
  {
    ScheduledTimerIsTold(events, n);
  }

  /** Since an accepted request was made: it was started by its timer, withdrawn, or it still waits. */
  ghost predicate IsNotLost(events: seq<Event>, j: nat, n: nat, r: Request)
    requires j < n <= |events|
  {
    || WaitsSince(events, j, n, r)
    || exists k: nat :: j < k < n && WaitsSince(events, j, k, r) &&
         ((events[k].what.ScheduledTimerFires? && events[k].now >= DueOf(events, j)
           && StartsFor(Added(events, k), r, events[k]))
          || Withdraws(events[k], r))
  }

  lemma {:induction false} AcceptedIsKept(events: seq<Event>, j: nat, n: nat, r: Request)
    requires j < n <= |events| && Run(events, n).Some? && Defers(events, j, r)
    ensures IsNotLost(events, j, n, r)
  {
    if n > j + 1 {
      var k := n - 1;
      RunPrefix(events, k, n);
      AcceptedIsKept(events, j, k, r);
      if WaitsSince(events, j, k, r) {
        WaitsOneMore(events, j, k, r);
        if events[k].what.ScheduledTimerFires? {
          var i, q := ScheduledTimerStarts(events, k);
          OnlyOneWaits(events, i, j, k, q, r);
        }
      }
    }
  }

  /** No accepted request is dropped: a timer starts it or it still waits, unless the renderer became
      responsive meanwhile. While it waits its timer can fire from its due time on. */
  lemma AcceptedRequestIsNotLost(events: seq<Event>, j: nat, n: nat, r: Request)
    requires j < n <= |events| && Run(events, n).Some? && Defers(events, j, r)
    ensures IsNotLost(events, j, n, r)
    ensures WaitsSince(events, j, n, r) ==> forall now, destroyed :: now >= DueOf(events, j) ==>
      Enabled(Run(events, n).value.state, Event(now, destroyed, ScheduledTimerFires))
  {
    AcceptedIsKept(events, j, n, r);
    ScheduledTimerIsTold(events, n);
  }

  /** Since the renderer became unresponsive at event `j`: the wait is still on, it ended when the renderer
      became responsive or unresponsive anew, or its timer fired, no earlier than 15 seconds on, and asked. */
  ghost predicate HangIsNotLost(events: seq<Event>, j: nat, n: nat)
    requires j < n <= |events|
  {
    || HangsSince(events, j, n)
    || exists k: nat :: j < k < n && HangsSince(events, j, k) &&
         ((events[k].what.UnresponsiveTimerFires? && events[k].now >= events[j].now + 15_000
           && Asks(events[k]) == Some(Request(UnresponsiveTrigger, Reload, true)))
          || events[k].what.Responsive? || events[k].what.Unresponsive?)
  }

  lemma {:induction false} HangIsKept(events: seq<Event>, j: nat, n: nat)
    requires j < n <= |events| && Run(events, n).Some? && events[j].what.Unresponsive?
    ensures HangIsNotLost(events, j, n)
  {
    if n > j + 1 {
      var k := n - 1;
      var before, after := RunHangs(events, k);
      HangIsKept(events, j, k);
      if HangsSince(events, j, k) {
        var due := ThresholdTimerIsTold(events, k);
        HangsOneMore(events, j, k);
        HangIsKeptOneMore(events, j, k, due);
      }
    }
  }

  lemma HangIsKeptOneMore(events: seq<Event>, j: nat, k: nat, due: Option<int>)
    requires j < k < |events| && HangsSince(events, j, k) && HangIsTold(events, k, due)
    requires events[k].what.UnresponsiveTimerFires? ==> due.Some? && events[k].now >= due.value
    ensures HangIsNotLost(events, j, k + 1)
  {
    HangsOneMore(events, j, k);
    assert due == Some(events[j].now + 15_000);
  }

  /** No expired wait is dropped: its timer can fire, and what it asks for then is answered as any request
      is, by `RequestIsAnswered`. */
  lemma ExpiredWaitIsNotLost(events: seq<Event>, j: nat, n: nat)
    requires j < n <= |events| && Run(events, n).Some? && events[j].what.Unresponsive?
    ensures HangIsNotLost(events, j, n)
    ensures HangsSince(events, j, n) ==> forall now, destroyed :: now >= events[j].now + 15_000 ==>
      Enabled(Run(events, n).value.state, Event(now, destroyed, UnresponsiveTimerFires))
  {
    HangIsKept(events, j, n);
    var due := ThresholdTimerIsTold(events, n);
  }

  /** What neither asks nor fires: a settled recovery is logged as it went, the rest says nothing. */
  lemma OthersSayNoMore(events: seq<Event>, n: nat)
    requires n < |events| && Run(events, n + 1).Some?
    requires Asks(events[n]).None? && !events[n].what.ScheduledTimerFires?
    ensures Added(events, n) ==
      if !events[n].what.RecoverySettles? then [] else if events[n].what.ok then [Succeeded] else [Failed]
  {
    var s, log, step := AddedIs(events, n);
  }

  // ---- The circuit and the attempt numbers, when the clock never goes back. ----

  /** The starts of the last 60 seconds. */
  ghost function RecentStarts(log: seq<Entry>, now: int): nat {
    |StartsIn(Starts(log), now - 59_999)|
  }

  lemma RunHistory(events: seq<Event>, n: nat) returns (s: State, log: seq<Entry>, before: int)
    requires n < |events| && ClockForward(events) && Run(events, n).Some?
    ensures s == Run(events, n).value.state && log == LogAt(events, n)
    ensures before <= events[n].now && Invariant(s, Starts(log), before)
  {
    s, log, before := Run(events, n).value.state, LogAt(events, n), NowAfter(events, n);
    RunKeepsInvariant(events, n);
  }

  lemma HistoryCounts(s: State, log: seq<Entry>, before: int, now: int) returns (kept: nat)
    requires Invariant(s, Starts(log), before) && before <= now
    ensures kept == |Pruned(s.attempts, now)| == RecentStarts(log, now)
  {
    var history := Starts(log);
    PruneKeepsInvariant(s, history, before, now);
    PrunedIsRecentPart(s.attempts, now);
    RecentPartCounts(Pruned(s.attempts, now), history, now);
    kept := |Pruned(s.attempts, now)|;
  }

  lemma KeptAreRecent(events: seq<Event>, n: nat, s: State) returns (kept: nat)
    requires n < |events| && ClockForward(events) && Run(events, n).Some? && s == Run(events, n).value.state
    ensures kept == |Pruned(s.attempts, events[n].now)| && kept == RecentStarts(LogAt(events, n), events[n].now)
  {
    var same, log, before := RunHistory(events, n);
    kept := HistoryCounts(s, log, before, events[n].now);
  }

  lemma IdleAnswer(events: seq<Event>, n: nat, r: Request) returns (s: State, kept: nat)
    requires n < |events| && Run(events, n + 1).Some? && Asks(events[n]) == Some(r)
    requires !Running(LogAt(events, n)) && !SomethingWaits(events, n)
    ensures Run(events, n).Some? && s == Run(events, n).value.state && kept == |Pruned(s.attempts, events[n].now)|
    ensures Added(events, n) ==
      if kept >= 3 then [CircuitOpen(r.trigger, kept)]
      else if FailuresInARow(LogAt(events, n)) > 0 then []
      else [Started(events[n].now, kept + 1, r)] + if events[n].destroyed then [Failed] else []
  {
    var log;
    s, log, kept := AnswerIsTold(events, n, r);
  }

  /** The circuit is open exactly on three recent starts, and an immediate start is numbered after them. */
  lemma CircuitAnswersExactly(events: seq<Event>, n: nat, r: Request) returns (recent: nat)
    requires n < |events| && Run(events, n + 1).Some? && ClockForward(events) && Asks(events[n]) == Some(r)
    requires !Running(LogAt(events, n)) && !SomethingWaits(events, n)
    ensures recent == RecentStarts(LogAt(events, n), events[n].now)
    ensures Added(events, n) ==
      if recent >= 3 then [CircuitOpen(r.trigger, recent)]
      else if FailuresInARow(LogAt(events, n)) > 0 then []
      else [Started(events[n].now, recent + 1, r)] + if events[n].destroyed then [Failed] else []
  {
    var s;
    s, recent := IdleAnswer(events, n, r);
    var kept := KeptAreRecent(events, n, s);
  }

  lemma WaitFreezesOneMore(events: seq<Event>, k: nat) returns (before: State, after: State)
    requires k < |events| && Run(events, k + 1).Some?
    ensures Run(events, k).Some? && before == Run(events, k).value.state && after == Run(events, k + 1).value.state
    ensures before.scheduled.Some? && Passes(events[k], before.scheduled.value.request) ==>
      after.scheduled == before.scheduled && after.attempts == before.attempts
  {
    var log, added;
    before, log, added, after := RunMoves(events, k);
  }

  lemma {:induction false} WaitingFreezesAttempts(events: seq<Event>, from: nat, n: nat)
      returns (first: State, s: State)
    requires from <= n <= |events| && Run(events, n).Some?
    ensures Run(events, from).Some? && first == Run(events, from).value.state && s == Run(events, n).value.state
    ensures
      first.scheduled.Some? && (forall k :: from <= k < n ==> Passes(events[k], first.scheduled.value.request)) ==>
        s.scheduled == first.scheduled && s.attempts == first.attempts
  {
    if n == from {
      s := Run(events, n).value.state;
      first := s;
    } else {
      var before;
      before, s := WaitFreezesOneMore(events, n - 1);
      first, before := WaitingFreezesAttempts(events, from, n - 1);
    }
  }

  lemma AcceptedKeepsRecent(events: seq<Event>, j: nat, r: Request) returns (accepted: State)
    requires j < |events| && Run(events, j + 1).Some? && ClockForward(events) && Defers(events, j, r)
    ensures accepted == Run(events, j + 1).value.state
    ensures accepted.scheduled.Some? && accepted.scheduled.value.request == r
    ensures |accepted.attempts| == RecentStarts(LogAt(events, j), events[j].now)
  {
    var before, log, added;
    before, log, added, accepted := RunMoves(events, j);
    var recent := KeptAreRecent(events, j, before);
  }

  lemma FrozenAttempts(events: seq<Event>, j: nat, n: nat, r: Request, s: State) returns (attempts: nat)
    requires n < |events| && Run(events, n).Some? && WaitsSince(events, j, n, r) && ClockForward(events)
    requires s == Run(events, n).value.state
    ensures attempts == |s.attempts| && attempts == RecentStarts(LogAt(events, j), events[j].now)
  {
    var first, same := WaitingFreezesAttempts(events, j + 1, n);
    var accepted := AcceptedKeepsRecent(events, j, r);
    attempts := |s.attempts|;
  }

  /** A delayed start is numbered after the starts that were recent when it was accepted. */
  lemma DelayedStartIsNumbered(events: seq<Event>, n: nat) returns (j: nat, r: Request)
    requires n < |events| && Run(events, n + 1).Some? && ClockForward(events)
    requires events[n].what.ScheduledTimerFires?
    ensures WaitsSince(events, j, n, r)
    ensures Added(events, n) ==
      [Started(events[n].now, RecentStarts(LogAt(events, j), events[j].now) + 1, r)]
      + if events[n].destroyed then [Failed] else []
  {
    var s;
    s, j, r := FiringIsTold(events, n);
    var attempts := FrozenAttempts(events, j, n, r, s);
  }
}
