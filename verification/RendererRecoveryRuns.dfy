/** What the recovery circuit breaker keeps over every run. */
module RendererRecoveryRuns {
  import opened Basics
  import opened RendererRecovery

  // ---- Runs. ----

  /** The state and the log after the first `n` events; None when one of them was not enabled. */
  function Run(events: seq<Event>, n: nat): Option<Result>
    requires n <= |events|
  {
    if n == 0 then Some(Result(INITIAL, [])) else
    match Run(events, n - 1)
    case None => None
    case Some(before) =>
      if !Enabled(before.state, events[n - 1]) then None else
      var step := Step(before.state, events[n - 1]);
      Some(Result(step.state, before.log + step.log))
  }

  /** The clock never goes back. */
  predicate ClockForward(events: seq<Event>) {
    forall i, j :: 0 <= i < j < |events| ==> events[i].now <= events[j].now
  }

  function StartOf(entry: Entry): seq<int> {
    if entry.Started? then [entry.at] else []
  }

  /** The start times in a log, in order. */
  function Starts(log: seq<Entry>): seq<int> {
    if log == [] then [] else StartOf(log[0]) + Starts(log[1..])
  }

  lemma Associates(a: seq<int>, b: seq<int>, c: seq<int>)
    ensures (a + b) + c == a + (b + c)
  {
  }

  lemma {:induction false} StartsAppend(a: seq<Entry>, b: seq<Entry>)
    ensures Starts(a + b) == Starts(a) + Starts(b)
  {
    if a == [] {
      assert a + b == b;
    } else {
      var rest := a[1..];
      assert (a + b)[0] == a[0] && (a + b)[1..] == rest + b;
      StartsAppend(rest, b);
      Associates(StartOf(a[0]), Starts(rest), Starts(b));
    }
  }

  // ---- The attempts kept are the recent part of the history. ----

  predicate Ordered(s: seq<int>) {
    forall i, j :: 0 <= i < j < |s| ==> s[i] <= s[j]
  }

  /** `kept` is the end of `history`, and everything before it is out of the window at `now`. */
  predicate IsRecentPart(kept: seq<int>, history: seq<int>, now: int) {
    && |kept| <= |history|
    && kept == history[|history| - |kept|..]
    && forall i :: 0 <= i < |history| - |kept| ==> now - history[i] >= CIRCUIT_WINDOW_MS
  }

  /** Any start is a window away from the third start before it, and from all before that one. */
  predicate Spaced(history: seq<int>) {
    forall i, j :: 0 <= i && i + MAX_ATTEMPTS_PER_WINDOW <= j < |history| ==>
      history[j] - history[i] >= CIRCUIT_WINDOW_MS
  }

  /** All starts so far, in order, and the recent part of them that is kept. */
  predicate IsHistory(kept: seq<int>, history: seq<int>, now: int) {
    && Ordered(history) && (forall i :: 0 <= i < |history| ==> history[i] <= now)
    && IsRecentPart(kept, history, now)
    && Spaced(history)
  }

  /** At most one recovery is under way, and there is room in the window for one that is scheduled. */
  predicate HasRoom(s: State) {
    && !(s.inFlight && s.scheduled.Some?)
    && |s.attempts| <= MAX_ATTEMPTS_PER_WINDOW
    && (s.scheduled.Some? ==> |s.attempts| < MAX_ATTEMPTS_PER_WINDOW)
  }

  predicate Invariant(s: State, history: seq<int>, now: int) {
    && HasRoom(s)
    && (s.scheduled.Some? ==> s.failures > 0)
    && IsHistory(s.attempts, history, now)
  }

  lemma {:induction false} PrunedKeeps(attempts: seq<int>, now: int)
    requires forall i :: 0 <= i < |attempts| ==> now - attempts[i] < CIRCUIT_WINDOW_MS
    ensures Pruned(attempts, now) == attempts
  {
    if attempts != [] {
      PrunedKeeps(attempts[1..], now);
    }
  }

  lemma {:induction false} PrunedIsRecentPart(attempts: seq<int>, now: int)
    requires Ordered(attempts)
    ensures IsRecentPart(Pruned(attempts, now), attempts, now)
    ensures forall i :: 0 <= i < |Pruned(attempts, now)| ==> now - Pruned(attempts, now)[i] < CIRCUIT_WINDOW_MS
  {
    if attempts == [] {
    } else if now - attempts[0] < CIRCUIT_WINDOW_MS {
      PrunedKeeps(attempts, now);
    } else {
      PrunedIsRecentPart(attempts[1..], now);
      StillRecentPart(Pruned(attempts[1..], now), attempts, now);
    }
  }

  lemma StillRecentPart(kept: seq<int>, history: seq<int>, now: int)
    requires history != [] && IsRecentPart(kept, history[1..], now) && now - history[0] >= CIRCUIT_WINDOW_MS
    ensures IsRecentPart(kept, history, now)
  {
    forall i | 0 < i < |history| - |kept| ensures now - history[i] >= CIRCUIT_WINDOW_MS {
      assert history[i] == history[1..][i - 1];
    }
  }

  lemma PruneKeepsInvariant(s: State, history: seq<int>, before: int, now: int)
    requires Invariant(s, history, before) && before <= now
    ensures Invariant(s.(attempts := Pruned(s.attempts, now)), history, now)
  {
    assert Ordered(s.attempts);
    PrunedIsRecentPart(s.attempts, now);
    var dropped := |history| - |s.attempts|;
    var pruned := Pruned(s.attempts, now);
    forall i | 0 <= i < |history| - |pruned| ensures now - history[i] >= CIRCUIT_WINDOW_MS {
      if i >= dropped {
        assert history[i] == s.attempts[i - dropped];
      }
    }
  }

  lemma OrderedOneMore(history: seq<int>, now: int)
    requires Ordered(history) && forall i :: 0 <= i < |history| ==> history[i] <= now
    ensures Ordered(history + [now]) && forall i :: 0 <= i < |history + [now]| ==> (history + [now])[i] <= now
  {
  }

  lemma RecentOneMore(kept: seq<int>, history: seq<int>, now: int)
    requires IsRecentPart(kept, history, now)
    ensures IsRecentPart(kept + [now], history + [now], now)
  {
    var dropped := |history| - |kept|;
    assert history == history[..dropped] + kept;
    assert history + [now] == history[..dropped] + (kept + [now]);
  }

  lemma SpacedOneMore(kept: seq<int>, history: seq<int>, now: int)
    requires Spaced(history) && IsRecentPart(kept, history, now) && |kept| < MAX_ATTEMPTS_PER_WINDOW
    ensures Spaced(history + [now])
  {
    var longer := history + [now];
    forall i, j | 0 <= i && i + MAX_ATTEMPTS_PER_WINDOW <= j < |longer|
      ensures longer[j] - longer[i] >= CIRCUIT_WINDOW_MS
    {
      assert longer[i] == history[i];
      if j < |history| { assert longer[j] == history[j]; }
    }
  }

  lemma OneMoreStart(kept: seq<int>, history: seq<int>, now: int)
    requires IsHistory(kept, history, now) && |kept| < MAX_ATTEMPTS_PER_WINDOW
    ensures IsHistory(kept + [now], history + [now], now)
  {
    OrderedOneMore(history, now);
    RecentOneMore(kept, history, now);
    SpacedOneMore(kept, history, now);
  }

  lemma StartLogsOneStart(s: State, request: Request, now: int, destroyed: bool)
    ensures Starts(Start(s, request, now, destroyed).log) == [now]
  {
    var log := Start(s, request, now, destroyed).log;
    assert log[1..] == (if destroyed then [Failed] else []);
    assert [Failed][1..] == [];
  }

  lemma StartKeepsInvariant(s: State, history: seq<int>, request: Request, now: int, destroyed: bool)
    requires IsHistory(s.attempts, history, now) && s.scheduled.None? && |s.attempts| < MAX_ATTEMPTS_PER_WINDOW
    ensures Invariant(Start(s, request, now, destroyed).state, history + [now], now)
    ensures Starts(Start(s, request, now, destroyed).log) == [now]
  {
    OneMoreStart(s.attempts, history, now);
    StartLogsOneStart(s, request, now, destroyed);
  }

  /** Time passes, timers are set or cleared, a recovery settles: no start. */
  lemma QuietKeepsInvariant(s: State, t: State, history: seq<int>, log: seq<Entry>, before: int, now: int)
    requires Invariant(s, history, before) && before <= now && Starts(log) == []
    requires t.attempts == s.attempts && (t.inFlight ==> s.inFlight)
    requires t.scheduled.Some? ==> t.scheduled == s.scheduled && t.failures == s.failures
    ensures Invariant(t, history + Starts(log), now)
  {
    assert history + [] == history;
  }

  lemma SchedulingKeepsInvariant(s: State, history: seq<int>, timer: Timer, now: int)
    requires Invariant(s, history, now) && !s.inFlight && |s.attempts| < MAX_ATTEMPTS_PER_WINDOW && s.failures > 0
    ensures Invariant(s.(scheduled := Some(timer)), history, now)
  {
  }

  lemma NoStart(entry: Entry)
    requires !entry.Started?
    ensures Starts([entry]) == []
  {
    assert [entry][1..] == [];
  }

  lemma RequestKeepsInvariant(s: State, history: seq<int>, request: Request, before: int, now: int, destroyed: bool)
    requires Invariant(s, history, before) && before <= now
    ensures var r := RequestRecovery(s, request, now, destroyed); Invariant(r.state, history + Starts(r.log), now)
  {
    var r := RequestRecovery(s, request, now, destroyed);
    var pruned := s.(attempts := Pruned(s.attempts, now));
    if s.inFlight || s.scheduled.Some? {
      NoStart(r.log[0]);
      QuietKeepsInvariant(s, r.state, history, r.log, before, now);
    } else {
      PruneKeepsInvariant(s, history, before, now);
      if |pruned.attempts| >= MAX_ATTEMPTS_PER_WINDOW {
        NoStart(r.log[0]);
        QuietKeepsInvariant(pruned, r.state, history, r.log, now, now);
      } else if RetryDelay(s.failures) == 0 {
        StartKeepsInvariant(pruned, history, request, now, destroyed);
      } else {
        SchedulingKeepsInvariant(pruned, history, r.state.scheduled.value, now);
        assert r.log == [] && history + [] == history;
      }
    }
  }

  lemma StepKeepsInvariant(s: State, history: seq<int>, before: int, e: Event)
    requires Invariant(s, history, before) && before <= e.now && Enabled(s, e)
    ensures var r := Step(s, e); Invariant(r.state, history + Starts(r.log), e.now)
  {
    match e.what
    case RenderProcessGone => RequestKeepsInvariant(s, history, GONE_REQUEST, before, e.now, e.destroyed);
    case DidFailLoad(errorCode, isMainFrame) =>
      if WillRecover(errorCode, isMainFrame) {
        RequestKeepsInvariant(s, history, FAIL_LOAD_REQUEST, before, e.now, e.destroyed);
      } else {
        QuietKeepsInvariant(s, s, history, [], before, e.now);
      }
    case UnresponsiveTimerFires =>
      RequestKeepsInvariant(s.(unresponsiveDue := None), history, UNRESPONSIVE_REQUEST, before, e.now, e.destroyed);
    case ScheduledTimerFires =>
      QuietKeepsInvariant(s, s.(scheduled := None), history, [], before, e.now);
      StartKeepsInvariant(s.(scheduled := None), history + [], s.scheduled.value.request, e.now, e.destroyed);
      assert history + [] == history;
    case Unresponsive => QuietKeepsInvariant(s, Step(s, e).state, history, [], before, e.now);
    case Responsive => QuietKeepsInvariant(s, Step(s, e).state, history, [], before, e.now);
    case RecoverySettles(_) =>
      var r := Step(s, e);
      assert r.log[1..] == [];
      QuietKeepsInvariant(s, r.state, history, r.log, before, e.now);
  }

  function NowAfter(events: seq<Event>, n: nat): int
    requires n <= |events|
  {
    if n == 0 then (if events == [] then 0 else events[0].now) else events[n - 1].now
  }

  lemma {:induction false} RunKeepsInvariant(events: seq<Event>, n: nat)
    requires n <= |events| && ClockForward(events) && Run(events, n).Some?
    ensures var r := Run(events, n).value; Invariant(r.state, Starts(r.log), NowAfter(events, n))
  {
    if n > 0 {
      RunKeepsInvariant(events, n - 1);
      var before := Run(events, n - 1).value;
      StepKeepsInvariant(before.state, Starts(before.log), NowAfter(events, n - 1), events[n - 1]);
      StartsAppend(before.log, Step(before.state, events[n - 1]).log);
    }
  }

  // ---- The circuit breaker. ----

  ghost function StartsIn(history: seq<int>, from: int): set<nat> {
    set i: nat | i < |history| && from <= history[i] < from + 60_000
  }

  lemma WithinAWindow(history: seq<int>, i: nat, j: nat)
    requires Spaced(history) && i <= j < |history| && history[j] - history[i] < CIRCUIT_WINDOW_MS
    ensures j < i + MAX_ATTEMPTS_PER_WINDOW
  {
  }

  lemma SpacedWindowIsSmall(history: seq<int>, from: int)
    requires Ordered(history) && Spaced(history)
    ensures |StartsIn(history, from)| <= MAX_ATTEMPTS_PER_WINDOW
  {
    var window := StartsIn(history, from);
    if window != {} {
      var first := LeastIndex(window);
      forall i | i in window ensures i < first + MAX_ATTEMPTS_PER_WINDOW {
        WithinAWindow(history, first, i);
      }
      var three := {first, first + 1, first + 2};
      assert window <= three;
      SubsetSize(window, three);
    }
  }

  lemma {:induction false} LeastIndex(s: set<nat>) returns (m: nat)
    requires s != {}
    ensures m in s && forall i :: i in s ==> m <= i
    decreases s
  {
    var x :| x in s;
    m := x;
    if s != {x} {
      var least := LeastIndex(s - {x});
      m := if least < x then least else x;
      forall i | i in s ensures m <= i {
        assert i == x || i in s - {x};
      }
    }
  }

  /** In every run with a clock that never goes back, any window of 60 seconds holds at most
      three started recoveries, although a delayed start does not prune. */
  lemma AtMostThreeStartsInAnyWindow(events: seq<Event>, from: int)
    requires ClockForward(events) && Run(events, |events|).Some?
    ensures |StartsIn(Starts(Run(events, |events|).value.log), from)| <= 3
  {
    RunKeepsInvariant(events, |events|);
    SpacedWindowIsSmall(Starts(Run(events, |events|).value.log), from);
  }

  // ---- What holds whatever the clock does. ----

  lemma {:induction false} PrunedIsNoLonger(attempts: seq<int>, now: int)
    ensures |Pruned(attempts, now)| <= |attempts|
  {
    if attempts != [] { PrunedIsNoLonger(attempts[1..], now); }
  }

  lemma StepKeepsRoom(s: State, e: Event)
    requires HasRoom(s) && Enabled(s, e)
    ensures HasRoom(Step(s, e).state)
    ensures forall i :: 0 <= i < |Step(s, e).log| && Step(s, e).log[i].Started? ==>
      1 <= Step(s, e).log[i].attempt <= MAX_ATTEMPTS_PER_WINDOW
  {
    PrunedIsNoLonger(s.attempts, e.now);
  }

  lemma {:induction false} RunKeepsRoom(events: seq<Event>, n: nat)
    requires n <= |events| && Run(events, n).Some?
    ensures HasRoom(Run(events, n).value.state)
  {
    if n > 0 {
      RunKeepsRoom(events, n - 1);
      StepKeepsRoom(Run(events, n - 1).value.state, events[n - 1]);
    }
  }

  /** No reachable state has a recovery both in flight and scheduled. */
  lemma {:induction false} NeverInFlightAndScheduled(events: seq<Event>, n: nat)
    requires n <= |events| && Run(events, n).Some?
    ensures var s := Run(events, n).value.state; !(s.inFlight && s.scheduled.Some?)
  {
    RunKeepsRoom(events, n);
  }

  /** The attempt number a start logs is 1, 2 or 3. */
  lemma {:induction false} AttemptNumbersAreBounded(events: seq<Event>, n: nat, i: nat)
    requires n <= |events| && Run(events, n).Some?
    requires i < |Run(events, n).value.log| && Run(events, n).value.log[i].Started?
    ensures 1 <= Run(events, n).value.log[i].attempt <= 3
  {
    if n > 0 {
      var before := Run(events, n - 1).value;
      if i < |before.log| {
        AttemptNumbersAreBounded(events, n - 1, i);
      } else {
        RunKeepsRoom(events, n - 1);
        StepKeepsRoom(before.state, events[n - 1]);
      }
    }
  }

  predicate IsRefusal(log: seq<Entry>) {
    |log| == 1 && log[0].CircuitOpen?
  }

  lemma RequestRefusedWhen(s: State, request: Request, now: int, destroyed: bool)
    ensures IsRefusal(RequestRecovery(s, request, now, destroyed).log) <==>
      !s.inFlight && s.scheduled.None? && |Pruned(s.attempts, now)| >= MAX_ATTEMPTS_PER_WINDOW
  {
  }

  /** A request that finds the breaker idle is refused exactly when the history, not just the
      kept part of it, has three starts in the last 60 seconds. */
  lemma CircuitOpensExactly(events: seq<Event>, n: nat, request: Request, now: int, destroyed: bool)
    requires n <= |events| && ClockForward(events) && Run(events, n).Some? && NowAfter(events, n) <= now
    ensures
      var r := Run(events, n).value;
      IsRefusal(RequestRecovery(r.state, request, now, destroyed).log) <==>
        !r.state.inFlight && r.state.scheduled.None? &&
        |StartsIn(Starts(r.log), now - 59_999)| >= 3
  {
    RunKeepsInvariant(events, n);
    var r := Run(events, n).value;
    PruneKeepsInvariant(r.state, Starts(r.log), NowAfter(events, n), now);
    PrunedIsRecentPart(r.state.attempts, now);
    RecentPartCounts(Pruned(r.state.attempts, now), Starts(r.log), now);
    RequestRefusedWhen(r.state, request, now, destroyed);
  }

  lemma RecentPartCounts(kept: seq<int>, history: seq<int>, now: int)
    requires IsRecentPart(kept, history, now) && forall i :: 0 <= i < |history| ==> history[i] <= now
    requires forall i :: 0 <= i < |kept| ==> now - kept[i] < CIRCUIT_WINDOW_MS
    ensures |StartsIn(history, now - CIRCUIT_WINDOW_MS + 1)| == |kept|
  {
    var dropped := |history| - |kept|;
    var recent := Interval(dropped, |history|);
    forall i | i in recent ensures i in StartsIn(history, now - CIRCUIT_WINDOW_MS + 1) {
      assert history[i] == kept[i - dropped];
    }
    assert StartsIn(history, now - CIRCUIT_WINDOW_MS + 1) == recent;
  }

  ghost function Interval(lo: nat, hi: nat): (s: set<nat>)
    requires lo <= hi
    ensures |s| == hi - lo && forall i :: i in s <==> lo <= i < hi
    decreases hi
  {
    if lo == hi then {} else Interval(lo, hi - 1) + {hi - 1}
  }

  // ---- Unresponsive recoveries. ----

  /** `j` is an `unresponsive` event and no `responsive` event lies between it and `n`. */
  predicate UnresponsiveSince(events: seq<Event>, j: nat, n: nat)
    requires n <= |events|
  {
    j < n && events[j].what.Unresponsive? && forall m :: j < m < n ==> !events[m].what.Responsive?
  }

  predicate IsUnresponsiveStart(entry: Entry) {
    entry.Started? && entry.request.trigger.UnresponsiveTrigger?
  }

  /** The time is at least the threshold after such an event. */
  ghost predicate OverdueAt(events: seq<Event>, n: nat, time: int)
    requires n <= |events|
  {
    exists j: nat :: UnresponsiveSince(events, j, n) && time >= events[j].now + UNRESPONSIVE_THRESHOLD_MS
  }

  /** The threshold timer, and an unresponsive request that waits for its backoff, are due only when
      the threshold has passed since such an event. */
  ghost predicate Justified(events: seq<Event>, n: nat, s: State)
    requires n <= |events|
  {
    && (s.unresponsiveDue.Some? ==> OverdueAt(events, n, s.unresponsiveDue.value))
    && (s.scheduled.Some? && s.scheduled.value.request.trigger.UnresponsiveTrigger? ==>
          OverdueAt(events, n, s.scheduled.value.due))
  }

  lemma OverdueGrows(events: seq<Event>, n: nat, time: int, later: int)
    requires n < |events| && OverdueAt(events, n, time) && time <= later && !events[n].what.Responsive?
    ensures OverdueAt(events, n + 1, later)
  {
    var m := n + 1;
    var j: nat :| UnresponsiveSince(events, j, n) && time >= events[j].now + UNRESPONSIVE_THRESHOLD_MS;
    assert UnresponsiveSince(events, j, m);
  }

  /** Why a start or a schedule for an unresponsive renderer is justified after event `n`. */
  lemma StepIsJustified(events: seq<Event>, n: nat, s: State)
    requires n < |events| && Enabled(s, events[n]) && Justified(events, n, s)
    ensures Justified(events, n + 1, Step(s, events[n]).state)
    ensures forall i :: 0 <= i < |Step(s, events[n]).log| ==>
      IsUnresponsiveStart(Step(s, events[n]).log[i]) ==> OverdueAt(events, n + 1, events[n].now)
  {
    var e := events[n];
    if !e.what.Responsive? {
      if s.unresponsiveDue.Some? {
        OverdueGrows(events, n, s.unresponsiveDue.value, s.unresponsiveDue.value);
        if e.what.UnresponsiveTimerFires? {
          OverdueGrows(events, n, s.unresponsiveDue.value, e.now);
          OverdueGrows(events, n, s.unresponsiveDue.value, e.now + RetryDelay(s.failures));
        }
      }
      if s.scheduled.Some? && s.scheduled.value.request.trigger.UnresponsiveTrigger? {
        OverdueGrows(events, n, s.scheduled.value.due, s.scheduled.value.due);
        if e.what.ScheduledTimerFires? {
          OverdueGrows(events, n, s.scheduled.value.due, e.now);
        }
      }
      if e.what.Unresponsive? {
        var m := n + 1;
        assert UnresponsiveSince(events, n, m);
      }
    }
  }

  lemma {:induction false} RunIsJustified(events: seq<Event>, n: nat)
    requires n <= |events| && Run(events, n).Some?
    ensures Justified(events, n, Run(events, n).value.state)
  {
    if n > 0 {
      RunIsJustified(events, n - 1);
      StepIsJustified(events, n - 1, Run(events, n - 1).value.state);
    }
  }

  /** A recovery started for an unresponsive renderer comes at least 15 seconds after an
      `unresponsive` event with no `responsive` event since, through timer and backoff. */
  lemma UnresponsiveStartsAreJustified(events: seq<Event>, n: nat, i: nat)
    requires n < |events| && Run(events, n + 1).Some?
    requires var log := Step(Run(events, n).value.state, events[n]).log;
      i < |log| && IsUnresponsiveStart(log[i])
    ensures exists j: nat ::
      UnresponsiveSince(events, j, n + 1) && events[n].now >= events[j].now + 15_000
  {
    RunIsJustified(events, n);
    StepIsJustified(events, n, Run(events, n).value.state);
  }

  // ---- Every clock that goes back breaks the window. ----

  /** The run is over with no recovery running and none of these failed. */
  predicate Reaches(events: seq<Event>, inFlight: bool, attempts: seq<int>, history: seq<int>) {
    && Run(events, |events|).Some?
    && Run(events, |events|).value.state == State(inFlight, 0, attempts, None, None)
    && Starts(Run(events, |events|).value.log) == history
  }

  lemma {:induction false} PrefixRun(events: seq<Event>, n: nat, more: seq<Event>)
    requires n <= |events|
    ensures Run(events + more, n) == Run(events, n)
  {
    if n > 0 {
      PrefixRun(events, n - 1, more);
      assert (events + more)[n - 1] == events[n - 1];
    }
  }

  lemma RunOneMore(events: seq<Event>, r: Result, e: Event)
    requires Run(events, |events|) == Some(r) && Enabled(r.state, e)
    ensures Run(events + [e], |events + [e]|) == Some(Result(Step(r.state, e).state, r.log + Step(r.state, e).log))
  {
    PrefixRun(events, |events|, [e]);
  }

  function Crash(now: int): Event { Event(now, false, RenderProcessGone) }

  function Recovers(now: int): Event { Event(now, false, RecoverySettles(true)) }

  lemma CrashStarts(events: seq<Event>, attempts: seq<int>, history: seq<int>, now: int)
    requires Reaches(events, false, attempts, history) && |Pruned(attempts, now)| < MAX_ATTEMPTS_PER_WINDOW
    ensures Reaches(events + [Crash(now)], true, Pruned(attempts, now) + [now], history + [now])
  {
    var r := Run(events, |events|).value;
    RunOneMore(events, r, Crash(now));
    var log := Step(r.state, Crash(now)).log;
    assert |log| == 1 && log[0].Started? && log[0].at == now && log[1..] == [];
    StartsAppend(r.log, log);
  }

  lemma RecoveryClosesIt(events: seq<Event>, attempts: seq<int>, history: seq<int>, now: int)
    requires Reaches(events, true, attempts, history)
    ensures Reaches(events + [Recovers(now)], false, attempts, history)
  {
    var r := Run(events, |events|).value;
    RunOneMore(events, r, Recovers(now));
    StartsAppend(r.log, [Succeeded]);
    assert [Succeeded][1..] == [];
    assert history + [] == history;
  }

  lemma CrashAndRecover(events: seq<Event>, attempts: seq<int>, history: seq<int>, now: int,
                        attempts': seq<int>, history': seq<int>)
    returns (longer: seq<Event>)
    requires Reaches(events, false, attempts, history) && |Pruned(attempts, now)| < MAX_ATTEMPTS_PER_WINDOW
    requires attempts' == Pruned(attempts, now) + [now] && history' == history + [now]
    ensures Reaches(longer, false, attempts', history')
    ensures longer == events + [Crash(now)] + [Recovers(now)]
  {
    CrashStarts(events, attempts, history, now);
    RecoveryClosesIt(events + [Crash(now)], attempts', history', now);
    longer := events + [Crash(now)] + [Recovers(now)];
  }

  lemma {:induction false} PrunedDrops(attempts: seq<int>, now: int)
    requires forall i :: 0 <= i < |attempts| ==> now - attempts[i] >= CIRCUIT_WINDOW_MS
    ensures Pruned(attempts, now) == []
  {
    if attempts != [] {
      PrunedDrops(attempts[1..], now);
    }
  }

  lemma TwoStarts(x: int) returns (events: seq<Event>)
    ensures |events| == 4 && (forall i :: 0 <= i < 4 ==> events[i].now == x)
    ensures Reaches(events, false, [x, x], [x, x])
  {
    var first := CrashAndRecover([], [], [], x, [x], [x]);
    PrunedKeeps([x], x);
    events := CrashAndRecover(first, [x], [x], x, [x, x], [x, x]);
  }

  lemma ThreeStarts(x: int) returns (events: seq<Event>)
    ensures |events| == 6 && (forall i :: 0 <= i < 6 ==> events[i].now == x)
    ensures Reaches(events, false, [x, x, x], [x, x, x])
  {
    var second := TwoStarts(x);
    PrunedKeeps([x, x], x);
    events := CrashAndRecover(second, [x, x], [x, x], x, [x, x, x], [x, x, x]);
  }

  lemma FourStarts(x: int, hi: int) returns (events: seq<Event>)
    requires x + CIRCUIT_WINDOW_MS <= hi
    ensures |events| == 8 && forall i :: 0 <= i < 8 ==> events[i].now == if i < 6 then x else hi
    ensures Reaches(events, false, [hi], [x, x, x, hi])
  {
    var third := ThreeStarts(x);
    PrunedDrops([x, x, x], hi);
    events := CrashAndRecover(third, [x, x, x], [x, x, x], hi, [hi], [x, x, x, hi]);
  }

  lemma FiveStarts(x: int, hi: int, lo: int) returns (events: seq<Event>)
    requires lo < hi && x + CIRCUIT_WINDOW_MS <= hi
    ensures |events| == 10 && forall i :: 0 <= i < 10 ==> events[i].now == if i < 6 then x else if i < 8 then hi else lo
    ensures Reaches(events, false, [hi, lo], [x, x, x, hi, lo])
  {
    var fourth := FourStarts(x, hi);
    PrunedKeeps([hi], lo);
    events := CrashAndRecover(fourth, [hi], [x, x, x, hi], lo, [hi, lo], [x, x, x, hi, lo]);
  }

  lemma FourIn(history: seq<int>, x: int, hi: int, lo: int)
    requires history == [x, x, x, hi, lo] && x <= lo < x + CIRCUIT_WINDOW_MS <= hi
    ensures |StartsIn(history, x)| == 4
  {
    assert StartsIn(history, x) == {0, 1, 2, 4};
  }

  /** The clock reads `hi` before event `k` and `lo` at it, and goes back nowhere else. */
  predicate OnlyGoesBackAt(events: seq<Event>, k: nat, hi: int, lo: int) {
    && 0 < k < |events| && events[k - 1].now == hi && events[k].now == lo
    && forall i, j :: 0 <= i < j < |events| && events[j].now < events[i].now ==> i < k <= j
  }

  /** Whatever two readings the clock goes back between: in some run where it goes back there and
      nowhere else, four recoveries start within one window. */
  lemma BackwardClockBreaksTheWindow(hi: int, lo: int) returns (events: seq<Event>, from: int)
    requires lo < hi
    ensures OnlyGoesBackAt(events, 8, hi, lo) && Run(events, |events|).Some?
    ensures |StartsIn(Starts(Run(events, |events|).value.log), from)| > 3
  {
    from := if lo < hi - CIRCUIT_WINDOW_MS then lo else hi - CIRCUIT_WINDOW_MS;
    events := FiveStarts(from, hi, lo);
    FourIn([from, from, from, hi, lo], from, hi, lo);
  }
}
