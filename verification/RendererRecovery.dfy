/** The renderer recovery circuit breaker of electron/renderer-recovery.ts. */
module RendererRecovery {
  import opened Basics

  const CIRCUIT_WINDOW_MS := 60_000
  const MAX_ATTEMPTS_PER_WINDOW := 3
  const RETRY_DELAYS_MS: seq<int> := [250, 1000, 3000]
  const UNRESPONSIVE_THRESHOLD_MS := 15_000
  const ABORTED_NAVIGATION_ERROR_CODE := -3

  datatype Trigger = GoneTrigger | FailLoadTrigger | UnresponsiveTrigger

  datatype Mode = Reload | LoadUrl

  datatype Request = Request(trigger: Trigger, mode: Mode, crashBeforeReload: bool)

  const GONE_REQUEST := Request(GoneTrigger, Reload, false)
  const FAIL_LOAD_REQUEST := Request(FailLoadTrigger, LoadUrl, false)
  const UNRESPONSIVE_REQUEST := Request(UnresponsiveTrigger, Reload, true)

  /** What the breaker logs about its decisions. */
  datatype Entry =
    | Started(at: int, attempt: nat, request: Request)
    | Succeeded
    | Failed
    | SkippedInFlight(trigger: Trigger)
    | SkippedScheduled(trigger: Trigger)
    | CircuitOpen(trigger: Trigger, attemptsInWindow: nat)

  datatype Timer = Timer(due: int, request: Request)

  /** A timer is known by the time it is due. */
  datatype State = State(
    inFlight: bool,
    failures: nat,
    attempts: seq<int>,
    unresponsiveDue: Option<int>,
    scheduled: Option<Timer>)

  const INITIAL := State(false, 0, [], None, None)

  /** What happens to the breaker: the four browser events, the two timers, the end of a recovery. */
  datatype What =
    | RenderProcessGone
    | DidFailLoad(errorCode: int, isMainFrame: bool)
    | Unresponsive
    | Responsive
    | UnresponsiveTimerFires
    | ScheduledTimerFires
    | RecoverySettles(ok: bool)

  /** `destroyed` is whether the window is destroyed at that time. */
  datatype Event = Event(now: int, destroyed: bool, what: What)

  datatype Result = Result(state: State, log: seq<Entry>)

  function Pruned(attempts: seq<int>, now: int): seq<int> {
    if attempts == [] then [] else
    (if now - attempts[0] < CIRCUIT_WINDOW_MS then [attempts[0]] else []) + Pruned(attempts[1..], now)
  }

  lemma PrunedOneMore(kept: seq<int>, attempts: seq<int>, i: nat, now: int)
    requires i < |attempts|
    ensures kept + Pruned(attempts[i..], now) ==
      (if now - attempts[i] < CIRCUIT_WINDOW_MS then kept + [attempts[i]] else kept) + Pruned(attempts[i + 1..], now)
  {
    assert attempts[i..][1..] == attempts[i + 1..];
  }

  function RetryDelay(failures: nat): int {
    if failures == 0 then 0 else
    RETRY_DELAYS_MS[if failures - 1 < |RETRY_DELAYS_MS| - 1 then failures - 1 else |RETRY_DELAYS_MS| - 1]
  }

  /** A destroyed window makes the recovery fail before anything else can happen. */
  function Start(s: State, request: Request, now: int, destroyed: bool): Result {
    var attempts := s.attempts + [now];
    var started := Started(now, |attempts|, request);
    if destroyed then Result(s.(inFlight := false, attempts := attempts, failures := s.failures + 1), [started, Failed])
    else Result(s.(inFlight := true, attempts := attempts), [started])
  }

  function RequestRecovery(s: State, request: Request, now: int, destroyed: bool): Result {
    if s.inFlight then Result(s, [SkippedInFlight(request.trigger)])
    else if s.scheduled.Some? then Result(s, [SkippedScheduled(request.trigger)])
    else
      var pruned := s.(attempts := Pruned(s.attempts, now));
      if |pruned.attempts| >= MAX_ATTEMPTS_PER_WINDOW then
        Result(pruned, [CircuitOpen(request.trigger, |pruned.attempts|)])
      else
        var delay := RetryDelay(s.failures);
        if delay == 0 then Start(pruned, request, now, destroyed)
        else Result(pruned.(scheduled := Some(Timer(now + delay, request))), [])
  }

  predicate WillRecover(errorCode: int, isMainFrame: bool) {
    isMainFrame && errorCode != ABORTED_NAVIGATION_ERROR_CODE
  }

  /** A timer fires only when it is armed and due, and only a running recovery settles. */
  predicate Enabled(s: State, e: Event) {
    match e.what
    case UnresponsiveTimerFires => s.unresponsiveDue.Some? && e.now >= s.unresponsiveDue.value
    case ScheduledTimerFires => s.scheduled.Some? && e.now >= s.scheduled.value.due
    case RecoverySettles(_) => s.inFlight
    case _ => true
  }

  function Step(s: State, e: Event): Result
    requires Enabled(s, e)
  {
    match e.what
    case RenderProcessGone => RequestRecovery(s, GONE_REQUEST, e.now, e.destroyed)
    case DidFailLoad(errorCode, isMainFrame) =>
      if WillRecover(errorCode, isMainFrame) then RequestRecovery(s, FAIL_LOAD_REQUEST, e.now, e.destroyed)
      else Result(s, [])
    case Unresponsive => Result(s.(unresponsiveDue := Some(e.now + UNRESPONSIVE_THRESHOLD_MS)), [])
    case Responsive =>
      Result(s.(unresponsiveDue := None,
                scheduled := if s.scheduled.Some? && s.scheduled.value.request.trigger.UnresponsiveTrigger? then None
                             else s.scheduled), [])
    case UnresponsiveTimerFires =>
      RequestRecovery(s.(unresponsiveDue := None), UNRESPONSIVE_REQUEST, e.now, e.destroyed)
    case ScheduledTimerFires => Start(s.(scheduled := None), s.scheduled.value.request, e.now, e.destroyed)
    case RecoverySettles(ok) =>
      if ok then Result(s.(inFlight := false, failures := 0), [Succeeded])
      else Result(s.(inFlight := false, failures := s.failures + 1), [Failed])
  }

  // ---- The breaker as the program keeps it: variables the handlers update. ----

  class Breaker {
    var recoveryInFlight: bool
    var consecutiveFailures: nat
    var unresponsiveTimer: Option<int>
    var scheduledRecoveryTimer: Option<int>
    var scheduledRecoveryRequest: Option<Request>
    var attemptTimestamps: seq<int>
    var log: seq<Entry>

    constructor ()
      ensures Valid() && Value() == INITIAL && log == []
    {
      recoveryInFlight, consecutiveFailures, attemptTimestamps, log := false, 0, [], [];
      unresponsiveTimer, scheduledRecoveryTimer, scheduledRecoveryRequest := None, None, None;
    }

    /** The scheduled timer and its request come and go together. */
    predicate Valid()
      reads this
    {
      scheduledRecoveryTimer.Some? <==> scheduledRecoveryRequest.Some?
    }

    function Value(): State
      requires Valid()
      reads this
    {
      State(recoveryInFlight, consecutiveFailures, attemptTimestamps, unresponsiveTimer,
        if scheduledRecoveryTimer.Some? then Some(Timer(scheduledRecoveryTimer.value, scheduledRecoveryRequest.value))
        else None)
    }

    method ClearUnresponsiveTimer()
      requires Valid()
      modifies this
      ensures Valid() && Value() == old(Value()).(unresponsiveDue := None) && log == old(log)
    {
      if unresponsiveTimer.None? { return; }
      unresponsiveTimer := None;
    }

    method ClearScheduledRecoveryTimer()
      requires Valid()
      modifies this
      ensures Valid() && Value() == old(Value()).(scheduled := None) && log == old(log)
    {
      if scheduledRecoveryTimer.None? { return; }
      scheduledRecoveryTimer := None;
      scheduledRecoveryRequest := None;
    }

    method PruneAttempts(now: int)
      requires Valid()
      modifies this
      ensures Valid() && Value() == old(Value()).(attempts := Pruned(old(attemptTimestamps), now)) && log == old(log)
    {
      var kept: seq<int> := [];
      for i := 0 to |attemptTimestamps|
        invariant attemptTimestamps == old(attemptTimestamps)
        invariant Pruned(attemptTimestamps, now) == kept + Pruned(attemptTimestamps[i..], now)
        invariant Valid() && Value() == old(Value()) && log == old(log)
      {
        PrunedOneMore(kept, attemptTimestamps, i, now);
        if now - attemptTimestamps[i] < CIRCUIT_WINDOW_MS {
          kept := kept + [attemptTimestamps[i]];
        }
      }
      attemptTimestamps := kept;
    }

    method StartRecovery(request: Request, now: int, destroyed: bool)
      requires Valid()
      modifies this
      ensures Valid()
      ensures var r := Start(old(Value()), request, now, destroyed); Value() == r.state && log == old(log) + r.log
    {
      recoveryInFlight := true;
      attemptTimestamps := attemptTimestamps + [now];
      log := log + [Started(now, |attemptTimestamps|, request)];
      if destroyed {
        consecutiveFailures := consecutiveFailures + 1;
        log := log + [Failed];
        recoveryInFlight := false;
      }
    }

    method Request(request: Request, now: int, destroyed: bool)
      requires Valid()
      modifies this
      ensures Valid()
      ensures var r := RequestRecovery(old(Value()), request, now, destroyed);
        Value() == r.state && log == old(log) + r.log
    {
      if recoveryInFlight {
        log := log + [SkippedInFlight(request.trigger)];
        return;
      }
      if scheduledRecoveryTimer.Some? {
        log := log + [SkippedScheduled(request.trigger)];
        return;
      }
      PruneAttempts(now);
      if |attemptTimestamps| >= MAX_ATTEMPTS_PER_WINDOW {
        log := log + [CircuitOpen(request.trigger, |attemptTimestamps|)];
        return;
      }
      var delayMs := RetryDelay(consecutiveFailures);
      if delayMs == 0 {
        StartRecovery(request, now, destroyed);
        return;
      }
      scheduledRecoveryRequest := Some(request);
      scheduledRecoveryTimer := Some(now + delayMs);
    }

    /** Dispatches to the registered handler or callback. */
    method Handle(e: Event)
      requires Valid() && Enabled(Value(), e)
      modifies this
      ensures Valid()
      ensures var r := Step(old(Value()), e); Value() == r.state && log == old(log) + r.log
    {
      match e.what {
        case RenderProcessGone => Request(GONE_REQUEST, e.now, e.destroyed);
        case DidFailLoad(errorCode, isMainFrame) =>
          if WillRecover(errorCode, isMainFrame) {
            Request(FAIL_LOAD_REQUEST, e.now, e.destroyed);
          }
        case Unresponsive =>
          ClearUnresponsiveTimer();
          unresponsiveTimer := Some(e.now + UNRESPONSIVE_THRESHOLD_MS);
        case Responsive =>
          ClearUnresponsiveTimer();
          if scheduledRecoveryRequest.Some? && scheduledRecoveryRequest.value.trigger.UnresponsiveTrigger? {
            ClearScheduledRecoveryTimer();
          }
        case UnresponsiveTimerFires =>
          unresponsiveTimer := None;
          Request(UNRESPONSIVE_REQUEST, e.now, e.destroyed);
        case ScheduledTimerFires =>
          var request := scheduledRecoveryRequest.value;
          ClearScheduledRecoveryTimer();
          StartRecovery(request, e.now, e.destroyed);
        case RecoverySettles(ok) =>
          if ok {
            consecutiveFailures := 0;
            log := log + [Succeeded];
          } else {
            consecutiveFailures := consecutiveFailures + 1;
            log := log + [Failed];
          }
          recoveryInFlight := false;
      }
    }
  }
}
