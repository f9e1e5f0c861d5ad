/** The pane reconcile handshake of src/App.tsx. */
module PaneReconcile {
  import opened Basics

  const RECONCILE_RESULT_WAIT_MS := 10_000

  datatype Request = Request(reconcileId: nat, panes: set<string>)

  /** The wait for the result of the request `armedFor`. */
  datatype Timer = Timer(due: int, armedFor: nat)

  /** `detached` is whether an authentication failure has unsubscribed the handlers. */
  datatype State = State(
    active: bool,
    pending: Option<Request>,
    timer: Option<Timer>,
    pendingPanes: set<string>,
    createsHeld: bool,
    liveIds: Option<seq<string>>,
    connected: bool,
    detached: bool,
    cancelled: bool)

  const INITIAL := State(false, None, None, {}, false, None, false, false, false)

  /** `request` is what the layouts give, None when there is nothing to reconcile. */
  datatype ReadyFrame = ReadyFrame(paneReconcile: bool, serverRestarted: bool, request: Option<Request>)

  /** What reaches the handshake: frames, its timer, the socket, a pane that stops waiting, a request that
      is refused for lack of authentication, the end.
      `shown` is whether some pane shows one of the recoverable terminals. */
  datatype What =
    | Ready(frame: ReadyFrame)
    | MalformedReady
    | ReconcileResult(reconcileId: nat, wellFormed: bool, cardinalityViolation: bool)
    | ErrorFrame(requestId: nat)
    | TimerFires
    | Disconnected
    | Inventory(live: seq<string>)
    | TerminalsRecovered(ids: set<string>, shown: bool)
    | PaneReleased(pane: string)
    | AuthFailure
    | Teardown

  datatype Event = Event(now: int, what: What)

  datatype Why = TimedOut | MalformedResult | CardinalityViolation | ServerError

  /** What the handshake does; `Dropped` is a request it forgets without an answer. */
  datatype Entry =
    | Sent(request: Request, at: int)
    | Folded(id: nat)
    | FellBack(id: nat, at: int, why: Why)
    | Dropped(id: nat)
    | Census(live: seq<string>)

  datatype Result = Result(state: State, log: seq<Entry>)

  /** The timer fires only when it is armed and due; without its handlers no frame is delivered. */
  predicate Enabled(s: State, e: Event) {
    match e.what
    case TimerFires => s.timer.Some? && e.now >= s.timer.value.due
    case Disconnected => true
    case PaneReleased(_) => true
    case AuthFailure => true
    case Teardown => !s.cancelled
    case _ => !s.cancelled && !s.detached
  }

  /** `live.filter` by the ids that were not removed. */
  function Without(live: seq<string>, removed: set<string>): seq<string> {
    if live == [] then [] else (if live[0] in removed then [] else [live[0]]) + Without(live[1..], removed)
  }

  function Forgotten(pending: Option<Request>): seq<Entry> {
    if pending.Some? then [Dropped(pending.value.reconcileId)] else []
  }

  /** No verdicts are coming: release everything and run the legacy census on the cached inventory. */
  function FallBack(s: State, now: int, why: Why): Result
    requires s.pending.Some?
  {
    Result(s.(pending := None, active := false, pendingPanes := {}, createsHeld := false),
      [FellBack(s.pending.value.reconcileId, now, why)]
      + if s.liveIds.Some? then [Census(s.liveIds.value)] else [])
  }

  function OnReady(s: State, frame: ReadyFrame, now: int): Result {
    var quiet := s.(active := frame.paneReconcile, pending := None, pendingPanes := {}, createsHeld := false,
                    connected := true, liveIds := if frame.serverRestarted then Some([]) else s.liveIds);
    if frame.paneReconcile && frame.request.Some? then
      var request := frame.request.value;
      Result(quiet.(pending := Some(request), pendingPanes := request.panes, createsHeld := true,
                    timer := Some(Timer(now + RECONCILE_RESULT_WAIT_MS, request.reconcileId))),
        Forgotten(s.pending) + [Sent(request, now)])
    else Result(quiet, Forgotten(s.pending))
  }

  function Step(s: State, e: Event): Result
    requires Enabled(s, e)
  {
    match e.what
    case Ready(frame) => OnReady(s, frame, e.now)
    case MalformedReady => Result(s.(connected := true), [])
    case ReconcileResult(id, wellFormed, violation) =>
      if s.pending.None? || id != s.pending.value.reconcileId then Result(s, []) else
      var heard := s.(timer := None);
      if !wellFormed then FallBack(heard, e.now, MalformedResult)
      else if violation then FallBack(heard, e.now, CardinalityViolation)
      else Result(heard.(pending := None, pendingPanes := {}, createsHeld := false), [Folded(id)])
    case ErrorFrame(requestId) =>
      if s.pending.None? || requestId != s.pending.value.reconcileId then Result(s, [])
      else FallBack(s.(timer := None), e.now, ServerError)
    case TimerFires =>
      var fired := s.(timer := None);
      if s.pending.None? then Result(fired, []) else FallBack(fired, e.now, TimedOut)
    case Disconnected =>
      if s.cancelled || s.detached then Result(s, [])
      else Result(s.(timer := None, pending := None, connected := false), Forgotten(s.pending))
    case Inventory(live) =>
      Result(s.(liveIds := Some(live)), if s.active then [] else [Census(live)])
    case TerminalsRecovered(ids, shown) =>
      Result(if shown && s.liveIds.Some? then s.(liveIds := Some(Without(s.liveIds.value, ids))) else s, [])
    case PaneReleased(pane) => Result(s.(pendingPanes := s.pendingPanes - {pane}), [])
    case AuthFailure => Result(s.(detached := true, connected := s.cancelled && s.connected), [])
    case Teardown => Result(s.(cancelled := true, timer := None), [])
  }

  // ---- The handshake as the program keeps it: refs and store fields the handlers assign. ----

  class Handshake {
    var paneReconcileActive: bool
    var pendingReconcile: Option<Request>
    var reconcileResultTimer: Option<Timer>
    var reconcilePendingPanes: set<string>
    var createsHeld: bool
    var liveTerminalIds: Option<seq<string>>
    var connected: bool
    var detached: bool
    var cancelled: bool
    var log: seq<Entry>

    constructor ()
      ensures Value() == INITIAL && log == []
    {
      paneReconcileActive, pendingReconcile, reconcileResultTimer, reconcilePendingPanes := false, None, None, {};
      createsHeld, liveTerminalIds, connected, detached, cancelled, log := false, None, false, false, false, [];
    }

    function Value(): State
      reads this
    {
      State(paneReconcileActive, pendingReconcile, reconcileResultTimer, reconcilePendingPanes, createsHeld,
        liveTerminalIds, connected, detached, cancelled)
    }

    method ClearReconcileResultWait()
      modifies `reconcileResultTimer
      ensures reconcileResultTimer == None
    {
      if reconcileResultTimer.Some? {
        reconcileResultTimer := None;
      }
    }

    /** Releases the panes and the held creates. */
    method ReleasePanes()
      modifies `reconcilePendingPanes, `createsHeld
      ensures reconcilePendingPanes == {} && !createsHeld
    {
      reconcilePendingPanes := {};
      createsHeld := false;
    }

    method FallBackToLegacyCensus()
      modifies `pendingReconcile, `paneReconcileActive, `log
      ensures pendingReconcile == None && !paneReconcileActive
      ensures log == old(log) + if liveTerminalIds.Some? then [Census(liveTerminalIds.value)] else []
    {
      pendingReconcile := None;
      paneReconcileActive := false;
      if liveTerminalIds.Some? {
        log := log + [Census(liveTerminalIds.value)];
      }
    }

    method HandleReady(frame: ReadyFrame, now: int)
      modifies this
      ensures var r := OnReady(old(Value()), frame, now); Value() == r.state && log == old(log) + r.log
    {
      connected := true;
      if frame.serverRestarted {
        liveTerminalIds := Some([]);
      }
      paneReconcileActive := frame.paneReconcile;
      log := log + Forgotten(pendingReconcile);
      pendingReconcile := None;
      reconcilePendingPanes := {};
      if frame.paneReconcile && frame.request.Some? {
        var request := frame.request.value;
        pendingReconcile := Some(request);
        reconcilePendingPanes := request.panes;
        createsHeld := true;
        log := log + [Sent(request, now)];
        ClearReconcileResultWait();
        reconcileResultTimer := Some(Timer(now + RECONCILE_RESULT_WAIT_MS, request.reconcileId));
      } else {
        createsHeld := false;
      }
    }

    method HandleResult(reconcileId: nat, wellFormed: bool, cardinalityViolation: bool, now: int)
      requires !cancelled && !detached
      modifies this
      ensures var r := Step(old(Value()), Event(now, ReconcileResult(reconcileId, wellFormed, cardinalityViolation)));
        Value() == r.state && log == old(log) + r.log
    {
      if pendingReconcile.None? || reconcileId != pendingReconcile.value.reconcileId { return; }
      pendingReconcile := None;
      ClearReconcileResultWait();
      ReleasePanes();
      if !wellFormed {
        log := log + [FellBack(reconcileId, now, MalformedResult)];
        FallBackToLegacyCensus();
      } else if cardinalityViolation {
        log := log + [FellBack(reconcileId, now, CardinalityViolation)];
        FallBackToLegacyCensus();
      } else {
        log := log + [Folded(reconcileId)];
      }
    }

    method HandleError(requestId: nat, now: int)
      requires !cancelled && !detached
      modifies this
      ensures var r := Step(old(Value()), Event(now, ErrorFrame(requestId)));
        Value() == r.state && log == old(log) + r.log
    {
      if pendingReconcile.Some? && requestId == pendingReconcile.value.reconcileId {
        ClearReconcileResultWait();
        ReleasePanes();
        log := log + [FellBack(requestId, now, ServerError)];
        FallBackToLegacyCensus();
      }
    }

    method HandleTimer(now: int)
      requires Enabled(Value(), Event(now, TimerFires))
      modifies this
      ensures var r := Step(old(Value()), Event(now, TimerFires)); Value() == r.state && log == old(log) + r.log
    {
      reconcileResultTimer := None;
      if pendingReconcile.None? { return; }
      log := log + [FellBack(pendingReconcile.value.reconcileId, now, TimedOut)];
      pendingReconcile := None;
      ReleasePanes();
      FallBackToLegacyCensus();
    }

    method HandleDisconnect(now: int)
      modifies this
      ensures var r := Step(old(Value()), Event(now, Disconnected)); Value() == r.state && log == old(log) + r.log
    {
      if cancelled || detached { return; }
      ClearReconcileResultWait();
      log := log + Forgotten(pendingReconcile);
      pendingReconcile := None;
      connected := false;
    }

    /** `performAuthFailureTeardown`: unsubscribes the handlers, and leaves the timer armed. */
    method HandleAuthFailure()
      modifies `connected, `detached
      ensures detached && connected == (cancelled && old(connected))
    {
      if !cancelled {
        connected := false;
      }
      detached := true;
    }

    /** `handleRecoverableTerminalIds`: drops the ids from the cached inventory. */
    method HandleRecoverableTerminalIds(ids: set<string>, shown: bool)
      modifies `liveTerminalIds
      ensures liveTerminalIds == if shown && old(liveTerminalIds).Some?
                                 then Some(Without(old(liveTerminalIds).value, ids)) else old(liveTerminalIds)
    {
      if !shown || liveTerminalIds.None? { return; }
      liveTerminalIds := Some(Without(liveTerminalIds.value, ids));
    }

    /** Dispatches to the handler. */
    method Handle(e: Event)
      requires Enabled(Value(), e)
      modifies this
      ensures var r := Step(old(Value()), e); Value() == r.state && log == old(log) + r.log
    {
      match e.what {
        case Ready(frame) => HandleReady(frame, e.now);
        case MalformedReady => connected := true;
        case ReconcileResult(id, wellFormed, violation) => HandleResult(id, wellFormed, violation, e.now);
        case ErrorFrame(requestId) => HandleError(requestId, e.now);
        case TimerFires => HandleTimer(e.now);
        case Disconnected => HandleDisconnect(e.now);
        case Inventory(live) =>
          liveTerminalIds := Some(live);
          if !paneReconcileActive {
            log := log + [Census(live)];
          }
        case TerminalsRecovered(ids, shown) => HandleRecoverableTerminalIds(ids, shown);
        case PaneReleased(pane) => reconcilePendingPanes := reconcilePendingPanes - {pane};
        case AuthFailure => HandleAuthFailure();
        case Teardown =>
          cancelled := true;
          ClearReconcileResultWait();
      }
    }
  }
}
