/** What the pane reconcile handshake keeps over every run. */
module PaneReconcileRuns {
  import opened Basics
  import opened PaneReconcile

  // ---- Runs. ----

  /** The state and the log after the first `n` events; None when one of them was not enabled. */
  function Run(events: seq<Event>, n: nat): Option<Result>
    requires n <= |events|
  {
    if n == 0 then Some(Result(INITIAL, [])) else
    match Run(events, n - 1)
    case None => None
    case Some(before) =>
      if !Enabled(before.state, events[n - 1]) then None else
      var step := Step(before.state, events[n - 1]);
      Some(Result(step.state, before.log + step.log))
  }

  /** An authentication failure has unsubscribed the handlers. */
  predicate Detached(events: seq<Event>, n: nat)
    requires n <= |events|
  {
    n > 0 && (events[n - 1].what.AuthFailure? || Detached(events, n - 1))
  }

  /** A well-formed ready came since the last drop of the socket that the handlers noticed. */
  predicate Negotiated(events: seq<Event>, n: nat)
    requires n <= |events|
  {
    n > 0 && match events[n - 1].what
             case Ready(_) => true
             case Disconnected => Detached(events, n - 1) && Negotiated(events, n - 1)
             case _ => Negotiated(events, n - 1)
  }

  predicate SentAt(log: seq<Entry>, id: nat, at: int) {
    exists i :: 0 <= i < |log| && log[i].Sent? && log[i].request.reconcileId == id && log[i].at == at
  }

  lemma SentAtStays(log: seq<Entry>, more: seq<Entry>, id: nat, at: int)
    requires SentAt(log, id, at)
    ensures SentAt(log + more, id, at)
  {
    var i :| 0 <= i < |log| && log[i].Sent? && log[i].request.reconcileId == id && log[i].at == at;
    assert (log + more)[i] == log[i];
  }

  // ---- The request, its timer and the waiting panes. ----

  predicate RequestIsTimed(s: State, negotiated: bool) {
    && (s.pending.Some? ==> s.active)
    && (s.pending.Some? && !s.cancelled ==>
          negotiated && s.timer.Some? && s.timer.value.armedFor == s.pending.value.reconcileId)
    && (negotiated ==> (s.connected || s.detached) && WaitingOnlyFor(s))
  }

  predicate Invariant(s: State, log: seq<Entry>, negotiated: bool) {
    && RequestIsTimed(s, negotiated)
    && (s.timer.Some? ==> SentAt(log, s.timer.value.armedFor, s.timer.value.due - RECONCILE_RESULT_WAIT_MS))
  }

  /** Panes and creates wait only for the outstanding request, and only those it names. */
  predicate WaitingOnlyFor(s: State) {
    if s.pending.Some? then s.pendingPanes <= s.pending.value.panes
    else s.pendingPanes == {} && !s.createsHeld
  }

  lemma ReadyKeepsInvariant(s: State, log: seq<Entry>, negotiated: bool, frame: ReadyFrame, now: int)
    requires Invariant(s, log, negotiated)
    ensures var r := OnReady(s, frame, now); Invariant(r.state, log + r.log, true)
  {
    var r := OnReady(s, frame, now);
    if frame.paneReconcile && frame.request.Some? {
      assert r.log[|r.log| - 1] == Sent(frame.request.value, now);
      assert (log + r.log)[|log| + |r.log| - 1] == Sent(frame.request.value, now);
    } else if s.timer.Some? {
      SentAtStays(log, r.log, s.timer.value.armedFor, s.timer.value.due - RECONCILE_RESULT_WAIT_MS);
    }
  }

  lemma StepKeepsRequestTimed(s: State, negotiated: bool, e: Event) returns (next: State)
    requires RequestIsTimed(s, negotiated) && Enabled(s, e) && !e.what.Ready?
    ensures next == Step(s, e).state && (next.timer.Some? ==> next.timer == s.timer)
    ensures RequestIsTimed(next, negotiated && (s.detached || !e.what.Disconnected?))
  {
    next := Step(s, e).state;
  }

  lemma StepKeepsInvariant(s: State, log: seq<Entry>, negotiated: bool, e: Event)
    requires Invariant(s, log, negotiated) && Enabled(s, e)
    ensures var r := Step(s, e);
      Invariant(r.state, log + r.log, e.what.Ready? || (negotiated && (s.detached || !e.what.Disconnected?)))
  {
    if e.what.Ready? {
      ReadyKeepsInvariant(s, log, negotiated, e.what.frame, e.now);
    } else {
      var next := StepKeepsRequestTimed(s, negotiated, e);
      if s.timer.Some? {
        SentAtStays(log, Step(s, e).log, s.timer.value.armedFor, s.timer.value.due - RECONCILE_RESULT_WAIT_MS);
      }
    }
  }

  lemma StepRecordsDetached(s: State, e: Event)
    requires Enabled(s, e)
    ensures Step(s, e).state.detached <==> s.detached || e.what.AuthFailure?
  {
  }

  lemma {:induction false} DetachedIsRecorded(events: seq<Event>, n: nat)
    requires n <= |events| && Run(events, n).Some?
    ensures Run(events, n).value.state.detached <==> Detached(events, n)
  {
    if n > 0 {
      DetachedIsRecorded(events, n - 1);
      StepRecordsDetached(Run(events, n - 1).value.state, events[n - 1]);
    }
  }

  lemma {:induction false} RunKeepsInvariant(events: seq<Event>, n: nat)
    requires n <= |events| && Run(events, n).Some?
    ensures var r := Run(events, n).value; Invariant(r.state, r.log, Negotiated(events, n))
  {
    if n > 0 {
      RunKeepsInvariant(events, n - 1);
      DetachedIsRecorded(events, n - 1);
      var before := Run(events, n - 1).value;
      StepKeepsInvariant(before.state, before.log, Negotiated(events, n - 1), events[n - 1]);
    }
  }

  /** In every reachable state an outstanding request has an armed timer, armed for it. */
  lemma {:induction false} OutstandingRequestIsTimed(events: seq<Event>, n: nat)
    requires n <= |events| && Run(events, n).Some?
    ensures var s := Run(events, n).value.state;
      s.pending.Some? && !s.cancelled ==> s.timer.Some? && s.timer.value.armedFor == s.pending.value.reconcileId
  {
    RunKeepsInvariant(events, n);
  }

  /** Panes wait for an outstanding request exactly on a negotiated socket: until the teardown, when
      some pane waits, a request is outstanding if and only if a well-formed ready came since the last
      drop that was noticed. On such a socket the request names every pane that waits. */
  lemma {:induction false} WaitingPanesHaveARequest(events: seq<Event>, n: nat)
    requires n <= |events| && Run(events, n).Some?
    ensures var s := Run(events, n).value.state;
      !s.cancelled && s.pendingPanes != {} ==> (s.pending.Some? <==> Negotiated(events, n))
    ensures var s := Run(events, n).value.state;
      Negotiated(events, n) ==> forall pane :: pane in s.pendingPanes ==>
        s.pending.Some? && pane in s.pending.value.panes
  {
    RunKeepsInvariant(events, n);
  }

  /** A ready frame that fails validation connects but leaves the panes of the dead socket waiting:
      no request and no timer will release them. */
  lemma MalformedReadyStrandsPanes(pane: string)
    ensures
      var events := [Event(0, Ready(ReadyFrame(true, false, Some(Request(0, {pane}))))),
                     Event(1, Disconnected), Event(2, MalformedReady)];
      Run(events, 3).Some? && !Negotiated(events, 3) &&
      var s := Run(events, 3).value.state;
      s.connected && pane in s.pendingPanes && s.createsHeld && s.pending.None? && s.timer.None?
  {
    var sent := Event(0, Ready(ReadyFrame(true, false, Some(Request(0, {pane})))));
    var events := [sent, Event(1, Disconnected), Event(2, MalformedReady)];
    assert Run(events, 1) == Some(Result(OnReady(INITIAL, sent.what.frame, 0).state,
                                         [] + OnReady(INITIAL, sent.what.frame, 0).log));
    assert Run(events, 2).Some? && !Detached(events, 1);
    assert !Negotiated(events, 2);
  }

  /** The wait is bounded: when the timer of an outstanding request is due it can fire, ten seconds
      after that request was sent, and then nothing waits any more. */
  lemma NoWaitOutlastsTheTimer(events: seq<Event>, n: nat)
    requires n <= |events| && Run(events, n).Some?
    requires var s := Run(events, n).value.state; s.pending.Some? && !s.cancelled
    ensures
      var r := Run(events, n).value;
      var id := r.state.pending.value.reconcileId;
      r.state.timer.Some? &&
      var e := Event(r.state.timer.value.due, TimerFires);
      Enabled(r.state, e) && SentAt(r.log, id, e.now - 10_000) &&
      var after := Step(r.state, e);
      && FellBack(id, e.now, TimedOut) in after.log && !after.state.active
      && after.state.pending.None? && after.state.pendingPanes == {} && !after.state.createsHeld
  {
    RunKeepsInvariant(events, n);
    var r := Run(events, n).value;
    var after := Step(r.state, Event(r.state.timer.value.due, TimerFires));
    assert after.log[0] == FellBack(r.state.pending.value.reconcileId, r.state.timer.value.due, TimedOut);
  }

  // ---- Falling back because of the timer. ----

  predicate FallsBack(s: State, e: Event) {
    Enabled(s, e) && Step(s, e).log != [] && Step(s, e).log[0].FellBack?
  }

  ghost predicate TimeoutsAreLate(log: seq<Entry>) {
    forall i :: 0 <= i < |log| && log[i].FellBack? && log[i].why.TimedOut? ==>
      exists at :: SentAt(log, log[i].id, at) && at + 10_000 <= log[i].at
  }

  lemma StepTimeoutIsLate(s: State, log: seq<Entry>, negotiated: bool, e: Event, i: nat)
    requires Invariant(s, log, negotiated) && Enabled(s, e)
    requires i < |Step(s, e).log| && Step(s, e).log[i].FellBack? && Step(s, e).log[i].why.TimedOut?
    ensures s.timer.Some? && !s.cancelled ==> s.timer.value.armedFor == Step(s, e).log[i].id
    ensures s.timer.Some? && s.timer.value.due <= Step(s, e).log[i].at
  {
  }

  lemma {:induction false} CancelledHasNoTimer(events: seq<Event>, n: nat)
    requires n <= |events| && Run(events, n).Some? && Run(events, n).value.state.cancelled
    ensures Run(events, n).value.state.timer.None?
  {
    if n > 0 && Run(events, n - 1).value.state.cancelled {
      CancelledHasNoTimer(events, n - 1);
    }
  }

  /** A request is given up for lack of an answer ten seconds after it was sent, never earlier. */
  lemma {:induction false} TimeoutsWaitTenSeconds(events: seq<Event>, n: nat)
    requires n <= |events| && Run(events, n).Some?
    ensures TimeoutsAreLate(Run(events, n).value.log)
  {
    if n > 0 {
      TimeoutsWaitTenSeconds(events, n - 1);
      RunKeepsInvariant(events, n - 1);
      var before := Run(events, n - 1).value;
      var step := Step(before.state, events[n - 1]);
      var log := before.log + step.log;
      forall i | 0 <= i < |log| && log[i].FellBack? && log[i].why.TimedOut?
        ensures exists at :: SentAt(log, log[i].id, at) && at + 10_000 <= log[i].at
      {
        if i < |before.log| {
          var at :| SentAt(before.log, before.log[i].id, at) && at + 10_000 <= before.log[i].at;
          SentAtStays(before.log, step.log, log[i].id, at);
        } else {
          StepTimeoutIsLate(before.state, before.log, Negotiated(events, n - 1), events[n - 1], i - |before.log|);
          if before.state.cancelled { CancelledHasNoTimer(events, n - 1); }
          SentAtStays(before.log, step.log, log[i].id, before.state.timer.value.due - RECONCILE_RESULT_WAIT_MS);
        }
      }
    }
  }

  // ---- Falling back while the socket is down. ----

  /** The socket has had a well-formed ready since it last dropped, noticed or not. */
  predicate SocketIsUp(events: seq<Event>, n: nat)
    requires n <= |events|
  {
    n > 0 && match events[n - 1].what
             case Ready(_) => true
             case Disconnected => false
             case _ => SocketIsUp(events, n - 1)
  }

  lemma {:induction false} AttachedNoticesDrops(events: seq<Event>, n: nat)
    requires n <= |events| && !Detached(events, n)
    ensures Negotiated(events, n) <==> SocketIsUp(events, n)
  {
    if n > 0 { AttachedNoticesDrops(events, n - 1); }
  }

  /** No census from a stale inventory while offline: until an authentication failure, a request is given
      up, and the destructive census run, only on a socket that is up. */
  lemma FallbacksHaveASocket(events: seq<Event>, n: nat)
    requires n < |events| && Run(events, n + 1).Some? && !Detached(events, n)
    requires FallsBack(Run(events, n).value.state, events[n])
    ensures SocketIsUp(events, n)
  {
    RunKeepsInvariant(events, n);
    AttachedNoticesDrops(events, n);
    if Run(events, n).value.state.cancelled { CancelledHasNoTimer(events, n); }
  }

  lemma {:induction false} PrefixRun(events: seq<Event>, more: seq<Event>, n: nat)
    requires n <= |events|
    ensures Run(events + more, n) == Run(events, n)
    ensures SocketIsUp(events + more, n) <==> SocketIsUp(events, n)
  {
    if n > 0 { PrefixRun(events, more, n - 1); }
  }

  lemma AuthFailureKeepsWaiting(pane: string, live: seq<string>) returns (events: seq<Event>, s: State)
    ensures events == [Event(0, Ready(ReadyFrame(true, false, Some(Request(0, {pane}))))), Event(1, Inventory(live)),
                       Event(2, AuthFailure), Event(3, Disconnected)]
    ensures Run(events, 4).Some? && Run(events, 4).value.state == s && Detached(events, 4) && !SocketIsUp(events, 4)
    ensures s == State(true, Some(Request(0, {pane})), Some(Timer(RECONCILE_RESULT_WAIT_MS, 0)), {pane}, true,
                       Some(live), false, true, false)
  {
    var sent := Event(0, Ready(ReadyFrame(true, false, Some(Request(0, {pane})))));
    events := [sent, Event(1, Inventory(live)), Event(2, AuthFailure), Event(3, Disconnected)];
    assert Run(events, 1) == Some(Result(OnReady(INITIAL, sent.what.frame, 0).state,
                                         [] + OnReady(INITIAL, sent.what.frame, 0).log));
    assert Run(events, 2).Some?;
    assert Run(events, 3).Some? && Detached(events, 3);
    s := Run(events, 4).value.state;
  }

  /** After an authentication failure a drop goes unnoticed: the timer still fires, and runs the census
      with an inventory from before the drop. */
  lemma AuthFailureCensusesOffline(pane: string, live: seq<string>) returns (events: seq<Event>)
    ensures |events| == 5 && Run(events, 5).Some? && !SocketIsUp(events, 4)
    ensures Step(Run(events, 4).value.state, events[4]).log ==
      [FellBack(0, 10_000, TimedOut), Census(live)]
  {
    var four, s := AuthFailureKeepsWaiting(pane, live);
    events := four + [Event(RECONCILE_RESULT_WAIT_MS, TimerFires)];
    PrefixRun(four, [Event(RECONCILE_RESULT_WAIT_MS, TimerFires)], 4);
  }

  // ---- Every request ends at most once. ----

  predicate Mints(entry: Entry, id: nat) {
    entry.Sent? && entry.request.reconcileId == id
  }

  predicate Ends(entry: Entry, id: nat) {
    (entry.Folded? || entry.FellBack? || entry.Dropped?) && entry.id == id
  }

  /** How often `id` was minted. */
  function Minted(log: seq<Entry>, id: nat): nat {
    if log == [] then 0 else (if Mints(log[0], id) then 1 else 0) + Minted(log[1..], id)
  }

  /** How often a request of that id was folded, fell back or was forgotten. */
  function Ended(log: seq<Entry>, id: nat): nat {
    if log == [] then 0 else (if Ends(log[0], id) then 1 else 0) + Ended(log[1..], id)
  }

  function Outstanding(s: State, id: nat): nat {
    if s.pending.Some? && s.pending.value.reconcileId == id then 1 else 0
  }

  lemma {:induction false} CountsAppend(a: seq<Entry>, b: seq<Entry>, id: nat)
    ensures Minted(a + b, id) == Minted(a, id) + Minted(b, id) && Ended(a + b, id) == Ended(a, id) + Ended(b, id)
  {
    if a == [] {
      assert a + b == b;
    } else {
      assert (a + b)[1..] == a[1..] + b;
      CountsAppend(a[1..], b, id);
    }
  }

  lemma CountsOfTwo(log: seq<Entry>, id: nat)
    requires |log| <= 2
    ensures Minted(log, id) == (if |log| > 0 && Mints(log[0], id) then 1 else 0)
                             + (if |log| > 1 && Mints(log[1], id) then 1 else 0)
    ensures Ended(log, id) == (if |log| > 0 && Ends(log[0], id) then 1 else 0)
                            + (if |log| > 1 && Ends(log[1], id) then 1 else 0)
  {
    if |log| == 2 { assert log[1..] == [log[1]] && log[1..][1..] == []; }
    if |log| == 1 { assert log[1..] == []; }
  }

  lemma StepConserves(s: State, e: Event, id: nat)
    requires Enabled(s, e)
    ensures var r := Step(s, e);
      Outstanding(s, id) + Minted(r.log, id) == Ended(r.log, id) + Outstanding(r.state, id)
  {
    CountsOfTwo(Step(s, e).log, id);
  }

  /** Every minted request is folded, fell back, was forgotten, or is the outstanding one. */
  lemma {:induction false} RequestsAreConserved(events: seq<Event>, n: nat, id: nat)
    requires n <= |events| && Run(events, n).Some?
    ensures var r := Run(events, n).value; Minted(r.log, id) == Ended(r.log, id) + Outstanding(r.state, id)
  {
    if n > 0 {
      RequestsAreConserved(events, n - 1, id);
      var before := Run(events, n - 1).value;
      StepConserves(before.state, events[n - 1], id);
      CountsAppend(before.log, Step(before.state, events[n - 1]).log, id);
    }
  }

  lemma {:induction false} EndedHas(log: seq<Entry>, i: nat, id: nat)
    requires i < |log| && Ends(log[i], id)
    ensures Ended(log, id) >= 1
  {
    if i > 0 { EndedHas(log[1..], i - 1, id); }
  }

  lemma {:induction false} EndedTwice(log: seq<Entry>, i: nat, j: nat, id: nat)
    requires i < j < |log| && Ends(log[i], id) && Ends(log[j], id)
    ensures Ended(log, id) >= 2
  {
    if i == 0 { EndedHas(log[1..], j - 1, id); } else { EndedTwice(log[1..], i - 1, j - 1, id); }
  }

  /** A request minted once ends at most once: it is not folded and given up, nor either twice. */
  lemma RequestsEndOnce(events: seq<Event>, n: nat, i: nat, j: nat, id: nat)
    requires n <= |events| && Run(events, n).Some? && Minted(Run(events, n).value.log, id) <= 1
    requires var log := Run(events, n).value.log; i < |log| && j < |log| && Ends(log[i], id) && Ends(log[j], id)
    ensures i == j && Minted(Run(events, n).value.log, id) == 1
    ensures Outstanding(Run(events, n).value.state, id) == 0
  {
    RequestsAreConserved(events, n, id);
    var log := Run(events, n).value.log;
    EndedHas(log, i, id);
    if i < j { EndedTwice(log, i, j, id); }
    if j < i { EndedTwice(log, j, i, id); }
  }

  // ---- Who owns the census. ----

  predicate CapableReady(e: Event) {
    e.what.Ready? && e.what.frame.paneReconcile
  }

  /** No ready and no fallback at step `k`. */
  predicate Quiet(events: seq<Event>, k: nat)
    requires k < |events|
  {
    !events[k].what.Ready? && Run(events, k).Some? && !FallsBack(Run(events, k).value.state, events[k])
  }

  /** Event `j` is a ready that offers reconcile, and since then no ready and no fallback came. */
  predicate Owns(events: seq<Event>, j: nat, n: nat)
    requires n <= |events|
  {
    j < n && CapableReady(events[j]) && forall k :: j < k < n ==> Quiet(events, k)
  }

  lemma StepOwnership(s: State, e: Event)
    requires Enabled(s, e) && (s.pending.Some? ==> s.active)
    ensures Step(s, e).state.active <==> CapableReady(e) || (s.active && !e.what.Ready? && !FallsBack(s, e))
  {
  }

  ghost predicate Owned(events: seq<Event>, n: nat)
    requires n <= |events|
  {
    exists j: nat :: Owns(events, j, n)
  }

  lemma OwnsOneMore(events: seq<Event>, j: nat, n: nat)
    requires n < |events|
    ensures Owns(events, j, n + 1) <==> (j == n && CapableReady(events[n])) || (Owns(events, j, n) && Quiet(events, n))
  {
  }

  lemma OwnedOneMore(events: seq<Event>, n: nat)
    requires n < |events|
    ensures Owned(events, n + 1) <==> CapableReady(events[n]) || (Quiet(events, n) && Owned(events, n))
  {
    var m := n + 1;
    OwnsOneMore(events, n, n);
    if Owned(events, m) {
      var j: nat :| Owns(events, j, m);
      OwnsOneMore(events, j, n);
    }
    if Owned(events, n) {
      var j: nat :| Owns(events, j, n);
      OwnsOneMore(events, j, n);
      assert Owns(events, j, m) <==> Quiet(events, n);
    }
    assert CapableReady(events[n]) ==> Owns(events, n, m);
  }

  /** Reconcile is active exactly when the last ready offered it and nothing fell back since. */
  lemma {:induction false} ActiveExactly(events: seq<Event>, n: nat)
    requires n <= |events| && Run(events, n).Some?
    ensures Run(events, n).value.state.active <==> Owned(events, n)
  {
    if n > 0 {
      var k := n - 1;
      ActiveExactly(events, k);
      RunKeepsInvariant(events, k);
      StepOwnership(Run(events, k).value.state, events[k]);
      OwnedOneMore(events, k);
    }
  }

  lemma CensusMeansInactive(s: State, e: Event, i: nat)
    requires Enabled(s, e) && i < |Step(s, e).log| && Step(s, e).log[i].Census?
    ensures !Step(s, e).state.active
  {
  }

  /** The destructive census never runs while reconcile owns the panes: not in the step of a ready
      that offers it, nor later, until another ready or a fallback. */
  lemma CensusNeverWhileOwned(events: seq<Event>, n: nat, i: nat)
    requires n < |events| && Run(events, n + 1).Some?
    requires var log := Step(Run(events, n).value.state, events[n]).log; i < |log| && log[i].Census?
    ensures !Owned(events, n + 1)
  {
    ActiveExactly(events, n + 1);
    CensusMeansInactive(Run(events, n).value.state, events[n], i);
  }

  /** What the event makes of the live terminals the client knows of: an inventory replaces them, a restart
      empties the list, and a recovery takes all its terminals off it if some pane shows one of them. */
  function LiveAfter(live: Option<seq<string>>, e: Event): Option<seq<string>> {
    match e.what
    case Inventory(listed) => Some(listed)
    case Ready(frame) => if frame.serverRestarted then Some([]) else live
    case TerminalsRecovered(ids, shown) => if shown && live.Some? then Some(Without(live.value, ids)) else live
    case _ => live
  }

  function KnownLive(events: seq<Event>, n: nat): Option<seq<string>>
    requires n <= |events|
  {
    if n == 0 then None else LiveAfter(KnownLive(events, n - 1), events[n - 1])
  }

  lemma StepCachesLive(s: State, e: Event)
    requires Enabled(s, e)
    ensures Step(s, e).state.liveIds == LiveAfter(s.liveIds, e)
  {
  }

  lemma {:induction false} CacheIsKnownLive(events: seq<Event>, n: nat)
    requires n <= |events| && Run(events, n).Some?
    ensures Run(events, n).value.state.liveIds == KnownLive(events, n)
  {
    if n > 0 {
      CacheIsKnownLive(events, n - 1);
      StepCachesLive(Run(events, n - 1).value.state, events[n - 1]);
    }
  }

  lemma StepCensusIsCached(s: State, e: Event, i: nat)
    requires Enabled(s, e) && i < |Step(s, e).log| && Step(s, e).log[i].Census?
    ensures Step(s, e).state.liveIds == Some(Step(s, e).log[i].live)
  {
  }

  /** A census, immediate or delayed to a fallback, uses what the client knows of when it runs. */
  lemma CensusUsesLatestInventory(events: seq<Event>, n: nat, i: nat)
    requires n < |events| && Run(events, n + 1).Some?
    requires var log := Step(Run(events, n).value.state, events[n]).log; i < |log| && log[i].Census?
    ensures KnownLive(events, n + 1) == Some(Step(Run(events, n).value.state, events[n]).log[i].live)
  {
    CacheIsKnownLive(events, n + 1);
    StepCensusIsCached(Run(events, n).value.state, events[n], i);
  }

  /** The event takes the terminal off the list: another inventory, a restart, or its recovery. */
  predicate Unlists(e: Event, id: string) {
    match e.what
    case Inventory(_) => true
    case Ready(frame) => frame.serverRestarted
    case TerminalsRecovered(ids, shown) => shown && id in ids
    case _ => false
  }

  predicate Lists(e: Event, id: string) {
    e.what.Inventory? && id in e.what.live
  }

  /** Inventory `j` lists the terminal, and nothing took it off the list before step `n`. */
  predicate ListedSince(events: seq<Event>, j: nat, n: nat, id: string)
    requires n <= |events|
  {
    j < n && Lists(events[j], id) && forall k :: j < k < n ==> !Unlists(events[k], id)
  }

  ghost predicate Listed(events: seq<Event>, n: nat, id: string)
    requires n <= |events|
  {
    exists j: nat :: ListedSince(events, j, n, id)
  }

  lemma ListedOneMore(events: seq<Event>, n: nat, id: string)
    requires n < |events|
    ensures Listed(events, n + 1, id) <==> Lists(events[n], id) || (Listed(events, n, id) && !Unlists(events[n], id))
  {
    var m := n + 1;
    assert Lists(events[n], id) ==> ListedSince(events, n, m, id);
    if Listed(events, m, id) {
      var j: nat :| ListedSince(events, j, m, id);
      assert j < n ==> ListedSince(events, j, n, id);
    }
    if Listed(events, n, id) {
      var j: nat :| ListedSince(events, j, n, id);
      assert !Unlists(events[n], id) ==> ListedSince(events, j, m, id);
    }
  }

  lemma {:induction false} WithoutMembers(live: seq<string>, removed: set<string>, id: string)
    ensures id in Without(live, removed) <==> id in live && id !in removed
  {
    if live != [] {
      WithoutMembers(live[1..], removed, id);
      assert live == [live[0]] + live[1..];
    }
  }

  /** What stays on the list keeps its order. */
  lemma {:induction false} WithoutKeepsOrder(a: seq<string>, b: seq<string>, removed: set<string>)
    ensures Without(a + b, removed) == Without(a, removed) + Without(b, removed)
  {
    if a == [] {
      assert a + b == b;
    } else {
      assert (a + b)[0] == a[0] && (a + b)[1..] == a[1..] + b;
      var first := if a[0] in removed then [] else [a[0]];
      WithoutKeepsOrder(a[1..], b, removed);
      assert (first + Without(a[1..], removed)) + Without(b, removed)
          == first + (Without(a[1..], removed) + Without(b, removed));
    }
  }

  lemma WithoutOne(id: string, removed: set<string>)
    ensures Without([id], removed) == if id in removed then [] else [id]
  {
    assert [id][1..] == [] && Without([], removed) == [];
  }

  lemma {:induction false} KnownLiveMembers(events: seq<Event>, n: nat, id: string)
    requires n <= |events|
    ensures KnownLive(events, n).Some? && id in KnownLive(events, n).value <==> Listed(events, n, id)
  {
    if n > 0 {
      var k := n - 1;
      KnownLiveMembers(events, k, id);
      ListedOneMore(events, k, id);
      if events[k].what.TerminalsRecovered? && KnownLive(events, k).Some? {
        WithoutMembers(KnownLive(events, k).value, events[k].what.ids, id);
      }
    }
  }

  /** A census spares exactly the terminals that an inventory listed and that no later inventory, restart
      or recovery took off the list. */
  lemma CensusSparesExactly(events: seq<Event>, n: nat, i: nat, id: string)
    requires n < |events| && Run(events, n + 1).Some?
    requires var log := Step(Run(events, n).value.state, events[n]).log; i < |log| && log[i].Census?
    ensures id in Step(Run(events, n).value.state, events[n]).log[i].live <==> Listed(events, n + 1, id)
  {
    CensusUsesLatestInventory(events, n, i);
    KnownLiveMembers(events, n + 1, id);
  }
}
