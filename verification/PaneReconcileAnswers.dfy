/** What the handshake does at each event, and who waits, told by the events and the log alone. */
module PaneReconcileAnswers {
  import opened Basics
  import opened PaneReconcile
  import opened PaneReconcileRuns

  function LogAt(events: seq<Event>, n: nat): seq<Entry>
    requires n <= |events|
  {
    if Run(events, n).Some? then Run(events, n).value.log else []
  }

  /** What event `n` adds to the log. */
  function Added(events: seq<Event>, n: nat): seq<Entry>
    requires n < |events|
  {
    if |LogAt(events, n)| <= |LogAt(events, n + 1)| then LogAt(events, n + 1)[|LogAt(events, n)|..] else []
  }

  /** The request of that id was sent and has not ended. */
  predicate Waiting(log: seq<Entry>, id: nat) {
    Minted(log, id) > Ended(log, id)
  }

  predicate TornDown(events: seq<Event>, n: nat)
    requires n <= |events|
  {
    exists k :: 0 <= k < n && events[k].what.Teardown?
  }

  /** The handlers are gone, after an authentication failure or the teardown. */
  predicate Deaf(events: seq<Event>, n: nat)
    requires n <= |events|
  {
    TornDown(events, n) || exists k :: 0 <= k < n && events[k].what.AuthFailure?
  }

  lemma AddedIs(events: seq<Event>, n: nat) returns (s: State, log: seq<Entry>)
    requires n < |events| && Run(events, n + 1).Some?
    ensures Run(events, n).Some? && s == Run(events, n).value.state && log == LogAt(events, n)
    ensures Enabled(s, events[n]) && Added(events, n) == Step(s, events[n]).log
    ensures Run(events, n + 1).value == Result(Step(s, events[n]).state, log + Added(events, n))
  {
    s, log := Run(events, n).value.state, Run(events, n).value.log;
    var more := Step(s, events[n]).log;
    assert (log + more)[|log|..] == more;
  }

  predicate Outstands(s: State, id: nat) {
    s.pending.Some? && s.pending.value.reconcileId == id
  }

  lemma WaitingIsPending(events: seq<Event>, n: nat, id: nat)
    requires n <= |events| && Run(events, n).Some?
    ensures Waiting(LogAt(events, n), id) <==> Outstands(Run(events, n).value.state, id)
  {
    RequestsAreConserved(events, n, id);
  }

  lemma StepDeafens(s: State, e: Event) returns (next: State)
    requires Enabled(s, e)
    ensures next == Step(s, e).state
    ensures next.cancelled <==> s.cancelled || e.what.Teardown?
    ensures next.detached <==> s.detached || e.what.AuthFailure?
  {
    next := Step(s, e).state;
  }

  lemma DeafOneMore(events: seq<Event>, n: nat)
    requires n < |events|
    ensures TornDown(events, n + 1) <==> TornDown(events, n) || events[n].what.Teardown?
    ensures Deaf(events, n + 1) <==> Deaf(events, n) || events[n].what.Teardown? || events[n].what.AuthFailure?
  {
  }

  lemma RunDeafens(events: seq<Event>, n: nat) returns (s: State, next: State)
    requires n < |events| && Run(events, n + 1).Some?
    ensures Run(events, n).Some? && s == Run(events, n).value.state && next == Run(events, n + 1).value.state
    ensures next.cancelled <==> s.cancelled || events[n].what.Teardown?
    ensures next.detached <==> s.detached || events[n].what.AuthFailure?
  {
    var log;
    s, log := AddedIs(events, n);
    next := StepDeafens(s, events[n]);
  }

  lemma {:induction false} DeafIsKnown(events: seq<Event>, n: nat)
    requires n <= |events| && Run(events, n).Some?
    ensures var s := Run(events, n).value.state;
      (s.cancelled <==> TornDown(events, n)) && (s.cancelled || s.detached <==> Deaf(events, n))
  {
    if n > 0 {
      var s, next := RunDeafens(events, n - 1);
      DeafIsKnown(events, n - 1);
      DeafOneMore(events, n - 1);
    }
  }

  // ---- What each event adds. ----

  lemma StepFolds(s: State, e: Event, id: nat) returns (added: seq<Entry>)
    requires Enabled(s, e)
    ensures added == Step(s, e).log
    ensures Folded(id) in added <==> Outstands(s, id) && e.what == ReconcileResult(id, true, false)
  {
    added := Step(s, e).log;
  }

  /** A request is folded by exactly the well-formed answer to it that reports no violation. */
  lemma FoldedExactly(events: seq<Event>, n: nat, id: nat)
    requires n < |events| && Run(events, n + 1).Some?
    ensures Folded(id) in Added(events, n) <==>
      Waiting(LogAt(events, n), id) && events[n].what == ReconcileResult(id, true, false)
  {
    var s, log := AddedIs(events, n);
    var added := StepFolds(s, events[n], id);
    WaitingIsPending(events, n, id);
  }

  /** What gives a request up for each reason. */
  predicate GivesUp(what: What, id: nat, why: Why) {
    match why
    case TimedOut => what.TimerFires?
    case MalformedResult => what.ReconcileResult? && what.reconcileId == id && !what.wellFormed
    case CardinalityViolation => what == ReconcileResult(id, true, true)
    case ServerError => what == ErrorFrame(id)
  }

  lemma StepGivesUp(s: State, e: Event, id: nat, at: int, why: Why) returns (added: seq<Entry>)
    requires Enabled(s, e)
    ensures added == Step(s, e).log
    ensures FellBack(id, at, why) in added <==> Outstands(s, id) && at == e.now && GivesUp(e.what, id, why)
  {
    added := Step(s, e).log;
    assert |added| > 0 ==> added[0] in added;
  }

  /** A request is given up by exactly the event the reason names. */
  lemma FellBackExactly(events: seq<Event>, n: nat, id: nat, at: int, why: Why)
    requires n < |events| && Run(events, n + 1).Some?
    ensures FellBack(id, at, why) in Added(events, n) <==>
      Waiting(LogAt(events, n), id) && at == events[n].now && GivesUp(events[n].what, id, why)
  {
    var s, log := AddedIs(events, n);
    var added := StepGivesUp(s, events[n], id, at, why);
    WaitingIsPending(events, n, id);
  }

  lemma StepForgets(s: State, e: Event, id: nat) returns (added: seq<Entry>)
    requires Enabled(s, e)
    ensures added == Step(s, e).log
    ensures Dropped(id) in added <==>
      Outstands(s, id) && (e.what.Ready? || (e.what.Disconnected? && !s.cancelled && !s.detached))
  {
    added := Step(s, e).log;
    assert |added| > 0 ==> added[0] in added;
  }

  /** A request is forgotten exactly when a ready frame comes, or a drop of the socket that is noticed. */
  lemma DroppedExactly(events: seq<Event>, n: nat, id: nat)
    requires n < |events| && Run(events, n + 1).Some?
    ensures Dropped(id) in Added(events, n) <==>
      Waiting(LogAt(events, n), id) &&
      (events[n].what.Ready? || (events[n].what.Disconnected? && !Deaf(events, n)))
  {
    var s, log := AddedIs(events, n);
    var added := StepForgets(s, events[n], id);
    WaitingIsPending(events, n, id);
    DeafIsKnown(events, n);
  }

  predicate Requests(e: Event, request: Request) {
    e.what.Ready? && e.what.frame.paneReconcile && e.what.frame.request == Some(request)
  }

  lemma StepSends(s: State, e: Event, request: Request, at: int) returns (added: seq<Entry>)
    requires Enabled(s, e)
    ensures added == Step(s, e).log
    ensures Sent(request, at) in added <==> Requests(e, request) && at == e.now
  {
    added := Step(s, e).log;
    assert |added| > 0 ==> added[|added| - 1] in added;
  }

  /** A request is sent by exactly the ready frame that offers reconcile while there is something to ask. */
  lemma SentExactly(events: seq<Event>, n: nat, request: Request, at: int)
    requires n < |events| && Run(events, n + 1).Some?
    ensures Sent(request, at) in Added(events, n) <==> Requests(events[n], request) && at == events[n].now
  {
    var s, log := AddedIs(events, n);
    var added := StepSends(s, events[n], request, at);
  }

  predicate Concludes(added: seq<Entry>) {
    exists i :: 0 <= i < |added| && (added[i].Folded? || added[i].FellBack?)
  }

  predicate FallsBackIn(added: seq<Entry>) {
    exists i :: 0 <= i < |added| && added[i].FellBack?
  }

  lemma StepCensuses(s: State, e: Event, live: seq<string>) returns (added: seq<Entry>)
    requires Enabled(s, e)
    ensures added == Step(s, e).log
    ensures Census(live) in added <==>
      (e.what == Inventory(live) && !s.active) || (FallsBackIn(added) && s.liveIds == Some(live))
  {
    added := Step(s, e).log;
    if |added| > 0 && added[0].FellBack? { assert FallsBackIn(added); }
  }

  /** The destructive census runs on an inventory that comes while no reconcile owns the panes, and on the
      terminals known to be live when a request is given up, and on nothing else. */
  lemma CensusExactly(events: seq<Event>, n: nat, live: seq<string>)
    requires n < |events| && Run(events, n + 1).Some?
    ensures Census(live) in Added(events, n) <==>
      || (events[n].what == Inventory(live) && !Owned(events, n))
      || (FallsBackIn(Added(events, n)) && KnownLive(events, n) == Some(live))
  {
    var s, log := AddedIs(events, n);
    ActiveExactly(events, n);
    CacheIsKnownLive(events, n);
    var added := StepCensuses(s, events[n], live);
  }

  /** At most two entries at once: a request is forgotten before another is sent, and given up before
      the census. */
  lemma AddedInOrder(events: seq<Event>, n: nat)
    requires n < |events| && Run(events, n + 1).Some?
    ensures var added := Added(events, n);
      |added| <= 2 &&
      (|added| == 2 ==> (added[0].Dropped? && added[1].Sent?) || (added[0].FellBack? && added[1].Census?))
  {
    var s, log := AddedIs(events, n);
  }

  // ---- Who waits. ----

  /** The ready frame `j` made the pane wait, and since then no ready frame came, no request was concluded
      and the pane was not released. */
  predicate PaneWaitsSince(events: seq<Event>, j: nat, n: nat, pane: string)
    requires n <= |events|
  {
    && j < n && Holds(events[j]) && pane in events[j].what.frame.request.value.panes
    && forall k :: j < k < n ==> !Releases(events, k) && events[k].what != PaneReleased(pane)
  }

  predicate Holds(e: Event) {
    e.what.Ready? && e.what.frame.paneReconcile && e.what.frame.request.Some?
  }

  predicate Releases(events: seq<Event>, k: nat)
    requires k < |events|
  {
    events[k].what.Ready? || Concludes(Added(events, k))
  }

  predicate CreatesHeldSince(events: seq<Event>, j: nat, n: nat)
    requires n <= |events|
  {
    j < n && Holds(events[j]) && forall k :: j < k < n ==> !Releases(events, k)
  }

  /** What one step does to the panes and creates that wait. */
  lemma StepHolds(s: State, e: Event, pane: string)
    requires Enabled(s, e)
    ensures var r := Step(s, e);
      && (pane in r.state.pendingPanes <==>
            if e.what.Ready? then Holds(e) && pane in e.what.frame.request.value.panes
            else pane in s.pendingPanes && !Concludes(r.log) && e.what != PaneReleased(pane))
      && (r.state.createsHeld <==> if e.what.Ready? then Holds(e) else s.createsHeld && !Concludes(r.log))
  {
    var log := Step(s, e).log;
    if |log| > 0 && (log[0].Folded? || log[0].FellBack?) { assert Concludes(log); }
  }

  lemma PaneWaitsOneMore(events: seq<Event>, j: nat, n: nat, pane: string)
    requires n < |events|
    ensures PaneWaitsSince(events, j, n + 1, pane) <==>
      || (j == n && Holds(events[n]) && pane in events[n].what.frame.request.value.panes)
      || (PaneWaitsSince(events, j, n, pane) && !Releases(events, n) && events[n].what != PaneReleased(pane))
  {
  }

  lemma CreatesWaitOneMore(events: seq<Event>, j: nat, n: nat)
    requires n < |events|
    ensures CreatesHeldSince(events, j, n + 1) <==>
      (j == n && Holds(events[n])) || (CreatesHeldSince(events, j, n) && !Releases(events, n))
  {
  }

  ghost predicate PaneWaits(events: seq<Event>, n: nat, pane: string)
    requires n <= |events|
  {
    exists j: nat :: PaneWaitsSince(events, j, n, pane)
  }

  ghost predicate CreatesWait(events: seq<Event>, n: nat)
    requires n <= |events|
  {
    exists j: nat :: CreatesHeldSince(events, j, n)
  }

  lemma WaitsOneMore(events: seq<Event>, n: nat, pane: string)
    requires n < |events|
    ensures PaneWaits(events, n + 1, pane) <==>
      if events[n].what.Ready? then Holds(events[n]) && pane in events[n].what.frame.request.value.panes
      else PaneWaits(events, n, pane) && !Concludes(Added(events, n)) && events[n].what != PaneReleased(pane)
  {
    var m := n + 1;
    PaneWaitsOneMore(events, n, n, pane);
    if PaneWaits(events, m, pane) {
      var j: nat :| PaneWaitsSince(events, j, m, pane);
      PaneWaitsOneMore(events, j, n, pane);
    }
    if PaneWaits(events, n, pane) {
      var j: nat :| PaneWaitsSince(events, j, n, pane);
      PaneWaitsOneMore(events, j, n, pane);
    }
  }

  lemma HeldOneMore(events: seq<Event>, n: nat)
    requires n < |events|
    ensures CreatesWait(events, n + 1) <==>
      if events[n].what.Ready? then Holds(events[n]) else CreatesWait(events, n) && !Concludes(Added(events, n))
  {
    var m := n + 1;
    CreatesWaitOneMore(events, n, n);
    if CreatesWait(events, m) {
      var j: nat :| CreatesHeldSince(events, j, m);
      CreatesWaitOneMore(events, j, n);
    }
    if CreatesWait(events, n) {
      var j: nat :| CreatesHeldSince(events, j, n);
      CreatesWaitOneMore(events, j, n);
    }
  }

  lemma HoldsOneMore(events: seq<Event>, k: nat, pane: string) returns (before: bool, after: bool)
    requires k < |events| && Run(events, k + 1).Some?
    ensures Run(events, k).Some? && (before <==> pane in Run(events, k).value.state.pendingPanes)
    ensures after <==> pane in Run(events, k + 1).value.state.pendingPanes
    ensures after <==>
      if events[k].what.Ready? then Holds(events[k]) && pane in events[k].what.frame.request.value.panes
      else before && !Concludes(Added(events, k)) && events[k].what != PaneReleased(pane)
  {
    var s, log := AddedIs(events, k);
    StepHolds(s, events[k], pane);
    before, after := pane in s.pendingPanes, pane in Step(s, events[k]).state.pendingPanes;
  }

  lemma HeldBackOneMore(events: seq<Event>, k: nat) returns (before: bool, after: bool)
    requires k < |events| && Run(events, k + 1).Some?
    ensures Run(events, k).Some? && before == Run(events, k).value.state.createsHeld
    ensures after == Run(events, k + 1).value.state.createsHeld
    ensures after <==> if events[k].what.Ready? then Holds(events[k]) else before && !Concludes(Added(events, k))
  {
    var s, log := AddedIs(events, k);
    StepHolds(s, events[k], "");
    before, after := s.createsHeld, Step(s, events[k]).state.createsHeld;
  }

  /** A pane waits for a verdict exactly since the last ready frame that asked about it, until another one,
      the end of the request, or the release of the pane. */
  lemma {:induction false} PanesWaitExactly(events: seq<Event>, n: nat, pane: string)
    requires n <= |events| && Run(events, n).Some?
    ensures pane in Run(events, n).value.state.pendingPanes <==> PaneWaits(events, n, pane)
  {
    if n > 0 {
      var before, after := HoldsOneMore(events, n - 1, pane);
      PanesWaitExactly(events, n - 1, pane);
      WaitsOneMore(events, n - 1, pane);
    }
  }

  /** Creates are held back exactly since the last ready frame that asked, until another one or the end of
      the request. */
  lemma {:induction false} CreatesWaitExactly(events: seq<Event>, n: nat)
    requires n <= |events| && Run(events, n).Some?
    ensures Run(events, n).value.state.createsHeld <==> CreatesWait(events, n)
  {
    if n > 0 {
      var before, after := HeldBackOneMore(events, n - 1);
      CreatesWaitExactly(events, n - 1);
      HeldOneMore(events, n - 1);
    }
  }

  // ---- The timer. ----

  /** The request sent at event `j` still has its timer. */
  predicate TimedSince(events: seq<Event>, j: nat, n: nat)
    requires n <= |events|
  {
    j < n && Holds(events[j]) && forall k :: j < k < n ==> !EndsTimer(events, k)
  }

  /** A new request, an answer to the outstanding one, the timer itself, a noticed drop, the teardown. */
  predicate EndsTimer(events: seq<Event>, k: nat)
    requires k < |events|
  {
    || Holds(events[k]) || Concludes(Added(events, k)) || events[k].what.TimerFires?
    || (events[k].what.Disconnected? && !Deaf(events, k)) || events[k].what.Teardown?
  }

  function TimerOf(e: Event): Timer
    requires Holds(e)
  {
    Timer(e.now + 10_000, e.what.frame.request.value.reconcileId)
  }

  lemma StepConnects(s: State, e: Event) returns (next: State)
    requires Enabled(s, e)
    ensures next == Step(s, e).state
    ensures next.connected <==>
      || Connects(e)
      || (s.connected && !(e.what.Disconnected? && !s.cancelled && !s.detached)
          && !(e.what.AuthFailure? && !s.cancelled))
  {
    next := Step(s, e).state;
  }

  lemma StepTimes(s: State, e: Event, deaf: bool)
    requires Enabled(s, e) && (s.cancelled || s.detached <==> deaf)
    ensures Step(s, e).state.timer ==
      if Holds(e) then Some(TimerOf(e))
      else if Concludes(Step(s, e).log) || e.what.TimerFires? || (e.what.Disconnected? && !deaf) || e.what.Teardown?
      then None else s.timer
  {
    var log := Step(s, e).log;
    if |log| > 0 && (log[0].Folded? || log[0].FellBack?) { assert Concludes(log); }
  }

  /** The timer is armed exactly since the last request was sent, for ten seconds from then, until it fires
      or the request is answered, the drop of the socket is noticed, or everything is torn down. */
  lemma {:induction false} TimerIsArmedExactly(events: seq<Event>, n: nat)
    requires n <= |events| && Run(events, n).Some?
    ensures var timer := Run(events, n).value.state.timer;
      && (forall j: nat :: TimedSince(events, j, n) ==> timer == Some(TimerOf(events[j])))
      && (timer.Some? ==> exists j: nat :: TimedSince(events, j, n))
  {
    if n > 0 {
      var k := n - 1;
      var s, log := AddedIs(events, k);
      TimerIsArmedExactly(events, k);
      DeafIsKnown(events, k);
      StepTimes(s, events[k], Deaf(events, k));
      var timer := Run(events, n).value.state.timer;
      forall j: nat | TimedSince(events, j, n) ensures timer == Some(TimerOf(events[j])) {
        TimedOneMore(events, j, k);
      }
      if timer.Some? {
        TimedOneMore(events, k, k);
        if !Holds(events[k]) {
          var j: nat :| TimedSince(events, j, k);
          TimedOneMore(events, j, k);
        }
      }
    }
  }

  lemma TimedOneMore(events: seq<Event>, j: nat, n: nat)
    requires n < |events|
    ensures TimedSince(events, j, n + 1) <==>
      (j == n && Holds(events[n])) || (TimedSince(events, j, n) && !EndsTimer(events, n))
  {
  }

  // ---- The connection. ----

  /** A ready frame, well-formed or not, came and since then no drop was noticed, nor did authentication
      fail before the teardown. */
  predicate ConnectedSince(events: seq<Event>, j: nat, n: nat)
    requires n <= |events|
  {
    j < n && Connects(events[j]) && forall k :: j < k < n ==> !Disconnects(events, k)
  }

  predicate Connects(e: Event) {
    e.what.Ready? || e.what.MalformedReady?
  }

  predicate Disconnects(events: seq<Event>, k: nat)
    requires k < |events|
  {
    || (events[k].what.Disconnected? && !Deaf(events, k))
    || (events[k].what.AuthFailure? && !TornDown(events, k))
  }

  ghost predicate Connected(events: seq<Event>, n: nat)
    requires n <= |events|
  {
    exists j: nat :: ConnectedSince(events, j, n)
  }

  lemma ConnectedOneMore(events: seq<Event>, n: nat)
    requires n < |events|
    ensures Connected(events, n + 1) <==> Connects(events[n]) || (Connected(events, n) && !Disconnects(events, n))
  {
    var m := n + 1;
    assert Connects(events[n]) ==> ConnectedSince(events, n, m);
    if Connected(events, m) {
      var j: nat :| ConnectedSince(events, j, m);
      assert j < n ==> ConnectedSince(events, j, n);
    }
    if Connected(events, n) {
      var j: nat :| ConnectedSince(events, j, n);
      assert !Disconnects(events, n) ==> ConnectedSince(events, j, m);
    }
  }

  lemma RunConnects(events: seq<Event>, n: nat) returns (before: bool, after: bool)
    requires n < |events| && Run(events, n + 1).Some?
    ensures Run(events, n).Some? && before == Run(events, n).value.state.connected
    ensures after == Run(events, n + 1).value.state.connected
    ensures after <==> Connects(events[n]) || (before && !Disconnects(events, n))
  {
    var s, log := AddedIs(events, n);
    var next := StepConnects(s, events[n]);
    DeafIsKnown(events, n);
    before, after := s.connected, next.connected;
  }

  /** The store says connected exactly then. */
  lemma {:induction false} ConnectedExactly(events: seq<Event>, n: nat)
    requires n <= |events| && Run(events, n).Some?
    ensures Run(events, n).value.state.connected <==> Connected(events, n)
  {
    if n > 0 {
      var before, after := RunConnects(events, n - 1);
      ConnectedExactly(events, n - 1);
      ConnectedOneMore(events, n - 1);
    }
  }
}
