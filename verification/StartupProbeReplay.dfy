/** `getTerminalStartupProbeReplayBoundary`: when the predicted state after a replayed remainder
    agrees with the state the parser would really reach. */
module StartupProbeReplay {
  import opened Basics
  import opened StartupProbes
  import opened StartupProbeRuns

  datatype Boundary = Boundary(remainder: Option<string>, resumeState: Option<ProbeState>)

  function ReplayBoundary(state: ProbeState): Boundary {
    if state.pending == "" then
      Boundary(None, if state.armed && state.codexStep > 0 then Some(ProbeState("", true, state.codexStep)) else None)
    else if state.codexStep == 0 && state.pending == OSC11_QUERY then Boundary(None, None)
    else if InBackgroundQuery(state) then
      Boundary(Some(OSC11_QUERY[|state.pending|..]), Some(ProbeState("", false, 0)))
    else if state.codexStep >= |STEPS| || !(state.pending <= STEPS[state.codexStep].sequence) then Boundary(None, None)
    else
      var next := state.codexStep + 1;
      Boundary(Some(STEPS[state.codexStep].sequence[|state.pending|..]), Some(ProbeState("", next < |STEPS|, next)))
  }

  /** The step-0 branch for the background query, which also claims a lone escape. */
  predicate InBackgroundQuery(state: ProbeState) {
    state.codexStep == 0 && state.pending <= OSC11_QUERY && state.pending != "" && state.pending != OSC11_QUERY
  }

  /** The same text is shown and the same replies are sent. */
  predicate SameOutput(a: Fed, b: Fed) {
    a.cleaned == b.cleaned && a.replies == b.replies
  }

  /** No future input tells the two states apart. */
  ghost predicate Equivalent(s: ProbeState, t: ProbeState) {
    forall inputs: seq<(string, Colors)> :: SameOutput(Run(s, inputs), Run(t, inputs))
  }

  // ---- Disarmed states, and states after the last step, are all alike. ----

  predicate Dead(live: Live) {
    !live.armed || live.codexStep >= |STEPS|
  }

  lemma DeadToken(input: string, live: Live, colors: Colors)
    requires input != [] && !NextToken(input).Incomplete? && Dead(live)
    ensures var e := TokenEffect(input, live, colors);
      e.cleaned == input[..Length(NextToken(input))] && e.replies == [] && Dead(e.live)
  {
  }

  lemma {:induction false} DeadParsePasses(input: string, live: Live, colors: Colors)
    requires Dead(live)
    ensures var o := Parse(input, live, colors); o.cleaned + o.pending == input && Dead(o.live)
    decreases |input|
  {
    if input != [] && !NextToken(input).Incomplete? {
      var n := Length(NextToken(input));
      DeadToken(input, live, colors);
      var e := TokenEffect(input, live, colors);
      DeadParsePasses(input[n..], e.live, colors);
      Rejoins(input, n, Parse(input[n..], e.live, colors));
    }
  }

  lemma Rejoins(input: string, n: nat, o: Outcome)
    requires n <= |input| && o.cleaned + o.pending == input[n..]
    ensures (input[..n] + o.cleaned) + o.pending == input
  {
    assert (input[..n] + o.cleaned) + o.pending == input[..n] + (o.cleaned + o.pending);
  }

  /** The text of a run's chunks. */
  function TextOf(inputs: seq<(string, Colors)>): string {
    if inputs == [] then "" else inputs[0].0 + TextOf(inputs[1..])
  }

  lemma TextJoins(
      pending: string, chunk: string, cleaned: string, left: string, more: string, rest: string, last: string)
    requires cleaned + left == pending + chunk && more + last == left + rest
    ensures (cleaned + more) + last == pending + (chunk + rest)
  {
    assert (cleaned + more) + last == cleaned + (more + last) == (cleaned + left) + rest;
  }

  /** Once disarmed, or past the last step, the parser passes all text through: what is shown and what is
      still pending are what was pending and what came. */
  lemma {:induction false} DisarmedPassesEverything(state: ProbeState, inputs: seq<(string, Colors)>)
    requires Dead(Live(state.armed, state.codexStep))
    ensures var run := Run(state, inputs); run.cleaned + run.state.pending == state.pending + TextOf(inputs)
    decreases |inputs|
  {
    if inputs == [] {
      assert "" + state.pending == state.pending + "";
    } else {
      var first := Feed(state, inputs[0].0, inputs[0].1);
      DeadParsePasses(state.pending + inputs[0].0, Live(state.armed, state.codexStep), inputs[0].1);
      DisarmedPassesEverything(first.state, inputs[1..]);
      var rest := Run(first.state, inputs[1..]);
      TextJoins(state.pending, inputs[0].0, first.cleaned, first.state.pending,
                rest.cleaned, TextOf(inputs[1..]), rest.state.pending);
    }
  }

  lemma {:induction false} DeadParse(input: string, a: Live, b: Live, colors: Colors)
    requires Dead(a) && Dead(b)
    ensures
      var p, q := Parse(input, a, colors), Parse(input, b, colors);
      p.cleaned == q.cleaned && p.replies == q.replies && p.pending == q.pending && Dead(p.live) && Dead(q.live)
    decreases |input|
  {
    if input != [] && !NextToken(input).Incomplete? {
      DeadToken(input, a, colors);
      DeadToken(input, b, colors);
      DeadParse(input[Length(NextToken(input))..],
        TokenEffect(input, a, colors).live, TokenEffect(input, b, colors).live, colors);
    }
  }

  lemma {:induction false} DeadRun(s: ProbeState, t: ProbeState, inputs: seq<(string, Colors)>)
    returns (a: Fed, b: Fed)
    requires s.pending == t.pending && Dead(Live(s.armed, s.codexStep)) && Dead(Live(t.armed, t.codexStep))
    ensures a == Run(s, inputs) && b == Run(t, inputs)
    ensures SameOutput(a, b)
    decreases |inputs|
  {
    a, b := Run(s, inputs), Run(t, inputs);
    if inputs != [] {
      DeadParse(s.pending + inputs[0].0, Live(s.armed, s.codexStep), Live(t.armed, t.codexStep), inputs[0].1);
      var s', t' := Feed(s, inputs[0].0, inputs[0].1).state, Feed(t, inputs[0].0, inputs[0].1).state;
      var c, d := DeadRun(s', t', inputs[1..]);
    }
  }

  lemma DeadStatesAreEquivalent(s: ProbeState, t: ProbeState)
    requires s.pending == t.pending && Dead(Live(s.armed, s.codexStep)) && Dead(Live(t.armed, t.codexStep))
    ensures Equivalent(s, t)
  {
    forall inputs: seq<(string, Colors)> ensures SameOutput(Run(s, inputs), Run(t, inputs)) {
      var a, b := DeadRun(s, t, inputs);
    }
  }

  // ---- The startup sequences in text, and where a token ends. ----

  /** What the program sends at each step. */
  function SequenceOf(k: nat): string
    requires k < 7
  {
    match k
    case 0 => "\U{001b}[?2004h"
    case 1 => "\U{001b}[>7u"
    case 2 => "\U{001b}[?1004h"
    case 3 => "\U{001b}[6n"
    case 4 => "\U{001b}[?u"
    case 5 => "\U{001b}[c"
    case _ => "\U{001b}]10;?\U{001b}\\"
  }

  lemma StepsInText(k: nat)
    requires k < 7
    ensures |STEPS| == 7 && STEPS[k].sequence == SequenceOf(k)
  {
  }

  /** The start of a control sequence or control string whose end has not come yet. */
  predicate IsUnfinished(input: string) {
    input != "" && input[0] == '\U{001b}' &&
    (|input| == 1
     || (input[1] == '[' && forall i :: 2 <= i < |input| ==> !('\U{0040}' <= input[i] <= '\U{007e}'))
     || (input[1] in {']', 'P', '_'} && forall i :: 2 <= i < |input| ==> !EndsAt(input, i)))
  }

  lemma {:induction false} CsiEndExactly(data: string, from: nat)
    ensures match CsiEnd(data, from)
            case None => forall i :: from <= i < |data| ==> !('\U{0040}' <= data[i] <= '\U{007e}')
            case Some(end) =>
              '\U{0040}' <= data[end - 1] <= '\U{007e}' &&
              forall i :: from <= i < end - 1 ==> !('\U{0040}' <= data[i] <= '\U{007e}')
    decreases |data| - from
  {
    if from < |data| && !('\U{0040}' <= data[from] <= '\U{007e}') { CsiEndExactly(data, from + 1); }
  }

  lemma {:induction false} StringEndExactly(data: string, from: nat)
    ensures match StringTerminator(data, from)
            case None => forall i :: from <= i < |data| ==> !EndsAt(data, i)
            case Some(t) =>
              && EndsAt(data, t.start) && (forall i :: from <= i < t.start ==> !EndsAt(data, i))
              && t.text == data[t.start..t.end] && t.end == t.start + if data[t.start] == '\U{001b}' then 2 else 1
    decreases |data| - from
  {
    if from < |data| && !EndsAt(data, from) { StringEndExactly(data, from + 1); }
  }

  /** What stands at the head of the input: ordinary text, the start of something unfinished, a control
      sequence up to its first final byte, or a control string up to its first terminator. */
  lemma TokenExactly(input: string)
    requires input != ""
    ensures NextToken(input).Incomplete? <==> IsUnfinished(input)
    ensures NextToken(input).Plain? <==>
      input[0] != '\U{001b}' || (|input| > 1 && input[1] !in {'[', ']', 'P', '_'})
    ensures NextToken(input).Csi? ==> var n := NextToken(input).length;
      && input[1] == '[' && '\U{0040}' <= input[n - 1] <= '\U{007e}'
      && forall i :: 2 <= i < n - 1 ==> !('\U{0040}' <= input[i] <= '\U{007e}')
    ensures NextToken(input).ControlString? ==> var c := NextToken(input).contentEnd;
      && input[1] in {']', 'P', '_'} && EndsAt(input, c) && (forall i :: 2 <= i < c ==> !EndsAt(input, i))
      && NextToken(input).terminator == input[c..NextToken(input).length]
      && NextToken(input).length == c + if input[c] == '\U{001b}' then 2 else 1
  {
    CsiEndExactly(input, 2);
    StringEndExactly(input, 2);
  }

  /** What is held back is nothing, or the start of something unfinished. */
  lemma {:induction false} PendingIsUnfinished(input: string, live: Live, colors: Colors)
    ensures var pending := Parse(input, live, colors).pending; pending == "" || IsUnfinished(pending)
    decreases |input|
  {
    if input != "" {
      TokenExactly(input);
      if !NextToken(input).Incomplete? {
        PendingIsUnfinished(input[Length(NextToken(input))..], TokenEffect(input, live, colors).live, colors);
      }
    }
  }

  // ---- What the recognised sequences parse to. ----

  lemma {:induction false} CsiEndIs(data: string, from: nat, end: nat)
    requires from < end <= |data| && '@' <= data[end - 1] <= '~'
    requires forall i :: from <= i < end - 1 ==> !('@' <= data[i] <= '~')
    ensures CsiEnd(data, from) == Some(end)
    decreases end - from
  {
    if from < end - 1 {
      CsiEndIs(data, from + 1, end);
    }
  }

  /** A control string ends at `i`: a bell, the one-byte string terminator or its two-byte form. */
  predicate EndsAt(data: string, i: nat)
    requires i < |data|
  {
    || data[i] == '\U{0007}' || data[i] == '\U{009c}'
    || (data[i] == '\U{001b}' && i + 1 < |data| && data[i + 1] == '\\')
  }

  lemma {:induction false} StringTerminatorIs(data: string, from: nat, start: nat)
    requires from <= start < |data| && EndsAt(data, start)
    requires forall i :: from <= i < start ==> !EndsAt(data, i)
    ensures StringTerminator(data, from) ==
      Some(if data[start] == ESC then Terminator(start, start + 2, [ESC] + "\\")
           else Terminator(start, start + 1, [data[start]]))
    decreases start - from
  {
    if from < start {
      assert !EndsAt(data, from);
      StringTerminatorIs(data, from + 1, start);
    }
  }

  lemma StepToken(k: nat, rest: string)
    requires k < |STEPS|
    ensures var input := STEPS[k].sequence + rest;
      !NextToken(input).Incomplete? && !NextToken(input).Plain? &&
      Length(NextToken(input)) == |STEPS[k].sequence| && input[..|STEPS[k].sequence|] == STEPS[k].sequence
  {
    var input := STEPS[k].sequence + rest;
    if k == 6 {
      StringTerminatorIs(input, 2, 6);
    } else {
      CsiEndIs(input, 2, |STEPS[k].sequence|);
    }
  }

  lemma StepTokenEffect(k: nat, rest: string, colors: Colors)
    requires k < |STEPS|
    requires !NextToken(STEPS[k].sequence + rest).Incomplete?
    ensures StepEffect(STEPS[k].sequence, Live(true, k), colors).Some?
    ensures StepEffect(STEPS[k].sequence, Live(true, k), colors).value.live == Live(true, k + 1)
    ensures TokenEffect(STEPS[k].sequence + rest, Live(true, k), colors) ==
      StepEffect(STEPS[k].sequence, Live(true, k), colors).value
  {
    StepToken(k, rest);
  }

  /** Parsing peels off a complete first token. */
  lemma ParsePeels(token: string, rest: string, live: Live, colors: Colors)
    requires token != [] && !NextToken(token + rest).Incomplete? && Length(NextToken(token + rest)) == |token|
    ensures var e := TokenEffect(token + rest, live, colors);
      Parse(token + rest, live, colors) == After(e, Parse(rest, e.live, colors))
  {
    assert (token + rest)[|token|..] == rest;
  }

  lemma ParseOneToken(token: string, live: Live, colors: Colors)
    requires token != [] && !NextToken(token).Incomplete? && Length(NextToken(token)) == |token|
    ensures var e := TokenEffect(token, live, colors);
      Parse(token, live, colors) == Outcome(e.cleaned, e.replies, e.live, "")
  {
    assert token + "" == token;
    ParsePeels(token, "", live, colors);
    var e := TokenEffect(token, live, colors);
    assert e.cleaned + "" == e.cleaned && e.replies + [] == e.replies;
  }

  lemma StepParses(k: nat, rest: string, live: Live, colors: Colors) returns (e: Effect)
    requires k < |STEPS| && live == Live(true, k)
    ensures StepEffect(STEPS[k].sequence, live, colors) == Some(e) && e.live == Live(true, k + 1)
    ensures Parse(STEPS[k].sequence + rest, live, colors) == After(e, Parse(rest, e.live, colors))
  {
    StepToken(k, rest);
    StepTokenEffect(k, rest, colors);
    e := TokenEffect(STEPS[k].sequence + rest, live, colors);
    ParsePeels(STEPS[k].sequence, rest, live, colors);
  }

  lemma BackgroundQueryParses(live: Live, colors: Colors)
    requires live.codexStep == 0
    ensures
      var o := Parse(OSC11_QUERY, live, colors);
      o.live == live && o.pending == "" &&
      (live.armed && BackgroundReply(colors).Some? ==> o.replies == [BackgroundReply(colors).value])
  {
    StringTerminatorIs(OSC11_QUERY, 2, 6);
    assert OSC11_QUERY[..7] == OSC11_QUERY && OSC11_QUERY[2..6] == "11;?";
    assert STEPS[0].sequence[1] != OSC11_QUERY[1];
    ParseOneToken(OSC11_QUERY, live, colors);
  }

  // ---- Live states reply to what dead states ignore. ----

  const BLACK := Colors(Some("#000"), Some("#000"))

  lemma AnsweredStepReplies(k: nat, e: Effect)
    requires k < |STEPS| && !STEPS[k].answer.Passthrough?
    requires StepEffect(STEPS[k].sequence, Live(true, k), BLACK) == Some(e)
    ensures e.replies != []
  {
  }

  lemma {:induction false} LiveStateReplies(k: nat) returns (input: string, o: Outcome)
    requires 0 < k < |STEPS|
    ensures o == Parse(input, Live(true, k), BLACK)
    ensures o.replies != []
    decreases |STEPS| - k
  {
    var more := "";
    if STEPS[k].answer.Passthrough? {
      var after;
      more, after := LiveStateReplies(k + 1);
    }
    input := STEPS[k].sequence + more;
    o := Parse(input, Live(true, k), BLACK);
    var e := StepParses(k, more, Live(true, k), BLACK);
    if !STEPS[k].answer.Passthrough? {
      AnsweredStepReplies(k, e);
    }
  }

  lemma DistinguishedByReplies(live: ProbeState, dead: ProbeState, input: string)
    requires live.pending == "" && Parse(input, Live(live.armed, live.codexStep), BLACK).replies != []
    requires !dead.armed || dead.codexStep >= |STEPS|
    ensures !Equivalent(live, dead) && !Equivalent(dead, live)
  {
    RunOnce(live, input, BLACK);
    DisarmedNeverReplies(dead, [(input, BLACK)]);
    assert "" + input == input;
  }

  // ---- The boundary. ----

  /** The prediction is right for an armed state inside a startup step; inside the background
      query it is right only when the parser is disarmed already, and a disarmed state inside
      another step is predicted right only at the last one. */
  predicate PredictsRight(state: ProbeState) {
    if InBackgroundQuery(state) then !state.armed else state.armed || state.codexStep == |STEPS| - 1
  }

  lemma BackgroundBranch(state: ProbeState, colors: Colors)
    requires InBackgroundQuery(state)
    ensures
      var b := ReplayBoundary(state);
      var actual := Feed(state, b.remainder.value, colors).state;
      actual == ProbeState("", state.armed, 0) &&
      (Equivalent(actual, b.resumeState.value) <==> !state.armed)
  {
    var b := ReplayBoundary(state);
    assert state.pending + b.remainder.value == OSC11_QUERY;
    BackgroundQueryParses(Live(state.armed, 0), colors);
    var actual := Feed(state, b.remainder.value, colors).state;
    if state.armed {
      BackgroundQueryParses(Live(true, 0), BLACK);
      DistinguishedByReplies(actual, b.resumeState.value, OSC11_QUERY);
    } else {
      DeadStatesAreEquivalent(actual, b.resumeState.value);
    }
  }

  /** For an armed state the remainder completes the step: it yields exactly that step's output
      and the state after it, armed at step 7 when it was the last. */
  lemma StepBranchOutput(state: ProbeState, colors: Colors)
    requires ReplayBoundary(state).remainder.Some? && !InBackgroundQuery(state) && state.armed
    ensures
      var fed := Feed(state, ReplayBoundary(state).remainder.value, colors);
      var e := StepEffect(STEPS[state.codexStep].sequence, Live(true, state.codexStep), colors);
      e.Some? && fed == Fed(ProbeState("", true, state.codexStep + 1), e.value.cleaned, e.value.replies)
  {
    var b := ReplayBoundary(state);
    var sequence := STEPS[state.codexStep].sequence;
    assert state.pending + b.remainder.value == sequence == sequence + "";
    var e := StepParses(state.codexStep, "", Live(true, state.codexStep), colors);
    assert e.cleaned + "" == e.cleaned && e.replies + [] == e.replies;
  }

  lemma DeadStep(state: ProbeState, colors: Colors)
    requires ReplayBoundary(state).remainder.Some? && !InBackgroundQuery(state) && !state.armed
    ensures var actual := Feed(state, ReplayBoundary(state).remainder.value, colors).state;
      actual.pending == "" && Dead(Live(actual.armed, actual.codexStep))
  {
    var sequence := STEPS[state.codexStep].sequence;
    assert state.pending + ReplayBoundary(state).remainder.value == sequence == sequence + "";
    StepToken(state.codexStep, "");
    DeadToken(sequence, Live(false, state.codexStep), colors);
    ParseOneToken(sequence, Live(false, state.codexStep), colors);
  }

  /** Armed at step 7 is as good as disarmed; before that the predicted state is the state itself. */
  lemma AfterStepEquivalent(next: nat)
    ensures Equivalent(ProbeState("", true, next), ProbeState("", next < |STEPS|, next))
  {
    if next >= |STEPS| {
      DeadStatesAreEquivalent(ProbeState("", true, next), ProbeState("", false, next));
    }
  }

  lemma LiveStepBranch(state: ProbeState, colors: Colors)
    requires ReplayBoundary(state).remainder.Some? && !InBackgroundQuery(state) && state.armed
    ensures
      var b := ReplayBoundary(state);
      Equivalent(Feed(state, b.remainder.value, colors).state, b.resumeState.value)
  {
    var b := ReplayBoundary(state);
    var next := state.codexStep + 1;
    StepBranchOutput(state, colors);
    assert Feed(state, b.remainder.value, colors).state == ProbeState("", true, next);
    assert b.resumeState.value == ProbeState("", next < |STEPS|, next);
    AfterStepEquivalent(next);
  }

  lemma DeadStepBranch(state: ProbeState, colors: Colors)
    requires ReplayBoundary(state).remainder.Some? && !InBackgroundQuery(state) && !state.armed
    ensures
      var b := ReplayBoundary(state);
      Equivalent(Feed(state, b.remainder.value, colors).state, b.resumeState.value) <==>
        state.codexStep == |STEPS| - 1
  {
    var b := ReplayBoundary(state);
    var actual := Feed(state, b.remainder.value, colors).state;
    DeadStep(state, colors);
    if state.codexStep == |STEPS| - 1 {
      DeadStatesAreEquivalent(actual, b.resumeState.value);
    } else {
      var input, o := LiveStateReplies(state.codexStep + 1);
      DistinguishedByReplies(b.resumeState.value, actual, input);
    }
  }

  /** For every state and every colours: the predicted state is indistinguishable from the real
      one exactly when `PredictsRight` holds. */
  lemma ReplayBoundaryIsExact(state: ProbeState, colors: Colors)
    requires ReplayBoundary(state).remainder.Some?
    ensures
      var b := ReplayBoundary(state);
      Equivalent(Feed(state, b.remainder.value, colors).state, b.resumeState.value) <==> PredictsRight(state)
  {
    if InBackgroundQuery(state) {
      BackgroundBranch(state, colors);
    } else if state.armed {
      LiveStepBranch(state, colors);
    } else {
      DeadStepBranch(state, colors);
    }
  }

  /** The state to go on with after a reset that discards the remainder, when there is none to discard. */
  function Resumed(state: ProbeState): ProbeState {
    var resume := ReplayBoundary(state).resumeState;
    if resume.Some? then resume.value else INITIAL
  }

  /** Nothing pending: the parser goes on as it was exactly when it is armed. A disarmed one is armed anew. */
  lemma EmptyPendingResumesExactly(state: ProbeState)
    requires state.pending == ""
    ensures ReplayBoundary(state).remainder.None?
    ensures Equivalent(Resumed(state), state) <==> state.armed
    ensures state.armed ==> Resumed(state) == state
  {
    if !state.armed {
      BackgroundQueryParses(Live(true, 0), BLACK);
      DistinguishedByReplies(INITIAL, state, OSC11_QUERY);
    }
  }

  predicate IsProperStart(pending: string, whole: string) {
    pending != "" && pending <= whole && pending != whole
  }

  /** The background query has begun at step 0. */
  predicate InQueryText(state: ProbeState) {
    state.codexStep == 0 && IsProperStart(state.pending, "\U{001b}]11;?\U{0007}")
  }

  /** The current step's sequence has begun. */
  predicate InStepText(state: ProbeState) {
    state.codexStep < 7 && state.pending != "" && state.pending <= SequenceOf(state.codexStep)
  }

  /** A remainder is offered exactly inside the background query at step 0 and inside the current step's
      sequence; it is the rest of the query or of the sequence, the query coming first. Without one, a state
      to resume is offered only when nothing is pending. */
  lemma RemainderExactly(state: ProbeState)
    ensures ReplayBoundary(state).remainder.Some? <==> InQueryText(state) || InStepText(state)
    ensures InQueryText(state) ==>
      state.pending + ReplayBoundary(state).remainder.value == "\U{001b}]11;?\U{0007}"
    ensures InStepText(state) && !InQueryText(state) ==>
      state.pending + ReplayBoundary(state).remainder.value == SequenceOf(state.codexStep)
    ensures ReplayBoundary(state).resumeState.Some? <==>
      ReplayBoundary(state).remainder.Some? || (state.pending == "" && state.armed && state.codexStep > 0)
  {
    QueriesInText();
    if state.codexStep < 7 { StepsInText(state.codexStep); }
    assert |STEPS| == 7 && SequenceOf(0)[1] == '[' && OSC11_QUERY[1] == ']';
  }

  /** Both ways to be wrong are reached from the initial state. A chunk that breaks off inside the background
      query leaves the parser armed there. A chunk of text and the start of a control sequence leaves it
      disarmed inside the first step. */
  lemma MispredictionsAreReached(colors: Colors)
    ensures
      var inQuery := Feed(INITIAL, [ESC, ']'], colors).state;
      && inQuery == ProbeState([ESC, ']'], true, 0)
      && ReplayBoundary(inQuery).remainder.Some? && InBackgroundQuery(inQuery) && !PredictsRight(inQuery)
    ensures
      var inStep := Feed(INITIAL, ['a', ESC, '['], colors).state;
      && inStep == ProbeState([ESC, '['], false, 0)
      && ReplayBoundary(inStep).remainder.Some? && !InBackgroundQuery(inStep) && !PredictsRight(inStep)
  {
    assert "" + [ESC, ']'] == [ESC, ']'];
    assert NextToken([ESC, ']']).Incomplete?;
    var chunk := ['a', ESC, '['];
    assert "" + chunk == chunk && chunk[1..] == [ESC, '['];
    assert NextToken(chunk) == Plain && NextToken([ESC, '[']).Incomplete?;
    assert Parse([ESC, '['], Live(false, 0), colors) == Outcome("", [], Live(false, 0), [ESC, '[']);
    assert [ESC, ']'] <= OSC11_QUERY && [ESC, '['] <= STEPS[0].sequence && !([ESC, '['] <= OSC11_QUERY);
  }
}
