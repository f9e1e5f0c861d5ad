/** What the startup-probe parser keeps over whole streams, however they are cut into chunks. */
module StartupProbeRuns {
  import opened Basics
  import opened StartupProbes

  // ---- The state between chunks, one chunk, and a run of chunks. ----

  datatype ProbeState = ProbeState(pending: string, armed: bool, codexStep: nat)

  const INITIAL := ProbeState("", true, 0)

  datatype Fed = Fed(state: ProbeState, cleaned: string, replies: seq<string>)

  function Feed(state: ProbeState, chunk: string, colors: Colors): Fed {
    var o := Parse(state.pending + chunk, Live(state.armed, state.codexStep), colors);
    Fed(ProbeState(o.pending, o.live.armed, o.live.codexStep), o.cleaned, o.replies)
  }

  /** A run feeds chunks one by one; the colours may change between chunks. */
  function Run(state: ProbeState, inputs: seq<(string, Colors)>): Fed
    decreases |inputs|
  {
    if inputs == [] then Fed(state, "", []) else
    var first := Feed(state, inputs[0].0, inputs[0].1);
    var rest := Run(first.state, inputs[1..]);
    Fed(rest.state, first.cleaned + rest.cleaned, first.replies + rest.replies)
  }

  // ---- Chunking does not matter. ----

  lemma {:induction false} CsiEndStable(a: string, b: string, from: nat)
    requires CsiEnd(a, from).Some?
    ensures CsiEnd(a + b, from) == CsiEnd(a, from)
    decreases |a| - from
  {
    if !('@' <= a[from] <= '~') {
      CsiEndStable(a, b, from + 1);
    }
  }

  lemma {:induction false} StringTerminatorStable(a: string, b: string, from: nat)
    requires StringTerminator(a, from).Some?
    ensures StringTerminator(a + b, from) == StringTerminator(a, from)
    decreases |a| - from
  {
    if StringTerminator(a, from).value.start != from {
      StringTerminatorStable(a, b, from + 1);
    }
  }

  /** A complete token, and its effect, do not depend on what follows it. */
  lemma TokenStable(a: string, b: string, live: Live, colors: Colors)
    requires a != [] && !NextToken(a).Incomplete?
    ensures NextToken(a + b) == NextToken(a)
    ensures TokenEffect(a + b, live, colors) == TokenEffect(a, live, colors)
  {
    var n := Length(NextToken(a));
    match NextToken(a)
    case Plain =>
    case Csi(_) =>
      CsiEndStable(a, b, 2);
      assert (a + b)[..n] == a[..n];
    case ControlString(_, c, _) =>
      StringTerminatorStable(a, b, 2);
      assert (a + b)[..n] == a[..n] && (a + b)[2..c] == a[2..c];
  }

  /** Parsing a prefix, then what it left pending with the rest, is parsing the whole. */
  lemma {:induction false} ParseSplits(a: string, b: string, live: Live, colors: Colors)
    ensures
      var first := Parse(a, live, colors);
      Parse(a + b, live, colors) ==
        After(Effect(first.cleaned, first.replies, first.live), Parse(first.pending + b, first.live, colors))
    decreases |a|
  {
    if a == [] || NextToken(a).Incomplete? {
      var rest := Parse(a + b, live, colors);
      assert "" + rest.cleaned == rest.cleaned && [] + rest.replies == rest.replies;
    } else {
      TokenStable(a, b, live, colors);
      var n := Length(NextToken(a));
      var e := TokenEffect(a, live, colors);
      assert (a + b)[n..] == a[n..] + b;
      ParseSplits(a[n..], b, e.live, colors);
      var first := Parse(a[n..], e.live, colors);
      AfterAssociates(
        e, Effect(first.cleaned, first.replies, first.live), Parse(first.pending + b, first.live, colors));
    }
  }

  function WithColors(chunks: seq<string>, colors: Colors): seq<(string, Colors)> {
    seq(|chunks|, i requires 0 <= i < |chunks| => (chunks[i], colors))
  }

  lemma FeedTwice(state: ProbeState, a: string, b: string, colors: Colors)
    ensures
      var first := Feed(state, a, colors);
      var second := Feed(first.state, b, colors);
      Feed(state, a + b, colors) ==
        Fed(second.state, first.cleaned + second.cleaned, first.replies + second.replies)
  {
    ParseSplits(state.pending + a, b, Live(state.armed, state.codexStep), colors);
    assert (state.pending + a) + b == state.pending + (a + b);
  }

  lemma RunOnce(state: ProbeState, chunk: string, colors: Colors)
    ensures Run(state, [(chunk, colors)]) == Feed(state, chunk, colors)
  {
    var first := Feed(state, chunk, colors);
    assert Run(first.state, [(chunk, colors)][1..]) == Fed(first.state, "", []);
    assert first.cleaned + "" == first.cleaned && first.replies + [] == first.replies;
  }

  /** Any number of chunks does what their concatenation does at once. */
  lemma {:induction false} RunIsOneFeed(state: ProbeState, chunks: seq<string>, colors: Colors)
    requires chunks != []
    ensures Run(state, WithColors(chunks, colors)) == Feed(state, Flatten(chunks), colors)
    decreases |chunks|
  {
    var rest := chunks[1..];
    var first := Feed(state, chunks[0], colors);
    assert WithColors(chunks, colors)[1..] == WithColors(rest, colors);
    if rest == [] {
      assert WithColors(chunks, colors) == [(chunks[0], colors)];
      RunOnce(state, chunks[0], colors);
      assert Flatten(chunks) == chunks[0] + Flatten(rest) == chunks[0];
    } else {
      RunIsOneFeed(first.state, rest, colors);
      FeedTwice(state, chunks[0], Flatten(rest), colors);
    }
  }

  lemma ChunkingDoesNotMatter(state: ProbeState, one: seq<string>, other: seq<string>, colors: Colors)
    requires one != [] && other != [] && Flatten(one) == Flatten(other)
    ensures Run(state, WithColors(one, colors)) == Run(state, WithColors(other, colors))
  {
    RunIsOneFeed(state, one, colors);
    RunIsOneFeed(state, other, colors);
  }

  // ---- The stream is conserved. ----

  datatype Segment = Kept(text: string) | Answered(text: string, reply: string)

  function Texts(segments: seq<Segment>): string {
    if segments == [] then "" else segments[0].text + Texts(segments[1..])
  }

  function KeptText(segments: seq<Segment>): string {
    if segments == [] then "" else
    (if segments[0].Kept? then segments[0].text else "") + KeptText(segments[1..])
  }

  function Replies(segments: seq<Segment>): seq<string> {
    if segments == [] then [] else
    (if segments[0].Answered? then [segments[0].reply] else []) + Replies(segments[1..])
  }

  /** `query` is one of the four queries the parser answers, and `reply` is its answer. */
  predicate IsAnswer(query: string, reply: string, colors: Colors) {
    || (query == "\U{001b}]11;?\U{0007}" && BackgroundReply(colors) == Some(reply))
    || (query == "\U{001b}[6n" && reply == "\U{001b}[1;1R")
    || (query == "\U{001b}[c" && reply == "\U{001b}[?1;2c")
    || (query == "\U{001b}]10;?\U{001b}\\" && ForegroundReply(colors) == Some(reply))
  }

  /** The queries and replies, spelled out. */
  lemma QueriesInText()
    ensures OSC11_QUERY == "\U{001b}]11;?\U{0007}"
    ensures STEPS[3].sequence == "\U{001b}[6n" && STEPS[5].sequence == "\U{001b}[c"
    ensures STEPS[6].sequence == "\U{001b}]10;?\U{001b}\\"
    ensures CURSOR_REPLY == "\U{001b}[1;1R" && ATTRIBUTES_REPLY == "\U{001b}[?1;2c"
  {
  }

  /** A startup step answers its query. */
  lemma StepIsAnswer(live: Live, sequence: string, colors: Colors)
    requires StepEffect(sequence, live, colors).Some?
    ensures var e := StepEffect(sequence, live, colors).value;
      && (e.replies == [] ==> e.cleaned == sequence)
      && (e.replies != [] ==> e.cleaned == "" && |e.replies| == 1 && IsAnswer(sequence, e.replies[0], colors))
  {
    QueriesInText();
    assert live.codexStep < 7;
  }

  predicate AllAnswered(segments: seq<Segment>, colors: Colors) {
    forall i :: 0 <= i < |segments| && segments[i].Answered? ==> IsAnswer(segments[i].text, segments[i].reply, colors)
  }

  predicate Conserves(segments: seq<Segment>, input: string, o: Outcome, colors: Colors) {
    && input == Texts(segments) + o.pending
    && o.cleaned == KeptText(segments)
    && o.replies == Replies(segments)
    && AllAnswered(segments, colors)
  }

  lemma {:induction false} TerminatorText(data: string, from: nat)
    requires StringTerminator(data, from).Some?
    ensures var t := StringTerminator(data, from).value; t.text == data[t.start..t.end]
    decreases |data| - from
  {
    if StringTerminator(data, from).value.start != from {
      TerminatorText(data, from + 1);
    }
  }

  /** One token is either kept whole without a reply or dropped whole for one reply. */
  lemma TokenSegment(input: string, live: Live, colors: Colors) returns (s: Segment)
    requires input != [] && !NextToken(input).Incomplete?
    ensures var e := TokenEffect(input, live, colors);
      && s.text == input[..Length(NextToken(input))]
      && e.cleaned == (if s.Kept? then s.text else "")
      && e.replies == (if s.Kept? then [] else [s.reply])
      && (s.Answered? ==> IsAnswer(s.text, s.reply, colors))
  {
    var e := TokenEffect(input, live, colors);
    var text := input[..Length(NextToken(input))];
    if live.armed && StepEffect(text, live, colors).Some? {
      StepIsAnswer(live, text, colors);
    } else if NextToken(input).ControlString? {
      QueriesInText();
      TerminatorText(input, 2);
      var t := StringTerminator(input, 2).value;
      assert text == input[..2] + input[2..t.start] + input[t.start..t.end];
      if input[1] == ']' && input[2..t.start] == "11;?" && t.text == [BEL] {
        assert input[..2] == [ESC, ']'];
        assert text == OSC11_QUERY;
      }
    }
    s := if e.replies == [] then Kept(text) else Answered(text, e.replies[0]);
  }

  lemma SegmentsCons(s: Segment, rest: seq<Segment>)
    ensures Texts([s] + rest) == s.text + Texts(rest)
    ensures KeptText([s] + rest) == (if s.Kept? then s.text else "") + KeptText(rest)
    ensures Replies([s] + rest) == (if s.Answered? then [s.reply] else []) + Replies(rest)
  {
    assert ([s] + rest)[1..] == rest;
  }

  lemma TextsOneMore(s: Segment, rest: seq<Segment>, input: string, n: nat, pending: string)
    requires n <= |input| && s.text == input[..n] && input[n..] == Texts(rest) + pending
    ensures input == Texts([s] + rest) + pending
  {
    SegmentsCons(s, rest);
    assert input == s.text + (Texts(rest) + pending) == (s.text + Texts(rest)) + pending;
  }

  lemma AnswersOneMore(s: Segment, rest: seq<Segment>, colors: Colors)
    requires AllAnswered(rest, colors) && (s.Answered? ==> IsAnswer(s.text, s.reply, colors))
    ensures AllAnswered([s] + rest, colors)
  {
    forall i | 0 <= i < |[s] + rest| && ([s] + rest)[i].Answered?
      ensures IsAnswer(([s] + rest)[i].text, ([s] + rest)[i].reply, colors)
    {
      if i > 0 { assert ([s] + rest)[i] == rest[i - 1]; }
    }
  }

  lemma ConservesOneMore(s: Segment, rest: seq<Segment>, input: string, n: nat, e: Effect, o: Outcome, colors: Colors)
    requires n <= |input| && s.text == input[..n] && Conserves(rest, input[n..], o, colors)
    requires e.cleaned == (if s.Kept? then s.text else "") && e.replies == (if s.Kept? then [] else [s.reply])
    requires s.Answered? ==> IsAnswer(s.text, s.reply, colors)
    ensures Conserves([s] + rest, input, After(e, o), colors)
  {
    SegmentsCons(s, rest);
    TextsOneMore(s, rest, input, n, o.pending);
    AnswersOneMore(s, rest, colors);
  }

  /** Old pending text and chunk are the segments and the new pending text; what was cleaned is
      the kept segments; what was dropped is exactly the answered queries, one reply each. */
  lemma {:induction false} ParseConserves(input: string, live: Live, colors: Colors) returns (segments: seq<Segment>)
    ensures Conserves(segments, input, Parse(input, live, colors), colors)
    decreases |input|
  {
    if input == [] || NextToken(input).Incomplete? {
      segments := [];
    } else {
      var n := Length(NextToken(input));
      var e := TokenEffect(input, live, colors);
      var s := TokenSegment(input, live, colors);
      var rest := ParseConserves(input[n..], e.live, colors);
      ConservesOneMore(s, rest, input, n, e, Parse(input[n..], e.live, colors), colors);
      segments := [s] + rest;
    }
  }

  lemma RunConserves(state: ProbeState, chunks: seq<string>, colors: Colors)
    requires chunks != []
    ensures
      var run := Run(state, WithColors(chunks, colors));
      exists segments ::
        Conserves(segments, state.pending + Flatten(chunks),
          Outcome(run.cleaned, run.replies, Live(run.state.armed, run.state.codexStep), run.state.pending), colors)
  {
    RunIsOneFeed(state, chunks, colors);
    var segments := ParseConserves(state.pending + Flatten(chunks), Live(state.armed, state.codexStep), colors);
  }

  // ---- The shape of the replies. ----

  predicate IsBackgroundReply(reply: string) {
    "\U{001b}]11;rgb:" <= reply
  }

  predicate IsForegroundReply(reply: string) {
    "\U{001b}]10;rgb:" <= reply
  }

  /** How far the reply protocol has come: 0 nothing but background replies so far, 1 the
      startup sequence has begun, 2 the cursor has been answered, 3 the attributes have, 4 over. */
  function Phase(live: Live): nat {
    if !live.armed || live.codexStep >= 7 then 4
    else if live.codexStep == 0 then 0
    else if live.codexStep <= 3 then 1
    else if live.codexStep <= 5 then 2
    else 3
  }

  /** The replies that may still come in a phase. */
  predicate Allowed(phase: nat, replies: seq<string>)
    decreases |replies|
  {
    replies == [] ||
    (phase == 0 && IsBackgroundReply(replies[0]) && Allowed(0, replies[1..])) ||
    (phase <= 1 && replies[0] == CURSOR_REPLY && Allowed(2, replies[1..])) ||
    (phase == 2 && replies[0] == ATTRIBUTES_REPLY && Allowed(3, replies[1..])) ||
    (phase == 3 && IsForegroundReply(replies[0]) && |replies| == 1)
  }

  lemma ColorReplyShape(code: string, color: Option<string>)
    requires ColorReply(code, color).Some?
    ensures [ESC] + "]" + code + ";rgb:" <= ColorReply(code, color).value
  {
  }

  /** The replies and the phases of one token. */
  predicate Advances(phase: nat, replies: seq<string>, phase': nat) {
    || (replies == [] && (phase' == phase || phase' == 4 || (phase == 0 && phase' == 1)))
    || (|replies| == 1 && phase == 0 && phase' == 0 && IsBackgroundReply(replies[0]))
    || (replies == [CURSOR_REPLY] && phase <= 1 && phase' == 2)
    || (replies == [ATTRIBUTES_REPLY] && phase == 2 && phase' == 3)
    || (|replies| == 1 && phase == 3 && phase' == 4 && IsForegroundReply(replies[0]))
  }

  lemma StepAdvances(sequence: string, live: Live, colors: Colors)
    requires live.armed && StepEffect(sequence, live, colors).Some?
    ensures var e := StepEffect(sequence, live, colors).value; Advances(Phase(live), e.replies, Phase(e.live))
  {
    if ForegroundReply(colors).Some? {
      ColorReplyShape("10", colors.foreground);
      assert [ESC] + "]" + "10" + ";rgb:" == [ESC] + "]10;rgb:";
    }
  }

  lemma TokenAdvances(input: string, live: Live, colors: Colors)
    requires input != [] && !NextToken(input).Incomplete?
    ensures var e := TokenEffect(input, live, colors); Advances(Phase(live), e.replies, Phase(e.live))
  {
    var sequence := input[..Length(NextToken(input))];
    if live.armed && StepEffect(sequence, live, colors).Some? {
      StepAdvances(sequence, live, colors);
    } else if BackgroundReply(colors).Some? {
      ColorReplyShape("11", colors.background);
      assert [ESC] + "]" + "11" + ";rgb:" == [ESC] + "]11;rgb:";
    }
  }

  lemma AdvancesAllows(phase: nat, first: seq<string>, phase': nat, second: seq<string>, later: seq<string>)
    requires Advances(phase, first, phase') && Allowed(phase', second + later)
    ensures Allowed(phase, (first + second) + later)
  {
    var all := (first + second) + later;
    if first == [] {
      assert all == second + later;
    } else {
      assert all[0] == first[0] && all[1..] == second + later;
    }
  }

  lemma {:induction false} ParseKeepsShape(input: string, live: Live, colors: Colors, later: seq<string>)
    requires Allowed(Phase(Parse(input, live, colors).live), later)
    ensures Allowed(Phase(live), Parse(input, live, colors).replies + later)
    decreases |input|
  {
    var whole := Parse(input, live, colors);
    if input == [] || NextToken(input).Incomplete? {
      assert whole.replies + later == later;
    } else {
      var e := TokenEffect(input, live, colors);
      var tail := Parse(input[Length(NextToken(input))..], e.live, colors);
      assert whole == After(e, tail);
      ParseKeepsShape(input[Length(NextToken(input))..], e.live, colors, later);
      TokenAdvances(input, live, colors);
      AdvancesAllows(Phase(live), e.replies, Phase(e.live), tail.replies, later);
    }
  }

  lemma {:induction false} RunKeepsShape(state: ProbeState, inputs: seq<(string, Colors)>)
    ensures Allowed(Phase(Live(state.armed, state.codexStep)), Run(state, inputs).replies)
    decreases |inputs|
  {
    if inputs != [] {
      var first := Feed(state, inputs[0].0, inputs[0].1);
      var rest := Run(first.state, inputs[1..]);
      RunKeepsShape(first.state, inputs[1..]);
      ParseKeepsShape(state.pending + inputs[0].0, Live(state.armed, state.codexStep), inputs[0].1, rest.replies);
    }
  }

  /** What may follow the background replies. */
  predicate IsStartupTail(replies: seq<string>) {
    || replies == []
    || replies == ["\U{001b}[1;1R"]
    || replies == ["\U{001b}[1;1R", "\U{001b}[?1;2c"]
    || (|replies| == 3 && replies[..2] == ["\U{001b}[1;1R", "\U{001b}[?1;2c"] && IsForegroundReply(replies[2]))
  }

  /** `n` background replies, then at most cursor, attributes and foreground, in that order. */
  predicate HasProtocolShape(replies: seq<string>, n: nat) {
    n <= |replies| && (forall i :: 0 <= i < n ==> IsBackgroundReply(replies[i])) && IsStartupTail(replies[n..])
  }

  lemma {:induction false} AllowedSplits(replies: seq<string>) returns (n: nat)
    requires Allowed(0, replies)
    ensures HasProtocolShape(replies, n)
    decreases |replies|
  {
    if replies != [] && IsBackgroundReply(replies[0]) && Allowed(0, replies[1..]) {
      var m := AllowedSplits(replies[1..]);
      n := m + 1;
      assert replies[n..] == replies[1..][m..];
      forall i | 0 <= i < n ensures IsBackgroundReply(replies[i]) {
        if i > 0 { assert replies[i] == replies[1..][i - 1]; }
      }
    } else {
      n := 0;
      QueriesInText();
      assert replies[0..] == replies;
      if |replies| > 1 {
        assert replies == [CURSOR_REPLY] + replies[1..];
        assert Allowed(2, replies[1..]);
        if |replies| > 2 {
          assert replies[1..] == [ATTRIBUTES_REPLY] + replies[1..][1..];
          assert Allowed(3, replies[1..][1..]);
        }
      }
    }
  }

  /** Every run from the initial state, whatever the colours and the chunks. */
  lemma RepliesHaveProtocolShape(inputs: seq<(string, Colors)>)
    ensures exists n: nat :: HasProtocolShape(Run(INITIAL, inputs).replies, n)
  {
    RunKeepsShape(INITIAL, inputs);
    var n := AllowedSplits(Run(INITIAL, inputs).replies);
  }

  /** Once disarmed, the parser never replies again; the state that follows the last startup step, armed
      at step 7, is disarmed in this sense. */
  lemma DisarmedNeverReplies(state: ProbeState, inputs: seq<(string, Colors)>)
    requires !state.armed || state.codexStep >= 7
    ensures Run(state, inputs).replies == []
  {
    RunKeepsShape(state, inputs);
  }
}
