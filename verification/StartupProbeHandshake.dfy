/** The startup conversation in text: every query in order is answered, anything else ends it. */
module StartupProbeHandshake {
  import opened Basics
  import opened StartupProbes
  import opened StartupProbeRuns
  import opened StartupProbeReplay

  /** A title, and the terminator that ends it: a bell, the one-byte ST or its two-byte form. */
  datatype Title = Title(text: string, end: string)

  /** A title that may come between the steps: nothing in it ends it early. */
  predicate IsTransparent(title: Title) {
    && ("0;" <= title.text || "1;" <= title.text || "2;" <= title.text)
    && (forall i :: 0 <= i < |title.text| ==> !EndsAt(title.text, i))
    && (title.end == "\U{0007}" || title.end == "\U{009c}" || title.end == "\U{001b}\\")
  }

  function TitleSequence(title: Title): string {
    "\U{001b}]" + title.text + title.end
  }

  function Titles(titles: seq<Title>): string {
    if titles == [] then "" else TitleSequence(titles[0]) + Titles(titles[1..])
  }

  predicate AreTransparent(titles: seq<Title>) {
    forall i :: 0 <= i < |titles| ==> IsTransparent(titles[i])
  }

  predicate AllTransparent(titles: seq<seq<Title>>) {
    forall j :: 0 <= j < |titles| ==> AreTransparent(titles[j])
  }

  /** The startup sequences from step `k` on, one for each entry of `titles`, each with its titles. */
  function Script(titles: seq<seq<Title>>, k: nat): string
    requires k + |titles| <= 7
    decreases |titles|
  {
    if titles == [] then "" else SequenceOf(k) + (Titles(titles[0]) + Script(titles[1..], k + 1))
  }

  /** The reply to the query of step `k`; the other steps get none. */
  function ReplyOf(k: nat, colors: Colors): Option<string> {
    if k == 3 then Some("\U{001b}[1;1R")
    else if k == 5 then Some("\U{001b}[?1;2c")
    else if k == 6 then ForegroundReply(colors)
    else None
  }

  /** What the terminal shows of the script: all but the answered queries. */
  function Shown(titles: seq<seq<Title>>, k: nat, colors: Colors): string
    requires k + |titles| <= 7
    decreases |titles|
  {
    if titles == [] then "" else
    (if ReplyOf(k, colors).Some? then "" else SequenceOf(k)) + (Titles(titles[0]) + Shown(titles[1..], k + 1, colors))
  }

  function AsList(reply: Option<string>): seq<string> {
    if reply.Some? then [reply.value] else []
  }

  /** The replies to `count` steps from step `k` on. */
  function Answers(k: nat, count: nat, colors: Colors): seq<string>
    decreases count
  {
    if count == 0 then [] else AsList(ReplyOf(k, colors)) + Answers(k + 1, count - 1, colors)
  }

  const BACKGROUND_QUERY := "\U{001b}]11;?\U{0007}"

  function Repeated(s: string, n: nat): string {
    if n == 0 then "" else s + Repeated(s, n - 1)
  }

  /** Any number of background queries, then the first steps, each with its titles. */
  function Conversation(queries: nat, titles: seq<seq<Title>>): string
    requires |titles| <= 7
  {
    Repeated(BACKGROUND_QUERY, queries) + Script(titles, 0)
  }

  function ConversationShown(queries: nat, titles: seq<seq<Title>>, colors: Colors): string
    requires |titles| <= 7
  {
    Repeated(if BackgroundReply(colors).Some? then "" else BACKGROUND_QUERY, queries) + Shown(titles, 0, colors)
  }

  function BackgroundAnswers(queries: nat, colors: Colors): seq<string> {
    if queries == 0 then [] else AsList(BackgroundReply(colors)) + BackgroundAnswers(queries - 1, colors)
  }

  function ConversationReplies(queries: nat, steps: nat, colors: Colors): seq<string> {
    BackgroundAnswers(queries, colors) + Answers(0, steps, colors)
  }

  // ---- Titles. ----

  lemma TitleToken(title: Title, rest: string)
    requires IsTransparent(title)
    ensures NextToken(TitleSequence(title) + rest) ==
      ControlString(|TitleSequence(title)|, |title.text| + 2, title.end)
  {
    var input := TitleSequence(title) + rest;
    var n := |title.text| + 2;
    assert "\U{001b}]" == [ESC, ']'] && input[0] == ESC && input[1] == ']';
    assert forall i :: 2 <= i < n ==> input[i] == title.text[i - 2];
    assert forall i :: 0 <= i < |title.end| ==> input[n + i] == title.end[i];
    forall i | 2 <= i < n ensures !EndsAt(input, i) {
      assert !EndsAt(title.text, i - 2);
    }
    StringTerminatorIs(input, 2, n);
  }

  lemma TitleIsNoStep(title: Title, k: nat)
    requires k < |STEPS| && IsTransparent(title)
    ensures TitleSequence(title) != STEPS[k].sequence
  {
    var sequence := TitleSequence(title);
    assert sequence[1] == ']' && sequence[2] == title.text[0] && sequence[3] == title.text[1] == ';';
  }

  lemma TitleEffect(title: Title, rest: string, live: Live, colors: Colors)
    requires IsTransparent(title) && live.armed && live.codexStep > 0
    requires NextToken(TitleSequence(title) + rest) ==
      ControlString(|TitleSequence(title)|, |title.text| + 2, title.end)
    ensures TokenEffect(TitleSequence(title) + rest, live, colors) == Effect(TitleSequence(title), [], live)
  {
    var sequence := TitleSequence(title);
    var input := sequence + rest;
    assert input[..|sequence|] == sequence && input[2..|title.text| + 2] == title.text;
    assert sequence[0] == ESC && sequence[1] == ']';
    if live.codexStep < |STEPS| { TitleIsNoStep(title, live.codexStep); }
  }

  lemma TitleParses(title: Title, rest: string, live: Live, colors: Colors)
    requires IsTransparent(title) && live.armed && live.codexStep > 0
    ensures Parse(TitleSequence(title) + rest, live, colors) ==
      After(Effect(TitleSequence(title), [], live), Parse(rest, live, colors))
  {
    TitleToken(title, rest);
    TitleEffect(title, rest, live, colors);
    ParsePeels(TitleSequence(title), rest, live, colors);
  }

  lemma ShownAfterShown(a: string, b: string, live: Live, o: Outcome)
    ensures After(Effect(a, [], live), After(Effect(b, [], live), o)) == After(Effect(a + b, [], live), o)
  {
    assert a + (b + o.cleaned) == (a + b) + o.cleaned && [] + ([] + o.replies) == [] + o.replies;
  }

  lemma NothingShown(live: Live, o: Outcome)
    ensures After(Effect("", [], live), o) == o
  {
    assert "" + o.cleaned == o.cleaned && [] + o.replies == o.replies;
  }

  lemma {:induction false} TitlesParse(titles: seq<Title>, rest: string, live: Live, colors: Colors)
    requires AreTransparent(titles) && live.armed && live.codexStep > 0
    ensures Parse(Titles(titles) + rest, live, colors) ==
      After(Effect(Titles(titles), [], live), Parse(rest, live, colors))
  {
    var tail := Parse(rest, live, colors);
    if titles == [] {
      assert Titles(titles) + rest == rest;
      NothingShown(live, tail);
    } else {
      var first, others := TitleSequence(titles[0]), Titles(titles[1..]);
      assert Titles(titles) + rest == first + (others + rest);
      TitleParses(titles[0], others + rest, live, colors);
      TitlesParse(titles[1..], rest, live, colors);
      ShownAfterShown(first, others, live, tail);
    }
  }

  // ---- The steps. ----

  lemma StepShows(k: nat, colors: Colors)
    requires k < 7
    ensures StepEffect(SequenceOf(k), Live(true, k), colors) == Some(Effect(
      if ReplyOf(k, colors).Some? then "" else SequenceOf(k), AsList(ReplyOf(k, colors)), Live(true, k + 1)))
  {
    StepsInText(k);
    QueriesInText();
  }

  lemma EffectsJoin(a: Effect, b: Effect, c: Effect, o: Outcome)
    ensures After(a, After(b, After(c, o))) ==
      After(Effect(a.cleaned + (b.cleaned + c.cleaned), a.replies + (b.replies + c.replies), c.live), o)
  {
    AfterAssociates(b, c, o);
    AfterAssociates(a, Effect(b.cleaned + c.cleaned, b.replies + c.replies, c.live), o);
  }

  lemma ScriptCons(titles: seq<seq<Title>>, k: nat, rest: string)
    requires titles != [] && k + |titles| <= 7
    ensures Script(titles, k) + rest == SequenceOf(k) + (Titles(titles[0]) + (Script(titles[1..], k + 1) + rest))
  {
    var more := Script(titles[1..], k + 1);
    assert (SequenceOf(k) + (Titles(titles[0]) + more)) + rest == SequenceOf(k) + (Titles(titles[0]) + (more + rest));
  }

  /** A step, its titles and the script after them, as one effect. */
  lemma ScriptJoins(titles: seq<seq<Title>>, k: nat, colors: Colors, e: Effect, tail: Outcome)
    requires titles != [] && k + |titles| <= 7
    requires e == Effect(if ReplyOf(k, colors).Some? then "" else SequenceOf(k), AsList(ReplyOf(k, colors)),
                         Live(true, k + 1))
    ensures
      var last := ScriptEffect(titles[1..], k + 1, colors);
      After(e, After(Effect(Titles(titles[0]), [], Live(true, k + 1)), After(last, tail))) ==
        After(ScriptEffect(titles, k, colors), tail)
  {
    var last := ScriptEffect(titles[1..], k + 1, colors);
    EffectsJoin(e, Effect(Titles(titles[0]), [], Live(true, k + 1)), last, tail);
    assert [] + last.replies == last.replies;
  }

  lemma StepAndTitlesParse(titles: seq<Title>, k: nat, more: string, colors: Colors) returns (e: Effect)
    requires k < 7 && AreTransparent(titles)
    ensures e == Effect(if ReplyOf(k, colors).Some? then "" else SequenceOf(k), AsList(ReplyOf(k, colors)),
                        Live(true, k + 1))
    ensures Parse(SequenceOf(k) + (Titles(titles) + more), Live(true, k), colors) ==
      After(e, After(Effect(Titles(titles), [], Live(true, k + 1)), Parse(more, Live(true, k + 1), colors)))
  {
    StepsInText(k);
    e := StepParses(k, Titles(titles) + more, Live(true, k), colors);
    StepShows(k, colors);
    TitlesParse(titles, more, Live(true, k + 1), colors);
  }

  function ScriptEffect(titles: seq<seq<Title>>, k: nat, colors: Colors): Effect
    requires k + |titles| <= 7
  {
    Effect(Shown(titles, k, colors), Answers(k, |titles|, colors), Live(true, k + |titles|))
  }

  function Ended(e: Effect): Outcome {
    Outcome(e.cleaned, e.replies, e.live, "")
  }

  lemma EffectEnds(e: Effect)
    ensures After(e, Outcome("", [], e.live, "")) == Ended(e)
  {
    assert e.cleaned + "" == e.cleaned && e.replies + [] == e.replies;
  }

  lemma OneMoreStep(titles: seq<seq<Title>>, k: nat, more: string, after: Outcome, colors: Colors)
      returns (whole: Outcome)
    requires titles != [] && k + |titles| <= 7 && AllTransparent(titles)
    requires after == Parse(more, Live(true, k + 1), colors)
    requires after == Ended(ScriptEffect(titles[1..], k + 1, colors))
    ensures whole == Parse(SequenceOf(k) + (Titles(titles[0]) + more), Live(true, k), colors)
    ensures whole == Ended(ScriptEffect(titles, k, colors))
  {
    var e := StepAndTitlesParse(titles[0], k, more, colors);
    var end := Outcome("", [], Live(true, k + |titles|), "");
    whole := After(e, After(Effect(Titles(titles[0]), [], Live(true, k + 1)), after));
    EffectEnds(ScriptEffect(titles[1..], k + 1, colors));
    ScriptJoins(titles, k, colors, e, end);
    EffectEnds(ScriptEffect(titles, k, colors));
  }

  /** The whole script, from the step where it starts. */
  lemma {:induction false} ScriptParses(titles: seq<seq<Title>>, k: nat, colors: Colors) returns (whole: Outcome)
    requires k + |titles| <= 7 && AllTransparent(titles)
    ensures whole == Parse(Script(titles, k), Live(true, k), colors)
    ensures whole == Ended(ScriptEffect(titles, k, colors))
    decreases |titles|
  {
    if titles == [] {
      whole := Outcome("", [], Live(true, k), "");
    } else {
      var more := Script(titles[1..], k + 1);
      var after := ScriptParses(titles[1..], k + 1, colors);
      whole := OneMoreStep(titles, k, more, after, colors);
    }
  }

  /** The script, then whatever follows it. */
  lemma ScriptThenRest(titles: seq<seq<Title>>, rest: string, colors: Colors)
    requires |titles| <= 7 && AllTransparent(titles)
    ensures Parse(Script(titles, 0) + rest, Live(true, 0), colors) ==
      After(ScriptEffect(titles, 0, colors), Parse(rest, Live(true, |titles|), colors))
  {
    var whole := ScriptParses(titles, 0, colors);
    ParseSplits(Script(titles, 0), rest, Live(true, 0), colors);
    assert "" + rest == rest;
  }

  // ---- The background queries. ----

  lemma BackgroundParses(rest: string, tail: Outcome, colors: Colors) returns (whole: Outcome)
    requires tail == Parse(rest, Live(true, 0), colors)
    ensures whole == Parse(BACKGROUND_QUERY + rest, Live(true, 0), colors)
    ensures whole == After(Effect(if BackgroundReply(colors).Some? then "" else BACKGROUND_QUERY,
                                  AsList(BackgroundReply(colors)), Live(true, 0)), tail)
  {
    var input := BACKGROUND_QUERY + rest;
    QueriesInText();
    StringTerminatorIs(input, 2, 6);
    assert input[..7] == BACKGROUND_QUERY && input[2..6] == "11;?";
    assert STEPS[0].sequence[1] != BACKGROUND_QUERY[1];
    ParsePeels(BACKGROUND_QUERY, rest, Live(true, 0), colors);
    whole := Parse(input, Live(true, 0), colors);
  }

  function QueriesEffect(queries: nat, colors: Colors): Effect {
    Effect(Repeated(if BackgroundReply(colors).Some? then "" else BACKGROUND_QUERY, queries),
           BackgroundAnswers(queries, colors), Live(true, 0))
  }

  lemma QueriesJoin(queries: nat, colors: Colors, o: Outcome)
    requires queries > 0
    ensures
      var shown := if BackgroundReply(colors).Some? then "" else BACKGROUND_QUERY;
      After(Effect(shown, AsList(BackgroundReply(colors)), Live(true, 0)), After(QueriesEffect(queries - 1, colors), o))
        == After(QueriesEffect(queries, colors), o)
  {
    var shown := if BackgroundReply(colors).Some? then "" else BACKGROUND_QUERY;
    var first := Effect(shown, AsList(BackgroundReply(colors)), Live(true, 0));
    AfterAssociates(first, QueriesEffect(queries - 1, colors), o);
  }

  lemma OneMoreQuery(queries: nat, shorter: string, after: Outcome, tail: Outcome, colors: Colors)
      returns (whole: Outcome)
    requires queries > 0 && after == Parse(shorter, Live(true, 0), colors)
    requires after == After(QueriesEffect(queries - 1, colors), tail)
    ensures whole == Parse(BACKGROUND_QUERY + shorter, Live(true, 0), colors)
    ensures whole == After(QueriesEffect(queries, colors), tail)
  {
    whole := BackgroundParses(shorter, after, colors);
    QueriesJoin(queries, colors, tail);
  }

  lemma {:induction false} QueriesParse(queries: nat, input: string, rest: string, colors: Colors)
      returns (whole: Outcome, tail: Outcome)
    requires input == Repeated(BACKGROUND_QUERY, queries) + rest
    ensures whole == Parse(input, Live(true, 0), colors) && tail == Parse(rest, Live(true, 0), colors)
    ensures whole == After(QueriesEffect(queries, colors), tail)
  {
    if queries == 0 {
      assert input == rest;
      tail := Parse(rest, Live(true, 0), colors);
      whole := tail;
      NothingShown(Live(true, 0), tail);
    } else {
      var shorter := Repeated(BACKGROUND_QUERY, queries - 1) + rest;
      var after;
      assert input == BACKGROUND_QUERY + shorter;
      after, tail := QueriesParse(queries - 1, shorter, rest, colors);
      whole := OneMoreQuery(queries, shorter, after, tail, colors);
    }
  }

  lemma ConversationParses(queries: nat, titles: seq<seq<Title>>, rest: string, colors: Colors)
    requires |titles| <= 7 && AllTransparent(titles)
    ensures Parse(Conversation(queries, titles) + rest, Live(true, 0), colors) ==
      After(Effect(ConversationShown(queries, titles, colors), ConversationReplies(queries, |titles|, colors),
                   Live(true, |titles|)),
            Parse(rest, Live(true, |titles|), colors))
  {
    var asked, script := Repeated(BACKGROUND_QUERY, queries), Script(titles, 0);
    assert Conversation(queries, titles) + rest == asked + (script + rest);
    var all, middle := QueriesParse(queries, asked + (script + rest), script + rest, colors);
    ScriptThenRest(titles, rest, colors);
    AfterAssociates(QueriesEffect(queries, colors), ScriptEffect(titles, 0, colors),
                    Parse(rest, Live(true, |titles|), colors));
  }

  // ---- Every stream: the longest conversation it begins with, then what is left. ----

  ghost predicate IsTitleText(s: string) {
    exists title :: IsTransparent(title) && s == TitleSequence(title)
  }

  /** What keeps the conversation going after `k` steps: the next sequence, a background query before the
      first, a title after it. */
  ghost predicate GoesOn(next: string, k: nat) {
    || (k < 7 && next == SequenceOf(k))
    || (k == 0 && next == BACKGROUND_QUERY)
    || (k > 0 && IsTitleText(next))
  }

  /** Nothing at the head of the text keeps it going. */
  ghost predicate Stops(rest: string, k: nat) {
    forall n :: 0 <= n <= |rest| ==> !GoesOn(rest[..n], k)
  }

  lemma {:induction false} FollowQueries(input: string) returns (queries: nat, rest: string)
    ensures input == Repeated(BACKGROUND_QUERY, queries) + rest && !(BACKGROUND_QUERY <= rest)
    decreases |input|
  {
    if BACKGROUND_QUERY <= input {
      var after := input[|BACKGROUND_QUERY|..];
      queries, rest := FollowQueries(after);
      var more := Repeated(BACKGROUND_QUERY, queries);
      assert input == BACKGROUND_QUERY + after == BACKGROUND_QUERY + (more + rest) == (BACKGROUND_QUERY + more) + rest;
      queries := queries + 1;
    } else {
      queries, rest := 0, input;
    }
  }

  lemma {:induction false} FollowTitles(input: string) returns (titles: seq<Title>, rest: string)
    ensures input == Titles(titles) + rest && AreTransparent(titles)
    ensures forall n :: 0 <= n <= |rest| ==> !IsTitleText(rest[..n])
    decreases |input|
  {
    if n :| 0 <= n <= |input| && IsTitleText(input[..n]) {
      var title :| IsTransparent(title) && input[..n] == TitleSequence(title);
      var others;
      others, rest := FollowTitles(input[n..]);
      titles := [title] + others;
      assert titles[1..] == others;
      assert input == input[..n] + (Titles(others) + rest) == (input[..n] + Titles(others)) + rest;
    } else {
      titles, rest := [], input;
    }
  }

  lemma {:induction false} FollowSteps(input: string, k: nat) returns (titles: seq<seq<Title>>, rest: string)
    requires k <= 7 && (k > 0 ==> forall n :: 0 <= n <= |input| ==> !IsTitleText(input[..n]))
    ensures k + |titles| <= 7 && AllTransparent(titles) && input == Script(titles, k) + rest
    ensures k + |titles| < 7 ==> !(SequenceOf(k + |titles|) <= rest)
    ensures k + |titles| > 0 ==> forall n :: 0 <= n <= |rest| ==> !IsTitleText(rest[..n])
    ensures titles == [] ==> rest == input
    decreases 7 - k
  {
    if k < 7 && SequenceOf(k) <= input {
      var first, more := FollowTitles(input[|SequenceOf(k)|..]);
      var others;
      others, rest := FollowSteps(more, k + 1);
      titles := [first] + others;
      ScriptPrepends(first, others, k, input, more, rest);
    } else {
      titles, rest := [], input;
    }
  }

  lemma ScriptPrepends(first: seq<Title>, others: seq<seq<Title>>, k: nat, input: string, more: string, rest: string)
    requires k + 1 + |others| <= 7 && AllTransparent(others) && AreTransparent(first)
    requires SequenceOf(k) <= input && input[|SequenceOf(k)|..] == Titles(first) + more
    requires more == Script(others, k + 1) + rest
    ensures AllTransparent([first] + others) && input == Script([first] + others, k) + rest
  {
    var titles := [first] + others;
    assert titles[1..] == others;
    ScriptCons(titles, k, rest);
    assert input == SequenceOf(k) + (Titles(first) + more);
    forall j | 0 <= j < |titles| ensures AreTransparent(titles[j]) {
      if j > 0 { assert titles[j] == others[j - 1]; }
    }
  }

  lemma FollowConversation(input: string) returns (queries: nat, titles: seq<seq<Title>>, rest: string)
    ensures |titles| <= 7 && AllTransparent(titles) && input == Conversation(queries, titles) + rest
    ensures Stops(rest, |titles|)
  {
    var more;
    queries, more := FollowQueries(input);
    titles, rest := FollowSteps(more, 0);
    var asked, script := Repeated(BACKGROUND_QUERY, queries), Script(titles, 0);
    assert asked + (script + rest) == (asked + script) + rest;
    forall n | 0 <= n <= |rest| ensures !GoesOn(rest[..n], |titles|) {
      assert rest[..n] <= rest;
    }
  }

  lemma {:induction false} DisarmedStays(input: string, colors: Colors)
    ensures Parse(input, Live(false, 0), colors).live == Live(false, 0)
    ensures Parse(input, Live(false, 0), colors).replies == []
    decreases |input|
  {
    if input != "" && !NextToken(input).Incomplete? {
      DisarmedStays(input[Length(NextToken(input))..], colors);
    }
  }

  /** A complete control string that is a title by its content is a title in text. */
  lemma TitleTokenIsText(input: string, n: nat, c: nat, end: string)
    requires 2 <= c <= n <= |input| && NextToken(input) == ControlString(n, c, end) && input[1] == ']'
    requires IsTitle(input[2..c])
    ensures IsTitleText(input[..n])
  {
    TokenExactly(input);
    var title := Title(input[2..c], end);
    forall i | 0 <= i < |title.text| ensures !EndsAt(title.text, i) {
      assert !EndsAt(input, i + 2);
    }
    assert input[c..n] == end && IsTransparent(title);
    assert input[..n] == input[..2] + input[2..c] + input[c..n] && input[..2] == "\U{001b}]";
  }

  /** The first token of what stops the conversation is passed through and disarms the parser. */
  lemma StoppingTokenDisarms(input: string, k: nat, colors: Colors)
    requires input != "" && !NextToken(input).Incomplete? && k <= 7 && Stops(input, k)
    ensures TokenEffect(input, Live(true, k), colors) ==
      Effect(input[..Length(NextToken(input))], [], Live(false, 0))
  {
    var n := Length(NextToken(input));
    assert !GoesOn(input[..n], k);
    if k < 7 { StepsInText(k); }
    match NextToken(input)
    case Plain =>
    case Csi(_) =>
    case ControlString(_, c, end) =>
      if input[1] == ']' && IsTitle(input[2..c]) { TitleTokenIsText(input, n, c, end); }
      if input[1] == ']' && input[2..c] == "11;?" && end == [BEL] { QueryTokenIsText(input, n, c, end); }
  }

  lemma QueryTokenIsText(input: string, n: nat, c: nat, end: string)
    requires 2 <= c <= n <= |input| && NextToken(input) == ControlString(n, c, end) && input[1] == ']'
    requires input[2..c] == "11;?" && end == [BEL]
    ensures input[..n] == BACKGROUND_QUERY
  {
    TokenExactly(input);
    assert input[..n] == input[..2] + input[2..c] + input[c..n] && input[..2] == "\U{001b}]";
  }

  /** What is left when the conversation stops: held back if it is unfinished, else shown unanswered. */
  lemma WhatIsLeft(rest: string, k: nat, colors: Colors)
    requires k <= 7 && Stops(rest, k)
    ensures
      var o := Parse(rest, Live(true, k), colors);
      if rest == "" || IsUnfinished(rest) then o == Outcome("", [], Live(true, k), rest)
      else o.cleaned + o.pending == rest && o.replies == [] && o.live == Live(false, 0)
  {
    if rest != "" {
      TokenExactly(rest);
      if !IsUnfinished(rest) {
        var n := Length(NextToken(rest));
        StoppingTokenDisarms(rest, k, colors);
        DisarmedStays(rest[n..], colors);
        DeadParsePasses(rest[n..], Live(false, 0), colors);
        Rejoins(rest, n, Parse(rest[n..], Live(false, 0), colors));
      }
    }
  }

  /** The outcome of a conversation and of what is left after it. */
  ghost predicate IsOutcome(o: Outcome, queries: nat, titles: seq<seq<Title>>, rest: string, colors: Colors)
    requires |titles| <= 7
  {
    var shown := ConversationShown(queries, titles, colors);
    && o.replies == ConversationReplies(queries, |titles|, colors)
    && if rest == "" || IsUnfinished(rest) then
         o.cleaned == shown && o.pending == rest && o.live == Live(true, |titles|)
       else
         o.cleaned + o.pending == shown + rest && o.live == Live(false, 0)
  }

  lemma OutcomesJoin(shown: string, replies: seq<string>, live: Live, left: Outcome, rest: string)
    ensures var o := After(Effect(shown, replies, live), left);
      && (left.replies == [] ==> o.replies == replies)
      && (left.cleaned == "" ==> o.cleaned == shown)
      && (left.cleaned + left.pending == rest ==> o.cleaned + o.pending == shown + rest)
      && o.live == left.live && o.pending == left.pending
  {
    assert replies + [] == replies && shown + "" == shown;
    assert (shown + left.cleaned) + left.pending == shown + (left.cleaned + left.pending);
  }

  lemma OutcomeOfText(text: string, queries: nat, titles: seq<seq<Title>>, rest: string, colors: Colors)
    requires |titles| <= 7 && AllTransparent(titles) && Stops(rest, |titles|)
    requires text == Conversation(queries, titles) + rest
    ensures IsOutcome(Parse(text, Live(true, 0), colors), queries, titles, rest, colors)
  {
    ConversationParses(queries, titles, rest, colors);
    WhatIsLeft(rest, |titles|, colors);
    OutcomesJoin(ConversationShown(queries, titles, colors), ConversationReplies(queries, |titles|, colors),
                 Live(true, |titles|), Parse(rest, Live(true, |titles|), colors), rest);
  }

  /** The whole parser: the longest conversation at the head of the stream is answered as it should be; if
      only the start of something unfinished is left, it is held back and the parser stays armed at the
      step it has reached; anything else ends the conversation, is shown, and nothing more is answered. */
  lemma EveryStreamIsAConversation(chunks: seq<string>, colors: Colors)
      returns (queries: nat, titles: seq<seq<Title>>, rest: string)
    requires chunks != []
    ensures |titles| <= 7 && AllTransparent(titles) && Stops(rest, |titles|)
    ensures Flatten(chunks) == Conversation(queries, titles) + rest
    ensures
      var run := Run(INITIAL, WithColors(chunks, colors));
      IsOutcome(Outcome(run.cleaned, run.replies, Live(run.state.armed, run.state.codexStep), run.state.pending),
                queries, titles, rest, colors)
  {
    RunIsOneFeed(INITIAL, chunks, colors);
    assert "" + Flatten(chunks) == Flatten(chunks);
    queries, titles, rest := FollowConversation(Flatten(chunks));
    OutcomeOfText(Flatten(chunks), queries, titles, rest, colors);
  }

  // ---- The complete startup. ----

  /** The startup text as the program sends it, with the titles between its sequences. */
  function StartupText(t: seq<seq<Title>>): string
    requires |t| == 7
  {
    "\U{001b}[?2004h" + (Titles(t[0]) +
      ("\U{001b}[>7u" + (Titles(t[1]) +
        ("\U{001b}[?1004h" + (Titles(t[2]) +
          ("\U{001b}[6n" + (Titles(t[3]) +
            ("\U{001b}[?u" + (Titles(t[4]) +
              ("\U{001b}[c" + (Titles(t[5]) +
                ("\U{001b}]10;?\U{001b}\\" + (Titles(t[6]) + "")))))))))))))
  }

  /** What the terminal shows of it. */
  function StartupShown(t: seq<seq<Title>>, foregroundAnswered: bool): string
    requires |t| == 7
  {
    "\U{001b}[?2004h" + (Titles(t[0]) +
      ("\U{001b}[>7u" + (Titles(t[1]) +
        ("\U{001b}[?1004h" + (Titles(t[2]) +
          ("" + (Titles(t[3]) +
            ("\U{001b}[?u" + (Titles(t[4]) +
              ("" + (Titles(t[5]) +
                ((if foregroundAnswered then "" else "\U{001b}]10;?\U{001b}\\") + (Titles(t[6]) + "")))))))))))))
  }

  lemma ScriptFrom(t: seq<seq<Title>>, k: nat, colors: Colors)
    requires |t| == 7 && k < 7
    ensures Script(t[k..], k) == SequenceOf(k) + (Titles(t[k]) + Script(t[k + 1..], k + 1))
    ensures Shown(t[k..], k, colors) ==
      (if ReplyOf(k, colors).Some? then "" else SequenceOf(k)) + (Titles(t[k]) + Shown(t[k + 1..], k + 1, colors))
  {
    assert t[k..][1..] == t[k + 1..];
  }

  lemma StartupIsScript(t: seq<seq<Title>>, colors: Colors)
    requires |t| == 7
    ensures Script(t, 0) == StartupText(t)
    ensures Shown(t, 0, colors) == StartupShown(t, ForegroundReply(colors).Some?)
  {
    assert t[0..] == t && t[7..] == [];
    ScriptFrom(t, 6, colors);
    ScriptFrom(t, 5, colors);
    ScriptFrom(t, 4, colors);
    ScriptFrom(t, 3, colors);
    ScriptFrom(t, 2, colors);
    ScriptFrom(t, 1, colors);
    ScriptFrom(t, 0, colors);
  }

  lemma NoAnswer(k: nat, count: nat, colors: Colors)
    requires count > 0 && ReplyOf(k, colors).None?
    ensures Answers(k, count, colors) == Answers(k + 1, count - 1, colors)
  {
    assert [] + Answers(k + 1, count - 1, colors) == Answers(k + 1, count - 1, colors);
  }

  lemma LastAnswers(colors: Colors)
    ensures Answers(5, 2, colors) == ["\U{001b}[?1;2c"] + AsList(ForegroundReply(colors))
  {
    assert Answers(6, 1, colors) == AsList(ForegroundReply(colors)) + [];
  }

  lemma AllAnswers(colors: Colors)
    ensures Answers(0, 7, colors) == ["\U{001b}[1;1R", "\U{001b}[?1;2c"] + AsList(ForegroundReply(colors))
  {
    LastAnswers(colors);
    NoAnswer(4, 3, colors);
    assert Answers(3, 4, colors) == ["\U{001b}[1;1R"] + Answers(5, 2, colors);
    NoAnswer(2, 5, colors);
    NoAnswer(1, 6, colors);
    NoAnswer(0, 7, colors);
  }

  /** The complete startup sequence, with any titles between its parts and cut into any chunks, gets the
      cursor, attributes and foreground replies in that order; the queries with a reply are dropped,
      everything else is shown, and the state is armed at step 7. */
  lemma StartupIsAnswered(titles: seq<seq<Title>>, chunks: seq<string>, colors: Colors)
    requires |titles| == 7 && chunks != [] && Flatten(chunks) == StartupText(titles) && AllTransparent(titles)
    ensures Run(INITIAL, WithColors(chunks, colors)) == Fed(
      ProbeState("", true, 7),
      StartupShown(titles, ForegroundReply(colors).Some?),
      ["\U{001b}[1;1R", "\U{001b}[?1;2c"] +
        if ForegroundReply(colors).Some? then [ForegroundReply(colors).value] else [])
  {
    RunIsOneFeed(INITIAL, chunks, colors);
    assert "" + Flatten(chunks) == Flatten(chunks);
    StartupIsScript(titles, colors);
    var whole := ScriptParses(titles, 0, colors);
    AllAnswers(colors);
  }

  /** Ordinary text at the head of a chunk ends the conversation: nothing is answered from there on. */
  lemma OrdinaryTextEndsIt(state: ProbeState, chunk: string, colors: Colors, inputs: seq<(string, Colors)>)
    requires state.pending == "" && chunk != "" && chunk[0] != ESC
    ensures Feed(state, chunk, colors).replies == []
    ensures Run(Feed(state, chunk, colors).state, inputs).replies == []
  {
    var live := Live(state.armed, state.codexStep);
    assert "" + chunk == chunk;
    var dead := TokenEffect(chunk, live, colors).live;
    var rest := chunk[1..];
    DeadParse(rest, dead, dead, colors);
    DisarmedNeverReplies(ProbeState("", dead.armed, dead.codexStep), [(rest, colors)]);
    RunOnce(ProbeState("", dead.armed, dead.codexStep), rest, colors);
    assert "" + rest == rest;
    DisarmedNeverReplies(Feed(state, chunk, colors).state, inputs);
  }
}
