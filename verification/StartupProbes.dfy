/** The terminal startup-probe parser of shared/terminal-startup-probes.ts. */
module StartupProbes {
  import opened Basics

  const ESC := '\U{001b}'
  const BEL := '\U{0007}'
  const C1_ST := '\U{009c}'

  const OSC11_QUERY: string := [ESC] + "]11;?" + [BEL]
  const CURSOR_REPLY: string := [ESC] + "[1;1R"
  const ATTRIBUTES_REPLY: string := [ESC] + "[?1;2c"

  datatype Colors = Colors(foreground: Option<string>, background: Option<string>)

  datatype Answer = Passthrough | CursorAnswer | AttributesAnswer | ForegroundAnswer

  datatype Step = Step(sequence: string, answer: Answer)

  const STEPS: seq<Step> := [
    Step([ESC] + "[?2004h", Passthrough),
    Step([ESC] + "[>7u", Passthrough),
    Step([ESC] + "[?1004h", Passthrough),
    Step([ESC] + "[6n", CursorAnswer),
    Step([ESC] + "[?u", Passthrough),
    Step([ESC] + "[c", AttributesAnswer),
    Step([ESC] + "]10;?" + [ESC] + "\\", ForegroundAnswer)]

  // ---- Colour replies. ----

  /** A parsed channel: `parseInt` gives a number or NaN (None). */
  type Channel = Option<int>

  function HexValue(c: char): Option<nat> {
    if '0' <= c <= '9' then Some(c as int - '0' as int)
    else if 'a' <= c <= 'f' then Some(c as int - 'a' as int + 10)
    else if 'A' <= c <= 'F' then Some(c as int - 'A' as int + 10)
    else None
  }

  /** The number that the longest prefix of hexadecimal digits continues. */
  function HexPrefix(s: string, soFar: Option<nat>): Option<nat> {
    if s == [] || HexValue(s[0]).None? then soFar
    else HexPrefix(s[1..], Some((if soFar.Some? then soFar.value else 0) * 16 + HexValue(s[0]).value))
  }

  /** `parseInt(s, 16)`: leading white space, a sign and a `0x` prefix are allowed, and trailing
      characters that are not digits are ignored. */
  function ParseInt16(s: string): Channel {
    if s != [] && IsWhitespace(s[0]) then ParseInt16(s[1..]) else
    var negative := s != [] && s[0] == '-';
    var body := if s != [] && (s[0] == '-' || s[0] == '+') then s[1..] else s;
    var digits := if |body| >= 2 && body[0] == '0' && (body[1] == 'x' || body[1] == 'X') then body[2..] else body;
    match HexPrefix(digits, None)
    case None => None
    case Some(n) => Some(if negative then -(n as int) else n)
  }

  const HEX_DIGITS := "0123456789abcdef"

  function ToHex(n: nat): (s: string)
    ensures s != []
  {
    if n < 16 then [HEX_DIGITS[n]] else ToHex(n / 16) + [HEX_DIGITS[n % 16]]
  }

  function Pad16Bit(channel: Channel): string {
    var hex := if channel.None? then "NaN"
               else if channel.value < 0 then "-" + ToHex(-channel.value)
               else ToHex(channel.value);
    var padded := if |hex| < 2 then "0" + hex else hex;
    padded + padded
  }

  function NormalizeHexColor(color: string): Option<(Channel, Channel, Channel)> {
    if color == [] || color[0] != '#' then None else
    var hex := color[1..];
    if |hex| == 3 then
      Some((ParseInt16([hex[0], hex[0]]), ParseInt16([hex[1], hex[1]]), ParseInt16([hex[2], hex[2]])))
    else if |hex| != 6 then None
    else Some((ParseInt16(hex[0..2]), ParseInt16(hex[2..4]), ParseInt16(hex[4..6])))
  }

  function ColorReply(code: string, color: Option<string>): Option<string> {
    if color.None? || color.value == [] then None else
    match NormalizeHexColor(color.value)
    case None => None
    case Some((r, g, b)) =>
      Some([ESC] + "]" + code + ";rgb:" + Pad16Bit(r) + "/" + Pad16Bit(g) + "/" + Pad16Bit(b) + [ESC] + "\\")
  }

  function BackgroundReply(colors: Colors): Option<string> { ColorReply("11", colors.background) }

  function ForegroundReply(colors: Colors): Option<string> { ColorReply("10", colors.foreground) }

  function BuildReply(answer: Answer, colors: Colors): Option<string> {
    match answer
    case Passthrough => None
    case CursorAnswer => Some(CURSOR_REPLY)
    case AttributesAnswer => Some(ATTRIBUTES_REPLY)
    case ForegroundAnswer => ForegroundReply(colors)
  }

  // ---- Finding the end of a control sequence. ----

  datatype Terminator = Terminator(start: nat, end: nat, text: string)

  function StringTerminator(data: string, from: nat): (t: Option<Terminator>)
    ensures t.Some? ==> from <= t.value.start < t.value.end <= |data|
    decreases |data| - from
  {
    if from >= |data| then None
    else if data[from] == BEL || data[from] == C1_ST then Some(Terminator(from, from + 1, [data[from]]))
    else if data[from] == ESC && from + 1 >= |data| then None
    else if data[from] == ESC && data[from + 1] == '\\' then Some(Terminator(from, from + 2, [ESC] + "\\"))
    else StringTerminator(data, from + 1)
  }

  function CsiEnd(data: string, from: nat): (end: Option<nat>)
    ensures end.Some? ==> from < end.value <= |data|
    decreases |data| - from
  {
    if from >= |data| then None
    else if '@' <= data[from] <= '~' then Some(from + 1)
    else CsiEnd(data, from + 1)
  }

  // ---- The parser as a function. ----

  /** What one token at the head of the input is. */
  datatype Token =
    | Plain                                    // one ordinary character, or an escape nobody claims
    | Csi(length: nat)
    | ControlString(length: nat, contentEnd: nat, terminator: string)
    | Incomplete

  function NextToken(input: string): (t: Token)
    requires input != []
    ensures t.Csi? ==> 2 < t.length <= |input|
    ensures t.ControlString? ==> 2 <= t.contentEnd < t.length <= |input|
  {
    if input[0] != ESC then Plain
    else if |input| == 1 then Incomplete
    else if input[1] == '[' then
      match CsiEnd(input, 2)
      case None => Incomplete
      case Some(end) => Csi(end)
    else if input[1] != ']' && input[1] != 'P' && input[1] != '_' then Plain
    else
      match StringTerminator(input, 2)
      case None => Incomplete
      case Some(t) => ControlString(t.end, t.start, t.text)
  }

  function Length(t: Token): nat {
    match t
    case Plain => 1
    case Csi(n) => n
    case ControlString(n, _, _) => n
    case Incomplete => 0
  }

  /** The part of the state that decides how a token is treated. */
  datatype Live = Live(armed: bool, codexStep: nat)

  datatype Effect = Effect(cleaned: string, replies: seq<string>, live: Live)

  function Disarm(live: Live): Live {
    if live.armed then Live(false, 0) else live
  }

  function StepEffect(sequence: string, live: Live, colors: Colors): Option<Effect> {
    if live.codexStep >= |STEPS| || sequence != STEPS[live.codexStep].sequence then None else
    var step := STEPS[live.codexStep];
    var reply := BuildReply(step.answer, colors);
    Some(Effect(
      if step.answer.Passthrough? || reply.None? then sequence else "",
      if reply.Some? then [reply.value] else [],
      Live(live.armed, live.codexStep + 1)))
  }

  predicate IsTitle(content: string) {
    "0;" <= content || "1;" <= content || "2;" <= content
  }

  function CsiEffect(sequence: string, live: Live, colors: Colors): Effect {
    var step := if live.armed then StepEffect(sequence, live, colors) else None;
    if step.Some? then step.value else Effect(sequence, [], Disarm(live))
  }

  function StringEffect(
      sequence: string, introducer: char, content: string, terminator: string, live: Live, colors: Colors): Effect {
    var step := if live.armed then StepEffect(sequence, live, colors) else None;
    if step.Some? then step.value
    else if live.armed && live.codexStep > 0 && introducer == ']' && IsTitle(content) then
      Effect(sequence, [], live)
    else if live.armed && live.codexStep == 0 && introducer == ']' && content == "11;?" && terminator == [BEL] then
      var reply := BackgroundReply(colors);
      if reply.Some? then Effect("", [reply.value], live) else Effect(sequence, [], live)
    else Effect(sequence, [], Disarm(live))
  }

  function TokenEffect(input: string, live: Live, colors: Colors): Effect
    requires input != [] && !NextToken(input).Incomplete?
  {
    match NextToken(input)
    case Plain => Effect([input[0]], [], Disarm(live))
    case Csi(n) => CsiEffect(input[..n], live, colors)
    case ControlString(n, c, t) => StringEffect(input[..n], input[1], input[2..c], t, live, colors)
  }

  datatype Outcome = Outcome(cleaned: string, replies: seq<string>, live: Live, pending: string)

  function After(first: Effect, rest: Outcome): Outcome {
    Outcome(first.cleaned + rest.cleaned, first.replies + rest.replies, rest.live, rest.pending)
  }

  function Parse(input: string, live: Live, colors: Colors): Outcome
    decreases |input|
  {
    if input == [] then Outcome("", [], live, "")
    else if NextToken(input).Incomplete? then Outcome("", [], live, input)
    else
      var first := TokenEffect(input, live, colors);
      After(first, Parse(input[Length(NextToken(input))..], first.live, colors))
  }

  // ---- The parser as the program runs it. ----

  method FindStringSequenceTerminator(data: string, from: nat) returns (t: Option<Terminator>)
    ensures t == StringTerminator(data, from)
  {
    var i := from;
    while i < |data|
      invariant from <= i
      invariant StringTerminator(data, from) == StringTerminator(data, i)
      decreases |data| - i
    {
      var ch := data[i];
      if ch == BEL || ch == C1_ST {
        return Some(Terminator(i, i + 1, [ch]));
      }
      if ch == ESC {
        if i + 1 >= |data| {
          return None;
        }
        if data[i + 1] == '\\' {
          return Some(Terminator(i, i + 2, [ESC] + "\\"));
        }
      }
      i := i + 1;
    }
    return None;
  }

  method FindCsiSequenceTerminator(data: string, from: nat) returns (end: Option<nat>)
    ensures end == CsiEnd(data, from)
  {
    var i := from;
    while i < |data|
      invariant from <= i
      invariant CsiEnd(data, from) == CsiEnd(data, i)
      decreases |data| - i
    {
      if '@' <= data[i] <= '~' {
        return Some(i + 1);
      }
      i := i + 1;
    }
    return None;
  }

  class TerminalStartupProbeState {
    var pending: string
    var armed: bool
    var codexStep: nat

    constructor ()
      ensures pending == "" && armed && codexStep == 0
    {
      pending, armed, codexStep := "", true, 0;
    }

    /** On the last step this writes `armed := false`, which `Extract` then overwrites. */
    method MaybeConsumeCodexStartupStep(sequence: string, colors: Colors) returns (r: Option<(string, seq<string>)>)
      requires codexStep <= |STEPS|
      modifies this`codexStep, this`armed
      ensures
        var e := StepEffect(sequence, Live(true, old(codexStep)), colors);
        if e.None? then r.None? && codexStep == old(codexStep) && armed == old(armed)
        else r == Some((e.value.cleaned, e.value.replies)) && codexStep == e.value.live.codexStep &&
             armed == (old(armed) && codexStep < |STEPS|)
    {
      if codexStep >= |STEPS| || sequence != STEPS[codexStep].sequence {
        return None;
      }
      var step := STEPS[codexStep];
      codexStep := codexStep + 1;
      var reply := BuildReply(step.answer, colors);
      var replies := if reply.Some? then [reply.value] else [];
      var cleaned := if step.answer.Passthrough? then sequence else if reply.Some? then "" else sequence;
      if codexStep >= |STEPS| {
        armed := false;
      }
      return Some((cleaned, replies));
    }

    /** The treatment of a complete CSI sequence; `live` is the caller's copy of `armed`. */
    method TakeCsi(sequence: string, live: bool, colors: Colors)
      returns (cleaned: string, replies: seq<string>, live': bool)
      requires codexStep <= |STEPS|
      modifies this`codexStep, this`armed
      ensures codexStep <= |STEPS|
      ensures Effect(cleaned, replies, Live(live', codexStep)) ==
        CsiEffect(sequence, Live(live, old(codexStep)), colors)
    {
      live' := live;
      var startup := None;
      if live { startup := MaybeConsumeCodexStartupStep(sequence, colors); }
      if startup.Some? {
        cleaned, replies := startup.value.0, startup.value.1;
      } else {
        if live { live' := false; codexStep := 0; }
        cleaned, replies := sequence, [];
      }
    }

    /** The treatment of a complete control string. */
    method TakeString(
        sequence: string, introducer: char, content: string, terminator: string, live: bool, colors: Colors)
      returns (cleaned: string, replies: seq<string>, live': bool)
      requires codexStep <= |STEPS|
      modifies this`codexStep, this`armed
      ensures codexStep <= |STEPS|
      ensures Effect(cleaned, replies, Live(live', codexStep)) ==
        StringEffect(sequence, introducer, content, terminator, Live(live, old(codexStep)), colors)
    {
      live' := live;
      cleaned, replies := sequence, [];
      var startup := None;
      if live { startup := MaybeConsumeCodexStartupStep(sequence, colors); }
      if startup.Some? {
        cleaned, replies := startup.value.0, startup.value.1;
      } else if live && codexStep > 0 && introducer == ']' && IsTitle(content) {
      } else if live && codexStep == 0 && introducer == ']' && content == "11;?" && terminator == [BEL] {
        var reply := BackgroundReply(colors);
        if reply.Some? { cleaned, replies := "", [reply.value]; }
      } else if live {
        live' := false;
        codexStep := 0;
      }
    }

    /** One round of the loop at position `i`: None when what is left is unfinished. */
    method TakeToken(input: string, i: nat, live: bool, colors: Colors)
      returns (end: Option<nat>, cleaned: string, replies: seq<string>, live': bool)
      requires i < |input| && codexStep <= |STEPS|
      modifies this`codexStep, this`armed
      ensures codexStep <= |STEPS|
      ensures end.None? <==> NextToken(input[i..]).Incomplete?
      ensures end.None? ==> cleaned == "" && replies == [] && live' == live && codexStep == old(codexStep)
      ensures end.Some? ==>
        end.value == i + Length(NextToken(input[i..])) &&
        Effect(cleaned, replies, Live(live', codexStep)) ==
          TokenEffect(input[i..], Live(live, old(codexStep)), colors)
    {
      ghost var rest := input[i..];
      cleaned, replies, live' := "", [], live;
      var ch := input[i];
      if ch != ESC || (i + 1 < |input| && input[i + 1] != '[' && input[i + 1] != ']'
                       && input[i + 1] != 'P' && input[i + 1] != '_') {
        if live { live' := false; codexStep := 0; }
        return Some(i + 1), [ch], [], live';
      }
      if i + 1 >= |input| {
        return None, "", [], live;
      }
      if input[i + 1] == '[' {
        var csiEnd := FindCsiSequenceTerminator(input, i + 2);
        CsiEndShift(input, i, 2);
        if csiEnd.None? {
          return None, "", [], live;
        }
        end := csiEnd;
        assert input[i..end.value] == rest[..end.value - i];
        cleaned, replies, live' := TakeCsi(input[i..end.value], live, colors);
      } else {
        end, cleaned, replies, live' := TakeControlString(input, i, live, colors);
      }
    }

    /** The same for a position that opens a control string. */
    method TakeControlString(input: string, i: nat, live: bool, colors: Colors)
      returns (end: Option<nat>, cleaned: string, replies: seq<string>, live': bool)
      requires i + 1 < |input| && input[i] == ESC && input[i + 1] in {']', 'P', '_'} && codexStep <= |STEPS|
      modifies this`codexStep, this`armed
      ensures codexStep <= |STEPS|
      ensures
        match StringTerminator(input[i..], 2)
        case None => end.None? && cleaned == "" && replies == [] && live' == live && codexStep == old(codexStep)
        case Some(t) =>
          end == Some(i + t.end) &&
          Effect(cleaned, replies, Live(live', codexStep)) ==
            StringEffect(input[i..][..t.end], input[i + 1], input[i..][2..t.start], t.text,
                         Live(live, old(codexStep)), colors)
    {
      ghost var rest := input[i..];
      var terminator := FindStringSequenceTerminator(input, i + 2);
      StringTerminatorShift(input, i, 2);
      if terminator.None? {
        return None, "", [], live;
      }
      var t := terminator.value;
      end := Some(t.end);
      assert input[i..t.end] == rest[..t.end - i] && input[i + 2..t.start] == rest[2..t.start - i];
      cleaned, replies, live' :=
        TakeString(input[i..t.end], input[i + 1], input[i + 2..t.start], t.text, live, colors);
    }

    method Extract(chunk: string, colors: Colors) returns (cleaned: string, replies: seq<string>)
      requires codexStep <= |STEPS|
      modifies this
      ensures codexStep <= |STEPS|
      ensures Outcome(cleaned, replies, Live(armed, codexStep), pending) ==
        Parse(old(pending) + chunk, Live(old(armed), old(codexStep)), colors)
    {
      var input := pending + chunk;
      ghost var whole := Parse(input, Live(armed, codexStep), colors);
      replies, cleaned := [], "";
      var i := 0;
      var live := armed;
      pending := "";
      Begin(input, Live(live, codexStep), colors);
      while i < |input|
        invariant 0 <= i <= |input| && codexStep <= |STEPS| && pending == ""
        invariant Reached(whole, input[i..], colors, Effect(cleaned, replies, Live(live, codexStep)))
        decreases |input| - i
      {
        ghost var before := Effect(cleaned, replies, Live(live, codexStep));
        var end, part, more, live' := TakeToken(input, i, live, colors);
        if end.None? {
          pending := input[i..];
          break;
        }
        Advance(whole, input[i..], colors, before);
        assert input[i..][end.value - i..] == input[end.value..];
        cleaned, replies, live, i := cleaned + part, replies + more, live', end.value;
      }
      armed := live;
      Finish(whole, input[i..], colors, Effect(cleaned, replies, Live(live, codexStep)));
    }
  }

  /** What the loop has done so far, followed by what is left, is the whole. */
  ghost predicate Reached(whole: Outcome, rest: string, colors: Colors, done: Effect) {
    whole == After(done, Parse(rest, done.live, colors))
  }

  lemma Begin(input: string, live: Live, colors: Colors)
    ensures Reached(Parse(input, live, colors), input[0..], colors, Effect("", [], live))
  {
    var whole := Parse(input, live, colors);
    assert input[0..] == input && "" + whole.cleaned == whole.cleaned && [] + whole.replies == whole.replies;
  }

  lemma AfterAssociates(e: Effect, f: Effect, o: Outcome)
    ensures After(e, After(f, o)) == After(Effect(e.cleaned + f.cleaned, e.replies + f.replies, f.live), o)
  {
    assert e.cleaned + (f.cleaned + o.cleaned) == (e.cleaned + f.cleaned) + o.cleaned;
    assert e.replies + (f.replies + o.replies) == (e.replies + f.replies) + o.replies;
  }

  lemma Advance(whole: Outcome, rest: string, colors: Colors, done: Effect)
    requires Reached(whole, rest, colors, done)
    requires rest != [] && !NextToken(rest).Incomplete?
    ensures var e := TokenEffect(rest, done.live, colors);
      Reached(whole, rest[Length(NextToken(rest))..], colors,
              Effect(done.cleaned + e.cleaned, done.replies + e.replies, e.live))
  {
    var e := TokenEffect(rest, done.live, colors);
    var tail := Parse(rest[Length(NextToken(rest))..], e.live, colors);
    assert Parse(rest, done.live, colors) == After(e, tail);
    AfterAssociates(done, e, tail);
  }

  lemma Finish(whole: Outcome, rest: string, colors: Colors, done: Effect)
    requires Reached(whole, rest, colors, done)
    requires rest == [] || NextToken(rest).Incomplete?
    ensures whole == Outcome(done.cleaned, done.replies, done.live, rest)
  {
    assert done.cleaned + "" == done.cleaned && done.replies + [] == done.replies;
  }

  // ---- The finders look only at what follows their start. ----

  lemma {:induction false} CsiEndShift(data: string, base: nat, from: nat)
    requires base <= |data|
    ensures CsiEnd(data, base + from) ==
      match CsiEnd(data[base..], from) case None => None case Some(e) => Some(base + e)
    decreases |data| - from
  {
    if base + from < |data| {
      CsiEndShift(data, base, from + 1);
    }
  }

  lemma {:induction false} StringTerminatorShift(data: string, base: nat, from: nat)
    requires base <= |data|
    ensures StringTerminator(data, base + from) ==
      match StringTerminator(data[base..], from)
      case None => None
      case Some(t) => Some(Terminator(base + t.start, base + t.end, t.text))
    decreases |data| - from
  {
    if base + from < |data| {
      StringTerminatorShift(data, base, from + 1);
    }
  }
}
