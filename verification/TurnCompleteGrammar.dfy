/** The bell extractor against a grammar of well-formed streams: control functions in 7-bit and
    8-bit form, control strings, and bells between them (sections 5.3, 5.4 and 5.6 of ECMA-48). */
module TurnCompleteGrammar {
  import opened TurnCompleteSignal
  import opened TurnCompleteRuns

  datatype StringEnd = BellEnd | EscapeEnd | C1End

  datatype Segment =
    | Plain(c: char)
    | BareBell
    | Escape(c: char)
    | ControlSequence(eightBit: bool, params: string, final: char)
    | OperatingSystemCommand(eightBit: bool, text: string, end: StringEnd)
    | DeviceControl(eightBit: bool, text: string, end: StringEnd)

  predicate Introduces(c: char) {
    c == '\U{001b}' || c == '\U{009b}' || c == '\U{0090}' || c == '\U{009d}'
  }

  /** The final byte of a control sequence. */
  predicate Ends(c: char) {
    '\U{0040}' <= c <= '\U{007e}'
  }

  /** A bell ends an operating system command, but not a device control string. */
  predicate WellFormed(s: Segment) {
    match s
    case Plain(c) => !Introduces(c) && c != '\U{0007}'
    case BareBell => true
    case Escape(c) => c != ']' && c != '[' && c != 'P'
    case ControlSequence(_, params, final) =>
      Ends(final) && forall i :: 0 <= i < |params| ==> !Introduces(params[i]) && !Ends(params[i])
    case OperatingSystemCommand(_, text, _) =>
      forall i :: 0 <= i < |text| ==> !Introduces(text[i]) && text[i] != '\U{0007}' && text[i] != '\U{009c}'
    case DeviceControl(_, text, end) =>
      !end.BellEnd? && forall i :: 0 <= i < |text| ==> !Introduces(text[i]) && text[i] != '\U{009c}'
  }

  function RenderEnd(end: StringEnd): string {
    match end
    case BellEnd => ['\U{0007}']
    case EscapeEnd => ['\U{001b}', '\\']
    case C1End => ['\U{009c}']
  }

  function Render(s: Segment): string {
    match s
    case Plain(c) => [c]
    case BareBell => ['\U{0007}']
    case Escape(c) => ['\U{001b}', c]
    case ControlSequence(eightBit, params, final) =>
      (if eightBit then ['\U{009b}'] else ['\U{001b}', '[']) + params + [final]
    case OperatingSystemCommand(eightBit, text, end) =>
      (if eightBit then ['\U{009d}'] else ['\U{001b}', ']']) + text + RenderEnd(end)
    case DeviceControl(eightBit, text, end) =>
      (if eightBit then ['\U{0090}'] else ['\U{001b}', 'P']) + text + RenderEnd(end)
  }

  function Stream(segments: seq<Segment>): string {
    if segments == [] then "" else Render(segments[0]) + Stream(segments[1..])
  }

  function WithoutBells(segments: seq<Segment>): seq<Segment> {
    if segments == [] then []
    else (if segments[0].BareBell? then [] else [segments[0]]) + WithoutBells(segments[1..])
  }

  // ---- One segment. ----

  /** The data passes unchanged and leaves the parser in `g`. */
  predicate Passes(data: string, f: Flags, g: Flags) {
    Extracted(data, f) == Extraction(data, 0, g)
  }

  lemma PassesTwice(a: string, b: string, f: Flags, g: Flags, h: Flags)
    requires Passes(a, f, g) && Passes(b, g, h)
    ensures Passes(a + b, f, h)
  {
    ExtractionSplits(a, b, f);
  }

  /** Three parts of a sequence or string: its introducer, its body and its end. */
  lemma PassesThrice(a: string, b: string, c: string, f: Flags, g: Flags, h: Flags)
    requires Passes(a, f, g) && Passes(b, g, g) && Passes(c, g, h)
    ensures Passes(a + b + c, f, h)
  {
    PassesTwice(a, b, f, g, g);
    PassesTwice(a + b, c, f, g, h);
  }

  lemma OneCharPasses(c: char, f: Flags)
    requires !f.pendingEsc && c != ESC && !IsBareBell(f, c)
    ensures Passes([c], f, ExtractNext(f, c))
  {
    OneChar(c, f);
  }

  lemma EscapePasses(c: char, f: Flags)
    requires !f.pendingEsc
    ensures Passes([ESC, c], f, AfterEscape(f.(pendingEsc := true), c))
  {
    var held := f.(pendingEsc := true);
    OneChar(ESC, f);
    OneChar(c, held);
    assert [ESC] + [c] == [ESC, c];
    ExtractionSplits([ESC], [c], f);
    assert "" + [ESC, c] == [ESC, c];
  }

  lemma {:induction false} BodyPasses(body: string, f: Flags)
    requires !f.pendingEsc
    requires forall i :: 0 <= i < |body| ==>
      body[i] != ESC && !IsBareBell(f, body[i]) && ExtractNext(f, body[i]) == f
    ensures Passes(body, f, f)
  {
    if body != "" {
      OneCharPasses(body[0], f);
      BodyPasses(body[1..], f);
      PassesTwice([body[0]], body[1..], f, f, f);
      assert [body[0]] + body[1..] == body;
    }
  }

  lemma StringPasses(introducer: string, text: string, end: StringEnd, inside: Flags)
    requires inside == GROUND.(inOsc := true) || (inside == GROUND.(inDcs := true) && !end.BellEnd?)
    requires Passes(introducer, GROUND, inside)
    requires forall i :: 0 <= i < |text| ==>
      !Introduces(text[i]) && text[i] != C1_ST && (inside.inOsc ==> text[i] != BELL)
    ensures Passes(introducer + text + RenderEnd(end), GROUND, GROUND)
  {
    BodyPasses(text, inside);
    match end {
      case BellEnd => OneCharPasses(BELL, inside);
      case EscapeEnd => EscapePasses('\\', inside);
      case C1End => OneCharPasses(C1_ST, inside);
    }
    PassesThrice(introducer, text, RenderEnd(end), GROUND, inside, GROUND);
  }

  lemma SequencePasses(introducer: string, params: string, final: char)
    requires WellFormed(ControlSequence(true, params, final))
    requires Passes(introducer, GROUND, GROUND.(inCsi := true))
    ensures Passes(introducer + params + [final], GROUND, GROUND)
  {
    var inside := GROUND.(inCsi := true);
    BodyPasses(params, inside);
    OneCharPasses(final, inside);
    PassesThrice(introducer, params, [final], GROUND, inside, GROUND);
  }

  lemma SegmentPasses(s: Segment)
    requires WellFormed(s) && !s.BareBell?
    ensures Passes(Render(s), GROUND, GROUND)
  {
    match s
    case Plain(c) => OneCharPasses(c, GROUND);
    case Escape(c) => EscapePasses(c, GROUND);
    case ControlSequence(eightBit, params, final) =>
      if eightBit { OneCharPasses(C1_CSI, GROUND); } else { EscapePasses('[', GROUND); }
      SequencePasses(if eightBit then [C1_CSI] else [ESC, '['], params, final);
    case OperatingSystemCommand(eightBit, text, end) =>
      if eightBit { OneCharPasses(C1_OSC, GROUND); } else { EscapePasses(']', GROUND); }
      StringPasses(if eightBit then [C1_OSC] else [ESC, ']'], text, end, GROUND.(inOsc := true));
    case DeviceControl(eightBit, text, end) =>
      if eightBit { OneCharPasses(C1_DCS, GROUND); } else { EscapePasses('P', GROUND); }
      StringPasses(if eightBit then [C1_DCS] else [ESC, 'P'], text, end, GROUND.(inDcs := true));
  }

  // ---- Whole streams. ----

  lemma BellThen(rest: string, e: Extraction)
    requires Extracted(rest, GROUND) == e
    ensures Extracted([BELL] + rest, GROUND) == Extraction(e.cleaned, e.count + 1, e.flags)
  {
    ExtractionSplits([BELL], rest, GROUND);
    OneChar(BELL, GROUND);
    assert "" + e.cleaned == e.cleaned;
  }

  lemma SegmentThen(segment: string, rest: string, e: Extraction)
    requires Passes(segment, GROUND, GROUND) && Extracted(rest, GROUND) == e
    ensures Extracted(segment + rest, GROUND) == Extraction(segment + e.cleaned, e.count, e.flags)
  {
    ExtractionSplits(segment, rest, GROUND);
  }

  function Bells(segments: seq<Segment>): nat {
    if segments == [] then 0 else (if segments[0].BareBell? then 1 else 0) + Bells(segments[1..])
  }

  /** On every well-formed stream the extractor removes exactly the bells between the segments,
      whatever bells sequences and strings hold, and passes all else. */
  lemma {:induction false} ExtractsExactlyTheBareBells(segments: seq<Segment>)
    requires forall i :: 0 <= i < |segments| ==> WellFormed(segments[i])
    ensures Extracted(Stream(segments), GROUND) == Extraction(Stream(WithoutBells(segments)), Bells(segments), GROUND)
  {
    if segments != [] {
      var first, rest := segments[0], segments[1..];
      var e := Extraction(Stream(WithoutBells(rest)), Bells(rest), GROUND);
      ExtractsExactlyTheBareBells(rest);
      if first.BareBell? {
        BellThen(Stream(rest), e);
        assert [] + WithoutBells(rest) == WithoutBells(rest);
      } else {
        SegmentPasses(first);
        SegmentThen(Render(first), Stream(rest), e);
        assert ([first] + WithoutBells(rest))[1..] == WithoutBells(rest);
      }
    }
  }

  // ---- The tracker on text, white space and bells. ----

  /** White space takes no room, and controls do not print. */
  predicate Prints(c: char) {
    && '\U{0020}' < c && !('\U{007f}' <= c <= '\U{00a0}') && c != '\U{1680}' && !('\U{2000}' <= c <= '\U{200a}')
    && c !in {'\U{2028}', '\U{2029}', '\U{202f}', '\U{205f}', '\U{3000}', '\U{feff}'}
  }

  lemma VisibleIsPrinted(c: char)
    ensures IsVisible(GROUND, c) <==> Prints(c)
  {
    assert IsControl(c) <==> c < '\U{0020}' || '\U{007f}' <= c <= '\U{009f}';
  }

  lemma {:induction false} PlainStreamsStayOutside(data: string, i: nat)
    requires i <= |data| && forall k :: 0 <= k < |data| ==> !Introduces(data[k])
    ensures FlagsAt(data, GROUND, i) == GROUND
  {
    if i > 0 { PlainStreamsStayOutside(data, i - 1); }
  }

  predicate PrintsWithin(data: string, from: nat, to: nat)
    requires to <= |data|
  {
    exists i :: from <= i < to && Prints(data[i])
  }

  /** Where nothing opens a sequence or a string, the tracker counts exactly the bells with nothing printed
      before them or nothing printed after them. */
  lemma PlainBellsCount(data: string)
    requires forall k :: 0 <= k < |data| ==> !Introduces(data[k])
    ensures EligibleBells(data, GROUND) ==
      set i: nat | i < |data| && data[i] == '\U{0007}' &&
        (!PrintsWithin(data, 0, i) || !PrintsWithin(data, i + 1, |data|))
  {
    forall i | 0 <= i < |data|
      ensures VisibleAt(data, GROUND, i) <==> Prints(data[i])
      ensures BellAt(data, GROUND, i) <==> data[i] == '\U{0007}'
    {
      PlainStreamsStayOutside(data, i);
      VisibleIsPrinted(data[i]);
    }
    forall from: nat, to: nat | to <= |data|
      ensures VisibleWithin(data, GROUND, from, to) <==> PrintsWithin(data, from, to)
    {
      if VisibleWithin(data, GROUND, from, to) {
        var i :| from <= i < to && VisibleAt(data, GROUND, i);
        assert Prints(data[i]);
      }
      if PrintsWithin(data, from, to) {
        var i :| from <= i < to && Prints(data[i]);
        assert VisibleAt(data, GROUND, i);
      }
    }
  }
}
