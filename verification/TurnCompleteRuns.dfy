/** What the two bell parsers keep over whole streams, and when they agree. */
module TurnCompleteRuns {
  import opened Basics
  import opened TurnCompleteSignal

  // ---- Chunking does not matter to the extractor. ----

  lemma {:induction false} SplitParts(a: string, b: string, f: Flags)
    returns (whole: Extraction, first: Extraction, rest: Extraction)
    ensures whole == Extracted(a + b, f) && first == Extracted(a, f) && rest == Extracted(b, first.flags)
    ensures whole == Then(first.cleaned, first.count, rest)
    decreases |a|
  {
    whole, first := Extracted(a + b, f), Extracted(a, f);
    rest := Extracted(b, first.flags);
    if a == "" {
      assert a + b == b && "" + rest.cleaned == rest.cleaned;
    } else {
      var inner, tail, last := SplitParts(a[1..], b, ExtractNext(f, a[0]));
      assert (a + b)[1..] == a[1..] + b;
      ThenAssociates(Emitted(f, a[0]), if IsBareBell(f, a[0]) then 1 else 0, tail.cleaned, tail.count, last);
    }
  }

  /** Extracting a prefix, then the rest from the flags it left, is extracting the whole. */
  lemma ExtractionSplits(a: string, b: string, f: Flags)
    ensures
      var first := Extracted(a, f);
      Extracted(a + b, f) == Then(first.cleaned, first.count, Extracted(b, first.flags))
  {
    var whole, first, rest := SplitParts(a, b, f);
  }

  /** The chunks one by one, each continuing from the flags the one before left. */
  function ExtractedRun(chunks: seq<string>, f: Flags): Extraction
    decreases |chunks|
  {
    if chunks == [] then Extraction("", 0, f) else
    var first := Extracted(chunks[0], f);
    Then(first.cleaned, first.count, ExtractedRun(chunks[1..], first.flags))
  }

  lemma {:induction false} ChunkingDoesNotMatter(chunks: seq<string>, f: Flags)
    ensures ExtractedRun(chunks, f) == Extracted(Flatten(chunks), f)
    decreases |chunks|
  {
    if chunks != [] {
      ExtractionSplits(chunks[0], Flatten(chunks[1..]), f);
      ChunkingDoesNotMatter(chunks[1..], Extracted(chunks[0], f).flags);
    }
  }

  // ---- The stream is conserved. ----

  function Held(f: Flags): string {
    if f.pendingEsc then [ESC] else ""
  }

  /** The extractor's flags before the character at `i`. */
  function ExtractFlagsAt(data: string, f: Flags, i: nat): Flags
    requires i <= |data|
  {
    if i == 0 then f else ExtractNext(ExtractFlagsAt(data, f, i - 1), data[i - 1])
  }

  predicate BareBellAt(data: string, f: Flags, i: nat)
    requires i < |data|
  {
    IsBareBell(ExtractFlagsAt(data, f, i), data[i])
  }

  /** `data[..n]` without the bells met outside every control sequence and control string. */
  function WithoutBareBells(data: string, f: Flags, n: nat): string
    requires n <= |data|
  {
    if n == 0 then "" else
    WithoutBareBells(data, f, n - 1) + if BareBellAt(data, f, n - 1) then "" else [data[n - 1]]
  }

  ghost function BareBells(data: string, f: Flags, n: nat): set<nat>
    requires n <= |data|
  {
    set i: nat | i < n && BareBellAt(data, f, i)
  }

  lemma BareBellsStep(data: string, f: Flags, n: nat)
    requires 0 < n <= |data|
    ensures |BareBells(data, f, n)| == |BareBells(data, f, n - 1)| + if BareBellAt(data, f, n - 1) then 1 else 0
  {
    var here := if BareBellAt(data, f, n - 1) then {n - 1} else {};
    assert BareBells(data, f, n) == BareBells(data, f, n - 1) + here;
  }

  lemma OneChar(ch: char, f: Flags)
    ensures Extracted([ch], f) == Extraction(Emitted(f, ch), if IsBareBell(f, ch) then 1 else 0, ExtractNext(f, ch))
    ensures Held(f) + (if IsBareBell(f, ch) then "" else [ch]) == Emitted(f, ch) + Held(ExtractNext(f, ch))
  {
    assert [ch][1..] == "" && Emitted(f, ch) + "" == Emitted(f, ch);
  }

  lemma PrefixStep(data: string, f: Flags, n: nat)
    requires 0 < n <= |data|
    ensures
      var before := Extracted(data[..n - 1], f);
      var ch := data[n - 1];
      Extracted(data[..n], f) == Extraction(
        before.cleaned + Emitted(before.flags, ch),
        before.count + (if IsBareBell(before.flags, ch) then 1 else 0),
        ExtractNext(before.flags, ch))
  {
    assert data[..n] == data[..n - 1] + [data[n - 1]];
    ExtractionSplits(data[..n - 1], [data[n - 1]], f);
    OneChar(data[n - 1], Extracted(data[..n - 1], f).flags);
  }

  lemma Regroup(cleaned: string, out: string, held: string, held': string, start: string, kept: string, ch: string)
    requires cleaned + held == start + kept && held + ch == out + held'
    ensures (cleaned + out) + held' == start + (kept + ch)
  {
    assert (cleaned + out) + held' == cleaned + (out + held') == (cleaned + held) + ch;
  }

  /** What the extraction of a prefix, with `kept` text and `bells` bare bells in it, must be. */
  predicate Accounts(e: Extraction, f: Flags, kept: string, bells: nat, n: nat) {
    && e.cleaned + Held(e.flags) == Held(f) + kept
    && e.count == bells
    && |kept| + e.count == n
  }

  lemma OneMoreAccounts(before: Extraction, f: Flags, text: string, earlier: nat, n: nat, ch: char)
      returns (e: Extraction, kept: string, bells: nat)
    requires Accounts(before, f, text, earlier, n)
    ensures var isBell := IsBareBell(before.flags, ch);
      && e == Extraction(before.cleaned + Emitted(before.flags, ch), before.count + (if isBell then 1 else 0),
                         ExtractNext(before.flags, ch))
      && kept == text + (if isBell then "" else [ch]) && bells == earlier + (if isBell then 1 else 0)
      && Accounts(e, f, kept, bells, n + 1)
  {
    var isBell := IsBareBell(before.flags, ch);
    e := Extraction(before.cleaned + Emitted(before.flags, ch), before.count + (if isBell then 1 else 0),
                    ExtractNext(before.flags, ch));
    kept, bells := text + (if isBell then "" else [ch]), earlier + if isBell then 1 else 0;
    OneChar(ch, before.flags);
    Regroup(before.cleaned, Emitted(before.flags, ch), Held(before.flags), Held(e.flags),
            Held(f), text, if isBell then "" else [ch]);
  }

  lemma {:induction false} PrefixConserves(data: string, f: Flags, n: nat)
    returns (e: Extraction, kept: string, bells: nat)
    requires n <= |data|
    ensures e == Extracted(data[..n], f) && e.flags == ExtractFlagsAt(data, f, n)
    ensures kept == WithoutBareBells(data, f, n) && bells == |BareBells(data, f, n)|
    ensures Accounts(e, f, kept, bells, n)
    decreases n
  {
    if n == 0 {
      e, kept, bells := Extracted("", f), "", 0;
      assert "" + Held(f) == Held(f) + "";
    } else {
      var before, text, earlier := PrefixConserves(data, f, n - 1);
      e, kept, bells := OneMoreAccounts(before, f, text, earlier, n - 1, data[n - 1]);
      PrefixStep(data, f, n);
      BareBellsStep(data, f, n);
    }
  }

  /** The held-back escape and the data, less exactly the counted bells, each met outside every
      control sequence and string, are the cleaned text and the new held-back escape. */
  lemma ExtractionConserves(data: string, f: Flags)
    ensures
      var e := Extracted(data, f);
      && e.cleaned + Held(e.flags) == Held(f) + WithoutBareBells(data, f, |data|)
      && e.count == |BareBells(data, f, |data|)|
      && |WithoutBareBells(data, f, |data|)| + e.count == |data|
  {
    assert data[..|data|] == data;
    var e, kept, bells := PrefixConserves(data, f, |data|);
  }

  // ---- The tracker's count in closed form. ----

  ghost function TrackerBells(data: string, f: Flags): set<nat> {
    set i: nat | i < |data| && BellAt(data, f, i)
  }

  /** All bare bells when nothing is visible; otherwise those before the first visible character
      and those after the last. */
  lemma TrackerCountInClosedForm(data: string, f: Flags, first: nat, last: nat)
    requires VisibleWithin(data, f, 0, |data|) ==>
      first <= last < |data| && VisibleAt(data, f, first) && VisibleAt(data, f, last) &&
      !VisibleWithin(data, f, 0, first) && !VisibleWithin(data, f, last + 1, |data|)
    ensures !VisibleWithin(data, f, 0, |data|) ==> |EligibleBells(data, f)| == |TrackerBells(data, f)|
    ensures VisibleWithin(data, f, 0, |data|) ==>
      |EligibleBells(data, f)| ==
        |(set i | i in TrackerBells(data, f) && i < first)| + |(set i | i in TrackerBells(data, f) && i > last)|
  {
    var bells := TrackerBells(data, f);
    if !VisibleWithin(data, f, 0, |data|) {
      assert EligibleBells(data, f) == bells;
    } else {
      var leading := set i | i in bells && i < first;
      var trailing := set i | i in bells && i > last;
      forall i ensures i in EligibleBells(data, f) <==> i in leading + trailing {
        if i in bells {
          assert i != first && i != last;
          assert !VisibleWithin(data, f, 0, i) <==> i < first;
          assert !VisibleWithin(data, f, i + 1, |data|) <==> i > last;
        }
      }
      assert EligibleBells(data, f) == leading + trailing;
    }
  }

  // ---- When the extractor and the tracker agree. ----

  /** What the parsers treat differently, outside an escape. A one-byte introducer opens its sequence or
      string for the extractor wherever it stands, for the tracker only outside the others. Inside a
      control sequence and a string at once, the extractor looks for the end of the sequence and the
      tracker for the end of the string. */
  predicate Differs(f: Flags, ch: char) {
    && !f.pendingEsc && ch != ESC
    && if ch == C1_CSI then !f.inCsi && (f.inOsc || f.inDcs)
       else if ch == C1_DCS then !f.inDcs && (f.inOsc || f.inCsi)
       else if ch == C1_OSC then !f.inOsc && (f.inCsi || f.inDcs)
       else if f.inOsc then f.inCsi && (IsFinal(ch) || ch == BELL || ch == C1_ST)
       else f.inCsi && f.inDcs && (IsFinal(ch) || ch == C1_ST)
  }

  /** From any flags the parsers take different steps exactly there. */
  lemma StepsAgreeExactly(f: Flags, ch: char)
    ensures ExtractNext(f, ch) == TrackNext(f, ch) <==> !Differs(f, ch)
  {
  }

  /** Nothing before position `n` is treated differently, by the tracker's flags. */
  predicate NothingDiffers(data: string, f: Flags, n: nat)
    requires n <= |data|
  {
    n == 0 || (NothingDiffers(data, f, n - 1) && !Differs(FlagsAt(data, f, n - 1), data[n - 1]))
  }

  /** The flags are the same before the first `n` characters, each, and after them. */
  predicate FlagsAgreeUpTo(data: string, f: Flags, n: nat)
    requires n <= |data|
  {
    ExtractFlagsAt(data, f, n) == FlagsAt(data, f, n) && (n == 0 || FlagsAgreeUpTo(data, f, n - 1))
  }

  /** From any flags and on any stream, the parsers have the same flags before every character and at
      the end if and only if nothing is treated differently. */
  lemma {:induction false} FlagsAgreeExactly(data: string, f: Flags, n: nat)
    requires n <= |data|
    ensures FlagsAgreeUpTo(data, f, n) <==> NothingDiffers(data, f, n)
  {
    if n > 0 {
      FlagsAgreeExactly(data, f, n - 1);
      StepsAgreeExactly(FlagsAt(data, f, n - 1), data[n - 1]);
    }
  }

  lemma {:induction false} AgreementIsKept(data: string, f: Flags, n: nat, i: nat)
    requires i <= n <= |data| && FlagsAgreeUpTo(data, f, n)
    ensures ExtractFlagsAt(data, f, i) == FlagsAt(data, f, i)
  {
    if i < n { AgreementIsKept(data, f, n - 1, i); }
  }

  /** Where nothing is treated differently the extractor deletes exactly the bells the tracker
      considers, and both end in the same state. */
  lemma ParsersAgree(data: string, f: Flags)
    requires NothingDiffers(data, f, |data|)
    ensures Extracted(data, f).flags == FlagsAt(data, f, |data|)
    ensures Extracted(data, f).count == |TrackerBells(data, f)|
  {
    assert data[..|data|] == data;
    var e, kept, bells := PrefixConserves(data, f, |data|);
    FlagsAgreeExactly(data, f, |data|);
    forall i | 0 <= i <= |data| ensures ExtractFlagsAt(data, f, i) == FlagsAt(data, f, i) {
      AgreementIsKept(data, f, |data|, i);
    }
    assert BareBells(data, f, |data|) == TrackerBells(data, f);
  }

  // ---- What that means for streams that start outside everything. ----

  /** Inside at most one kind of sequence or string. */
  predicate Simple(f: Flags) {
    !(f.inOsc && f.inCsi) && !(f.inOsc && f.inDcs) && !(f.inCsi && f.inDcs)
  }

  /** A one-byte introducer arrives inside a sequence or string of another kind. */
  predicate C1Nested(f: Flags, ch: char) {
    !f.pendingEsc &&
    ((ch == C1_CSI && (f.inOsc || f.inDcs)) ||
     (ch == C1_DCS && (f.inOsc || f.inCsi)) ||
     (ch == C1_OSC && (f.inCsi || f.inDcs)))
  }

  /** A two-byte string introducer arrives inside an unfinished control sequence. */
  predicate EscapeNested(f: Flags, ch: char) {
    f.pendingEsc && f.inCsi && !f.inOsc && !f.inDcs && (ch == ']' || ch == 'P')
  }

  /** The tracker enters a second construct only by a nested two-byte introducer, and inside at most one
      the parsers differ exactly on a nested one-byte introducer. */
  lemma SimpleSteps(f: Flags, ch: char)
    requires Simple(f)
    ensures Differs(f, ch) <==> C1Nested(f, ch)
    ensures Simple(TrackNext(f, ch)) <==> !EscapeNested(f, ch)
  {
  }

  predicate NoEscapeNested(data: string, f: Flags, n: nat)
    requires n <= |data|
  {
    n == 0 || (NoEscapeNested(data, f, n - 1) && !EscapeNested(FlagsAt(data, f, n - 1), data[n - 1]))
  }

  predicate NoC1Nested(data: string, f: Flags, n: nat)
    requires n <= |data|
  {
    n == 0 || (NoC1Nested(data, f, n - 1) && !C1Nested(FlagsAt(data, f, n - 1), data[n - 1]))
  }

  lemma {:induction false} TrackStaysSimple(data: string, f: Flags, n: nat) returns (g: Flags)
    requires n <= |data| && Simple(f) && NoEscapeNested(data, f, n)
    ensures g == FlagsAt(data, f, n) && Simple(g)
  {
    if n == 0 {
      g := f;
    } else {
      var before := TrackStaysSimple(data, f, n - 1);
      SimpleSteps(before, data[n - 1]);
      g := TrackNext(before, data[n - 1]);
    }
  }

  /** On a stream where no string introducer interrupts a control sequence, only nested one-byte
      introducers are treated differently. */
  lemma {:induction false} OnlyNestingDiffers(data: string, f: Flags, n: nat)
    requires n <= |data| && Simple(f) && NoEscapeNested(data, f, n)
    ensures NothingDiffers(data, f, n) <==> NoC1Nested(data, f, n)
  {
    if n > 0 {
      var k := n - 1;
      OnlyNestingDiffers(data, f, k);
      var before := TrackStaysSimple(data, f, k);
      SimpleSteps(before, data[k]);
    }
  }

  // ---- Two streams on which the parsers disagree. ----

  /** After a string introducer, a one-byte CSI and two bells the tracker sees one bare bell and the
      extractor none. */
  lemma ParsersDisagreeOnNesting()
    ensures var data := [ESC, ']', C1_CSI, BELL, BELL];
      Extracted(data, GROUND).count == 0 && EligibleBells(data, GROUND) == {4}
  {
    var data := [ESC, ']', C1_CSI, BELL, BELL];
    ExtractionConserves(data, GROUND);
    assert ExtractFlagsAt(data, GROUND, 1) == GROUND.(pendingEsc := true);
    assert ExtractFlagsAt(data, GROUND, 2) == GROUND.(inOsc := true);
    assert ExtractFlagsAt(data, GROUND, 3) == GROUND.(inOsc := true, inCsi := true);
    assert ExtractFlagsAt(data, GROUND, 4) == GROUND.(inOsc := true, inCsi := true);
    assert BareBells(data, GROUND, 5) == {};
    assert FlagsAt(data, GROUND, 1) == GROUND.(pendingEsc := true);
    assert FlagsAt(data, GROUND, 2) == GROUND.(inOsc := true);
    assert FlagsAt(data, GROUND, 3) == GROUND.(inOsc := true);
    assert FlagsAt(data, GROUND, 4) == GROUND;
  }

  /** A control sequence interrupted by a string introducer. */
  const INTERRUPTED: string := [ESC, '[', ESC, ']', BELL, 'm', BELL]

  lemma {:induction false} SevenBitsNestNoC1(data: string, f: Flags, n: nat)
    requires n <= |data| && forall i :: 0 <= i < n ==> data[i] < '\U{0080}'
    ensures NoC1Nested(data, f, n)
  {
    if n > 0 { SevenBitsNestNoC1(data, f, n - 1); }
  }

  lemma InterruptedExtractFlags()
    ensures ExtractFlagsAt(INTERRUPTED, GROUND, 4) == GROUND.(inCsi := true, inOsc := true)
    ensures ExtractFlagsAt(INTERRUPTED, GROUND, 6) == GROUND.(inOsc := true)
  {
    assert ExtractFlagsAt(INTERRUPTED, GROUND, 1) == GROUND.(pendingEsc := true);
    assert ExtractFlagsAt(INTERRUPTED, GROUND, 2) == GROUND.(inCsi := true);
    assert ExtractFlagsAt(INTERRUPTED, GROUND, 3) == GROUND.(inCsi := true, pendingEsc := true);
    assert ExtractFlagsAt(INTERRUPTED, GROUND, 5) == GROUND.(inCsi := true, inOsc := true);
  }

  lemma InterruptedTrackFlags()
    ensures FlagsAt(INTERRUPTED, GROUND, 4) == GROUND.(inCsi := true, inOsc := true)
    ensures FlagsAt(INTERRUPTED, GROUND, 6) == GROUND
  {
    assert FlagsAt(INTERRUPTED, GROUND, 1) == GROUND.(pendingEsc := true);
    assert FlagsAt(INTERRUPTED, GROUND, 2) == GROUND.(inCsi := true);
    assert FlagsAt(INTERRUPTED, GROUND, 3) == GROUND.(inCsi := true, pendingEsc := true);
    assert FlagsAt(INTERRUPTED, GROUND, 5) == GROUND.(inCsi := true);
  }

  /** A stream of 7-bit characters, hence with no one-byte introducer: the tracker counts its last bell and
      the extractor none. */
  lemma ParsersDisagreeInSevenBits()
    ensures forall i :: 0 <= i < |INTERRUPTED| ==> INTERRUPTED[i] < '\U{0080}'
    ensures NoC1Nested(INTERRUPTED, GROUND, |INTERRUPTED|)
    ensures Extracted(INTERRUPTED, GROUND).count == 0 && EligibleBells(INTERRUPTED, GROUND) == {6}
  {
    SevenBitsNestNoC1(INTERRUPTED, GROUND, |INTERRUPTED|);
    InterruptedExtractFlags();
    InterruptedTrackFlags();
    ExtractionConserves(INTERRUPTED, GROUND);
    assert BareBells(INTERRUPTED, GROUND, 7) == {};
  }
}
