/** The turn-complete bell parsers of shared/turn-complete-signal.ts. */
module TurnCompleteSignal {
  import opened Basics

  const BELL := '\U{0007}'
  const ESC := '\U{001b}'
  const C1_ST := '\U{009c}'
  const C1_CSI := '\U{009b}'
  const C1_DCS := '\U{0090}'
  const C1_OSC := '\U{009d}'

  datatype Flags = Flags(inOsc: bool, inCsi: bool, inDcs: bool, pendingEsc: bool)

  const GROUND := Flags(false, false, false, false)

  /** The second character of a two-character escape; the extractor and the tracker agree on it. */
  function AfterEscape(f: Flags, ch: char): Flags {
    var g := f.(pendingEsc := false);
    if f.inOsc && ch == '\\' then g.(inOsc := false)
    else if f.inDcs && ch == '\\' then g.(inDcs := false)
    else if !f.inOsc && !f.inDcs && ch == ']' then g.(inOsc := true)
    else if !f.inOsc && !f.inDcs && ch == '[' then g.(inCsi := true)
    else if !f.inOsc && !f.inDcs && ch == 'P' then g.(inDcs := true)
    else g
  }

  predicate IsFinal(ch: char) { '@' <= ch <= '~' }

  // ---- The extractor as a function. ----

  function ExtractNext(f: Flags, ch: char): Flags {
    if f.pendingEsc then AfterEscape(f, ch)
    else if ch == ESC then f.(pendingEsc := true)
    else if ch == C1_CSI then f.(inCsi := true)
    else if ch == C1_DCS then f.(inDcs := true)
    else if ch == C1_OSC then f.(inOsc := true)
    else if f.inCsi then (if IsFinal(ch) then f.(inCsi := false) else f)
    else if ch == BELL then f.(inOsc := false)
    else if ch == C1_ST then (if f.inOsc then f.(inOsc := false) else f.(inDcs := false))
    else f
  }

  /** The bell is met outside every control sequence and control string. */
  predicate IsBareBell(f: Flags, ch: char) {
    ch == BELL && f == GROUND
  }

  /** What the character adds to the output: an escape is held back until its partner arrives. */
  function Emitted(f: Flags, ch: char): string {
    if f.pendingEsc then [ESC, ch] else if ch == ESC || IsBareBell(f, ch) then "" else [ch]
  }

  datatype Extraction = Extraction(cleaned: string, count: nat, flags: Flags)

  function Extracted(data: string, f: Flags): Extraction {
    if data == "" then Extraction("", 0, f) else
    Then(Emitted(f, data[0]), if IsBareBell(f, data[0]) then 1 else 0, Extracted(data[1..], ExtractNext(f, data[0])))
  }

  // ---- The tracker as a function. ----

  predicate IsControl(c: char) {
    c <= '\U{001f}' || '\U{007f}' <= c <= '\U{009f}'
  }

  predicate IsIgnorable(c: char) {
    c != BELL && (IsWhitespace(c) || IsControl(c))
  }

  function TrackNext(f: Flags, ch: char): Flags {
    if f.pendingEsc then AfterEscape(f, ch)
    else if ch == ESC then f.(pendingEsc := true)
    else if f.inOsc then (if ch == BELL || ch == C1_ST then f.(inOsc := false) else f)
    else if f.inDcs then (if ch == C1_ST then f.(inDcs := false) else f)
    else if f.inCsi then (if IsFinal(ch) then f.(inCsi := false) else f)
    else if ch == C1_CSI then f.(inCsi := true)
    else if ch == C1_DCS then f.(inDcs := true)
    else if ch == C1_OSC then f.(inOsc := true)
    else f
  }

  /** Ordinary output: not a control, not white space, outside every sequence and string. */
  predicate IsVisible(f: Flags, ch: char) {
    f == GROUND && ch != BELL && !IsIgnorable(ch)
  }

  /** The tracker's flags before the character at `i`. */
  function FlagsAt(data: string, f: Flags, i: nat): Flags
    requires i <= |data|
  {
    if i == 0 then f else TrackNext(FlagsAt(data, f, i - 1), data[i - 1])
  }

  predicate BellAt(data: string, f: Flags, i: nat)
    requires i < |data|
  {
    IsBareBell(FlagsAt(data, f, i), data[i])
  }

  predicate VisibleAt(data: string, f: Flags, i: nat)
    requires i < |data|
  {
    IsVisible(FlagsAt(data, f, i), data[i])
  }

  predicate VisibleWithin(data: string, f: Flags, from: nat, to: nat)
    requires to <= |data|
  {
    exists i :: from <= i < to && VisibleAt(data, f, i)
  }

  /** The bells that count: nothing visible before them, or nothing visible after. */
  ghost function EligibleBells(data: string, f: Flags): set<nat> {
    set i: nat | i < |data| && BellAt(data, f, i) &&
      (!VisibleWithin(data, f, 0, i) || !VisibleWithin(data, f, i + 1, |data|))
  }

  // ---- Both parsers as the program runs them. ----

  datatype Candidate = Candidate(leadingEligible: bool, hasVisibleAfter: bool)

  predicate SupportsTurnSignal(mode: string) {
    mode == "claude" || mode == "codex"
  }

  datatype Seen = Bell | Visible | Neither

  class TurnCompleteSignalParserState {
    var inOsc: bool
    var inCsi: bool
    var inDcs: bool
    var pendingEsc: bool

    constructor ()
      ensures Flagged() == GROUND
    {
      inOsc, inCsi, inDcs, pendingEsc := false, false, false, false;
    }

    function Flagged(): Flags
      reads this
    {
      Flags(inOsc, inCsi, inDcs, pendingEsc)
    }

    /** In any other mode than these two the data passes, behind an escape that was held back. */
    method ExtractSignals(data: string, mode: string) returns (cleaned: string, count: nat)
      modifies this
      ensures mode == "claude" || mode == "codex" ==>
        Extraction(cleaned, count, Flagged()) == Extracted(data, old(Flagged()))
      ensures mode != "claude" && mode != "codex" ==>
        && count == 0 && cleaned == (if old(pendingEsc) then ['\U{001b}'] + data else data)
        && Flagged() == if old(pendingEsc) then GROUND else old(Flagged())
    {
      if !SupportsTurnSignal(mode) {
        if pendingEsc {
          pendingEsc, inOsc, inCsi, inDcs := false, false, false, false;
          return [ESC] + data, 0;
        }
        return data, 0;
      }
      ghost var whole := Extracted(data, Flagged());
      var f := Flagged();
      cleaned, count := "", 0;
      assert data[0..] == data && "" + whole.cleaned == whole.cleaned;
      for i := 0 to |data|
        invariant whole == Then(cleaned, count, Extracted(data[i..], f))
      {
        var out, bells, next := ExtractChar(f, data[i]);
        ExtractOne(data, i, f);
        ThenAssociates(cleaned, count, out, bells, Extracted(data[i + 1..], next));
        cleaned, count, f := cleaned + out, count + bells, next;
      }
      assert data[|data|..] == "" && cleaned + "" == cleaned;
      inOsc, inCsi, inDcs, pendingEsc := f.inOsc, f.inCsi, f.inDcs, f.pendingEsc;
    }

    /** One round of the loop on the local copies of the flags. */
    static method ExtractChar(f: Flags, ch: char) returns (out: string, bells: nat, next: Flags)
      ensures out == Emitted(f, ch) && next == ExtractNext(f, ch) && bells == if IsBareBell(f, ch) then 1 else 0
    {
      var osc, csi, dcs, esc := f.inOsc, f.inCsi, f.inDcs, f.pendingEsc;
      out, bells := "", 0;
      if esc {
        out := [ESC, ch];
        if osc && ch == '\\' { osc := false; }
        else if dcs && ch == '\\' { dcs := false; }
        else if !osc && !dcs && ch == ']' { osc := true; }
        else if !osc && !dcs && ch == '[' { csi := true; }
        else if !osc && !dcs && ch == 'P' { dcs := true; }
        esc := false;
      } else if ch == ESC {
        esc := true;
      } else if ch == C1_CSI {
        out := [ch];
        csi := true;
      } else if ch == C1_DCS {
        out := [ch];
        dcs := true;
      } else if ch == C1_OSC {
        out := [ch];
        osc := true;
      } else if csi {
        out := [ch];
        if IsFinal(ch) { csi := false; }
      } else if ch == BELL {
        if osc {
          out := [ch];
          osc := false;
        } else if dcs {
          out := [ch];
        } else {
          bells := 1;
        }
      } else if ch == C1_ST {
        out := [ch];
        if osc { osc := false; } else if dcs { dcs := false; }
      } else {
        out := [ch];
      }
      next := Flags(osc, csi, dcs, esc);
    }

    /** Counts without changing the state: every candidate remembers whether it was leading, and
        each visible character marks all earlier candidates. */
    method CountTrackerSignals(data: string) returns (count: nat)
      ensures count == |EligibleBells(data, Flagged())|
    {
      var start := Flagged();
      var f := start;
      var sawVisible := false;
      var candidates: seq<Candidate> := [];
      ghost var at: seq<nat> := [];
      for i := 0 to |data|
        invariant f == FlagsAt(data, start, i)
        invariant sawVisible == VisibleWithin(data, start, 0, i)
        invariant Tracks(data, start, candidates, at, i)
      {
        f, sawVisible, candidates, at := TrackOne(data, start, i, f, sawVisible, candidates, at);
      }
      count := CountKept(data, start, candidates, at);
    }

    /** One round of the loop. */
    method TrackOne(data: string, ghost start: Flags, i: nat, f: Flags, sawVisible: bool,
                    candidates: seq<Candidate>, ghost at: seq<nat>)
      returns (next: Flags, sawVisible': bool, candidates': seq<Candidate>, ghost at': seq<nat>)
      requires i < |data| && f == FlagsAt(data, start, i) && sawVisible == VisibleWithin(data, start, 0, i)
      requires Tracks(data, start, candidates, at, i)
      ensures next == FlagsAt(data, start, i + 1) && sawVisible' == VisibleWithin(data, start, 0, i + 1)
      ensures Tracks(data, start, candidates', at', i + 1)
    {
      var seen;
      next, seen := TrackChar(f, data[i]);
      sawVisible', candidates', at' := sawVisible, candidates, at;
      VisibleGrows(data, start, 0, i);
      match seen {
        case Bell =>
          TracksBell(data, start, candidates, at, i);
          candidates' := candidates + [Candidate(!sawVisible, false)];
          at' := at + [i];
        case Visible =>
          candidates' := MarkAll(candidates);
          TracksVisible(data, start, candidates, candidates', at, i);
          sawVisible' := true;
        case Neither =>
          TracksNeither(data, start, candidates, at, i);
      }
    }

    /** One round of the loop: the next flags, and whether the character is a candidate bell,
        visible output, or neither. */
    static method TrackChar(f: Flags, ch: char) returns (next: Flags, seen: Seen)
      ensures next == TrackNext(f, ch)
      ensures seen.Bell? <==> IsBareBell(f, ch)
      ensures seen.Visible? <==> IsVisible(f, ch)
    {
      var osc, csi, dcs, esc := f.inOsc, f.inCsi, f.inDcs, f.pendingEsc;
      seen := Neither;
      if esc {
        if osc && ch == '\\' { osc := false; }
        else if dcs && ch == '\\' { dcs := false; }
        else if !osc && !dcs && ch == ']' { osc := true; }
        else if !osc && !dcs && ch == '[' { csi := true; }
        else if !osc && !dcs && ch == 'P' { dcs := true; }
        esc := false;
      } else if ch == ESC {
        esc := true;
      } else if osc {
        if ch == BELL || ch == C1_ST { osc := false; }
      } else if dcs {
        if ch == C1_ST { dcs := false; }
      } else if csi {
        if IsFinal(ch) { csi := false; }
      } else if ch == C1_CSI {
        csi := true;
      } else if ch == C1_DCS {
        dcs := true;
      } else if ch == C1_OSC {
        osc := true;
      } else if ch == BELL {
        seen := Bell;
      } else if !IsIgnorable(ch) {
        seen := Visible;
      }
      next := Flags(osc, csi, dcs, esc);
    }

    method MarkAll(candidates: seq<Candidate>) returns (marked: seq<Candidate>)
      ensures |marked| == |candidates|
      ensures forall j :: 0 <= j < |marked| ==> marked[j] == Candidate(candidates[j].leadingEligible, true)
    {
      marked := candidates;
      for j := 0 to |candidates|
        invariant |marked| == |candidates|
        invariant forall k :: 0 <= k < |marked| ==>
          marked[k] == if k < j then Candidate(candidates[k].leadingEligible, true) else candidates[k]
      {
        marked := marked[j := marked[j].(hasVisibleAfter := true)];
      }
    }

    /** The final filter; `at` are the candidates' positions. */
    static method CountKept(ghost data: string, ghost start: Flags, candidates: seq<Candidate>, ghost at: seq<nat>)
      returns (count: nat)
      requires Tracks(data, start, candidates, at, |data|)
      ensures count == |EligibleBells(data, start)|
    {
      count := 0;
      NoneBelowFirst(data, start, candidates, at);
      for j := 0 to |candidates|
        invariant count == |EligibleBelow(data, start, Bound(at, j, |data|))|
      {
        NextBound(data, start, candidates, at, j);
        if candidates[j].leadingEligible || !candidates[j].hasVisibleAfter {
          count := count + 1;
        }
      }
      assert EligibleBelow(data, start, |data|) == EligibleBells(data, start);
    }
  }

  ghost function EligibleBelow(data: string, f: Flags, n: nat): set<nat> {
    set i | i in EligibleBells(data, f) && i < n
  }

  /** The position of the `j`-th candidate; the end when there is no such candidate. */
  function Bound(at: seq<nat>, j: nat, n: nat): nat {
    if j < |at| then at[j] else n
  }

  lemma NoneBelowFirst(data: string, f: Flags, candidates: seq<Candidate>, at: seq<nat>)
    requires Tracks(data, f, candidates, at, |data|)
    ensures EligibleBelow(data, f, Bound(at, 0, |data|)) == {}
  {
    forall i | i in EligibleBells(data, f) ensures i >= Bound(at, 0, |data|) {
      var k :| 0 <= k < |at| && at[k] == i;
    }
  }

  lemma EligibleCandidate(data: string, f: Flags, candidates: seq<Candidate>, at: seq<nat>, j: nat)
    requires Tracks(data, f, candidates, at, |data|) && j < |at|
    ensures at[j] in EligibleBells(data, f) <==> candidates[j].leadingEligible || !candidates[j].hasVisibleAfter
    ensures at[j] < Bound(at, j + 1, |data|)
  {
  }

  lemma NoneBetween(data: string, f: Flags, candidates: seq<Candidate>, at: seq<nat>, j: nat, i: nat)
    requires Tracks(data, f, candidates, at, |data|) && j < |at|
    requires i in EligibleBells(data, f) && i < Bound(at, j + 1, |data|)
    ensures i <= at[j]
  {
    var k :| 0 <= k < |at| && at[k] == i;
  }

  /** From one candidate to the next only the candidate itself can be eligible. */
  lemma NextBound(data: string, f: Flags, candidates: seq<Candidate>, at: seq<nat>, j: nat)
    requires Tracks(data, f, candidates, at, |data|) && j < |at|
    ensures |EligibleBelow(data, f, Bound(at, j + 1, |data|))| == |EligibleBelow(data, f, at[j])| +
      if candidates[j].leadingEligible || !candidates[j].hasVisibleAfter then 1 else 0
  {
    EligibleCandidate(data, f, candidates, at, j);
    forall i | i in EligibleBells(data, f) && i < Bound(at, j + 1, |data|) ensures i <= at[j] {
      NoneBetween(data, f, candidates, at, j, i);
    }
    OneMore(EligibleBells(data, f), at[j], Bound(at, j + 1, |data|));
  }

  lemma OneMore(s: set<nat>, x: nat, bound: nat)
    requires x < bound && forall i :: i in s && i < bound ==> i <= x
    ensures |(set i | i in s && i < bound)| == |(set i | i in s && i < x)| + if x in s then 1 else 0
  {
    var below := set i | i in s && i < x;
    assert (set i | i in s && i < bound) == below + if x in s then {x} else {};
  }

  function Then(cleaned: string, count: nat, rest: Extraction): Extraction {
    Extraction(cleaned + rest.cleaned, count + rest.count, rest.flags)
  }

  lemma ThenAssociates(cleaned: string, count: nat, out: string, bells: nat, rest: Extraction)
    ensures Then(cleaned, count, Then(out, bells, rest)) == Then(cleaned + out, count + bells, rest)
  {
    assert cleaned + (out + rest.cleaned) == (cleaned + out) + rest.cleaned;
  }

  lemma ExtractOne(data: string, i: nat, f: Flags)
    requires i < |data|
    ensures Extracted(data[i..], f) ==
      Then(Emitted(f, data[i]), if IsBareBell(f, data[i]) then 1 else 0,
           Extracted(data[i + 1..], ExtractNext(f, data[i])))
  {
    assert data[i..][1..] == data[i + 1..];
  }

  /** The candidates seen before `n` are the bells before `n`, in order, each with what the
      stream says about it so far. */
  ghost predicate Tracks(data: string, f: Flags, candidates: seq<Candidate>, at: seq<nat>, n: nat)
    requires n <= |data|
  {
    && |at| == |candidates|
    && (forall j, k :: 0 <= j < k < |at| ==> at[j] < at[k])
    && (forall j :: 0 <= j < |at| ==> at[j] < n && BellAt(data, f, at[j]))
    && (forall i :: 0 <= i < n && BellAt(data, f, i) ==> i in at)
    && (forall j :: 0 <= j < |at| ==>
          candidates[j].leadingEligible == !VisibleWithin(data, f, 0, at[j]) &&
          candidates[j].hasVisibleAfter == VisibleWithin(data, f, at[j] + 1, n))
  }

  lemma VisibleGrows(data: string, f: Flags, from: nat, i: nat)
    requires from <= i < |data|
    ensures VisibleWithin(data, f, from, i + 1) <==> VisibleWithin(data, f, from, i) || VisibleAt(data, f, i)
  {
    if VisibleWithin(data, f, from, i) {
      var k :| from <= k < i && VisibleAt(data, f, k);
    }
  }

  lemma TracksBell(data: string, f: Flags, candidates: seq<Candidate>, at: seq<nat>, i: nat)
    requires i < |data| && Tracks(data, f, candidates, at, i) && BellAt(data, f, i)
    ensures Tracks(data, f, candidates + [Candidate(!VisibleWithin(data, f, 0, i), false)], at + [i], i + 1)
  {
    forall j | 0 <= j < |at| ensures VisibleWithin(data, f, at[j] + 1, i + 1) == VisibleWithin(data, f, at[j] + 1, i) {
      VisibleGrows(data, f, at[j] + 1, i);
    }
  }

  lemma TracksVisible(
      data: string, f: Flags, candidates: seq<Candidate>, marked: seq<Candidate>, at: seq<nat>, i: nat)
    requires i < |data| && Tracks(data, f, candidates, at, i) && VisibleAt(data, f, i)
    requires |marked| == |candidates|
    requires forall j :: 0 <= j < |marked| ==> marked[j] == Candidate(candidates[j].leadingEligible, true)
    ensures Tracks(data, f, marked, at, i + 1)
  {
    forall j | 0 <= j < |at| ensures VisibleWithin(data, f, at[j] + 1, i + 1) {
      assert VisibleAt(data, f, i);
    }
  }

  lemma TracksNeither(data: string, f: Flags, candidates: seq<Candidate>, at: seq<nat>, i: nat)
    requires i < |data| && Tracks(data, f, candidates, at, i) && !BellAt(data, f, i) && !VisibleAt(data, f, i)
    ensures Tracks(data, f, candidates, at, i + 1)
  {
    forall j | 0 <= j < |at| ensures VisibleWithin(data, f, at[j] + 1, i + 1) == VisibleWithin(data, f, at[j] + 1, i) {
      VisibleGrows(data, f, at[j] + 1, i);
    }
  }
}
