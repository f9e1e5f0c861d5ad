/** The signal files of extensions/opencode/freshell-rebind-plugin.ts. */
module RebindEmitter {
  import opened Basics
  import opened Ordering
  import opened SessionContract

  // ---- Session ids. ----

  predicate IsAlphanumeric(c: char) {
    '0' <= c <= '9' || 'A' <= c <= 'Z' || 'a' <= c <= 'z'
  }

  predicate IsSessionId(s: string) {
    |s| > 4 && s[..4] == "ses_" && forall i :: 4 <= i < |s| ==> IsAlphanumeric(s[i])
  }

  function IdAt(record: Record, key: string): Option<string> {
    var v := StringAt(record, key);
    if v.Some? && IsSessionId(v.value) then v else None
  }

  /** The value itself, or the first of three keys that holds an id. */
  function OwnId(v: Value): Option<string> {
    if v.Str? then if IsSessionId(v.s) then Some(v.s) else None
    else if !v.Obj? then None
    else if IdAt(v.fields, "sessionID").Some? then IdAt(v.fields, "sessionID")
    else if IdAt(v.fields, "session_id").Some? then IdAt(v.fields, "session_id")
    else IdAt(v.fields, "sessionId")
  }

  predicate IsIdText(s: string, body: string) {
    && s == "ses_" + body && body != ""
    && forall i :: 0 <= i < |body| ==> '0' <= body[i] <= '9' || 'A' <= body[i] <= 'Z' || 'a' <= body[i] <= 'z'
  }

  /** The ids, as texts. */
  lemma SessionIdExactly(s: string)
    ensures IsSessionId(s) <==> exists body :: IsIdText(s, body)
  {
    if IsSessionId(s) {
      var body := s[4..];
      assert s == "ses_" + body;
      assert forall i :: 0 <= i < |body| ==> body[i] == s[i + 4];
      assert IsIdText(s, body);
    }
  }

  /** The property holds that id. */
  predicate HoldsId(v: Value, key: string, id: string) {
    v.Obj? && key in v.fields && v.fields[key] == Str(id) && IsSessionId(id)
  }

  ghost predicate HoldsNone(v: Value, key: string) {
    forall id :: !HoldsId(v, key, id)
  }

  /** A text that is an id, or the first of three properties that holds one. */
  lemma OwnIdExactly(v: Value, id: string)
    ensures OwnId(v) == Some(id) <==>
      || (v == Str(id) && IsSessionId(id))
      || HoldsId(v, "sessionID", id)
      || (HoldsNone(v, "sessionID") && HoldsId(v, "session_id", id))
      || (HoldsNone(v, "sessionID") && HoldsNone(v, "session_id") && HoldsId(v, "sessionId", id))
  {
    if v.Obj? {
      IdAtExactly(v, "sessionID");
      IdAtExactly(v, "session_id");
      IdAtExactly(v, "sessionId");
    }
  }

  lemma IdAtExactly(v: Value, key: string)
    requires v.Obj?
    ensures forall id :: IdAt(v.fields, key) == Some(id) <==> HoldsId(v, key, id)
    ensures IdAt(v.fields, key).None? <==> HoldsNone(v, key)
  {
    var found := IdAt(v.fields, key);
    if found.Some? { assert HoldsId(v, key, found.value); }
  }

  predicate HasParams(v: Value) {
    v.Obj? && "params" in v.fields && v.fields["params"].Obj?
  }

  function ExtractSessionId(v: Value): (id: Option<string>)
    ensures id.Some? ==> IsSessionId(id.value)
    decreases v
  {
    if OwnId(v).Some? then OwnId(v)
    else if HasParams(v) then ExtractSessionId(v.fields["params"])
    else None
  }

  /** The value `depth` times below `params`. */
  function Below(v: Value, depth: nat): Option<Value> {
    if depth == 0 then Some(v)
    else if HasParams(v) then Below(v.fields["params"], depth - 1)
    else None
  }

  /** Each value after the first is an object, held by the one before it under the name `params`. */
  predicate IsChain(chain: seq<Value>) {
    chain != [] && forall i :: 0 < i < |chain| ==> chain[i].Obj? && HoldsParams(chain[i - 1], chain[i])
  }

  predicate HoldsParams(v: Value, inner: Value) {
    v.Obj? && "params" in v.fields && v.fields["params"] == inner
  }

  /** The values below `params` are the ends of such chains. */
  lemma {:induction false} BelowExactly(v: Value, depth: nat, w: Value)
    ensures Below(v, depth) == Some(w) <==>
      exists chain :: IsChain(chain) && |chain| == depth + 1 && chain[0] == v && chain[depth] == w
  {
    if Below(v, depth) == Some(w) {
      if depth == 0 {
        assert IsChain([v]);
      } else {
        var inner := v.fields["params"];
        BelowExactly(inner, depth - 1, w);
        var rest :| IsChain(rest) && |rest| == depth && rest[0] == inner && rest[depth - 1] == w;
        var chain := [v] + rest;
        assert forall i :: 0 < i < |chain| ==> chain[i] == rest[i - 1];
        assert IsChain(chain);
      }
    }
    if chain :| IsChain(chain) && |chain| == depth + 1 && chain[0] == v && chain[depth] == w {
      if depth > 0 {
        var rest := chain[1..];
        assert IsChain(rest) && |rest| == depth && rest[depth - 1] == w;
        assert HoldsParams(v, rest[0]);
        BelowExactly(rest[0], depth - 1, w);
      }
    }
  }

  predicate HasIdAt(v: Value, depth: nat) {
    Below(v, depth).Some? && OwnId(Below(v, depth).value).Some?
  }

  /** The id found is the one least deep below `params`, and none is found only when there is none. */
  lemma {:induction false} ExtractFindsTheNearest(v: Value)
    ensures ExtractSessionId(v).Some? <==> exists depth: nat :: HasIdAt(v, depth)
    ensures ExtractSessionId(v).Some? ==> exists depth: nat ::
      && HasIdAt(v, depth) && OwnId(Below(v, depth).value) == ExtractSessionId(v)
      && forall above: nat :: above < depth ==> !HasIdAt(v, above)
    decreases v
  {
    if OwnId(v).Some? {
      assert HasIdAt(v, 0);
    } else if HasParams(v) {
      var inner := v.fields["params"];
      ExtractFindsTheNearest(inner);
      forall depth: nat ensures HasIdAt(v, depth) <==> depth > 0 && HasIdAt(inner, depth - 1) {
      }
      if ExtractSessionId(inner).Some? {
        var depth: nat :| HasIdAt(inner, depth) && OwnId(Below(inner, depth).value) == ExtractSessionId(inner)
          && forall above: nat :: above < depth ==> !HasIdAt(inner, above);
        assert HasIdAt(v, depth + 1);
      } else {
        forall depth: nat ensures !HasIdAt(v, depth) {
          assert depth > 0 ==> !HasIdAt(inner, depth - 1);
        }
      }
    } else {
      forall depth: nat ensures !HasIdAt(v, depth) {
      }
    }
  }

  // ---- File names. ----

  function Digit(n: nat): char
    requires n < 10
  {
    '0' + n as char
  }

  function Decimal(n: nat): string {
    if n < 10 then [Digit(n)] else Decimal(n / 10) + [Digit(n % 10)]
  }

  function Zeros(n: nat): string {
    if n == 0 then "" else "0" + Zeros(n - 1)
  }

  /** `padStart(width, '0')` of the numeral. */
  function Padded(n: nat, width: nat): string {
    var digits := Decimal(n);
    if |digits| >= width then digits else Zeros(width - |digits|) + digits
  }

  function Nonce(now: nat, seqNo: nat, pid: nat): string {
    Padded(now, 14) + "-" + Padded(seqNo, 6) + "-" + Decimal(pid)
  }

  function FileName(terminalId: string, nonce: string): string {
    terminalId + "__" + nonce
  }

  // ---- The emitter. ----

  /** A signal file, known by what goes into its name and body. */
  datatype Signal = Signal(now: nat, seqNo: nat, sessionId: string)

  function NameOf(signal: Signal, terminalId: string, pid: nat): string {
    FileName(terminalId, Nonce(signal.now, signal.seqNo, pid))
  }

  /** One call of the emitter: the candidate, the clock and whether the write would succeed. */
  datatype Call = Call(candidate: Value, now: nat, writeOk: bool)

  datatype State = State(lastEmitted: Option<string>, seqNo: nat, files: seq<Signal>)

  const INITIAL := State(None, 0, [])

  function Step(s: State, call: Call): State {
    var id := ExtractSessionId(call.candidate);
    if id.None? || id == s.lastEmitted then s
    else State(id, s.seqNo + 1, if call.writeOk then s.files + [Signal(call.now, s.seqNo + 1, id.value)] else s.files)
  }

  class Emitter {
    var lastEmitted: Option<string>
    var seqNo: nat
    var files: seq<Signal>

    constructor ()
      ensures Value() == INITIAL
    {
      lastEmitted, seqNo, files := None, 0, [];
    }

    function Value(): State
      reads this
    {
      State(lastEmitted, seqNo, files)
    }

    /** A failed write is swallowed after the state has changed. */
    method Emit(call: Call)
      modifies this
      ensures Value() == Step(old(Value()), call)
    {
      var sessionId := ExtractSessionId(call.candidate);
      if sessionId.None? || sessionId == lastEmitted { return; }
      lastEmitted := sessionId;
      seqNo := seqNo + 1;
      if call.writeOk {
        files := files + [Signal(call.now, seqNo, sessionId.value)];
      }
    }
  }

  function Run(calls: seq<Call>, n: nat): State
    requires n <= |calls|
  {
    if n == 0 then INITIAL else Step(Run(calls, n - 1), calls[n - 1])
  }

  // ---- Which ids are written. ----

  /** The ids of the candidates that hold one. */
  function ValidIds(calls: seq<Call>, n: nat): seq<string>
    requires n <= |calls|
  {
    if n == 0 then [] else
    var id := ExtractSessionId(calls[n - 1].candidate);
    if id.Some? then ValidIds(calls, n - 1) + [id.value] else ValidIds(calls, n - 1)
  }

  /** The sequence without the elements equal to the one before them. */
  function Collapsed(ids: seq<string>): seq<string> {
    if |ids| <= 1 then ids else
    var front := ids[..|ids| - 1];
    if ids[|ids| - 1] == front[|front| - 1] then Collapsed(front) else Collapsed(front) + [ids[|ids| - 1]]
  }

  function IdsOf(files: seq<Signal>): seq<string> {
    if files == [] then [] else [files[0].sessionId] + IdsOf(files[1..])
  }

  function Last(ids: seq<string>): Option<string> {
    if ids == [] then None else Some(ids[|ids| - 1])
  }

  /** The call passes on a new id. */
  predicate Switches(calls: seq<Call>, k: nat)
    requires k < |calls|
  {
    var id := ExtractSessionId(calls[k].candidate);
    id.Some? && id != Last(ValidIds(calls, k))
  }

  predicate AllWritten(calls: seq<Call>, n: nat)
    requires n <= |calls|
  {
    forall k :: 0 <= k < n && Switches(calls, k) ==> calls[k].writeOk
  }

  lemma {:induction false} IdsAppend(files: seq<Signal>, file: Signal)
    ensures IdsOf(files + [file]) == IdsOf(files) + [file.sessionId]
  {
    if files == [] {
      assert [file][1..] == [];
    } else {
      assert (files + [file])[1..] == files[1..] + [file];
      IdsAppend(files[1..], file);
    }
  }

  lemma CollapsedOneMore(ids: seq<string>, id: string)
    ensures Collapsed(ids + [id]) == if Last(ids) == Some(id) then Collapsed(ids) else Collapsed(ids) + [id]
  {
    assert (ids + [id])[..|ids|] == ids;
  }

  lemma {:induction false} LastIsTheLastValid(calls: seq<Call>, n: nat)
    requires n <= |calls|
    ensures Run(calls, n).lastEmitted == Last(ValidIds(calls, n))
  {
    if n > 0 { LastIsTheLastValid(calls, n - 1); }
  }

  /** What the files are, given how many new ids came and whether each was written. */
  predicate Follows(s: State, switched: seq<string>, allWritten: bool) {
    var ids := IdsOf(s.files);
    && s.seqNo == |switched|
    && (if allWritten then ids == switched else |ids| < |switched|)
  }

  lemma StepFollows(s: State, call: Call, switched: seq<string>, allWritten: bool)
    ensures Follows(s, switched, allWritten) ==>
      var id := ExtractSessionId(call.candidate);
      if id.None? || id == s.lastEmitted then Follows(Step(s, call), switched, allWritten)
      else Follows(Step(s, call), switched + [id.value], allWritten && call.writeOk)
  {
    var id := ExtractSessionId(call.candidate);
    if id.Some? { IdsAppend(s.files, Signal(call.now, s.seqNo + 1, id.value)); }
  }

  lemma AllWrittenOneMore(calls: seq<Call>, n: nat)
    requires n < |calls|
    ensures AllWritten(calls, n + 1) <==> AllWritten(calls, n) && (Switches(calls, n) ==> calls[n].writeOk)
  {
  }

  lemma SwitchedOneMore(calls: seq<Call>, n: nat)
    requires n < |calls|
    ensures
      var valid, id := ValidIds(calls, n), ExtractSessionId(calls[n].candidate);
      Collapsed(ValidIds(calls, n + 1)) ==
        if Switches(calls, n) then Collapsed(valid) + [id.value] else Collapsed(valid)
  {
    var id := ExtractSessionId(calls[n].candidate);
    if id.Some? { CollapsedOneMore(ValidIds(calls, n), id.value); }
  }

  lemma {:induction false} FilesFollowTheSwitches(calls: seq<Call>, n: nat)
    returns (s: State, switched: seq<string>, allWritten: bool)
    requires n <= |calls|
    ensures s == Run(calls, n) && switched == Collapsed(ValidIds(calls, n)) && allWritten == AllWritten(calls, n)
    ensures Follows(s, switched, allWritten)
  {
    s, switched, allWritten := Run(calls, n), Collapsed(ValidIds(calls, n)), AllWritten(calls, n);
    if n > 0 {
      var k := n - 1;
      var before, sofar, written := FilesFollowTheSwitches(calls, k);
      LastIsTheLastValid(calls, k);
      AllWrittenOneMore(calls, k);
      SwitchedOneMore(calls, k);
      StepFollows(before, calls[k], sofar, written);
    }
  }

  /** The ids on disk are the valid candidates with consecutive repeats removed exactly when no
      write of a new id failed: a failed one is not repeated while the session stays the same. */
  lemma FilesAreTheSwitchesExactly(calls: seq<Call>)
    ensures IdsOf(Run(calls, |calls|).files) == Collapsed(ValidIds(calls, |calls|)) <==>
      AllWritten(calls, |calls|)
  {
    var s, switched, allWritten := FilesFollowTheSwitches(calls, |calls|);
  }

  // ---- The names, as texts. ----

  /** The number a text of digits stands for. */
  function ValueOf(s: string): int {
    if s == "" then 0 else 10 * ValueOf(s[..|s| - 1]) + (s[|s| - 1] as int - 48)
  }

  /** The numeral of `n` in decimal digits, at least `width` of them, and no zero in front beyond that. */
  predicate IsNumeral(s: string, n: nat, width: nat) {
    && |s| >= width && s != "" && (forall i :: 0 <= i < |s| ==> '0' <= s[i] <= '9') && ValueOf(s) == n
    && (|s| > width && |s| > 1 ==> s[0] != '0')
  }

  lemma {:induction false} DecimalIsNumeral(n: nat)
    ensures IsNumeral(Decimal(n), n, 0)
  {
    if n >= 10 {
      DecimalIsNumeral(n / 10);
      var front := Decimal(n / 10);
      assert Decimal(n)[..|front|] == front;
      if |front| == 1 { assert front[..|front| - 1] == "" && ValueOf("") == 0; }
    } else {
      assert Decimal(n)[..0] == "";
    }
  }

  lemma {:induction false} ZerosAreZeros(n: nat)
    ensures |Zeros(n)| == n && forall i :: 0 <= i < n ==> Zeros(n)[i] == '0'
  {
    if n > 0 { ZerosAreZeros(n - 1); }
  }

  lemma {:induction false} ZerosCountNothing(n: nat)
    ensures ValueOf(Zeros(n)) == 0
  {
    if n > 0 {
      var t := Zeros(n);
      ZerosCountNothing(n - 1);
      ZerosMoved(n - 1);
      assert t == Zeros(n - 1) + "0" && t[..|t| - 1] == Zeros(n - 1);
    }
  }

  lemma {:induction false} ZerosInFront(n: nat, s: string)
    ensures ValueOf(Zeros(n) + s) == ValueOf(s)
  {
    var t := Zeros(n) + s;
    if s == "" {
      assert t == Zeros(n);
      ZerosCountNothing(n);
    } else {
      ZerosInFront(n, s[..|s| - 1]);
      assert t[..|t| - 1] == Zeros(n) + s[..|s| - 1];
    }
  }

  lemma {:induction false} ZerosMoved(n: nat)
    ensures "0" + Zeros(n) == Zeros(n) + "0"
  {
    if n > 0 {
      ZerosMoved(n - 1);
      assert "0" + ("0" + Zeros(n - 1)) == ("0" + Zeros(n - 1)) + "0";
    }
  }

  lemma PaddedIsNumeral(n: nat, width: nat)
    ensures IsNumeral(Padded(n, width), n, width)
  {
    DecimalIsNumeral(n);
    if |Decimal(n)| < width {
      ZerosAreZeros(width - |Decimal(n)|);
      ZerosInFront(width - |Decimal(n)|, Decimal(n));
    }
  }

  /** The name of every signal: the terminal's id, two underscores, the clock in at least fourteen digits,
      the number in at least six, the process, with dashes between. */
  lemma NameInText(signal: Signal, terminalId: string, pid: nat)
      returns (clock: string, number: string, process: string)
    ensures NameOf(signal, terminalId, pid) == terminalId + "__" + (clock + "-" + number + "-" + process)
    ensures IsNumeral(clock, signal.now, 14) && IsNumeral(number, signal.seqNo, 6) && IsNumeral(process, pid, 0)
  {
    clock, number, process := Padded(signal.now, 14), Padded(signal.seqNo, 6), Decimal(pid);
    PaddedIsNumeral(signal.now, 14);
    PaddedIsNumeral(signal.seqNo, 6);
    DecimalIsNumeral(pid);
  }

  // ---- The order of the names. ----

  function Pow10(n: nat): nat {
    if n == 0 then 1 else 10 * Pow10(n - 1)
  }

  /** The lowest `width` digits. */
  function Fixed(n: nat, width: nat): (s: string)
    ensures |s| == width
  {
    if width == 0 then "" else Fixed(n / 10, width - 1) + [Digit(n % 10)]
  }

  lemma {:induction false} FixedZero(width: nat)
    ensures Fixed(0, width) == Zeros(width)
  {
    if width > 0 {
      FixedZero(width - 1);
      ZerosMove(width - 1);
    }
  }

  lemma {:induction false} ZerosMove(n: nat)
    ensures Zeros(n) + "0" == "0" + Zeros(n)
  {
    if n > 0 {
      ZerosMove(n - 1);
      assert Zeros(n) + "0" == "0" + (Zeros(n - 1) + "0");
    }
  }

  lemma {:induction false} DecimalFits(n: nat, width: nat)
    requires width > 0 && n < Pow10(width)
    ensures |Decimal(n)| <= width
  {
    if n >= 10 { DecimalFits(n / 10, width - 1); }
  }

  lemma {:induction false} PaddedIsFixed(n: nat, width: nat)
    requires width > 0 && n < Pow10(width)
    ensures Padded(n, width) == Fixed(n, width)
  {
    DecimalFits(n, width);
    if n < 10 {
      FixedZero(width - 1);
      assert Fixed(n, width) == Zeros(width - 1) + [Digit(n)];
    } else {
      DecimalFits(n / 10, width - 1);
      PaddedIsFixed(n / 10, width - 1);
      var front := Decimal(n / 10);
      assert Zeros(width - 1 - |front|) + front + [Digit(n % 10)] ==
        Zeros(width - 1 - |front|) + (front + [Digit(n % 10)]);
      assert Zeros(0) + front == front && Zeros(0) + Decimal(n) == Decimal(n);
    }
  }

  lemma {:induction false} SamePrefix(p: string, a: string, b: string)
    ensures Before(p + a, p + b) <==> Before(a, b)
  {
    if p == "" {
      assert p + a == a && p + b == b;
    } else {
      assert (p + a)[1..] == p[1..] + a && (p + b)[1..] == p[1..] + b;
      SamePrefix(p[1..], a, b);
    }
  }

  lemma {:induction false} FixedInOrder(a: nat, b: nat, width: nat, x: string, y: string)
    requires a < b < Pow10(width)
    ensures Before(Fixed(a, width) + x, Fixed(b, width) + y)
  {
    var p, q := Fixed(a / 10, width - 1), Fixed(b / 10, width - 1);
    assert Fixed(a, width) + x == p + ([Digit(a % 10)] + x);
    assert Fixed(b, width) + y == q + ([Digit(b % 10)] + y);
    if a / 10 == b / 10 {
      assert a % 10 < b % 10;
      assert Before([Digit(a % 10)] + x, [Digit(b % 10)] + y);
      SamePrefix(p, [Digit(a % 10)] + x, [Digit(b % 10)] + y);
    } else {
      FixedInOrder(a / 10, b / 10, width - 1, [Digit(a % 10)] + x, [Digit(b % 10)] + y);
    }
  }

  lemma BeforeIsOneWay(a: string, b: string)
    requires Before(a, b)
    ensures !Before(b, a)
  {
    if Before(b, a) {
      BeforeTransitive(a, b, a);
      BeforeIrreflexive(a);
    }
  }

  /** Numerals of one width order what follows them only when they are equal. */
  lemma FixedBeforeExactly(a: nat, b: nat, width: nat, x: string, y: string)
    requires a < Pow10(width) && b < Pow10(width)
    ensures Before(Fixed(a, width) + x, Fixed(b, width) + y) <==> a < b || (a == b && Before(x, y))
  {
    if a < b {
      FixedInOrder(a, b, width, x, y);
    } else if b < a {
      FixedInOrder(b, a, width, y, x);
      BeforeIsOneWay(Fixed(b, width) + y, Fixed(a, width) + x);
    } else {
      SamePrefix(Fixed(a, width), x, y);
    }
  }

  // ---- Numerals of different widths. ----

  /** The number without its last `digits` digits. */
  function Shifted(n: nat, digits: nat): nat {
    if digits == 0 then n else Shifted(n / 10, digits - 1)
  }

  lemma AtLeastOne(d: nat, m: nat)
    requires d >= 1
    ensures d * m >= m
  {
  }

  lemma QuotientUnique(m: nat, q: nat, r: nat, q': nat, r': nat)
    requires r < m && r' < m && q * m + r == q' * m + r'
    ensures q == q'
  {
    if q < q' {
      AtLeastOne(q' - q, m);
    } else if q' < q {
      AtLeastOne(q - q', m);
    }
  }

  lemma QuotientIs(q: nat, m: nat, r: nat)
    requires r < m
    ensures (q * m + r) / m == q
  {
    var n := q * m + r;
    QuotientUnique(m, q, r, n / m, n % m);
  }

  lemma TenfoldOut(q: nat, m: nat)
    ensures q * (10 * m) == 10 * (q * m)
  {
  }

  lemma TenthThenQuotient(n: nat, m: nat)
    requires m > 0
    ensures n / 10 / m == n / (10 * m)
  {
    var q, r := n / 10 / m, n / 10 % m;
    var x := q * m;
    assert n / 10 == x + r;
    TenfoldOut(q, m);
    QuotientIs(q, 10 * m, 10 * r + n % 10);
    assert n == 10 * x + (10 * r + n % 10);
  }

  /** That is, the number divided by the power of ten. */
  lemma {:induction false} ShiftedIsQuotient(n: nat, digits: nat)
    ensures Pow10(digits) > 0 && Shifted(n, digits) == n / Pow10(digits)
  {
    if digits > 0 {
      ShiftedIsQuotient(n / 10, digits - 1);
      TenthThenQuotient(n, Pow10(digits - 1));
    }
  }

  lemma {:induction false} ShiftedFits(n: nat, width: nat, digits: nat)
    requires n < Pow10(width + digits)
    ensures Shifted(n, digits) < Pow10(width)
  {
    if digits > 0 { ShiftedFits(n / 10, width, digits - 1); }
  }

  lemma {:induction false} FixedSplits(n: nat, width: nat, digits: nat)
    ensures Fixed(n, width + digits) == Fixed(Shifted(n, digits), width) + Fixed(n, digits)
  {
    if digits == 0 {
      assert Fixed(n, width) + "" == Fixed(n, width);
    } else {
      FixedSplits(n / 10, width, digits - 1);
      var high, low := Fixed(Shifted(n, digits), width), Fixed(n / 10, digits - 1);
      assert (high + low) + [Digit(n % 10)] == high + (low + [Digit(n % 10)]);
    }
  }

  lemma {:induction false} FixedStartsWithDigit(n: nat, width: nat)
    requires width > 0
    ensures '0' <= Fixed(n, width)[0] <= '9'
  {
    if width > 1 { FixedStartsWithDigit(n / 10, width - 1); }
  }

  /** How many characters the padded numeral takes. */
  function Width(n: nat, width: nat): nat {
    |Padded(n, width)|
  }

  lemma {:induction false} ZerosLength(n: nat)
    ensures |Zeros(n)| == n
  {
    if n > 0 { ZerosLength(n - 1); }
  }

  lemma {:induction false} PowGrows(small: nat, large: nat)
    requires small <= large
    ensures Pow10(small) <= Pow10(large)
    decreases large
  {
    if small < large { PowGrows(small, large - 1); }
  }

  lemma {:induction false} DecimalBelow(n: nat)
    ensures n < Pow10(|Decimal(n)|)
  {
    if n >= 10 { DecimalBelow(n / 10); }
  }

  lemma WidthFits(n: nat, width: nat)
    requires width > 0
    ensures width <= Width(n, width) && n < Pow10(Width(n, width))
    ensures Padded(n, width) == Fixed(n, Width(n, width))
  {
    var digits := Decimal(n);
    DecimalBelow(n);
    if |digits| < width {
      ZerosLength(width - |digits|);
      PowGrows(|digits|, width);
      PaddedIsFixed(n, width);
    } else {
      PaddedIsFixed(n, |digits|);
    }
  }

  lemma {:induction false} DecimalGrows(a: nat, b: nat)
    requires a <= b
    ensures |Decimal(a)| <= |Decimal(b)|
  {
    if a >= 10 { DecimalGrows(a / 10, b / 10); }
  }

  lemma WidthGrows(a: nat, b: nat, width: nat)
    requires a <= b
    ensures Width(a, width) <= Width(b, width)
  {
    DecimalGrows(a, b);
    if |Decimal(a)| < width { ZerosLength(width - |Decimal(a)|); }
    if |Decimal(b)| < width { ZerosLength(width - |Decimal(b)|); }
  }

  /** The padded numeral of `a`, followed by a dash, sorts before that of `b`. */
  predicate NumeralBefore(a: nat, b: nat, width: nat) {
    var m, n := Width(a, width), Width(b, width);
    if m <= n then a != b && a <= Shifted(b, n - m) else Shifted(a, m - n) < b
  }

  lemma NumeralTotal(a: nat, b: nat, width: nat)
    requires a != b
    ensures NumeralBefore(a, b, width) || NumeralBefore(b, a, width)
  {
  }

  lemma NumeralInOrder(a: nat, b: nat, width: nat)
    requires width > 0 && a < b
    ensures Width(a, width) <= Width(b, width)
    ensures NumeralBefore(a, b, width) <==> a <= Shifted(b, Width(b, width) - Width(a, width))
    ensures b < Pow10(width) ==> NumeralBefore(a, b, width)
  {
    WidthGrows(a, b, width);
    if b < Pow10(width) {
      PaddedIsFixed(a, width);
      PaddedIsFixed(b, width);
    }
  }

  lemma DashBeforeDigits(n: nat, digits: nat, x: string, y: string)
    requires digits > 0
    ensures Before("-" + x, Fixed(n, digits) + y) && !Before(Fixed(n, digits) + y, "-" + x)
  {
    FixedStartsWithDigit(n, digits);
    assert (Fixed(n, digits) + y)[0] == Fixed(n, digits)[0] && ("-" + x)[0] == '-';
  }

  lemma EqualWidthBeforeExactly(a: nat, b: nat, width: nat, x: string, y: string)
    requires a < Pow10(width) && b < Pow10(width)
    ensures Before(Fixed(a, width) + ("-" + x), Fixed(b, width) + ("-" + y)) <==> a < b || (a == b && Before(x, y))
  {
    SamePrefix("-", x, y);
    FixedBeforeExactly(a, b, width, "-" + x, "-" + y);
  }

  lemma NarrowBeforeExactly(a: nat, b: nat, width: nat, digits: nat, x: string, y: string)
    requires digits > 0 && a < Pow10(width) && b < Pow10(width + digits)
    ensures Before(Fixed(a, width) + ("-" + x), Fixed(b, width + digits) + ("-" + y)) <==> a <= Shifted(b, digits)
    ensures Before(Fixed(b, width + digits) + ("-" + y), Fixed(a, width) + ("-" + x)) <==> Shifted(b, digits) < a
  {
    var high, low := Shifted(b, digits), Fixed(b, digits);
    FixedSplits(b, width, digits);
    ShiftedFits(b, width, digits);
    assert Fixed(b, width + digits) + ("-" + y) == Fixed(high, width) + (low + ("-" + y));
    DashBeforeDigits(b, digits, x, "-" + y);
    FixedBeforeExactly(a, high, width, "-" + x, low + ("-" + y));
    FixedBeforeExactly(high, a, width, low + ("-" + y), "-" + x);
  }

  lemma PaddedBeforeExactly(a: nat, b: nat, width: nat, x: string, y: string)
    requires width > 0
    ensures Before(Padded(a, width) + ("-" + x), Padded(b, width) + ("-" + y)) <==>
      NumeralBefore(a, b, width) || (a == b && Before(x, y))
  {
    var m, n := Width(a, width), Width(b, width);
    WidthFits(a, width);
    WidthFits(b, width);
    if m == n {
      EqualWidthBeforeExactly(a, b, m, x, y);
    } else if m < n {
      NarrowBeforeExactly(a, b, m, n - m, x, y);
    } else {
      NarrowBeforeExactly(b, a, n, m - n, y, x);
    }
  }

  lemma NonceSplits(now: nat, seqNo: nat, pid: nat)
    ensures Nonce(now, seqNo, pid) == Padded(now, 14) + ("-" + (Padded(seqNo, 6) + ("-" + Decimal(pid))))
  {
  }

  /** The order of two names of one process, for all times and numbers: first by the numerals of the
      times, then by those of the numbers. */
  lemma NamesBeforeExactly(terminalId: string, pid: nat, now: nat, seqNo: nat, later: nat, laterNo: nat)
    ensures Before(FileName(terminalId, Nonce(now, seqNo, pid)), FileName(terminalId, Nonce(later, laterNo, pid))) <==>
      NumeralBefore(now, later, 14) || (now == later && NumeralBefore(seqNo, laterNo, 6))
  {
    var end := Decimal(pid);
    NonceSplits(now, seqNo, pid);
    NonceSplits(later, laterNo, pid);
    SamePrefix(terminalId + "__", Nonce(now, seqNo, pid), Nonce(later, laterNo, pid));
    PaddedBeforeExactly(now, later, 14, Padded(seqNo, 6) + ("-" + end), Padded(laterNo, 6) + ("-" + end));
    PaddedBeforeExactly(seqNo, laterNo, 6, end, end);
    BeforeIrreflexive(end);
  }

  const CLOCK_LIMIT := 100_000_000_000_000
  const SEQUENCE_LIMIT := 1_000_000

  lemma Powers()
    ensures Pow10(14) == CLOCK_LIMIT && Pow10(6) == SEQUENCE_LIMIT
  {
    assert Pow10(3) == 1000;
    assert Pow10(6) == 1000 * Pow10(3);
    assert Pow10(9) == 1000 * Pow10(6);
    assert Pow10(12) == 1000 * Pow10(9);
  }

  /** A higher number at the same or a later time gives a later name exactly when the time is later, or the
      number is not above the leading digits of the higher one. */
  lemma NamesInOrder(terminalId: string, pid: nat, now: nat, seqNo: nat, later: nat, laterNo: nat)
    requires now <= later < CLOCK_LIMIT && seqNo < laterNo
    ensures Width(seqNo, 6) <= Width(laterNo, 6)
    ensures Before(FileName(terminalId, Nonce(now, seqNo, pid)), FileName(terminalId, Nonce(later, laterNo, pid))) <==>
      now < later || seqNo <= Shifted(laterNo, Width(laterNo, 6) - Width(seqNo, 6))
    ensures now < later || laterNo < SEQUENCE_LIMIT ==>
      Before(FileName(terminalId, Nonce(now, seqNo, pid)), FileName(terminalId, Nonce(later, laterNo, pid)))
  {
    Powers();
    NamesBeforeExactly(terminalId, pid, now, seqNo, later, laterNo);
    NumeralInOrder(seqNo, laterNo, 6);
    if now < later { NumeralInOrder(now, later, 14); }
  }

  predicate ClockForward(calls: seq<Call>) {
    && (forall i, j :: 0 <= i < j < |calls| ==> calls[i].now <= calls[j].now)
    && forall i :: 0 <= i < |calls| ==> calls[i].now < CLOCK_LIMIT
  }

  function NamesOf(files: seq<Signal>, terminalId: string, pid: nat): seq<string> {
    seq(|files|, i requires 0 <= i < |files| => NameOf(files[i], terminalId, pid))
  }

  predicate NumbersRise(files: seq<Signal>, seqNo: int) {
    && (forall i :: 0 <= i < |files| ==> files[i].seqNo <= seqNo)
    && forall i, j :: 0 <= i < j < |files| ==> files[i].seqNo < files[j].seqNo
  }

  predicate TimesDoNotFall(files: seq<Signal>, now: int) {
    && (forall i :: 0 <= i < |files| ==> files[i].now <= now)
    && forall i, j :: 0 <= i < j < |files| ==> files[i].now <= files[j].now
  }

  lemma {:induction false} RunNumbers(calls: seq<Call>, n: nat)
    requires n <= |calls|
    ensures NumbersRise(Run(calls, n).files, Run(calls, n).seqNo)
  {
    if n > 0 { RunNumbers(calls, n - 1); }
  }

  lemma {:induction false} RunTimes(calls: seq<Call>, n: nat)
    requires n <= |calls| && ClockForward(calls)
    ensures TimesDoNotFall(Run(calls, n).files, if n == 0 then 0 else calls[n - 1].now)
  {
    if n > 0 { RunTimes(calls, n - 1); }
  }

  /** The order of the names of two signals. */
  predicate InOrder(a: Signal, b: Signal) {
    NumeralBefore(a.now, b.now, 14) || (a.now == b.now && NumeralBefore(a.seqNo, b.seqNo, 6))
  }

  predicate AllInOrder(files: seq<Signal>) {
    forall i, j :: 0 <= i < j < |files| ==> InOrder(files[i], files[j])
  }

  lemma PairIsSorted(files: seq<Signal>, i: nat, j: nat, terminalId: string, pid: nat)
    requires i < j < |files| && files[i].seqNo != files[j].seqNo
    ensures var names := NamesOf(files, terminalId, pid);
      && (InOrder(files[i], files[j]) <==> Before(names[i], names[j]))
      && (InOrder(files[i], files[j]) <==> AtMost(names[i], names[j]))
  {
    var a, b := files[i], files[j];
    var names := NamesOf(files, terminalId, pid);
    NamesBeforeExactly(terminalId, pid, a.now, a.seqNo, b.now, b.seqNo);
    NamesBeforeExactly(terminalId, pid, b.now, b.seqNo, a.now, a.seqNo);
    NumeralTotal(a.seqNo, b.seqNo, 6);
    if a.now != b.now { NumeralTotal(a.now, b.now, 14); }
    BeforeIrreflexive(names[i]);
    if Before(names[j], names[i]) { BeforeIsOneWay(names[j], names[i]); }
  }

  lemma InOrderIsSorted(files: seq<Signal>, seqNo: int, terminalId: string, pid: nat)
    requires NumbersRise(files, seqNo) && AllInOrder(files)
    ensures StrictlySorted(NamesOf(files, terminalId, pid))
  {
    var names := NamesOf(files, terminalId, pid);
    forall i, j | 0 <= i < j < |names| ensures Before(names[i], names[j]) {
      PairIsSorted(files, i, j, terminalId, pid);
    }
  }

  lemma SortedIsInOrder(files: seq<Signal>, seqNo: int, terminalId: string, pid: nat)
    requires NumbersRise(files, seqNo) && Sorted(NamesOf(files, terminalId, pid))
    ensures AllInOrder(files)
  {
    var names := NamesOf(files, terminalId, pid);
    forall i, j | 0 <= i < j < |files| ensures InOrder(files[i], files[j]) {
      assert AtMost(names[i], names[j]);
      PairIsSorted(files, i, j, terminalId, pid);
    }
  }

  // ---- What the consumer replays. ----

  /** The bodies of the files of these names, each read from the latest file of that name. */
  function Bodies(files: seq<Signal>, names: seq<string>, terminalId: string, pid: nat): seq<string> {
    if names == [] then [] else
    [BodyOf(files, names[0], terminalId, pid)] + Bodies(files, names[1..], terminalId, pid)
  }

  function BodyOf(files: seq<Signal>, name: string, terminalId: string, pid: nat): string {
    if files == [] then ""
    else if name in NamesOf(files[1..], terminalId, pid) then BodyOf(files[1..], name, terminalId, pid)
    else files[0].sessionId
  }

  lemma {:induction false} BodyAt(files: seq<Signal>, i: nat, terminalId: string, pid: nat)
    requires i < |files| && StrictlySorted(NamesOf(files, terminalId, pid))
    ensures BodyOf(files, NamesOf(files, terminalId, pid)[i], terminalId, pid) == files[i].sessionId
  {
    var names, rest := NamesOf(files, terminalId, pid), NamesOf(files[1..], terminalId, pid);
    assert rest == names[1..];
    if i > 0 {
      assert names[i] == rest[i - 1];
      BodyAt(files[1..], i - 1, terminalId, pid);
    } else if names[0] in rest {
      var j :| 0 <= j < |rest| && rest[j] == names[0];
      assert Before(names[0], names[j + 1]);
      BeforeIrreflexive(names[0]);
    }
  }

  lemma FirstBody(files: seq<Signal>, names: seq<string>, terminalId: string, pid: nat)
    requires names != []
    ensures Bodies(files, names, terminalId, pid) ==
      [BodyOf(files, names[0], terminalId, pid)] + Bodies(files, names[1..], terminalId, pid)
  {
  }

  lemma {:induction false} BodiesMatch(files: seq<Signal>, i: nat, names: seq<string>, terminalId: string, pid: nat)
    requires i <= |files| && names == NamesOf(files, terminalId, pid) && StrictlySorted(names)
    ensures Bodies(files, names[i..], terminalId, pid) == IdsOf(files[i..])
    decreases |files| - i
  {
    if i < |files| {
      BodyAt(files, i, terminalId, pid);
      BodiesMatch(files, i + 1, names, terminalId, pid);
      assert names[i..][0] == names[i] && names[i..][1..] == names[i + 1..];
      assert files[i..][0] == files[i] && files[i..][1..] == files[i + 1..];
      FirstBody(files, names[i..], terminalId, pid);
    }
  }

  /** However the directory lists one emitter's files, draining the names in sorted order visits them in
      emission order if and only if every two signals are in order. */
  lemma SortedDrainIsEmissionOrderExactly(calls: seq<Call>, terminalId: string, pid: nat, listing: seq<string>)
    requires multiset(listing) == multiset(NamesOf(Run(calls, |calls|).files, terminalId, pid))
    ensures var files := Run(calls, |calls|).files;
      Sort(listing) == NamesOf(files, terminalId, pid) <==> AllInOrder(files)
  {
    var files := Run(calls, |calls|).files;
    var names := NamesOf(files, terminalId, pid);
    RunNumbers(calls, |calls|);
    SortForgetsOrder(listing, names);
    SortSorts(names);
    if AllInOrder(files) {
      InOrderIsSorted(files, Run(calls, |calls|).seqNo, terminalId, pid);
      StrictIsSorted(names);
    }
    if Sort(listing) == names { SortedIsInOrder(files, Run(calls, |calls|).seqNo, terminalId, pid); }
  }

  /** Then the drain replays the session ids in emission order. */
  lemma SortedDrainReplaysEmissionOrder(calls: seq<Call>, terminalId: string, pid: nat, listing: seq<string>)
    requires AllInOrder(Run(calls, |calls|).files)
    requires multiset(listing) == multiset(NamesOf(Run(calls, |calls|).files, terminalId, pid))
    ensures var files := Run(calls, |calls|).files;
      && Sort(listing) == NamesOf(files, terminalId, pid)
      && Bodies(files, Sort(listing), terminalId, pid) == IdsOf(files)
      && (AllWritten(calls, |calls|) ==>
            Bodies(files, Sort(listing), terminalId, pid) == Collapsed(ValidIds(calls, |calls|)))
  {
    var files := Run(calls, |calls|).files;
    var names := NamesOf(files, terminalId, pid);
    SortedDrainIsEmissionOrderExactly(calls, terminalId, pid, listing);
    RunNumbers(calls, |calls|);
    InOrderIsSorted(files, Run(calls, |calls|).seqNo, terminalId, pid);
    assert files[0..] == files && names[0..] == names;
    BodiesMatch(files, 0, names, terminalId, pid);
    FilesAreTheSwitchesExactly(calls);
  }

  /** Two signals with one clock reading, of which the later one is not above the leading digits. */
  predicate SameTimeInOrder(a: Signal, b: Signal) {
    a.now == b.now ==>
      Width(a.seqNo, 6) <= Width(b.seqNo, 6) && a.seqNo <= Shifted(b.seqNo, Width(b.seqNo, 6) - Width(a.seqNo, 6))
  }

  lemma ForwardPairInOrder(a: Signal, b: Signal)
    requires a.now <= b.now < CLOCK_LIMIT && a.seqNo < b.seqNo
    ensures InOrder(a, b) <==> SameTimeInOrder(a, b)
    ensures b.seqNo < SEQUENCE_LIMIT ==> InOrder(a, b)
  {
    Powers();
    NumeralInOrder(a.seqNo, b.seqNo, 6);
    if a.now < b.now { NumeralInOrder(a.now, b.now, 14); }
  }

  /** With a clock that does not go back, the signals are in order exactly when those of one clock reading
      are, and always when there are fewer than a million. */
  lemma ForwardClockInOrderExactly(calls: seq<Call>)
    requires ClockForward(calls)
    ensures var files := Run(calls, |calls|).files;
      AllInOrder(files) <==> forall i, j :: 0 <= i < j < |files| ==> SameTimeInOrder(files[i], files[j])
    ensures Run(calls, |calls|).seqNo < SEQUENCE_LIMIT ==> AllInOrder(Run(calls, |calls|).files)
  {
    var files := Run(calls, |calls|).files;
    RunNumbers(calls, |calls|);
    RunTimes(calls, |calls|);
    forall i, j | 0 <= i < j < |files|
      ensures InOrder(files[i], files[j]) <==> SameTimeInOrder(files[i], files[j])
      ensures files[j].seqNo < SEQUENCE_LIMIT ==> InOrder(files[i], files[j])
    {
      ForwardPairInOrder(files[i], files[j]);
    }
  }

  lemma FirstDigitOfTenth(n: nat)
    requires n >= 10
    ensures |Decimal(n)| == |Decimal(n / 10)| + 1
  {
  }

  lemma MillionIsWider()
    ensures Width(SEQUENCE_LIMIT, 6) == 7 && Width(SEQUENCE_LIMIT - 1, 6) == 6
    ensures Shifted(SEQUENCE_LIMIT, 1) == 100_000
  {
    FirstDigitOfTenth(1_000_000);
    FirstDigitOfTenth(100_000);
    FirstDigitOfTenth(10_000);
    FirstDigitOfTenth(1_000);
    FirstDigitOfTenth(100);
    FirstDigitOfTenth(10);
    FirstDigitOfTenth(999_999);
    FirstDigitOfTenth(99_999);
    FirstDigitOfTenth(9_999);
    FirstDigitOfTenth(999);
    FirstDigitOfTenth(99);
    assert Shifted(100_000, 0) == 100_000;
  }

  /** At one clock reading the number after 999999 is too wide for its field and sorts too early. */
  lemma SequenceOverflowSortsEarly(terminalId: string, pid: nat, now: nat)
    ensures Before(FileName(terminalId, Nonce(now, SEQUENCE_LIMIT, pid)),
                   FileName(terminalId, Nonce(now, SEQUENCE_LIMIT - 1, pid)))
  {
    MillionIsWider();
    NamesBeforeExactly(terminalId, pid, now, SEQUENCE_LIMIT, now, SEQUENCE_LIMIT - 1);
  }

  lemma {:induction false} ZeroIsNarrow(n: nat)
    requires n > 0
    ensures NumeralBefore(0, n, 6)
  {
    WidthGrows(0, n, 6);
  }

  /** The startup file sorts before every signal that is not from an earlier time, whatever its number. */
  lemma HelloSortsFirst(terminalId: string, pid: nat, now: nat, later: nat, seqNo: nat)
    requires now <= later < CLOCK_LIMIT && 0 < seqNo
    ensures Before(FileName(terminalId, Nonce(now, 0, pid)), FileName(terminalId, Nonce(later, seqNo, pid)))
  {
    NamesBeforeExactly(terminalId, pid, now, 0, later, seqNo);
    ZeroIsNarrow(seqNo);
    Powers();
    if now < later { NumeralInOrder(now, later, 14); }
  }

  // ---- The delimiter. ----

  lemma {:induction false} DecimalHasNoUnderscore(n: nat)
    ensures '_' !in Decimal(n)
  {
    if n >= 10 { DecimalHasNoUnderscore(n / 10); }
  }

  lemma {:induction false} ZerosHaveNoUnderscore(n: nat)
    ensures '_' !in Zeros(n)
  {
    if n > 0 { ZerosHaveNoUnderscore(n - 1); }
  }

  lemma NonceHasNoUnderscore(now: nat, seqNo: nat, pid: nat)
    ensures '_' !in Nonce(now, seqNo, pid)
  {
    PaddedHasNoUnderscore(now, 14);
    PaddedHasNoUnderscore(seqNo, 6);
    DecimalHasNoUnderscore(pid);
    var a, b, c := Padded(now, 14), Padded(seqNo, 6), Decimal(pid);
    JoinHasNoUnderscore(a, b, c);
  }

  lemma JoinHasNoUnderscore(a: string, b: string, c: string)
    requires '_' !in a && '_' !in b && '_' !in c
    ensures '_' !in a + "-" + b + "-" + c
  {
  }

  lemma PaddedHasNoUnderscore(n: nat, width: nat)
    ensures '_' !in Padded(n, width)
  {
    DecimalHasNoUnderscore(n);
    if |Decimal(n)| < width { ZerosHaveNoUnderscore(width - |Decimal(n)|); }
  }

  /** The length of what follows the last underscore. */
  function AfterUnderscore(s: string): nat {
    if s == "" || s[|s| - 1] == '_' then 0 else 1 + AfterUnderscore(s[..|s| - 1])
  }

  lemma {:induction false} NonceFollowsUnderscore(a: string, x: string)
    requires '_' !in x
    ensures AfterUnderscore(FileName(a, x)) == |x|
  {
    var name := FileName(a, x);
    if x == "" {
      assert name[|name| - 1] == '_';
    } else {
      var front := x[..|x| - 1];
      assert name[..|name| - 1] == FileName(a, front);
      assert name[|name| - 1] == x[|x| - 1];
      NonceFollowsUnderscore(a, front);
    }
  }

  /** A name tells its terminal, even when the terminal id contains the delimiter. */
  lemma NameTellsTheTerminal(a: string, b: string, x: string, y: string)
    requires '_' !in x && '_' !in y && FileName(a, x) == FileName(b, y)
    ensures a == b && x == y
  {
    NonceFollowsUnderscore(a, x);
    NonceFollowsUnderscore(b, y);
    var name := FileName(a, x);
    assert |name| == |a| + 2 + |x| == |b| + 2 + |y|;
    assert a == name[..|a|] && b == FileName(b, y)[..|a|];
    assert x == name[|a| + 2..] && y == FileName(b, y)[|a| + 2..];
  }
}
