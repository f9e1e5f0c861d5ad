/** Untyped JavaScript values, and the session references of shared/session-contract.ts. */
module SessionContract {
  import opened Basics

  /** A value that came from JSON or was built from such values. */
  datatype Value =
    | Undefined
    | Null
    | Bool(b: bool)
    | Num(n: real)
    | Str(s: string)
    | Arr(items: seq<Value>)
    | Obj(fields: map<string, Value>)

  type Record = map<string, Value>

  /** `record[key]`: a missing property reads as undefined. */
  function Read(record: Record, key: string): Value {
    if key in record then record[key] else Undefined
  }

  function StringAt(record: Record, key: string): Option<string> {
    match Read(record, key)
    case Str(s) => Some(s)
    case _ => None
  }

  // ---- Session references. ----

  datatype SessionRef = SessionRef(provider: string, sessionId: string)

  function RefValue(ref: SessionRef): Value {
    Obj(map["provider" := Str(ref.provider), "sessionId" := Str(ref.sessionId)])
  }

  /** An array is a record too, but has neither property. */
  function SanitizeSessionRef(v: Value): Option<SessionRef> {
    if !v.Obj? then None else
    var provider, sessionId := StringAt(v.fields, "provider"), StringAt(v.fields, "sessionId");
    if provider.None? || provider.value == "" || sessionId.None? || sessionId.value == "" then None
    else Some(SessionRef(provider.value, sessionId.value))
  }

  predicate IsHex(c: char) {
    '0' <= c <= '9' || 'a' <= c <= 'f' || 'A' <= c <= 'F'
  }

  /** A UUID of version 1 to 5 and the usual variant, in either letter case. */
  predicate IsCanonicalClaudeSessionId(id: string) {
    && |id| == 36
    && (forall i :: 0 <= i < 36 ==> if i in {8, 13, 18, 23} then id[i] == '-' else IsHex(id[i]))
    && '1' <= id[14] <= '5'
    && id[19] in {'8', '9', 'a', 'b', 'A', 'B'}
  }

  /** A reference is read from an object whose two parts are strings that are not empty, as they are. */
  lemma SanitizeExactly(v: Value, ref: SessionRef)
    ensures SanitizeSessionRef(v) == Some(ref) <==>
      && v.Obj? && Read(v.fields, "provider") == Str(ref.provider) && Read(v.fields, "sessionId") == Str(ref.sessionId)
      && ref.provider != "" && ref.sessionId != ""
  {
  }

  predicate AllHex(s: string) {
    forall i :: 0 <= i < |s| ==> '0' <= s[i] <= '9' || 'a' <= s[i] <= 'f' || 'A' <= s[i] <= 'F'
  }

  /** Five groups of hexadecimal digits of the lengths 8, 4, 4, 4 and 12, the third beginning with the
      version and the fourth with the variant. */
  ghost predicate IsUuidText(id: string, a: string, b: string, c: string, d: string, e: string) {
    && id == a + "-" + b + "-" + c + "-" + d + "-" + e
    && |a| == 8 && |b| == 4 && |c| == 4 && |d| == 4 && |e| == 12
    && AllHex(a) && AllHex(b) && AllHex(c) && AllHex(d) && AllHex(e)
    && c[0] in {'1', '2', '3', '4', '5'} && d[0] in {'8', '9', 'a', 'b', 'A', 'B'}
  }

  lemma CanonicalIdHasGroups(id: string) returns (a: string, b: string, c: string, d: string, e: string)
    requires IsCanonicalClaudeSessionId(id)
    ensures IsUuidText(id, a, b, c, d, e)
  {
    a, b, c, d, e := id[..8], id[9..13], id[14..18], id[19..23], id[24..];
    assert id[8] == id[13] == id[18] == id[23] == '-';
    assert id == a + "-" + b + "-" + c + "-" + d + "-" + e;
  }

  lemma GroupsAreCanonical(id: string, a: string, b: string, c: string, d: string, e: string)
    requires IsUuidText(id, a, b, c, d, e)
    ensures IsCanonicalClaudeSessionId(id)
  {
    forall i | 0 <= i < 36 ensures if i in {8, 13, 18, 23} then id[i] == '-' else IsHex(id[i]) {
      assert i < 8 ==> id[i] == a[i];
      assert 8 < i < 13 ==> id[i] == b[i - 9];
      assert 13 < i < 18 ==> id[i] == c[i - 14];
      assert 18 < i < 23 ==> id[i] == d[i - 19];
      assert 23 < i ==> id[i] == e[i - 24];
    }
    assert id[14] == c[0] && id[19] == d[0];
  }

  /** The canonical claude ids, as texts. */
  lemma CanonicalIdExactly(id: string)
    ensures IsCanonicalClaudeSessionId(id) <==> exists a, b, c, d, e :: IsUuidText(id, a, b, c, d, e)
  {
    if IsCanonicalClaudeSessionId(id) {
      var a, b, c, d, e := CanonicalIdHasGroups(id);
    }
    if a, b, c, d, e :| IsUuidText(id, a, b, c, d, e) {
      GroupsAreCanonical(id, a, b, c, d, e);
    }
  }

  // ---- Restore errors. ----

  const RESTORE_ERROR_REASONS := {
    "missing_canonical_identity", "invalid_legacy_restore_target", "dead_live_handle",
    "provider_runtime_failed", "durable_artifact_missing" }

  const INVALID_LEGACY := "invalid_legacy_restore_target"

  function BuildRestoreError(reason: string): Value {
    Obj(map["code" := Str("RESTORE_UNAVAILABLE"), "reason" := Str(reason)])
  }

  // ---- Removing repeated references. ----

  /** The key by which references are compared. */
  function Key(ref: SessionRef): string {
    ref.provider + ":" + ref.sessionId
  }

  /** The sanitized references of the values, in order. */
  function Sanitized(values: seq<Value>): seq<SessionRef> {
    if values == [] then [] else
    (match SanitizeSessionRef(values[0]) case None => [] case Some(ref) => [ref]) + Sanitized(values[1..])
  }

  /** Each reference whose key is not in `seen` and does not come earlier. */
  function Firsts(refs: seq<SessionRef>, seen: set<string>): seq<SessionRef> {
    if refs == [] then []
    else if Key(refs[0]) in seen then Firsts(refs[1..], seen)
    else [refs[0]] + Firsts(refs[1..], seen + {Key(refs[0])})
  }

  method DedupeSessionRefs(values: seq<Value>) returns (deduped: seq<SessionRef>)
    ensures deduped == Firsts(Sanitized(values), {})
  {
    var seen: set<string> := {};
    deduped := [];
    assert values[0..] == values;
    for i := 0 to |values|
      invariant Firsts(Sanitized(values), {}) == deduped + Firsts(Sanitized(values[i..]), seen)
    {
      var sessionRef := SanitizeSessionRef(values[i]);
      assert values[i..][0] == values[i] && values[i..][1..] == values[i + 1..];
      if sessionRef.Some? {
        var key := Key(sessionRef.value);
        FirstsOneMore(sessionRef.value, Sanitized(values[i + 1..]), seen);
        if key !in seen {
          Regroup(deduped, sessionRef.value, Firsts(Sanitized(values[i + 1..]), seen + {key}));
          seen := seen + {key};
          deduped := deduped + [sessionRef.value];
        }
      } else {
        assert Sanitized(values[i..]) == [] + Sanitized(values[i + 1..]) == Sanitized(values[i + 1..]);
      }
    }
    assert values[|values|..] == [] && deduped + [] == deduped;
  }

  lemma FirstsOneMore(ref: SessionRef, rest: seq<SessionRef>, seen: set<string>)
    ensures Firsts([ref] + rest, seen) ==
      if Key(ref) in seen then Firsts(rest, seen) else [ref] + Firsts(rest, seen + {Key(ref)})
  {
    assert ([ref] + rest)[1..] == rest;
  }

  lemma Regroup(a: seq<SessionRef>, x: SessionRef, b: seq<SessionRef>)
    ensures a + ([x] + b) == (a + [x]) + b
  {
  }

  predicate DistinctRefs(refs: seq<SessionRef>) {
    forall i, j :: 0 <= i < j < |refs| ==> refs[i] != refs[j]
  }

  predicate KeysTellApart(refs: seq<SessionRef>) {
    forall i, j :: 0 <= i < |refs| && 0 <= j < |refs| && Key(refs[i]) == Key(refs[j]) ==> refs[i] == refs[j]
  }

  lemma {:induction false} FirstsAreUnseen(refs: seq<SessionRef>, seen: set<string>, r: SessionRef)
    requires r in Firsts(refs, seen)
    ensures r in refs && Key(r) !in seen
  {
    if Key(refs[0]) in seen {
      FirstsAreUnseen(refs[1..], seen, r);
    } else if r != refs[0] {
      FirstsAreUnseen(refs[1..], seen + {Key(refs[0])}, r);
    }
  }

  lemma {:induction false} KeysAreCovered(refs: seq<SessionRef>, seen: set<string>, r: SessionRef)
    returns (f: SessionRef)
    requires r in refs && Key(r) !in seen
    ensures f in Firsts(refs, seen) && Key(f) == Key(r)
  {
    if Key(refs[0]) in seen {
      f := KeysAreCovered(refs[1..], seen, r);
    } else if Key(refs[0]) == Key(r) {
      f := refs[0];
    } else {
      f := KeysAreCovered(refs[1..], seen + {Key(refs[0])}, r);
    }
  }

  lemma {:induction false} KeysAreDistinct(refs: seq<SessionRef>, seen: set<string>, i: nat, j: nat)
    requires i < j < |Firsts(refs, seen)|
    ensures Key(Firsts(refs, seen)[i]) != Key(Firsts(refs, seen)[j])
  {
    if Key(refs[0]) in seen {
      KeysAreDistinct(refs[1..], seen, i, j);
    } else {
      var seen' := seen + {Key(refs[0])};
      var rest := Firsts(refs[1..], seen');
      if i > 0 {
        KeysAreDistinct(refs[1..], seen', i - 1, j - 1);
      } else {
        FirstsAreUnseen(refs[1..], seen', rest[j - 1]);
      }
    }
  }

  /** The result holds each reference at most once, invents none, and keeps one of each key. */
  lemma DedupeKeepsOnePerKey(refs: seq<SessionRef>)
    ensures DistinctRefs(Firsts(refs, {}))
    ensures forall r :: r in Firsts(refs, {}) ==> r in refs
    ensures forall r :: r in refs ==> exists f :: f in Firsts(refs, {}) && Key(f) == Key(r)
  {
    var kept := Firsts(refs, {});
    forall i, j | 0 <= i < j < |kept| ensures kept[i] != kept[j] {
      KeysAreDistinct(refs, {}, i, j);
    }
    forall r | r in kept ensures r in refs {
      FirstsAreUnseen(refs, {}, r);
    }
    forall r | r in refs ensures exists f :: f in kept && Key(f) == Key(r) {
      var f := KeysAreCovered(refs, {}, r);
    }
  }

  /** The value holds a reference, with a key that is not in `seen`. */
  predicate IsNew(v: Value, seen: set<string>) {
    var ref := SanitizeSessionRef(v);
    ref.Some? && ref.value.provider + ":" + ref.value.sessionId !in seen
  }

  /** Two values that hold references with one key. */
  predicate Repeats(v: Value, w: Value) {
    var a, b := SanitizeSessionRef(v), SanitizeSessionRef(w);
    a.Some? && b.Some? && a.value.provider + ":" + a.value.sessionId == b.value.provider + ":" + b.value.sessionId
  }

  /** The value holds a reference that is new, and none earlier has its key. */
  predicate IsFirst(values: seq<Value>, i: nat, seen: set<string>)
    requires i < |values|
  {
    IsNew(values[i], seen) && forall j :: 0 <= j < i ==> !Repeats(values[j], values[i])
  }

  ghost function FirstPositions(values: seq<Value>, seen: set<string>): set<nat> {
    set i: nat | i < |values| && IsFirst(values, i, seen)
  }

  /** The members of the set, in increasing order. */
  ghost predicate Lists(at: seq<nat>, positions: set<nat>) {
    (forall j, k :: 0 <= j < k < |at| ==> at[j] < at[k]) && forall i :: i in at <==> i in positions
  }

  /** `refs` are the references that stand there. */
  predicate StandAt(values: seq<Value>, at: seq<nat>, refs: seq<SessionRef>) {
    && |refs| == |at|
    && forall j :: 0 <= j < |at| ==> at[j] < |values| && SanitizeSessionRef(values[at[j]]) == Some(refs[j])
  }

  lemma FirstsUnfold(values: seq<Value>, seen: set<string>) returns (seen': set<string>)
    requires values != []
    ensures seen' == if IsNew(values[0], seen) then seen + {Key(SanitizeSessionRef(values[0]).value)} else seen
    ensures Firsts(Sanitized(values), seen) ==
      (if IsNew(values[0], seen) then [SanitizeSessionRef(values[0]).value] else [])
      + Firsts(Sanitized(values[1..]), seen')
    ensures forall i :: 0 <= i < |values| - 1 ==>
      (IsFirst(values[1..], i, seen') <==> IsFirst(values, i + 1, seen))
  {
    var ref := SanitizeSessionRef(values[0]);
    seen' := if IsNew(values[0], seen) then seen + {Key(ref.value)} else seen;
    if ref.Some? {
      FirstsOneMore(ref.value, Sanitized(values[1..]), seen);
    } else {
      assert [] + Sanitized(values[1..]) == Sanitized(values[1..]);
    }
    forall i | 0 <= i < |values| - 1 ensures IsFirst(values[1..], i, seen') <==> IsFirst(values, i + 1, seen) {
      assert values[1..][i] == values[i + 1];
      if IsFirst(values[1..], i, seen') {
        forall j | 0 <= j < i + 1 ensures !Repeats(values[j], values[i + 1]) {
          if j > 0 { assert !Repeats(values[1..][j - 1], values[1..][i]); }
        }
      }
      if IsFirst(values, i + 1, seen) {
        assert !Repeats(values[0], values[i + 1]);
        forall j | 0 <= j < i ensures !Repeats(values[1..][j], values[1..][i]) {
          assert !Repeats(values[j + 1], values[i + 1]);
        }
      }
    }
  }

  function Shifted(at: seq<nat>): seq<nat> {
    seq(|at|, j requires 0 <= j < |at| => at[j] + 1)
  }

  lemma ListsOneEarlier(at: seq<nat>, later: set<nat>, isNew: bool, positions: set<nat>)
    requires Lists(at, later)
    requires forall i: nat :: i in positions <==> if i == 0 then isNew else i - 1 in later
    ensures Lists((if isNew then [0] else []) + Shifted(at), positions)
  {
    var all := (if isNew then [0] else []) + Shifted(at);
    var extra := if isNew then 1 else 0;
    forall i ensures i in all <==> i in positions {
      if i in positions && i > 0 {
        var j :| 0 <= j < |at| && at[j] == i - 1;
        assert all[j + extra] == i;
      }
      if isNew { assert all[0] == 0; }
      if i in all && i > 0 {
        var j :| 0 <= j < |all| && all[j] == i;
        assert at[j - extra] == i - 1;
      }
    }
  }

  lemma StandOneEarlier(values: seq<Value>, isNew: bool, at: seq<nat>, rest: seq<SessionRef>)
    requires values != [] && StandAt(values[1..], at, rest) && (isNew ==> SanitizeSessionRef(values[0]).Some?)
    ensures StandAt(values, (if isNew then [0] else []) + Shifted(at),
                    (if isNew then [SanitizeSessionRef(values[0]).value] else []) + rest)
  {
    forall j | 0 <= j < |at| ensures SanitizeSessionRef(values[at[j] + 1]) == Some(rest[j]) {
      assert values[1..][at[j]] == values[at[j] + 1];
    }
  }

  /** What the loop gives: the references at the positions, in order, that hold one and repeat none. */
  lemma {:induction false} DedupeKeepsTheFirsts(values: seq<Value>, seen: set<string>) returns (at: seq<nat>)
    ensures Lists(at, FirstPositions(values, seen)) && StandAt(values, at, Firsts(Sanitized(values), seen))
    decreases |values|
  {
    if values == [] {
      at := [];
    } else {
      var seen' := FirstsUnfold(values, seen);
      var later := DedupeKeepsTheFirsts(values[1..], seen');
      at := (if IsNew(values[0], seen) then [0] else []) + Shifted(later);
      ListsOneEarlier(later, FirstPositions(values[1..], seen'), IsNew(values[0], seen), FirstPositions(values, seen));
      StandOneEarlier(values, IsNew(values[0], seen), later, Firsts(Sanitized(values[1..]), seen'));
    }
  }

  /** No reference is lost exactly when the keys tell the references apart. */
  lemma DedupeLosesNothingExactly(refs: seq<SessionRef>)
    ensures (forall r :: r in refs ==> r in Firsts(refs, {})) <==> KeysTellApart(refs)
  {
    var kept := Firsts(refs, {});
    if KeysTellApart(refs) {
      forall r | r in refs ensures r in kept {
        var f := KeysAreCovered(refs, {}, r);
        FirstsAreUnseen(refs, {}, f);
      }
    } else {
      var i, j :| 0 <= i < |refs| && 0 <= j < |refs| && Key(refs[i]) == Key(refs[j]) && refs[i] != refs[j];
      SameKeyIsDropped(refs, refs[i], refs[j]);
      assert refs[i] in refs && refs[j] in refs;
    }
  }

  lemma SameKeyIsDropped(refs: seq<SessionRef>, a: SessionRef, b: SessionRef)
    requires a != b && Key(a) == Key(b)
    ensures !(a in Firsts(refs, {}) && b in Firsts(refs, {}))
  {
    var kept := Firsts(refs, {});
    if a in kept && b in kept {
      var i :| 0 <= i < |kept| && kept[i] == a;
      var j :| 0 <= j < |kept| && kept[j] == b;
      if i < j { KeysAreDistinct(refs, {}, i, j); } else { KeysAreDistinct(refs, {}, j, i); }
    }
  }

  /** Colons in a provider name can make two references share a key, and one of them is lost. */
  lemma ColonsCollide()
    ensures var a, b := SessionRef("a:b", "c"), SessionRef("a", "b:c");
      a != b && Key(a) == Key(b) && !(forall r :: r in [a, b] ==> r in Firsts([a, b], {}))
  {
    var a, b := SessionRef("a:b", "c"), SessionRef("a", "b:c");
    assert Key(a) == "a:b:c" == Key(b);
    SameKeyIsDropped([a, b], a, b);
    assert a in [a, b] && b in [a, b];
  }

  function FirstColon(s: string): nat {
    if s == "" || s[0] == ':' then 0 else 1 + FirstColon(s[1..])
  }

  lemma {:induction false} FirstColonOfJoin(a: string, x: string)
    requires ':' !in a
    ensures FirstColon(a + ":" + x) == |a|
  {
    if a != "" {
      assert (a + ":" + x)[1..] == a[1..] + ":" + x;
      FirstColonOfJoin(a[1..], x);
    }
  }

  /** Splitting at the first colon undoes the join. */
  lemma ColonFreeHeadsJoinInjectively(a: string, x: string, b: string, y: string)
    requires ':' !in a && ':' !in b && a + ":" + x == b + ":" + y
    ensures a == b && x == y
  {
    FirstColonOfJoin(a, x);
    FirstColonOfJoin(b, y);
    assert a == (a + ":" + x)[..|a|] && b == (b + ":" + y)[..|a|];
    assert x == (a + ":" + x)[|a| + 1..] && y == (b + ":" + y)[|a| + 1..];
  }

  /** Without colons in the provider names nothing is lost. */
  lemma ColonFreeProvidersTellApart(refs: seq<SessionRef>)
    requires forall i :: 0 <= i < |refs| ==> ':' !in refs[i].provider
    ensures KeysTellApart(refs)
  {
    forall i, j | 0 <= i < |refs| && 0 <= j < |refs| && Key(refs[i]) == Key(refs[j]) ensures refs[i] == refs[j] {
      ColonFreeHeadsJoinInjectively(refs[i].provider, refs[i].sessionId, refs[j].provider, refs[j].sessionId);
    }
  }
}
