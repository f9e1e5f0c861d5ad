/** The order of JavaScript's default `Array.prototype.sort` on strings, and sorting by it. */
module Ordering {

  /** Orders characters as their UTF-16 code units do: a character outside the basic plane
      starts with a surrogate (0xD800..0xDBFF) and so comes before 0xE000..0xFFFF. */
  function Utf16Rank(c: char): nat {
    var n := c as int;
    if n < 0xD800 then n else if n >= 0x1_0000 then n - 0x1_0000 + 0xD800 else n + 0x10_0000
  }

  /** Strict lexicographic order. */
  predicate Before(a: string, b: string) {
    b != [] && (a == [] || Utf16Rank(a[0]) < Utf16Rank(b[0]) || (a[0] == b[0] && Before(a[1..], b[1..])))
  }

  // ---- It is the order of the UTF-16 code units. ----

  /** The UTF-16 form of a character: one unit, or a pair of surrogates. */
  function Units(c: char): seq<nat> {
    var n := c as int;
    if n < 0x1_0000 then [n] else [0xD800 + (n - 0x1_0000) / 0x400, 0xDC00 + (n - 0x1_0000) % 0x400]
  }

  function Utf16(s: string): seq<nat> {
    if s == "" then [] else Units(s[0]) + Utf16(s[1..])
  }

  predicate UnitsBefore(a: seq<nat>, b: seq<nat>) {
    b != [] && (a == [] || a[0] < b[0] || (a[0] == b[0] && UnitsBefore(a[1..], b[1..])))
  }

  lemma {:induction false} SameUnits(p: seq<nat>, a: seq<nat>, b: seq<nat>)
    ensures UnitsBefore(p + a, p + b) <==> UnitsBefore(a, b)
  {
    if p == [] {
      assert [] + a == a && [] + b == b;
    } else {
      assert (p + a)[1..] == p[1..] + a && (p + b)[1..] == p[1..] + b;
      SameUnits(p[1..], a, b);
    }
  }

  /** Different characters are told apart by the first unit, or by the second after equal first ones. */
  lemma DifferentUnits(c: char, d: char, a: seq<nat>, b: seq<nat>)
    requires c != d
    ensures UnitsBefore(Units(c) + a, Units(d) + b) <==> Utf16Rank(c) < Utf16Rank(d)
  {
    var x, y := Units(c) + a, Units(d) + b;
    assert x[0] == Units(c)[0] && y[0] == Units(d)[0];
    if x[0] == y[0] {
      assert |Units(c)| == 2 && |Units(d)| == 2;
      assert x[1] == Units(c)[1] && y[1] == Units(d)[1] && x[1] != y[1];
      assert x[1..][0] == x[1] && y[1..][0] == y[1];
    }
  }

  /** The order of strings is that of their UTF-16 forms, unit by unit, the shorter of two first. */
  lemma {:induction false} BeforeIsUtf16Order(a: string, b: string)
    ensures Before(a, b) <==> UnitsBefore(Utf16(a), Utf16(b))
  {
    if a != "" && b != "" {
      if a[0] == b[0] {
        BeforeIsUtf16Order(a[1..], b[1..]);
        SameUnits(Units(a[0]), Utf16(a[1..]), Utf16(b[1..]));
      } else {
        DifferentUnits(a[0], b[0], Utf16(a[1..]), Utf16(b[1..]));
      }
    }
  }

  predicate AtMost(a: string, b: string) {
    a == b || Before(a, b)
  }

  predicate Sorted(s: seq<string>) {
    forall i, j :: 0 <= i < j < |s| ==> AtMost(s[i], s[j])
  }

  predicate StrictlySorted(s: seq<string>) {
    forall i, j :: 0 <= i < j < |s| ==> Before(s[i], s[j])
  }

  lemma {:induction false} BeforeIrreflexive(a: string)
    ensures !Before(a, a)
  {
    if a != [] {
      BeforeIrreflexive(a[1..]);
    }
  }

  lemma {:induction false} BeforeTransitive(a: string, b: string, c: string)
    requires Before(a, b) && Before(b, c)
    ensures Before(a, c)
  {
    if a != [] && a[0] == b[0] == c[0] {
      BeforeTransitive(a[1..], b[1..], c[1..]);
    }
  }

  lemma {:induction false} BeforeTotal(a: string, b: string)
    ensures a == b || Before(a, b) || Before(b, a)
  {
    if a != [] && b != [] && a[0] == b[0] {
      BeforeTotal(a[1..], b[1..]);
      assert a == [a[0]] + a[1..] && b == [b[0]] + b[1..];
    }
  }

  lemma {:induction false} AtMostTransitive(a: string, b: string, c: string)
    requires AtMost(a, b) && AtMost(b, c)
    ensures AtMost(a, c)
  {
    if a != b && b != c {
      BeforeTransitive(a, b, c);
    }
  }

  lemma {:induction false} AtMostAntisymmetric(a: string, b: string)
    requires AtMost(a, b) && AtMost(b, a)
    ensures a == b
  {
    if a != b {
      BeforeTransitive(a, b, a);
      BeforeIrreflexive(a);
    }
  }

  function Insert(x: string, s: seq<string>): seq<string> {
    if s == [] || AtMost(x, s[0]) then [x] + s else [s[0]] + Insert(x, s[1..])
  }

  /** `Array.prototype.sort()` with the default comparison. */
  function Sort(s: seq<string>): seq<string> {
    if s == [] then [] else Insert(s[0], Sort(s[1..]))
  }

  lemma {:induction false} InsertKeepsMembers(x: string, s: seq<string>)
    ensures multiset(Insert(x, s)) == multiset(s) + multiset{x}
  {
    if s == [] || AtMost(x, s[0]) {
    } else {
      InsertKeepsMembers(x, s[1..]);
      assert s == [s[0]] + s[1..];
    }
  }

  lemma SortedCons(x: string, s: seq<string>)
    requires Sorted(s) && forall y :: y in s ==> AtMost(x, y)
    ensures Sorted([x] + s)
  {
    forall i, j | 0 <= i < j < |[x] + s| ensures AtMost(([x] + s)[i], ([x] + s)[j]) {
      if i == 0 { assert s[j - 1] in s; }
    }
  }

  lemma {:induction false} InsertSorts(x: string, s: seq<string>)
    requires Sorted(s)
    ensures Sorted(Insert(x, s))
    ensures multiset(Insert(x, s)) == multiset(s) + multiset{x}
  {
    InsertKeepsMembers(x, s);
    if s == [] {
    } else if AtMost(x, s[0]) {
      forall y | y in s ensures AtMost(x, y) {
        if y != s[0] { AtMostTransitive(x, s[0], y); }
      }
      SortedCons(x, s);
    } else {
      BeforeTotal(x, s[0]);
      InsertSorts(x, s[1..]);
      var rest := Insert(x, s[1..]);
      forall y | y in rest ensures AtMost(s[0], y) {
        assert y in multiset(rest);
        assert y in s[1..] || y == x;
      }
      SortedCons(s[0], rest);
    }
  }

  lemma {:induction false} SortSorts(s: seq<string>)
    ensures Sorted(Sort(s))
    ensures multiset(Sort(s)) == multiset(s)
  {
    if s != [] {
      SortSorts(s[1..]);
      InsertSorts(s[0], Sort(s[1..]));
      assert s == [s[0]] + s[1..];
    }
  }

  lemma SortKeepsMembers(s: seq<string>)
    ensures forall k :: k in Sort(s) <==> k in s
  {
    SortSorts(s);
    forall k ensures k in Sort(s) <==> k in s {
      assert k in multiset(Sort(s)) <==> k in multiset(s);
    }
  }

  lemma {:induction false} FirstIsLeast(s: seq<string>, x: string)
    requires Sorted(s) && x in multiset(s)
    ensures AtMost(s[0], x)
  {
    var j :| 0 <= j < |s| && s[j] == x;
  }

  /** A sorted arrangement is unique, so sorting forgets the order it was given. */
  lemma {:induction false} SortedUnique(s: seq<string>, t: seq<string>)
    requires Sorted(s) && Sorted(t) && multiset(s) == multiset(t)
    ensures s == t
  {
    if s == [] {
      assert |multiset(t)| == 0;
    } else {
      assert |multiset(t)| == |multiset(s)| == |s|;
      assert s[0] in multiset(t) && t[0] in multiset(s);
      FirstIsLeast(s, t[0]);
      FirstIsLeast(t, s[0]);
      AtMostAntisymmetric(s[0], t[0]);
      SortedUnique(s[1..], t[1..]) by {
        assert s == [s[0]] + s[1..] && t == [t[0]] + t[1..];
        assert multiset(s[1..]) == multiset(s) - multiset{s[0]};
        assert multiset(t[1..]) == multiset(t) - multiset{t[0]};
      }
      assert s == [s[0]] + s[1..] && t == [t[0]] + t[1..];
    }
  }

  lemma {:induction false} SortForgetsOrder(s: seq<string>, t: seq<string>)
    requires multiset(s) == multiset(t)
    ensures Sort(s) == Sort(t)
  {
    SortSorts(s);
    SortSorts(t);
    SortedUnique(Sort(s), Sort(t));
  }

  lemma {:induction false} StrictIsSorted(s: seq<string>)
    requires StrictlySorted(s)
    ensures Sorted(s) && Sort(s) == s
  {
    SortSorts(s);
    SortedUnique(Sort(s), s);
  }

  /** Distinct elements sort strictly. */
  lemma {:induction false} DistinctSortsStrictly(s: seq<string>)
    requires forall i, j :: 0 <= i < j < |s| ==> s[i] != s[j]
    ensures StrictlySorted(Sort(s))
    ensures forall x :: x in Sort(s) <==> x in s
  {
    SortSorts(s);
    SortKeepsMembers(s);
    var t := Sort(s);
    forall i, j | 0 <= i < j < |t| ensures Before(t[i], t[j]) {
      if t[i] == t[j] {
        CountsTwice(t, i, j);
        DistinctCountsOnce(s, t[i]);
        assert false;
      }
    }
  }

  lemma CountsTwice(t: seq<string>, i: nat, j: nat)
    requires i < j < |t| && t[i] == t[j]
    ensures multiset(t)[t[i]] >= 2
  {
    assert t == t[..i] + [t[i]] + t[i + 1..j] + [t[j]] + t[j + 1..];
  }

  lemma {:induction false} DistinctCountsOnce(s: seq<string>, x: string)
    requires forall i, j :: 0 <= i < j < |s| ==> s[i] != s[j]
    ensures multiset(s)[x] <= 1
  {
    if s != [] {
      assert s == [s[0]] + s[1..];
      DistinctCountsOnce(s[1..], x);
      if s[0] == x {
        assert x !in s[1..];
      }
    }
  }

  lemma {:induction false} DistinctSameMultiset(s: seq<string>, t: seq<string>)
    requires forall i, j :: 0 <= i < j < |s| ==> s[i] != s[j]
    requires forall i, j :: 0 <= i < j < |t| ==> t[i] != t[j]
    requires forall x :: x in s <==> x in t
    ensures multiset(s) == multiset(t)
  {
    forall x ensures multiset(s)[x] == multiset(t)[x] {
      DistinctCountsOnce(s, x);
      DistinctCountsOnce(t, x);
      assert (x in multiset(s) <==> x in s) && (x in multiset(t) <==> x in t);
    }
  }
}
