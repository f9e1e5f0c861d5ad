/** How JavaScript writes its finite numbers in decimal, and a reader that undoes it. */
module JsonNumbers {
  /** A UTF-16 code unit. */
  type Unit = n: nat | n < 0x1_0000

  type Text = seq<Unit>

  const ZERO: Unit := 0x30
  const PLUS: Unit := 0x2B
  const MINUS: Unit := 0x2D
  const DOT: Unit := 0x2E
  const LETTER_E: Unit := 0x65

  predicate IsDigit(u: Unit) { 0x30 <= u <= 0x39 }

  predicate AreDigits(t: Text) {
    forall i :: 0 <= i < |t| ==> IsDigit(t[i])
  }

  /** The value is the digits behind a decimal point, times ten to the power `point`. The digits are
      the fewest that identify the number, so the first and the last are not zero. */
  datatype Decimals = Zero | Finite(negative: bool, digits: Text, point: int)

  predicate AreShortest(digits: Text) {
    digits != [] && AreDigits(digits) && digits[0] != ZERO && digits[|digits| - 1] != ZERO
  }

  /** A finite number other than negative zero. */
  type Number = n: Decimals | n.Finite? ==> AreShortest(n.digits) witness Zero

  // ---- Writing (section 6.1.6.1.20 of ECMA-262). ----

  function Zeros(n: nat): (t: Text)
    ensures |t| == n && AreDigits(t)
  {
    if n == 0 then [] else [ZERO] + Zeros(n - 1)
  }

  /** The numeral of a natural number. */
  function Decimal(n: nat): (t: Text)
    ensures t != [] && AreDigits(t)
  {
    if n < 10 then [0x30 + n] else Decimal(n / 10) + [0x30 + n % 10]
  }

  function Exponent(e: int): Text {
    if e < 0 then [MINUS] + Decimal(-e) else [PLUS] + Decimal(e)
  }

  function Mantissa(digits: Text): Text
    requires digits != []
  {
    if |digits| == 1 then digits else digits[..1] + [DOT] + digits[1..]
  }

  function Unsigned(digits: Text, point: int): Text
    requires digits != []
  {
    if |digits| <= point <= 21 then digits + Zeros(point - |digits|)
    else if 0 < point <= 21 then digits[..point] + [DOT] + digits[point..]
    else if -6 < point <= 0 then [ZERO] + [DOT] + (Zeros(-point) + digits)
    else Mantissa(digits) + [LETTER_E] + Exponent(point - 1)
  }

  function WriteNumber(n: Number): Text {
    match n
    case Zero => [ZERO]
    case Finite(negative, digits, point) => (if negative then [MINUS] else []) + Unsigned(digits, point)
  }

  // ---- Reading. ----

  /** The first position of the unit, the length when it does not occur. */
  function IndexOf(t: Text, u: Unit): (i: nat)
    ensures i <= |t|
  {
    if t == [] || t[0] == u then 0 else 1 + IndexOf(t[1..], u)
  }

  function NumberOf(digits: Text): nat {
    if digits == [] then 0
    else
      var last := digits[|digits| - 1];
      NumberOf(digits[..|digits| - 1]) * 10 + if IsDigit(last) then last - 0x30 else 0
  }

  function ReadExponent(t: Text): int {
    if t == [] then 0 else
    var size: int := NumberOf(t[1..]);
    if t[0] == MINUS then -size else size
  }

  function LeadingZeros(t: Text): (n: nat)
    ensures n <= |t|
  {
    if t == [] || t[0] != ZERO then 0 else 1 + LeadingZeros(t[1..])
  }

  function WithoutTrailingZeros(t: Text): Text {
    if t == [] || t[|t| - 1] != ZERO then t else WithoutTrailingZeros(t[..|t| - 1])
  }

  function Normal(negative: bool, all: Text, point: int): Decimals {
    var lead := LeadingZeros(all);
    var digits := WithoutTrailingZeros(all[lead..]);
    if digits == [] then Zero else Finite(negative, digits, point - lead)
  }

  function ReadUnsigned(negative: bool, t: Text): Decimals {
    var e := IndexOf(t, LETTER_E);
    var exponent := if e < |t| then ReadExponent(t[e + 1..]) else 0;
    ReadMantissa(negative, t[..e], exponent)
  }

  function ReadMantissa(negative: bool, t: Text, exponent: int): Decimals {
    var p := IndexOf(t, DOT);
    Normal(negative, t[..p] + (if p < |t| then t[p + 1..] else []), p + exponent)
  }

  function ReadNumber(t: Text): Decimals {
    if t != [] && t[0] == MINUS then ReadUnsigned(true, t[1..]) else ReadUnsigned(false, t)
  }

  // ---- Reading undoes writing. ----

  lemma {:induction false} IndexOfFirst(a: Text, u: Unit, b: Text)
    requires u !in a
    ensures IndexOf(a + [u] + b, u) == |a|
  {
    if a != [] {
      assert (a + [u] + b)[1..] == a[1..] + [u] + b;
      IndexOfFirst(a[1..], u, b);
    }
  }

  lemma {:induction false} IndexOfNone(t: Text, u: Unit)
    requires u !in t
    ensures IndexOf(t, u) == |t|
  {
    if t != [] { IndexOfNone(t[1..], u); }
  }

  lemma {:induction false} LeadingZerosAre(n: nat, t: Text)
    requires t != [] && t[0] != ZERO
    ensures LeadingZeros(Zeros(n) + t) == n && (Zeros(n) + t)[n..] == t
  {
    if n == 0 {
      assert Zeros(0) + t == t;
    } else {
      assert (Zeros(n) + t)[1..] == Zeros(n - 1) + t;
      LeadingZerosAre(n - 1, t);
    }
  }

  lemma {:induction false} TrailingZerosGo(t: Text, n: nat)
    requires t != [] && t[|t| - 1] != ZERO
    ensures WithoutTrailingZeros(t + Zeros(n)) == t
  {
    if n == 0 {
      assert t + Zeros(0) == t;
    } else {
      ZerosEnd(n);
      var all := t + Zeros(n);
      assert all[|all| - 1] == ZERO && all[..|all| - 1] == t + Zeros(n - 1);
      TrailingZerosGo(t, n - 1);
    }
  }

  lemma {:induction false} ZerosEnd(n: nat)
    requires n > 0
    ensures Zeros(n) == Zeros(n - 1) + [ZERO]
  {
    if n > 1 {
      ZerosEnd(n - 1);
      assert [ZERO] + (Zeros(n - 2) + [ZERO]) == ([ZERO] + Zeros(n - 2)) + [ZERO];
    }
  }

  lemma NormalIs(negative: bool, lead: nat, digits: Text, trail: nat, point: int)
    requires AreShortest(digits)
    ensures Normal(negative, Zeros(lead) + (digits + Zeros(trail)), point) == Finite(negative, digits, point - lead)
  {
    var rest := digits + Zeros(trail);
    assert rest[0] == digits[0];
    LeadingZerosAre(lead, rest);
    TrailingZerosGo(digits, trail);
  }

  lemma NormalIsDigits(negative: bool, digits: Text, point: int)
    requires AreShortest(digits)
    ensures Normal(negative, digits, point) == Finite(negative, digits, point)
  {
    NormalIs(negative, 0, digits, 0, point);
    assert Zeros(0) + (digits + Zeros(0)) == digits;
  }

  lemma {:induction false} DecimalRoundTrip(n: nat)
    ensures NumberOf(Decimal(n)) == n
  {
    var t := Decimal(n);
    if n < 10 {
      assert t[..0] == [];
    } else {
      DecimalRoundTrip(n / 10);
      assert t[..|t| - 1] == Decimal(n / 10);
    }
  }

  lemma ExponentRoundTrip(e: int)
    ensures ReadExponent(Exponent(e)) == e
  {
    var n: nat := if e < 0 then -e else e;
    DecimalRoundTrip(n);
    assert Exponent(e)[1..] == Decimal(n);
  }

  lemma DigitsHaveNo(t: Text, u: Unit)
    requires AreDigits(t) && !IsDigit(u)
    ensures u !in t
  {
  }

  lemma PlainRead(negative: bool, t: Text)
    requires LETTER_E !in t && DOT !in t
    ensures ReadUnsigned(negative, t) == Normal(negative, t, |t|)
  {
    IndexOfNone(t, LETTER_E);
    IndexOfNone(t, DOT);
    assert t[..|t|] == t && t + [] == t;
  }

  lemma WholeIsDigits(digits: Text, trail: nat)
    requires AreDigits(digits)
    ensures LETTER_E !in digits + Zeros(trail) && DOT !in digits + Zeros(trail)
  {
    DigitsHaveNo(digits + Zeros(trail), LETTER_E);
    DigitsHaveNo(digits + Zeros(trail), DOT);
  }

  lemma WholeIsNormal(negative: bool, digits: Text, trail: nat, point: int)
    requires AreShortest(digits)
    ensures Normal(negative, digits + Zeros(trail), point) == Finite(negative, digits, point)
  {
    assert digits + Zeros(trail) == Zeros(0) + (digits + Zeros(trail));
    NormalIs(negative, 0, digits, trail, point);
  }

  /** A numeral without a point. */
  lemma WholeRoundTrip(negative: bool, digits: Text, point: int)
    requires AreShortest(digits) && |digits| <= point
    ensures ReadUnsigned(negative, digits + Zeros(point - |digits|)) == Finite(negative, digits, point)
  {
    var trail := point - |digits|;
    WholeIsDigits(digits, trail);
    PlainRead(negative, digits + Zeros(trail));
    WholeIsNormal(negative, digits, trail, point);
  }

  /** A mantissa with a point after `whole`. */
  lemma PointRoundTrip(negative: bool, whole: Text, fraction: Text, exponent: int)
    requires AreDigits(whole) && AreDigits(fraction)
    ensures ReadMantissa(negative, whole + [DOT] + fraction, exponent) ==
      Normal(negative, whole + fraction, |whole| + exponent)
  {
    var t := whole + [DOT] + fraction;
    DigitsHaveNo(whole, DOT);
    IndexOfFirst(whole, DOT, fraction);
    assert t[..|whole|] == whole && t[|whole| + 1..] == fraction;
  }

  /** A numeral with a point and no exponent. */
  lemma PlainPointRoundTrip(negative: bool, whole: Text, fraction: Text)
    requires AreDigits(whole) && AreDigits(fraction)
    ensures ReadUnsigned(negative, whole + [DOT] + fraction) == Normal(negative, whole + fraction, |whole|)
  {
    var t := whole + [DOT] + fraction;
    assert LETTER_E !in t;
    IndexOfNone(t, LETTER_E);
    assert t[..|t|] == t;
    PointRoundTrip(negative, whole, fraction, 0);
  }

  lemma OneDigitRoundTrip(negative: bool, digits: Text, exponent: int)
    requires AreShortest(digits) && |digits| == 1
    ensures ReadMantissa(negative, digits, exponent) == Finite(negative, digits, 1 + exponent)
  {
    DigitsHaveNo(digits, DOT);
    IndexOfNone(digits, DOT);
    NormalIsDigits(negative, digits, 1 + exponent);
    assert digits[..1] + [] == digits;
  }

  lemma MoreDigitsRoundTrip(negative: bool, digits: Text, exponent: int)
    requires AreShortest(digits) && |digits| > 1
    ensures ReadMantissa(negative, digits[..1] + [DOT] + digits[1..], exponent) ==
      Finite(negative, digits, 1 + exponent)
  {
    PointRoundTrip(negative, digits[..1], digits[1..], exponent);
    NormalIsDigits(negative, digits, 1 + exponent);
    assert digits[..1] + digits[1..] == digits;
  }

  lemma MantissaRoundTrip(negative: bool, digits: Text, exponent: int)
    requires AreShortest(digits)
    ensures ReadMantissa(negative, Mantissa(digits), exponent) == Finite(negative, digits, 1 + exponent)
  {
    if |digits| == 1 {
      OneDigitRoundTrip(negative, digits, exponent);
    } else {
      MoreDigitsRoundTrip(negative, digits, exponent);
    }
  }

  lemma MantissaHasNoExponent(digits: Text)
    requires digits != [] && AreDigits(digits)
    ensures LETTER_E !in Mantissa(digits)
  {
    DigitsHaveNo(digits[..1], LETTER_E);
    DigitsHaveNo(digits[1..], LETTER_E);
    DigitsHaveNo(digits, LETTER_E);
  }

  lemma ExponentFormRoundTrip(negative: bool, digits: Text, point: int)
    requires AreShortest(digits)
    ensures ReadUnsigned(negative, Mantissa(digits) + [LETTER_E] + Exponent(point - 1)) ==
      Finite(negative, digits, point)
  {
    var mantissa, exponent := Mantissa(digits), Exponent(point - 1);
    var t := mantissa + [LETTER_E] + exponent;
    MantissaRoundTrip(negative, digits, point - 1);
    MantissaHasNoExponent(digits);
    IndexOfFirst(mantissa, LETTER_E, exponent);
    ExponentRoundTrip(point - 1);
    assert t[..|mantissa|] == mantissa && t[|mantissa| + 1..] == exponent;
  }

  lemma ZeroInFront(n: nat, digits: Text)
    ensures [ZERO] + (Zeros(n) + digits) == Zeros(n + 1) + (digits + Zeros(0))
  {
    assert Zeros(n + 1) == [ZERO] + Zeros(n) && digits + Zeros(0) == digits;
  }

  lemma SmallRoundTrip(negative: bool, digits: Text, point: int)
    requires AreShortest(digits) && point <= 0
    ensures ReadUnsigned(negative, [ZERO] + [DOT] + (Zeros(-point) + digits)) == Finite(negative, digits, point)
  {
    PlainPointRoundTrip(negative, [ZERO], Zeros(-point) + digits);
    NormalIs(negative, 1 - point, digits, 0, 1);
    ZeroInFront(-point, digits);
  }

  lemma UnsignedRoundTrip(negative: bool, digits: Text, point: int)
    requires AreShortest(digits)
    ensures ReadUnsigned(negative, Unsigned(digits, point)) == Finite(negative, digits, point)
  {
    if |digits| <= point <= 21 {
      WholeRoundTrip(negative, digits, point);
    } else if 0 < point <= 21 {
      PlainPointRoundTrip(negative, digits[..point], digits[point..]);
      NormalIsDigits(negative, digits, point);
      assert digits[..point] + digits[point..] == digits;
    } else if -6 < point <= 0 {
      SmallRoundTrip(negative, digits, point);
    } else {
      ExponentFormRoundTrip(negative, digits, point);
    }
  }

  lemma UnsignedStartsWithDigit(digits: Text, point: int)
    requires AreShortest(digits)
    ensures Unsigned(digits, point) != [] && IsDigit(Unsigned(digits, point)[0])
  {
  }

  lemma ZeroRoundTrip()
    ensures ReadNumber([ZERO]) == Zero
  {
    assert [ZERO][1..] == [];
    assert [ZERO][..1] + [] == [ZERO];
    IndexOfNone([ZERO], LETTER_E);
    IndexOfNone([ZERO], DOT);
    assert LeadingZeros([ZERO]) == 1 + LeadingZeros([]) == 1;
  }

  /** Reading a written number gives the number back, whatever its size and sign. */
  lemma NumberRoundTrip(n: Number)
    ensures ReadNumber(WriteNumber(n)) == n
  {
    match n
    case Zero => ZeroRoundTrip();
    case Finite(negative, digits, point) =>
      UnsignedRoundTrip(negative, digits, point);
      UnsignedStartsWithDigit(digits, point);
      if negative { assert ([MINUS] + Unsigned(digits, point))[1..] == Unsigned(digits, point); }
      else { assert [] + Unsigned(digits, point) == Unsigned(digits, point); }
  }

  // ---- Where a numeral ends. ----

  predicate IsNumeralUnit(u: Unit) {
    IsDigit(u) || u == PLUS || u == MINUS || u == DOT || u == LETTER_E
  }

  predicate IsNumeral(t: Text) {
    forall i :: 0 <= i < |t| ==> IsNumeralUnit(t[i])
  }

  function NumeralOf(t: Text): (d: Text)
    ensures |d| <= |t|
  {
    if t == [] || !IsNumeralUnit(t[0]) then [] else [t[0]] + NumeralOf(t[1..])
  }

  lemma {:induction false} NumeralStops(d: Text, rest: Text)
    requires IsNumeral(d) && rest != [] && !IsNumeralUnit(rest[0])
    ensures NumeralOf(d + rest) == d
  {
    if d == [] {
      assert d + rest == rest;
    } else {
      assert (d + rest)[1..] == d[1..] + rest;
      NumeralStops(d[1..], rest);
    }
  }

  lemma NumeralsJoin(a: Text, b: Text)
    requires IsNumeral(a) && IsNumeral(b)
    ensures IsNumeral(a + b)
  {
  }

  lemma UnsignedIsNumeral(digits: Text, point: int)
    requires AreShortest(digits)
    ensures IsNumeral(Unsigned(digits, point))
  {
    if !(0 < point <= 21) && !(-6 < point <= 0) {
      NumeralsJoin(Mantissa(digits), [LETTER_E]);
      NumeralsJoin(Mantissa(digits) + [LETTER_E], Exponent(point - 1));
    }
  }

  lemma WrittenIsNumeral(n: Number)
    ensures IsNumeral(WriteNumber(n))
    ensures WriteNumber(n) != [] && (IsDigit(WriteNumber(n)[0]) || WriteNumber(n)[0] == MINUS)
  {
    if n.Finite? {
      UnsignedIsNumeral(n.digits, n.point);
      UnsignedStartsWithDigit(n.digits, n.point);
    }
  }

  // ---- Which form a number is written in. ----

  lemma {:induction false} ZerosAppended(digits: Text, n: nat)
    ensures NumberOf(digits + Zeros(n)) == NumberOf(digits) * PowerOfTen(n)
  {
    if n == 0 {
      assert digits + Zeros(0) == digits;
    } else {
      ZerosEnd(n);
      var t := digits + Zeros(n);
      assert t[..|t| - 1] == digits + Zeros(n - 1) && t[|t| - 1] == ZERO;
      ZerosAppended(digits, n - 1);
      TenTimes(NumberOf(digits), PowerOfTen(n - 1));
    }
  }

  lemma TenTimes(a: nat, b: nat)
    ensures a * b * 10 == a * (10 * b)
  {
  }

  function PowerOfTen(n: nat): nat {
    if n == 0 then 1 else 10 * PowerOfTen(n - 1)
  }

  lemma UnsignedIsWritten(digits: Text, point: int)
    requires AreShortest(digits)
    ensures WriteNumber(Finite(false, digits, point)) == Unsigned(digits, point)
  {
    var t := Unsigned(digits, point);
    assert [] + t == t;
  }

  lemma WholeIsText(digits: Text, trail: nat)
    requires AreDigits(digits)
    ensures |digits + Zeros(trail)| == |digits| + trail && AreDigits(digits + Zeros(trail))
  {
  }

  /** A whole number of at most 21 digits is written out: nothing but its digits. */
  lemma WholeNumbersAreWrittenOut(digits: Text, point: int)
    requires AreShortest(digits) && |digits| <= point <= 21
    ensures var t := WriteNumber(Finite(false, digits, point));
      && |t| == point && (forall i :: 0 <= i < |t| ==> 0x30 <= t[i] <= 0x39)
      && NumberOf(t) == NumberOf(digits) * PowerOfTen(point - |digits|)
  {
    var trail := point - |digits|;
    UnsignedIsWritten(digits, point);
    ZerosAppended(digits, trail);
    WholeIsText(digits, trail);
    assert Unsigned(digits, point) == digits + Zeros(trail);
  }

  /** An exponent is written exactly from 10 to the 21st on and below one millionth; a point exactly when
      there is a fraction, of the number or of what stands before the exponent. */
  lemma FormExactly(negative: bool, digits: Text, point: int)
    requires AreShortest(digits)
    ensures var t := WriteNumber(Finite(negative, digits, point));
      && (0x65 in t <==> point > 21 || point <= -6)
      && (0x2E in t <==> if point > 21 || point <= -6 then |digits| > 1 else |digits| > point)
      && (t[0] == 0x2D <==> negative)
  {
    var sign: Text := if negative then [MINUS] else [];
    DigitsHaveNo(digits, 0x65);
    DigitsHaveNo(digits, 0x2E);
    var t := sign + Unsigned(digits, point);
    UnsignedStartsWithDigit(digits, point);
    if |digits| <= point <= 21 {
      DigitsHaveNo(Zeros(point - |digits|), 0x65);
      DigitsHaveNo(Zeros(point - |digits|), 0x2E);
    } else if 0 < point <= 21 {
      assert digits == digits[..point] + digits[point..];
    } else if -6 < point <= 0 {
      DigitsHaveNo(Zeros(-point), 0x65);
      DigitsHaveNo(Zeros(-point), 0x2E);
    } else {
      ExponentHasNoPoint(point - 1);
      assert digits == digits[..1] + digits[1..];
    }
  }

  lemma ExponentHasNoPoint(e: int)
    ensures 0x2E !in Exponent(e)
  {
    DigitsHaveNo(Decimal(if e < 0 then -e else e), 0x2E);
  }
}
