/** `JSON.stringify` of flat tuples, on strings of UTF-16 code units, and the parser that undoes it. */
module JsonText {
  import opened Basics
  import opened JsonNumbers

  const QUOTE: Unit := 0x22
  const BACKSLASH: Unit := 0x5C
  const COMMA: Unit := 0x2C
  const OPEN: Unit := 0x5B
  const CLOSE: Unit := 0x5D
  const LETTER_U: Unit := 0x75

  // ---- Strings (section 7 of RFC 8259). ----

  function HexDigit(n: nat): Unit
    requires n < 16
  {
    if n < 10 then 0x30 + n else 0x61 + n - 10
  }

  function FromHexDigit(u: Unit): Option<nat> {
    if 0x30 <= u <= 0x39 then Some(u - 0x30)
    else if 0x61 <= u <= 0x66 then Some(u - 0x61 + 10)
    else if 0x41 <= u <= 0x46 then Some(u - 0x41 + 10)
    else None
  }

  function HexEscape(u: Unit): Text {
    [BACKSLASH, LETTER_U, HexDigit(u / 0x1000), HexDigit(u / 0x100 % 16), HexDigit(u / 16 % 16), HexDigit(u % 16)]
  }

  predicate IsHigh(u: Unit) { 0xD800 <= u < 0xDC00 }

  predicate IsLow(u: Unit) { 0xDC00 <= u < 0xE000 }

  /** The letter of a two-character escape. */
  function ShortEscape(u: Unit): Option<Unit> {
    if u == 0x08 then Some(0x62)
    else if u == 0x09 then Some(0x74)
    else if u == 0x0A then Some(0x6E)
    else if u == 0x0C then Some(0x66)
    else if u == 0x0D then Some(0x72)
    else if u == QUOTE || u == BACKSLASH then Some(u)
    else None
  }

  /** One code unit that is not part of a surrogate pair. */
  function Escape(u: Unit): Text {
    if ShortEscape(u).Some? then [BACKSLASH, ShortEscape(u).value]
    else if u < 0x20 || IsHigh(u) || IsLow(u) then HexEscape(u)
    else [u]
  }

  /** Surrogate pairs stay, lone surrogates are escaped. */
  function QuoteUnits(s: Text): Text {
    if s == [] then []
    else if |s| > 1 && IsHigh(s[0]) && IsLow(s[1]) then s[..2] + QuoteUnits(s[2..])
    else Escape(s[0]) + QuoteUnits(s[1..])
  }

  function Quote(s: Text): Text {
    [QUOTE] + QuoteUnits(s) + [QUOTE]
  }

  /** The unit an escape letter stands for; the grammar also allows an escaped slash. */
  function FromShortEscape(letter: Unit): Option<Unit> {
    if letter == 0x62 then Some(0x08)
    else if letter == 0x74 then Some(0x09)
    else if letter == 0x6E then Some(0x0A)
    else if letter == 0x66 then Some(0x0C)
    else if letter == 0x72 then Some(0x0D)
    else if letter == QUOTE || letter == BACKSLASH || letter == 0x2F then Some(letter)
    else None
  }

  function FromHex(digits: Text): Option<Unit>
    requires |digits| == 4
  {
    var a, b := FromHexDigit(digits[0]), FromHexDigit(digits[1]);
    var c, d := FromHexDigit(digits[2]), FromHexDigit(digits[3]);
    if a.Some? && b.Some? && c.Some? && d.Some? && ((a.value * 16 + b.value) * 16 + c.value) * 16 + d.value < 0x1_0000
    then Some(((a.value * 16 + b.value) * 16 + c.value) * 16 + d.value)
    else None
  }

  datatype Parsed<T> = Failed | Parsed(value: T, rest: Text)

  function Prepend(u: Unit, p: Parsed<Text>): Parsed<Text> {
    if p.Parsed? then Parsed([u] + p.value, p.rest) else Failed
  }

  /** The rest of a string literal, after its opening quote. */
  function ParseUnits(t: Text): Parsed<Text> {
    if t == [] then Failed
    else if t[0] == QUOTE then Parsed([], t[1..])
    else if t[0] == BACKSLASH then
      if |t| < 2 then Failed
      else if t[1] == LETTER_U then
        if |t| < 6 || FromHex(t[2..6]).None? then Failed else Prepend(FromHex(t[2..6]).value, ParseUnits(t[6..]))
      else if FromShortEscape(t[1]).None? then Failed
      else Prepend(FromShortEscape(t[1]).value, ParseUnits(t[2..]))
    else if t[0] < 0x20 then Failed
    else Prepend(t[0], ParseUnits(t[1..]))
  }

  lemma HexDigitRoundTrip(n: nat)
    requires n < 16
    ensures FromHexDigit(HexDigit(n)) == Some(n)
  {
  }

  lemma DigitsMakeUp(u: Unit)
    ensures u / 0x1000 < 16
    ensures ((u / 0x1000 * 16 + u / 0x100 % 16) * 16 + u / 16 % 16) * 16 + u % 16 == u
  {
    assert u / 0x100 == (u / 0x1000) * 16 + u / 0x100 % 16;
    assert u / 16 == (u / 0x100) * 16 + u / 16 % 16;
  }

  lemma HexRoundTrip(u: Unit)
    ensures Some(u) ==
      FromHex([HexDigit(u / 0x1000), HexDigit(u / 0x100 % 16), HexDigit(u / 16 % 16), HexDigit(u % 16)])
  {
    DigitsMakeUp(u);
    HexDigitRoundTrip(u / 0x1000);
    HexDigitRoundTrip(u / 0x100 % 16);
    HexDigitRoundTrip(u / 16 % 16);
    HexDigitRoundTrip(u % 16);
  }

  lemma PlainRoundTrip(u: Unit, more: Text)
    requires u >= 0x20 && u != QUOTE && u != BACKSLASH
    ensures ParseUnits([u] + more) == Prepend(u, ParseUnits(more))
  {
    assert ([u] + more)[1..] == more;
  }

  lemma ShortEscapeRoundTrip(u: Unit, letter: Unit, more: Text)
    requires ShortEscape(u) == Some(letter)
    ensures ParseUnits([BACKSLASH, letter] + more) == Prepend(u, ParseUnits(more))
  {
    var t := [BACKSLASH, letter] + more;
    assert FromShortEscape(letter) == Some(u) && letter != LETTER_U;
    assert t[0] == BACKSLASH && t[1] == letter && t[2..] == more;
  }

  lemma HexEscapeRoundTrip(u: Unit, more: Text)
    ensures ParseUnits(HexEscape(u) + more) == Prepend(u, ParseUnits(more))
  {
    var t := HexEscape(u) + more;
    assert t[0] == BACKSLASH && t[1] == LETTER_U && t[6..] == more;
    assert t[2..6] == [HexDigit(u / 0x1000), HexDigit(u / 0x100 % 16), HexDigit(u / 16 % 16), HexDigit(u % 16)];
    HexRoundTrip(u);
  }

  lemma EscapeRoundTrip(u: Unit, more: Text)
    ensures ParseUnits(Escape(u) + more) == Prepend(u, ParseUnits(more))
  {
    if ShortEscape(u).Some? {
      ShortEscapeRoundTrip(u, ShortEscape(u).value, more);
    } else if u < 0x20 || IsHigh(u) || IsLow(u) {
      HexEscapeRoundTrip(u, more);
    } else {
      PlainRoundTrip(u, more);
    }
  }

  /** Moves the end of a literal behind its first part. */
  lemma Regroup(first: Text, s: Text, rest: Text)
    ensures first + s + [QUOTE] + rest == first + (s + [QUOTE] + rest)
  {
  }

  lemma PairRoundTrip(high: Unit, low: Unit, more: Text)
    requires IsHigh(high) && IsLow(low)
    ensures ParseUnits([high, low] + more) == Prepend(high, Prepend(low, ParseUnits(more)))
  {
    PlainRoundTrip(low, more);
    PlainRoundTrip(high, [low] + more);
    assert [high, low] + more == [high] + ([low] + more);
  }

  lemma FirstPairRoundTrip(high: Unit, low: Unit, q: Text, s: Text, rest: Text)
    requires IsHigh(high) && IsLow(low)
    requires var parsed := ParseUnits(q + [QUOTE] + rest); parsed.Parsed? && parsed.value == s && parsed.rest == rest
    ensures ParseUnits([high, low] + q + [QUOTE] + rest) == Parsed([high, low] + s, rest)
  {
    Regroup([high, low], q, rest);
    PairRoundTrip(high, low, q + [QUOTE] + rest);
    assert [high, low] + s == [high] + ([low] + s);
  }

  lemma FirstUnitRoundTrip(u: Unit, q: Text, s: Text, rest: Text)
    requires var parsed := ParseUnits(q + [QUOTE] + rest); parsed.Parsed? && parsed.value == s && parsed.rest == rest
    ensures ParseUnits(Escape(u) + q + [QUOTE] + rest) == Parsed([u] + s, rest)
  {
    Regroup(Escape(u), q, rest);
    EscapeRoundTrip(u, q + [QUOTE] + rest);
  }

  lemma QuotePair(s: Text)
    requires |s| > 1 && IsHigh(s[0]) && IsLow(s[1])
    ensures QuoteUnits(s) == [s[0], s[1]] + QuoteUnits(s[2..]) && s == [s[0], s[1]] + s[2..]
  {
    assert s[..2] == [s[0], s[1]];
  }

  lemma QuoteOne(s: Text)
    requires s != [] && !(|s| > 1 && IsHigh(s[0]) && IsLow(s[1]))
    ensures QuoteUnits(s) == Escape(s[0]) + QuoteUnits(s[1..]) && s == [s[0]] + s[1..]
  {
  }

  /** Quoting a string and parsing the literal gives the string back and stops after it. */
  lemma {:induction false} UnitsRoundTrip(s: Text, rest: Text)
    ensures ParseUnits(QuoteUnits(s) + [QUOTE] + rest) == Parsed(s, rest)
  {
    if s == [] {
      assert ([] + [QUOTE] + rest)[1..] == rest;
    } else if |s| > 1 && IsHigh(s[0]) && IsLow(s[1]) {
      QuotePair(s);
      UnitsRoundTrip(s[2..], rest);
      FirstPairRoundTrip(s[0], s[1], QuoteUnits(s[2..]), s[2..], rest);
    } else {
      QuoteOne(s);
      UnitsRoundTrip(s[1..], rest);
      FirstUnitRoundTrip(s[0], QuoteUnits(s[1..]), s[1..], rest);
    }
  }

  /** Which units are escaped, and how: seven by one letter, the other controls and lone surrogates by four
      hexadecimal digits in lower case, and no others. */
  lemma EscapeExactly(u: Unit)
    ensures |Escape(u)| == 2 <==> u in {0x08, 0x09, 0x0A, 0x0C, 0x0D, 0x22, 0x5C}
    ensures |Escape(u)| == 6 <==>
      (u < 0x20 && u !in {0x08, 0x09, 0x0A, 0x0C, 0x0D}) || 0xD800 <= u <= 0xDFFF
    ensures |Escape(u)| == 6 ==>
      Escape(u)[..2] == [0x5C, 0x75] &&
      forall i :: 2 <= i < 6 ==> 0x30 <= Escape(u)[i] <= 0x39 || 0x61 <= Escape(u)[i] <= 0x66
    ensures |Escape(u)| == 2 ==> Escape(u)[0] == 0x5C
    ensures |Escape(u)| == 1 || |Escape(u)| == 2 || |Escape(u)| == 6
    ensures |Escape(u)| == 1 ==> Escape(u) == [u]
  {
  }

  /** No control, quotation mark, backslash or surrogate. */
  predicate IsPlainText(s: Text) {
    forall i :: 0 <= i < |s| ==> s[i] >= 0x20 && s[i] != 0x22 && s[i] != 0x5C && !(0xD800 <= s[i] <= 0xDFFF)
  }

  lemma {:induction false} PlainIsQuotedAsItIs(s: Text)
    requires IsPlainText(s)
    ensures QuoteUnits(s) == s
  {
    if s != [] {
      QuoteOne(s);
      PlainIsQuotedAsItIs(s[1..]);
    }
  }

  // ---- Tuples. ----

  datatype Item = Str(text: Text) | Num(number: Number) | Nothing

  const NULL: Text := [0x6E, 0x75, 0x6C, 0x6C]

  function EncodeItem(item: Item): Text {
    match item
    case Str(text) => Quote(text)
    case Num(number) => WriteNumber(number)
    case Nothing => NULL
  }

  /** The items after the opening bracket, up to and with the closing one. */
  function EncodeItems<T>(encode: T -> Text, items: seq<T>): Text
    requires items != []
  {
    if |items| == 1 then encode(items[0]) + [CLOSE]
    else encode(items[0]) + ([COMMA] + EncodeItems(encode, items[1..]))
  }

  /** `JSON.stringify` of an array of strings, numbers and nulls. */
  function Stringify(items: seq<Item>): Text
    requires items != []
  {
    [OPEN] + EncodeItems(EncodeItem, items)
  }

  function ParseItem(t: Text): Parsed<Item> {
    if t == [] then Failed
    else if t[0] == QUOTE then
      match ParseUnits(t[1..])
      case Failed => Failed
      case Parsed(text, rest) => Parsed(Str(text), rest)
    else if NULL <= t then Parsed(Nothing, t[4..])
    else if IsDigit(t[0]) || t[0] == MINUS then
      var number := ReadNumber(NumeralOf(t));
      if number.Finite? && !AreShortest(number.digits) then Failed else Parsed(Num(number), t[|NumeralOf(t)|..])
    else Failed
  }

  function InFront<T>(item: T, items: Option<seq<T>>): Option<seq<T>> {
    if items.Some? then Some([item] + items.value) else None
  }

  /** `fuel` bounds the number of items; the length of the text is enough. */
  function ParseItems<T>(parse: Text -> Parsed<T>, t: Text, fuel: nat): Option<seq<T>>
    decreases fuel
  {
    if fuel == 0 then None else
    match parse(t)
    case Failed => None
    case Parsed(item, rest) =>
      if rest == [CLOSE] then Some([item])
      else if rest == [] || rest[0] != COMMA then None
      else InFront(item, ParseItems(parse, rest[1..], fuel - 1))
  }

  function Parse(t: Text): Option<seq<Item>> {
    if t == [] || t[0] != OPEN then None else ParseItems(ParseItem, t[1..], |t|)
  }

  lemma StringItemRoundTrip(text: Text, rest: Text)
    ensures ParseItem(Quote(text) + rest) == Parsed(Str(text), rest)
  {
    var t := Quote(text) + rest;
    assert t[0] == QUOTE && t[1..] == QuoteUnits(text) + [QUOTE] + rest;
    UnitsRoundTrip(text, rest);
  }

  lemma ParsesNumber(number: Number, numeral: Text, rest: Text, t: Text)
    requires numeral != [] && (IsDigit(numeral[0]) || numeral[0] == MINUS) && t == numeral + rest
    requires NumeralOf(t) == numeral && ReadNumber(numeral) == number
    ensures ParseItem(t) == Parsed(Num(number), rest)
  {
    assert t[0] == numeral[0] && NULL[0] == 0x6E;
    assert t[|numeral|..] == rest;
  }

  lemma NumberItemRoundTrip(number: Number, rest: Text)
    requires rest != [] && !IsNumeralUnit(rest[0])
    ensures ParseItem(WriteNumber(number) + rest) == Parsed(Num(number), rest)
  {
    var numeral := WriteNumber(number);
    WrittenIsNumeral(number);
    NumeralStops(numeral, rest);
    NumberRoundTrip(number);
    ParsesNumber(number, numeral, rest, numeral + rest);
  }

  lemma ItemRoundTrip(item: Item, rest: Text)
    requires rest != [] && !IsNumeralUnit(rest[0])
    ensures ParseItem(EncodeItem(item) + rest) == Parsed(item, rest)
  {
    match item
    case Str(text) => StringItemRoundTrip(text, rest);
    case Num(number) => NumberItemRoundTrip(number, rest);
    case Nothing =>
      var t := NULL + rest;
      assert t[0] == 0x6E && NULL <= t && t[4..] == rest;
  }

  /** `parse` reads back what `encode` wrote, and stops there. */
  ghost predicate Undoes<T(!new)>(parse: Text -> Parsed<T>, encode: T -> Text) {
    forall item, rest :: rest != [] && !IsNumeralUnit(rest[0]) ==> parse(encode(item) + rest) == Parsed(item, rest)
  }

  lemma {:induction false} ItemsRoundTrip<T(!new)>(
      parse: Text -> Parsed<T>, encode: T -> Text, items: seq<T>, fuel: nat)
    requires Undoes(parse, encode) && items != [] && fuel >= |items|
    ensures ParseItems(parse, EncodeItems(encode, items), fuel) == Some(items)
  {
    if |items| == 1 {
      assert parse(encode(items[0]) + [CLOSE]) == Parsed(items[0], [CLOSE]);
      assert items == [items[0]];
    } else {
      var more := EncodeItems(encode, items[1..]);
      assert parse(encode(items[0]) + ([COMMA] + more)) == Parsed(items[0], [COMMA] + more);
      assert ([COMMA] + more)[1..] == more;
      ItemsRoundTrip(parse, encode, items[1..], fuel - 1);
      assert items == [items[0]] + items[1..];
    }
  }

  lemma {:induction false} EncodedIsLonger<T>(encode: T -> Text, items: seq<T>)
    requires items != []
    ensures |EncodeItems(encode, items)| >= |items|
  {
    if |items| > 1 { EncodedIsLonger(encode, items[1..]); }
  }

  lemma ParseItemUndoes()
    ensures Undoes(ParseItem, EncodeItem)
  {
    forall item, rest: Text | rest != [] && !IsNumeralUnit(rest[0])
      ensures ParseItem(EncodeItem(item) + rest) == Parsed(item, rest)
    {
      ItemRoundTrip(item, rest);
    }
  }

  /** Parsing undoes encoding, for every tuple of strings (lone surrogates included), finite
      numbers and nulls. */
  lemma StringifyRoundTrip(items: seq<Item>)
    requires items != []
    ensures Parse(Stringify(items)) == Some(items)
  {
    var text := EncodeItems(EncodeItem, items);
    assert Stringify(items)[1..] == text;
    EncodedIsLonger(EncodeItem, items);
    ParseItemUndoes();
    ItemsRoundTrip(ParseItem, EncodeItem, items, |text| + 1);
  }

  /** Hence two tuples with the same encoding are the same tuple. */
  lemma StringifyIsInjective(a: seq<Item>, b: seq<Item>)
    requires a != [] && b != [] && Stringify(a) == Stringify(b)
    ensures a == b
  {
    StringifyRoundTrip(a);
    StringifyRoundTrip(b);
  }
}
