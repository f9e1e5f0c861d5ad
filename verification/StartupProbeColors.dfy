/** What a colour reply says about the colour. */
module StartupProbeColors {
  import opened Basics
  import opened StartupProbes

  predicate IsHexDigit(c: char) {
    '0' <= c <= '9' || 'a' <= c <= 'f' || 'A' <= c <= 'F'
  }

  predicate IsHex(s: string) {
    forall i :: 0 <= i < |s| ==> IsHexDigit(s[i])
  }

  function Lower(c: char): char {
    if 'A' <= c <= 'F' then c - 'A' + 'a' else c
  }

  lemma LowerIsDigit(c: char)
    requires IsHexDigit(c)
    ensures HexValue(c).Some? && HexValue(c).value < 16 && HEX_DIGITS[HexValue(c).value] == Lower(c)
  {
  }

  /** A reply is built for `#` and three or six characters, whatever those characters are. */
  lemma ColorReplyExists(code: string, color: Option<string>)
    ensures ColorReply(code, color).Some? <==>
      color.Some? && color.value != "" && color.value[0] == '#' && (|color.value| == 4 || |color.value| == 7)
  {
  }

  lemma PrefixOfPair(a: char, b: char, high: nat, low: nat)
    requires HexValue(a) == Some(high) && HexValue(b) == Some(low)
    ensures HexPrefix([a, b], None) == Some(high * 16 + low)
  {
    assert [a, b][1..] == [b] && [b][1..] == [];
    assert HexPrefix([b], Some(high)) == HexPrefix([], Some(high * 16 + low));
  }

  lemma PairParses(a: char, b: char) returns (high: nat, low: nat)
    requires IsHexDigit(a) && IsHexDigit(b)
    ensures high < 16 && low < 16 && HEX_DIGITS[high] == Lower(a) && HEX_DIGITS[low] == Lower(b)
    ensures ParseInt16([a, b]) == Some(high * 16 + low)
  {
    LowerIsDigit(a);
    LowerIsDigit(b);
    high, low := HexValue(a).value, HexValue(b).value;
    PrefixOfPair(a, b, high, low);
  }

  lemma PairIsWritten(high: nat, low: nat)
    requires high < 16 && low < 16
    ensures Pad16Bit(Some(high * 16 + low)) ==
      [HEX_DIGITS[high], HEX_DIGITS[low], HEX_DIGITS[high], HEX_DIGITS[low]]
  {
    var n := high * 16 + low;
    if high > 0 {
      assert n / 16 == high && n % 16 == low;
      assert ToHex(n) == [HEX_DIGITS[high]] + [HEX_DIGITS[low]];
    }
  }

  /** What a reply says of a channel: two digits as they are, in lower case; a single digit behind a zero, with
      a minus if one stood before it and the digit is not zero; no number when no digit is read. Only the
      first of two characters that are not both digits may be white space or a sign, and `0x` is no digit. */
  function ChannelText(a: char, b: char): string {
    if IsHexDigit(a) && IsHexDigit(b) then [Lower(a), Lower(b)]
    else if IsHexDigit(a) && !(a == '0' && (b == 'x' || b == 'X')) then ['0', Lower(a)]
    else if (IsWhitespace(a) || a == '+' || (a == '-' && b == '0')) && IsHexDigit(b) then ['0', Lower(b)]
    else if a == '-' && IsHexDigit(b) then ['-', Lower(b)]
    else "NaN"
  }

  lemma DigitIsWritten(c: char)
    requires IsHexDigit(c)
    ensures var n := HexValue(c).value;
      && HexValue(c).Some? && Pad16Bit(Some(n)) == ['0', Lower(c), '0', Lower(c)]
      && (n > 0 ==> Pad16Bit(Some(-(n as int))) == ['-', Lower(c), '-', Lower(c)]) && (n == 0 <==> c == '0')
  {
    LowerIsDigit(c);
    assert "0" + [Lower(c)] == ['0', Lower(c)] && "-" + [Lower(c)] == ['-', Lower(c)];
  }

  lemma PrefixOfOne(c: char)
    ensures HexPrefix([c], None) == HexValue(c)
  {
    assert [c][1..] == [];
    if HexValue(c).Some? { assert HexPrefix([], HexValue(c)) == HexValue(c); }
  }

  lemma PrefixStops(a: char, b: char)
    requires HexValue(b).None?
    ensures HexPrefix([a, b], None) == HexValue(a)
  {
    assert [a, b][1..] == [b];
    if HexValue(a).Some? { assert HexPrefix([b], HexValue(a)) == HexValue(a); }
  }

  lemma NotDigit(c: char)
    ensures HexValue(c).Some? <==> IsHexDigit(c)
    ensures IsWhitespace(c) || c == '+' || c == '-' ==> HexValue(c).None?
  {
  }

  /** One character by itself. */
  lemma SingleParses(b: char)
    ensures ParseInt16([b]) == HexValue(b)
  {
    NotDigit(b);
    PrefixOfOne(b);
    assert [b][1..] == [];
    assert HexPrefix([], None) == None;
    if IsWhitespace(b) { assert ParseInt16([]) == None; }
  }

  lemma SignedParses(a: char, b: char)
    requires a == '+' || a == '-'
    ensures ParseInt16([a, b]) ==
      if HexValue(b).None? then None else Some(if a == '-' then -(HexValue(b).value as int) else HexValue(b).value)
  {
    assert [a, b][1..] == [b];
    PrefixOfOne(b);
  }

  lemma UnsignedParses(a: char, b: char)
    requires !IsWhitespace(a) && a != '+' && a != '-' && HexValue(b).None?
    ensures ParseInt16([a, b]) == if a == '0' && (b == 'x' || b == 'X') then None else HexValue(a)
  {
    PrefixStops(a, b);
    if a == '0' && (b == 'x' || b == 'X') { assert [a, b][2..] == [] && HexPrefix([], None) == None; }
  }

  /** Two hexadecimal digits become the same two digits, in lower case, written twice. */
  lemma PairOfDigits(a: char, b: char)
    requires IsHexDigit(a) && IsHexDigit(b)
    ensures Pad16Bit(ParseInt16([a, b])) == [Lower(a), Lower(b), Lower(a), Lower(b)]
  {
    var high, low := PairParses(a, b);
    PairIsWritten(high, low);
  }

  /** Any two characters of a colour. */
  lemma ChannelExactly(a: char, b: char)
    ensures Pad16Bit(ParseInt16([a, b])) == ChannelText(a, b) + ChannelText(a, b)
  {
    NotDigit(a);
    NotDigit(b);
    if IsHexDigit(a) && IsHexDigit(b) {
      PairOfDigits(a, b);
    } else if IsWhitespace(a) {
      assert [a, b][1..] == [b];
      SingleParses(b);
      if IsHexDigit(b) { DigitIsWritten(b); }
    } else if a == '+' || a == '-' {
      SignedParses(a, b);
      if IsHexDigit(b) { DigitIsWritten(b); }
    } else {
      if IsHexDigit(a) { DigitIsWritten(a); }
      if IsHexDigit(b) { NoDigitFirst(a, b); } else { UnsignedParses(a, b); }
    }
  }

  lemma NoDigitFirst(a: char, b: char)
    requires !IsWhitespace(a) && a != '+' && a != '-' && !IsHexDigit(a) && IsHexDigit(b)
    ensures ParseInt16([a, b]) == None
  {
    NotDigit(a);
  }

  /** A channel is reported twice. */
  function Doubled(a: char, b: char): string {
    ChannelText(a, b) + ChannelText(a, b)
  }

  function Channels(hex: string): string
    requires |hex| == 6
  {
    Doubled(hex[0], hex[1]) + "/" + Doubled(hex[2], hex[3]) + "/" + Doubled(hex[4], hex[5])
  }

  lemma ReplyParts(code: string, hex: string) returns (reply: Option<string>)
    requires |hex| == 6
    ensures reply == ColorReply(code, Some("#" + hex))
    ensures reply == Some([ESC] + "]" + code + ";rgb:" + Doubled(hex[0], hex[1]) + "/" + Doubled(hex[2], hex[3])
                          + "/" + Doubled(hex[4], hex[5]) + [ESC] + "\\")
  {
    reply := ColorReply(code, Some("#" + hex));
    assert ("#" + hex)[1..] == hex;
    assert hex[0..2] == [hex[0], hex[1]] && hex[2..4] == [hex[2], hex[3]] && hex[4..6] == [hex[4], hex[5]];
    ChannelExactly(hex[0], hex[1]);
    ChannelExactly(hex[2], hex[3]);
    ChannelExactly(hex[4], hex[5]);
  }

  lemma Joins(a: string, b: string, c: string, r: string, g: string, h: string, e: string, f: string)
    ensures a + "]" + b + c + r + "/" + g + "/" + h + e + f == (a + "]") + b + c + (r + "/" + g + "/" + h) + (e + f)
  {
    var left := a + "]" + b + c;
    assert left + r + "/" + g + "/" + h == left + (r + "/" + g + "/" + h);
    var all := left + (r + "/" + g + "/" + h);
    assert all + e + f == all + (e + f);
  }

  lemma ReplyInText(code: string, opening: string, hex: string) returns (reply: Option<string>)
    requires |hex| == 6 && opening == "\U{001b}]" + code + ";rgb:"
    ensures reply == ColorReply(code, Some("#" + hex))
    ensures reply == Some(opening + Channels(hex) + "\U{001b}\\")
  {
    reply := ReplyParts(code, hex);
    Joins([ESC], code, ";rgb:", Doubled(hex[0], hex[1]), Doubled(hex[2], hex[3]), Doubled(hex[4], hex[5]),
          [ESC], "\\");
    assert [ESC] + "]" == "\U{001b}]" && [ESC] + "\\" == "\U{001b}\\";
  }

  /** The whole reply to either query: its code, then the channels of its own colour, whatever its characters. */
  lemma ColorsAreReported(foreground: string, background: string)
    requires |foreground| == 6 && |background| == 6
    ensures var colors := Colors(Some("#" + foreground), Some("#" + background));
      && BackgroundReply(colors) == Some("\U{001b}]11;rgb:" + Channels(background) + "\U{001b}\\")
      && ForegroundReply(colors) == Some("\U{001b}]10;rgb:" + Channels(foreground) + "\U{001b}\\")
  {
    assert "\U{001b}]11;rgb:" == "\U{001b}]" + "11" + ";rgb:";
    assert "\U{001b}]10;rgb:" == "\U{001b}]" + "10" + ";rgb:";
    var first := ReplyInText("11", "\U{001b}]11;rgb:", background);
    var second := ReplyInText("10", "\U{001b}]10;rgb:", foreground);
  }

  /** The channels of hexadecimal digits are those digits, in lower case. */
  lemma HexChannels(hex: string)
    requires |hex| == 6 && IsHex(hex)
    ensures Channels(hex) ==
      [Lower(hex[0]), Lower(hex[1]), Lower(hex[0]), Lower(hex[1])] + "/" +
      [Lower(hex[2]), Lower(hex[3]), Lower(hex[2]), Lower(hex[3])] + "/" +
      [Lower(hex[4]), Lower(hex[5]), Lower(hex[4]), Lower(hex[5])]
  {
  }

  /** A reply to a well-formed `#rrggbb` carries each channel's two digits doubled. */
  lemma SixDigitReply(code: string, hex: string)
    requires |hex| == 6 && IsHex(hex)
    ensures ColorReply(code, Some("#" + hex)) == Some(
      "\U{001b}]" + code + ";rgb:" +
      ([Lower(hex[0]), Lower(hex[1]), Lower(hex[0]), Lower(hex[1])] + "/" +
       [Lower(hex[2]), Lower(hex[3]), Lower(hex[2]), Lower(hex[3])] + "/" +
       [Lower(hex[4]), Lower(hex[5]), Lower(hex[4]), Lower(hex[5])]) + "\U{001b}\\")
  {
    HexChannels(hex);
    var reply := ReplyInText(code, "\U{001b}]" + code + ";rgb:", hex);
  }

  /** The three-digit form of a colour gets the reply of its six-digit form. */
  lemma ThreeDigitReply(code: string, hex: string)
    requires |hex| == 3
    ensures ColorReply(code, Some("#" + hex)) ==
      ColorReply(code, Some("#" + [hex[0], hex[0], hex[1], hex[1], hex[2], hex[2]]))
  {
    var long := [hex[0], hex[0], hex[1], hex[1], hex[2], hex[2]];
    assert ("#" + hex)[1..] == hex && ("#" + long)[1..] == long;
    assert long[0..2] == [hex[0], hex[0]] && long[2..4] == [hex[1], hex[1]] && long[4..6] == [hex[2], hex[2]];
  }
}
