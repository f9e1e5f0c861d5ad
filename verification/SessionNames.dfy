/** The keys of shared/session-names.ts. */
module SessionNames {
  import opened Basics
  import opened JsonNumbers
  import opened JsonText

  datatype SessionNameRef = Pending(id: Text) | Session(provider: Text, sessionId: Text)

  /** The word "pending". */
  const PENDING: Text := [0x70, 0x65, 0x6E, 0x64, 0x69, 0x6E, 0x67]

  /** The word "session". */
  const SESSION: Text := [0x73, 0x65, 0x73, 0x73, 0x69, 0x6F, 0x6E]

  function RefItems(ref: SessionNameRef): seq<Item> {
    match ref
    case Pending(id) => [Str(PENDING), Str(id)]
    case Session(provider, sessionId) => [Str(SESSION), Str(provider), Str(sessionId)]
  }

  function SessionNameRefKey(ref: SessionNameRef): Text {
    Stringify(RefItems(ref))
  }

  /** Two refs share a key only when they are equal, whatever their strings hold. */
  lemma RefKeysAreInjective(a: SessionNameRef, b: SessionNameRef)
    requires SessionNameRefKey(a) == SessionNameRefKey(b)
    ensures a == b
  {
    StringifyIsInjective(RefItems(a), RefItems(b));
    var x, y := RefItems(a), RefItems(b);
    assert |x| == |y|;
    assert x[1] == y[1];
    if a.Session? && b.Session? { assert x[2] == y[2]; }
  }

  /** The code units of a text in ASCII; any other character becomes the replacement character. */
  function Ascii(s: string): Text {
    seq(|s|, i requires 0 <= i < |s| => if s[i] < '\U{0080}' then s[i] as int else 0xFFFD)
  }

  lemma TagsInText()
    ensures PENDING == Ascii("pending") && SESSION == Ascii("session")
  {
  }

  lemma KeyParses(ref: SessionNameRef)
    ensures Parse(SessionNameRefKey(ref)) == Some(RefItems(ref))
  {
    StringifyRoundTrip(RefItems(ref));
  }

  /** A JSON parser reads the tag and the parts back from a key, in their order. */
  lemma RefKeyReadsBack(ref: SessionNameRef) returns (items: seq<Item>)
    ensures Parse(SessionNameRefKey(ref)) == Some(items)
    ensures items == match ref
                     case Pending(id) => [Str(Ascii("pending")), Str(id)]
                     case Session(provider, sessionId) => [Str(Ascii("session")), Str(provider), Str(sessionId)]
  {
    items := RefItems(ref);
    KeyParses(ref);
    TagsInText();
  }

  lemma MoreItems(a: Item, rest: seq<Item>)
    requires rest != []
    ensures EncodeItems(EncodeItem, [a] + rest) == EncodeItem(a) + ([0x2C] + EncodeItems(EncodeItem, rest))
  {
    assert ([a] + rest)[1..] == rest;
  }

  lemma ThreeItems(a: Item, b: Item, c: Item)
    ensures Stringify([a, b, c]) == [0x5B] + EncodeItem(a) + [0x2C] + EncodeItem(b) + [0x2C] + EncodeItem(c) + [0x5D]
  {
    assert [a, b, c] == [a] + [b, c] && [b, c] == [b] + [c];
    MoreItems(a, [b, c]);
    MoreItems(b, [c]);
    assert EncodeItems(EncodeItem, [c]) == EncodeItem(c) + [0x5D];
    ItemsJoin([0x5B], EncodeItem(a), [0x2C], EncodeItem(b), EncodeItem(c), [0x5D]);
  }

  lemma ItemsJoin(open: Text, a: Text, comma: Text, b: Text, c: Text, close: Text)
    ensures open + (a + (comma + (b + (comma + (c + close))))) == open + a + comma + b + comma + c + close
  {
    var left := open + a + comma;
    assert open + (a + (comma + (b + (comma + (c + close))))) == left + (b + (comma + (c + close)));
  }

  lemma PunctuationInText(quote: Text, comma: Text)
    requires quote == [0x22] && comma == [0x2C]
    ensures Ascii("[\"session\",\"") == [0x5B] + (quote + SESSION + quote) + comma + quote
    ensures Ascii("\",\"") == quote + comma + quote && Ascii("\"]") == quote + [0x5D]
  {
  }

  lemma PlainItem(s: Text)
    requires IsPlainText(s)
    ensures EncodeItem(Str(s)) == [0x22] + s + [0x22]
  {
    PlainIsQuotedAsItIs(s);
  }

  lemma TagItem()
    ensures EncodeItem(Str(SESSION)) == [0x22] + SESSION + [0x22]
  {
    PlainItem(SESSION);
  }

  lemma SessionKeyParts(provider: Text, sessionId: Text, quote: Text, comma: Text)
    requires IsPlainText(provider) && IsPlainText(sessionId) && quote == [0x22] && comma == [0x2C]
    ensures SessionNameRefKey(Session(provider, sessionId)) ==
      [0x5B] + (quote + SESSION + quote) + comma + (quote + provider + quote) + comma + (quote + sessionId + quote)
      + [0x5D]
  {
    ThreeItems(Str(SESSION), Str(provider), Str(sessionId));
    TagItem();
    PlainItem(provider);
    PlainItem(sessionId);
  }

  /** The key of a session with plain names, as a text. */
  lemma RefKeyInText(provider: Text, sessionId: Text)
    requires IsPlainText(provider) && IsPlainText(sessionId)
    ensures SessionNameRefKey(Session(provider, sessionId)) ==
      Ascii("[\"session\",\"") + provider + Ascii("\",\"") + sessionId + Ascii("\"]")
  {
    var quote: Text, comma: Text := [0x22], [0x2C];
    SessionKeyParts(provider, sessionId, quote, comma);
    PunctuationInText(quote, comma);
    KeyJoins([0x5B] + (quote + SESSION + quote) + comma, quote, provider, comma, sessionId, [0x5D]);
  }

  lemma KeyJoins(head: Text, quote: Text, provider: Text, comma: Text, sessionId: Text, end: Text)
    ensures head + (quote + provider + quote) + comma + (quote + sessionId + quote) + end ==
      (head + quote) + provider + (quote + comma + quote) + sessionId + (quote + end)
  {
    var left := (head + quote) + provider;
    assert head + (quote + provider + quote) == left + quote;
    assert (left + quote) + comma + (quote + sessionId + quote) == left + (quote + comma + quote) + (sessionId + quote);
    assert left + (quote + comma + quote) + (sessionId + quote) + end ==
      left + (quote + comma + quote) + sessionId + (quote + end);
  }

  /** The rename time: negative zero is written as zero, and NaN and the infinities as null. */
  datatype RenameTime = Absent | At(number: Number) | NegativeZero | NonFinite

  datatype Candidate = Candidate(
    storageKey: Text,
    deviceId: Option<Text>,
    tabId: Option<Text>,
    paneId: Option<Text>,
    scope: Text,
    provider: Option<Text>,
    sessionId: Option<Text>,
    name: Text,
    source: Text,
    protectionEvidence: Text,
    explicitRenameAt: RenameTime)

  function OrNull(s: Option<Text>): Item {
    if s.Some? then Str(s.value) else Nothing
  }

  function TimeItem(time: RenameTime): Item {
    match time
    case Absent => Nothing
    case At(number) => Num(number)
    case NegativeZero => Num(Zero)
    case NonFinite => Nothing
  }

  function CandidateItems(c: Candidate): seq<Item> {
    [Str(c.storageKey), OrNull(c.deviceId), OrNull(c.tabId), OrNull(c.paneId), Str(c.scope), OrNull(c.provider),
     OrNull(c.sessionId), Str(c.name), Str(c.source), Str(c.protectionEvidence), TimeItem(c.explicitRenameAt)]
  }

  function LegacyNameCandidateId(c: Candidate): Text {
    Stringify(CandidateItems(c))
  }

  /** The candidate with a time that is not finite taken out and negative zero made zero. */
  function Normalized(c: Candidate): Candidate {
    match c.explicitRenameAt
    case NonFinite => c.(explicitRenameAt := Absent)
    case NegativeZero => c.(explicitRenameAt := At(Zero))
    case _ => c
  }

  /** A JSON parser reads the eleven entries back from an id, in their order, an absent one as null. */
  lemma CandidateIdReadsBack(c: Candidate) returns (items: seq<Item>)
    ensures Parse(LegacyNameCandidateId(c)) == Some(items) && |items| == 11
    ensures items[0] == Str(c.storageKey) && items[4] == Str(c.scope) && items[7] == Str(c.name)
    ensures items[8] == Str(c.source) && items[9] == Str(c.protectionEvidence)
    ensures items[1] == (if c.deviceId.Some? then Str(c.deviceId.value) else Nothing)
    ensures items[2] == (if c.tabId.Some? then Str(c.tabId.value) else Nothing)
    ensures items[3] == (if c.paneId.Some? then Str(c.paneId.value) else Nothing)
    ensures items[5] == (if c.provider.Some? then Str(c.provider.value) else Nothing)
    ensures items[6] == (if c.sessionId.Some? then Str(c.sessionId.value) else Nothing)
    ensures items[10] ==
      if c.explicitRenameAt.At? then Num(c.explicitRenameAt.number)
      else if c.explicitRenameAt.NegativeZero? then Num(Zero) else Nothing
  {
    items := CandidateItems(c);
    StringifyRoundTrip(items);
  }

  lemma ItemsAgree(a: Candidate, b: Candidate)
    requires CandidateItems(a) == CandidateItems(b)
    ensures Normalized(a) == Normalized(b)
  {
    var x, y := CandidateItems(a), CandidateItems(b);
    assert x[0] == y[0] && x[1] == y[1] && x[2] == y[2] && x[3] == y[3] && x[4] == y[4] && x[5] == y[5];
    assert x[6] == y[6] && x[7] == y[7] && x[8] == y[8] && x[9] == y[9] && x[10] == y[10];
  }

  lemma NormalizedItems(c: Candidate)
    ensures CandidateItems(Normalized(c)) == CandidateItems(c)
  {
  }

  /** Two candidates share an id exactly when they agree in every entry, an absent one being
      different from the string "null" but not from a time that is not finite, and the two zeros being
      the same time. */
  lemma CandidateIdsAgreeExactly(a: Candidate, b: Candidate)
    ensures LegacyNameCandidateId(a) == LegacyNameCandidateId(b) <==> Normalized(a) == Normalized(b)
  {
    if LegacyNameCandidateId(a) == LegacyNameCandidateId(b) {
      StringifyIsInjective(CandidateItems(a), CandidateItems(b));
      ItemsAgree(a, b);
    }
    NormalizedItems(a);
    NormalizedItems(b);
  }
}
