/**
 * The canonical JSON text of a flat payload, hashed to recognise repeated events. Strings are sequences of
 * UTF-16 code units, as in JavaScript; escaping follows section 7 of RFC 8259 and `JSON.stringify`.
 */
module PayloadHash {
  import opened Prelude

  type CodeUnit = c: int | 0 <= c < 0x10000
  type Text = seq<CodeUnit>

  datatype Value = Str(text: Text) | Num(n: int) | Bool(b: bool) | Null
  datatype Entry = Entry(key: Text, value: Value)

  const QUOTE: CodeUnit := 0x22
  const BACKSLASH: CodeUnit := 0x5c
  const COLON: CodeUnit := 0x3a
  const COMMA: CodeUnit := 0x2c
  const MINUS: CodeUnit := 0x2d
  const OPEN: CodeUnit := 0x7b
  const CLOSE: CodeUnit := 0x7d

  /** The code units of a key; keys stay within the basic plane. */
  function Units(s: string): (t: Text)
    ensures |t| == |s|
  {
    seq(|s|, i requires 0 <= i < |s| => if s[i] as int < 0x10000 then s[i] as int else 0xfffd)
  }

  // ---- Writing ------------------------------------------------------------

  predicate High(c: CodeUnit) {
    0xd800 <= c < 0xdc00
  }

  predicate Low(c: CodeUnit) {
    0xdc00 <= c < 0xe000
  }

  predicate PairFirst(s: Text) {
    |s| >= 2 && High(s[0]) && Low(s[1])
  }

  function HexDigit(d: int): CodeUnit
    requires 0 <= d < 16
  {
    if d < 10 then 0x30 + d else 0x61 + d - 10
  }

  /** A backslash, a `u`, and four lower-case hexadecimal digits. */
  function UnicodeEscape(c: CodeUnit): Text {
    [BACKSLASH, 0x75,
     HexDigit(c / 16 / 16 / 16), HexDigit(c / 16 / 16 % 16), HexDigit(c / 16 % 16), HexDigit(c % 16)]
  }

  /** The letter of a two-character escape. */
  function ShortEscape(c: CodeUnit): Option<CodeUnit> {
    if c == QUOTE then Some(QUOTE)
    else if c == BACKSLASH then Some(BACKSLASH)
    else if c == 0x08 then Some(0x62)
    else if c == 0x0c then Some(0x66)
    else if c == 0x0a then Some(0x6e)
    else if c == 0x0d then Some(0x72)
    else if c == 0x09 then Some(0x74)
    else None
  }

  /** One code unit that is not the start of a surrogate pair. */
  function EscapeUnit(c: CodeUnit): Text {
    if ShortEscape(c).Some? then [BACKSLASH, ShortEscape(c).value]
    else if c < 0x20 || High(c) || Low(c) then UnicodeEscape(c)
    else [c]
  }

  function Escape(s: Text): Text {
    if s == [] then []
    else if PairFirst(s) then [s[0], s[1]] + Escape(s[2..])
    else EscapeUnit(s[0]) + Escape(s[1..])
  }

  function Quote(s: Text): Text {
    [QUOTE] + Escape(s) + [QUOTE]
  }

  function Digits(n: nat): (t: Text)
    ensures |t| > 0 && forall i :: 0 <= i < |t| ==> IsDigit(t[i])
  {
    if n < 10 then [0x30 + n] else Digits(n / 10) + [0x30 + n % 10]
  }

  function ValueText(v: Value): Text {
    match v
    case Str(text) => Quote(text)
    case Num(n) => if n < 0 then [MINUS] + Digits(-n) else Digits(n)
    case Bool(b) => if b then Units("true") else Units("false")
    case Null => Units("null")
  }

  function MemberText(e: Entry): Text {
    Quote(e.key) + [COLON] + ValueText(e.value)
  }

  function MembersText(es: seq<Entry>): Text {
    if es == [] then []
    else if |es| == 1 then MemberText(es[0])
    else MemberText(es[0]) + [COMMA] + MembersText(es[1..])
  }

  /** `JSON.stringify` of an object with these members, in this order. */
  function Stringify(es: seq<Entry>): Text {
    [OPEN] + MembersText(es) + [CLOSE]
  }

  // ---- Reading ------------------------------------------------------------

  predicate IsDigit(c: CodeUnit) {
    0x30 <= c <= 0x39
  }

  function HexValue(c: CodeUnit): Option<int> {
    if IsDigit(c) then Some(c - 0x30)
    else if 0x61 <= c <= 0x66 then Some(c - 0x61 + 10)
    else if 0x41 <= c <= 0x46 then Some(c - 0x41 + 10)
    else None
  }

  function ReadHex(t: Text): Option<CodeUnit>
    requires |t| >= 4
  {
    var a, b, c, d := HexValue(t[0]), HexValue(t[1]), HexValue(t[2]), HexValue(t[3]);
    if a.Some? && b.Some? && c.Some? && d.Some?
       && 0 <= a.value * 0x1000 + b.value * 0x100 + c.value * 16 + d.value < 0x10000
    then Some(a.value * 0x1000 + b.value * 0x100 + c.value * 16 + d.value)
    else None
  }

  function Unescape(c: CodeUnit): Option<CodeUnit> {
    if c == QUOTE || c == BACKSLASH || c == 0x2f then Some(c)
    else if c == 0x62 then Some(0x08)
    else if c == 0x66 then Some(0x0c)
    else if c == 0x6e then Some(0x0a)
    else if c == 0x72 then Some(0x0d)
    else if c == 0x74 then Some(0x09)
    else None
  }

  datatype Read<T> = Read(value: T, rest: Text)

  /** The rest of a string, after its opening quotation mark. */
  function ReadString(t: Text): (r: Option<Read<Text>>)
    ensures r.Some? ==> |r.value.rest| < |t|
  {
    if t == [] then
      None
    else if t[0] == QUOTE then
      Some(Read([], t[1..]))
    else if t[0] == BACKSLASH then
      if |t| >= 6 && t[1] == 0x75 then
        match ReadHex(t[2..])
        case None => None
        case Some(c) => Push(c, ReadString(t[6..]))
      else if |t| >= 2 && Unescape(t[1]).Some? then
        Push(Unescape(t[1]).value, ReadString(t[2..]))
      else
        None
    else if t[0] < 0x20 then
      None
    else
      Push(t[0], ReadString(t[1..]))
  }

  function Push(c: CodeUnit, r: Option<Read<Text>>): Option<Read<Text>> {
    match r
    case None => None
    case Some(read) => Some(Read([c] + read.value, read.rest))
  }

  function ReadDigits(t: Text, sofar: nat): (r: Read<nat>)
    ensures |r.rest| <= |t|
    decreases |t|
  {
    if t == [] || !IsDigit(t[0]) then Read(sofar, t) else ReadDigits(t[1..], sofar * 10 + t[0] - 0x30)
  }

  predicate StartsWith(t: Text, word: Text) {
    |word| <= |t| && t[..|word|] == word
  }

  function ReadValue(t: Text): (r: Option<Read<Value>>)
    ensures r.Some? ==> |r.value.rest| < |t|
  {
    if t == [] then
      None
    else if t[0] == QUOTE then
      match ReadString(t[1..])
      case None => None
      case Some(read) => Some(Read(Str(read.value), read.rest))
    else if t[0] == MINUS && |t| >= 2 && IsDigit(t[1]) then
      var read := ReadDigits(t[1..], 0);
      var n: int := read.value;
      Some(Read(Num(-n), read.rest))
    else if IsDigit(t[0]) then
      var read := ReadDigits(t[1..], t[0] - 0x30);
      Some(Read(Num(read.value), read.rest))
    else if StartsWith(t, Units("true")) then Some(Read(Bool(true), t[4..]))
    else if StartsWith(t, Units("false")) then Some(Read(Bool(false), t[5..]))
    else if StartsWith(t, Units("null")) then Some(Read(Null, t[4..]))
    else None
  }

  function ReadMember(t: Text): (r: Option<Read<Entry>>)
    ensures r.Some? ==> |r.value.rest| < |t|
  {
    if t == [] || t[0] != QUOTE then
      None
    else
      match ReadString(t[1..])
      case None => None
      case Some(key) =>
        if key.rest == [] || key.rest[0] != COLON then
          None
        else
          match ReadValue(key.rest[1..])
          case None => None
          case Some(value) => Some(Read(Entry(key.value, value.value), value.rest))
  }

  function ReadMembers(t: Text): Option<Read<seq<Entry>>>
    decreases |t|
  {
    match ReadMember(t)
    case None => None
    case Some(first) =>
      if first.rest == [] then
        None
      else if first.rest[0] == CLOSE then
        Some(Read([first.value], first.rest[1..]))
      else if first.rest[0] == COMMA then
        match ReadMembers(first.rest[1..])
        case None => None
        case Some(more) => Some(Read([first.value] + more.value, more.rest))
      else
        None
  }

  function Parse(t: Text): Option<seq<Entry>> {
    if |t| < 2 || t[0] != OPEN then
      None
    else if t[1] == CLOSE then
      if |t| == 2 then Some([]) else None
    else
      match ReadMembers(t[1..])
      case None => None
      case Some(read) => if read.rest == [] then Some(read.value) else None
  }

  // ---- Round trips --------------------------------------------------------

  lemma HexDigitRoundTrip(d: int)
    requires 0 <= d < 16
    ensures HexValue(HexDigit(d)) == Some(d)
  {
  }

  lemma HexRoundTrip(c: CodeUnit)
    ensures ReadHex(UnicodeEscape(c)[2..]) == Some(c)
  {
    var x := c / 16;
    var y := x / 16;
    var z := y / 16;
    assert c == 16 * x + c % 16 && x == 16 * y + x % 16 && y == 16 * z + y % 16;
    HexDigitRoundTrip(z);
    HexDigitRoundTrip(y % 16);
    HexDigitRoundTrip(x % 16);
    HexDigitRoundTrip(c % 16);
    hide HexValue, HexDigit;
    assert UnicodeEscape(c)[2..] == [HexDigit(z), HexDigit(y % 16), HexDigit(x % 16), HexDigit(c % 16)];
  }

  lemma ReadUnit(c: CodeUnit, tail: Text)
    ensures ReadString(EscapeUnit(c) + tail) == Push(c, ReadString(tail))
  {
    var t := EscapeUnit(c) + tail;
    if ShortEscape(c).Some? {
      assert t[0] == BACKSLASH && t[1] == ShortEscape(c).value != 0x75 && t[2..] == tail;
      assert Unescape(t[1]) == Some(c);
    } else if c < 0x20 || High(c) || Low(c) {
      HexRoundTrip(c);
      var hex := UnicodeEscape(c);
      assert t[0] == BACKSLASH && t[1] == 0x75 && t[6..] == tail;
      assert forall i :: 0 <= i < 4 ==> t[2..][i] == hex[2..][i];
    } else {
      assert t[0] == c && t[1..] == tail;
    }
  }

  /** Neither half of a pair is special to the reader. */
  lemma ReadPlain(c: CodeUnit, tail: Text)
    requires c >= 0x20 && c != QUOTE && c != BACKSLASH
    ensures ReadString([c] + tail) == Push(c, ReadString(tail))
  {
    assert ([c] + tail)[1..] == tail;
  }

  lemma Associative(a: Text, b: Text, c: Text)
    ensures a + b + c == a + (b + c)
  {
  }

  lemma EscapePair(s: Text, tail: Text)
    requires PairFirst(s)
    ensures Escape(s) + tail == [s[0]] + ([s[1]] + (Escape(s[2..]) + tail))
    ensures s == [s[0]] + ([s[1]] + s[2..])
  {
    assert Escape(s) == [s[0], s[1]] + Escape(s[2..]);
    hide *;
    Associative([s[0]], [s[1]], Escape(s[2..]) + tail);
    Associative([s[0], s[1]], Escape(s[2..]), tail);
    assert [s[0], s[1]] == [s[0]] + [s[1]];
  }

  lemma EscapeOne(s: Text, tail: Text)
    requires s != [] && !PairFirst(s)
    ensures Escape(s) + tail == EscapeUnit(s[0]) + (Escape(s[1..]) + tail)
    ensures s == [s[0]] + s[1..]
  {
    assert Escape(s) == EscapeUnit(s[0]) + Escape(s[1..]);
    hide *;
    Associative(EscapeUnit(s[0]), Escape(s[1..]), tail);
  }

  /** Whatever a string contains, reading its quoted form gives it back and stops at the closing mark. */
  lemma {:induction false} StringRoundTrip(s: Text, tail: Text)
    ensures ReadString(Escape(s) + ([QUOTE] + tail)) == Some(Read(s, tail))
  {
    var end := [QUOTE] + tail;
    if s == [] {
      assert Escape(s) + end == end && end[1..] == tail;
    } else if PairFirst(s) {
      hide ReadString, Escape, EscapeUnit;
      StringRoundTrip(s[2..], tail);
      var rest := Escape(s[2..]) + end;
      EscapePair(s, end);
      ReadPlain(s[1], rest);
      ReadPlain(s[0], [s[1]] + rest);
    } else {
      hide ReadString, Escape, EscapeUnit;
      StringRoundTrip(s[1..], tail);
      EscapeOne(s, end);
      ReadUnit(s[0], Escape(s[1..]) + end);
    }
  }

  lemma ReadOneDigit(d: int, tail: Text, sofar: nat)
    requires 0 <= d < 10
    ensures ReadDigits([0x30 + d] + tail, sofar) == ReadDigits(tail, sofar * 10 + d)
  {
    assert ([0x30 + d] + tail)[1..] == tail;
  }

  /** Reading the digits of `n` accumulates `n`, whatever follows. */
  lemma {:induction false} DigitsAppend(n: nat, tail: Text)
    ensures ReadDigits(Digits(n) + tail, 0) == ReadDigits(tail, n)
    decreases n
  {
    if n < 10 {
      ReadOneDigit(n, tail, 0);
    } else {
      var last: Text := [0x30 + n % 10];
      assert Digits(n) == Digits(n / 10) + last;
      hide ReadDigits, Digits;
      DigitsAppend(n / 10, last + tail);
      Associative(Digits(n / 10), last, tail);
      ReadOneDigit(n % 10, tail, n / 10);
      assert n / 10 * 10 + n % 10 == n;
    }
  }

  /** What follows a value: nothing that could continue a number. */
  predicate EndsValue(tail: Text) {
    tail == [] || !IsDigit(tail[0])
  }

  lemma NaturalRoundTrip(n: nat, tail: Text)
    requires EndsValue(tail)
    ensures ReadValue(Digits(n) + tail) == Some(Read(Num(n), tail))
  {
    var digits, t := Digits(n), Digits(n) + tail;
    DigitsAppend(n, tail);
    hide Digits;
    assert ReadDigits(tail, n) == Read(n, tail);
    assert t[0] == digits[0] && IsDigit(t[0]);
    assert ReadDigits(t, 0) == ReadDigits(t[1..], t[0] - 0x30);
  }

  lemma NegativeRoundTrip(n: int, tail: Text)
    requires EndsValue(tail) && n < 0
    ensures ReadValue([MINUS] + Digits(-n) + tail) == Some(Read(Num(n), tail))
  {
    var digits, t := Digits(-n), [MINUS] + Digits(-n) + tail;
    DigitsAppend(-n, tail);
    hide Digits;
    assert ReadDigits(tail, -n) == Read(-n, tail);
    assert t[1] == digits[0] && IsDigit(t[1]);
    assert t[1..] == digits + tail;
  }

  lemma WordRoundTrip(word: string, tail: Text)
    requires word in {"true", "false", "null"}
    ensures ReadValue(Units(word) + tail) ==
      Some(Read(if word == "null" then Null else Bool(word == "true"), tail))
  {
    var t := Units(word) + tail;
    assert t[..|word|] == Units(word) && t[|word|..] == tail;
    assert t[0] == word[0] as int;
    assert Units("true")[0] == 0x74 && Units("false")[0] == 0x66 && Units("null")[0] == 0x6e;
    assert StartsWith(t, Units("true")) ==> t[0] == Units("true")[0];
    assert StartsWith(t, Units("false")) ==> t[0] == Units("false")[0];
  }

  lemma QuoteRoundTrip(text: Text, tail: Text)
    ensures ReadValue(Quote(text) + tail) == Some(Read(Str(text), tail))
  {
    hide ReadString, ReadDigits, StartsWith, Escape;
    StringRoundTrip(text, tail);
    assert (Quote(text) + tail)[1..] == Escape(text) + ([QUOTE] + tail);
  }

  lemma ValueRoundTrip(v: Value, tail: Text)
    requires EndsValue(tail)
    ensures ReadValue(ValueText(v) + tail) == Some(Read(v, tail))
  {
    hide ReadValue, Quote, Digits, Units;
    match v
    case Str(text) => QuoteRoundTrip(text, tail);
    case Num(n) => if n < 0 { NegativeRoundTrip(n, tail); } else { NaturalRoundTrip(n, tail); }
    case Bool(b) => WordRoundTrip(if b then "true" else "false", tail);
    case Null => WordRoundTrip("null", tail);
  }

  lemma MemberRoundTrip(e: Entry, tail: Text)
    requires EndsValue(tail)
    ensures ReadMember(MemberText(e) + tail) == Some(Read(e, tail))
  {
    hide ReadString, ReadValue, Escape, ValueText;
    var t := MemberText(e) + tail;
    var rest := [COLON] + ValueText(e.value) + tail;
    StringRoundTrip(e.key, rest);
    assert t[1..] == Escape(e.key) + ([QUOTE] + rest) by {
      assert t == [QUOTE] + (Escape(e.key) + ([QUOTE] + rest));
    }
    ValueRoundTrip(e.value, tail);
    assert rest[1..] == ValueText(e.value) + tail;
  }

  lemma {:induction false} MembersRoundTrip(es: seq<Entry>, tail: Text)
    requires es != []
    ensures ReadMembers(MembersText(es) + [CLOSE] + tail) == Some(Read(es, tail))
  {
    hide ReadMember, MemberText;
    var t := MembersText(es) + [CLOSE] + tail;
    if |es| == 1 {
      var rest := [CLOSE] + tail;
      assert t == MemberText(es[0]) + rest;
      MemberRoundTrip(es[0], rest);
      assert rest[1..] == tail && es == [es[0]];
    } else {
      var more := MembersText(es[1..]) + [CLOSE] + tail;
      var rest := [COMMA] + more;
      assert t == MemberText(es[0]) + rest;
      MemberRoundTrip(es[0], rest);
      MembersRoundTrip(es[1..], tail);
      assert rest[1..] == more;
      assert es == [es[0]] + es[1..];
    }
  }

  /** The text of an object can be decoded back to its members, in their order. */
  lemma ObjectRoundTrip(es: seq<Entry>)
    ensures Parse(Stringify(es)) == Some(es)
  {
    var t := Stringify(es);
    if es != [] {
      MembersRoundTrip(es, []);
      assert t[1..] == MembersText(es) + [CLOSE] + [];
      assert MemberText(es[0])[0] == QUOTE;
      assert t[1] == QUOTE;
    }
  }

  // ---- No lone surrogates -------------------------------------------------

  /** Every surrogate stands in a pair, so encoding the text as UTF-8 loses nothing. */
  predicate WellFormed(t: Text) {
    || t == []
    || (PairFirst(t) && WellFormed(t[2..]))
    || (!High(t[0]) && !Low(t[0]) && WellFormed(t[1..]))
  }

  lemma {:induction false} WellFormedAppend(a: Text, b: Text)
    requires WellFormed(a) && WellFormed(b)
    ensures WellFormed(a + b)
  {
    if a == [] {
      assert a + b == b;
    } else if PairFirst(a) && WellFormed(a[2..]) {
      WellFormedAppend(a[2..], b);
      assert (a + b)[2..] == a[2..] + b;
    } else {
      WellFormedAppend(a[1..], b);
      assert (a + b)[1..] == a[1..] + b;
    }
  }

  lemma {:induction false} PlainIsWellFormed(t: Text)
    requires forall i :: 0 <= i < |t| ==> t[i] < 0xd800
    ensures WellFormed(t)
  {
    if t != [] { PlainIsWellFormed(t[1..]); }
  }

  lemma {:induction false} EscapeIsWellFormed(s: Text)
    ensures WellFormed(Escape(s))
  {
    if s != [] {
      if PairFirst(s) {
        EscapeIsWellFormed(s[2..]);
        assert Escape(s)[2..] == Escape(s[2..]);
      } else {
        EscapeIsWellFormed(s[1..]);
        UnitIsWellFormed(s[0]);
        WellFormedAppend(EscapeUnit(s[0]), Escape(s[1..]));
      }
    }
  }

  lemma UnitIsWellFormed(c: CodeUnit)
    ensures WellFormed(EscapeUnit(c))
  {
    var t := EscapeUnit(c);
    if High(c) || Low(c) || c < 0x20 || ShortEscape(c).Some? {
      PlainIsWellFormed(t);
    } else {
      assert t[1..] == [];
    }
  }

  lemma QuoteIsWellFormed(s: Text)
    ensures WellFormed(Quote(s))
  {
    EscapeIsWellFormed(s);
    PlainIsWellFormed([QUOTE]);
    WellFormedAppend([QUOTE], Escape(s));
    WellFormedAppend([QUOTE] + Escape(s), [QUOTE]);
  }

  lemma MemberIsWellFormed(e: Entry)
    ensures WellFormed(MemberText(e))
  {
    QuoteIsWellFormed(e.key);
    PlainIsWellFormed([COLON]);
    if e.value.Str? {
      QuoteIsWellFormed(e.value.text);
    } else {
      PlainIsWellFormed(ValueText(e.value));
    }
    WellFormedAppend(Quote(e.key), [COLON]);
    WellFormedAppend(Quote(e.key) + [COLON], ValueText(e.value));
  }

  lemma {:induction false} MembersAreWellFormed(es: seq<Entry>)
    ensures WellFormed(MembersText(es))
  {
    if es != [] {
      MemberIsWellFormed(es[0]);
      if |es| > 1 {
        MembersAreWellFormed(es[1..]);
        PlainIsWellFormed([COMMA]);
        WellFormedAppend(MemberText(es[0]), [COMMA]);
        WellFormedAppend(MemberText(es[0]) + [COMMA], MembersText(es[1..]));
      }
    }
  }

  lemma ObjectIsWellFormed(es: seq<Entry>)
    ensures WellFormed(Stringify(es))
  {
    MembersAreWellFormed(es);
    PlainIsWellFormed([OPEN]);
    PlainIsWellFormed([CLOSE]);
    WellFormedAppend([OPEN], MembersText(es));
    WellFormedAppend([OPEN] + MembersText(es), [CLOSE]);
  }

  // ---- The canonical record -----------------------------------------------

  const MEMBERSHIP_KEYS: seq<string> := [
    "accessUntil", "accountId", "cancelAtPeriodEnd", "effectiveAt", "eventType",
    "googlePlayPackageName", "googlePlayPurchaseToken", "googlePlaySubscriptionId",
    "source", "sourceCustomerId", "sourceEventId", "sourceSubscriptionId"]

  const WEBHOOK_KEYS: seq<string> := [
    "apiVersion", "billingReference", "cancelAtPeriodEnd", "checkoutSessionId", "currentPeriodEnd",
    "customerId", "eventId", "eventType", "invoiceAmountPaid", "invoiceCurrency", "invoiceId",
    "invoiceStatus", "livemode", "priceId", "subscriptionId", "subscriptionStatus"]

  /** A payload object: its defined properties, in whatever order they were set. */
  type Payload = map<string, Value>

  ghost predicate KeyOrder(order: seq<string>) {
    forall i, j :: 0 <= i < j < |order| ==> Units(order[i]) != Units(order[j])
  }

  function Canonical(order: seq<string>, payload: Payload): seq<Entry> {
    if order == [] then
      []
    else
      var last := order[|order| - 1];
      Canonical(order[..|order| - 1], payload)
      + if last in payload then [Entry(Units(last), payload[last])] else []
  }

  function CanonicalText(order: seq<string>, payload: Payload): Text {
    Stringify(Canonical(order, payload))
  }

  lemma {:induction false} CanonicalKeys(order: seq<string>, payload: Payload, e: Entry)
    requires e in Canonical(order, payload)
    ensures exists i ::
      && 0 <= i < |order| && e.key == Units(order[i])
      && order[i] in payload && e.value == payload[order[i]]
  {
    var shorter, last := order[..|order| - 1], order[|order| - 1];
    if e in Canonical(shorter, payload) {
      CanonicalKeys(shorter, payload, e);
      var i :| 0 <= i < |shorter| && e.key == Units(shorter[i])
        && shorter[i] in payload && e.value == payload[shorter[i]];
      assert order[i] == shorter[i];
    }
  }

  /** The record holds exactly the payload's values at the ordered keys. */
  lemma {:induction false} CanonicalHolds(order: seq<string>, payload: Payload, k: nat, value: Value)
    requires KeyOrder(order) && k < |order|
    ensures Entry(Units(order[k]), value) in Canonical(order, payload) <==>
      order[k] in payload && payload[order[k]] == value
  {
    var n, e := |order| - 1, Entry(Units(order[k]), value);
    if k < n {
      CanonicalHolds(order[..n], payload, k, value);
    } else {
      assert e !in Canonical(order[..n], payload) by {
        if e in Canonical(order[..n], payload) { CanonicalKeys(order[..n], payload, e); }
      }
    }
  }

  /** Absent in both, or present with the same value in both. */
  predicate SameAt(a: Payload, b: Payload, key: string) {
    if key in a then key in b && a[key] == b[key] else key !in b
  }

  lemma {:induction false} SameRecord(order: seq<string>, a: Payload, b: Payload)
    requires KeyOrder(order) && forall key <- order :: SameAt(a, b, key)
    ensures Canonical(order, a) == Canonical(order, b)
  {
    if order != [] {
      var shorter, last := order[..|order| - 1], order[|order| - 1];
      assert last in order && forall key <- shorter :: key in order;
      SameRecord(shorter, a, b);
    }
  }

  /** Two payloads have the same canonical text exactly when they agree at every key of the order. */
  lemma TextDecidesPayload(order: seq<string>, a: Payload, b: Payload)
    requires KeyOrder(order)
    ensures CanonicalText(order, a) == CanonicalText(order, b) <==> forall key <- order :: SameAt(a, b, key)
  {
    if forall key <- order :: SameAt(a, b, key) {
      SameRecord(order, a, b);
    }
    if CanonicalText(order, a) == CanonicalText(order, b) {
      ObjectRoundTrip(Canonical(order, a));
      ObjectRoundTrip(Canonical(order, b));
      forall k | 0 <= k < |order| ensures SameAt(a, b, order[k]) {
        var key := order[k];
        if key in a { CanonicalHolds(order, a, k, a[key]); CanonicalHolds(order, b, k, a[key]); }
        if key in b { CanonicalHolds(order, a, k, b[key]); CanonicalHolds(order, b, k, b[key]); }
      }
    }
  }

  /** Length and first two characters tell each key from the others. */
  lemma TellApart(a: string, b: string)
    requires |a| >= 2 && |b| >= 2
    requires |a| != |b| || (a[0] < '~' && b[0] < '~' && a[0] != b[0]) || (a[1] < '~' && b[1] < '~' && a[1] != b[1])
    ensures Units(a) != Units(b)
  {
    if |a| == |b| {
      assert Units(a)[0] != Units(b)[0] || Units(a)[1] != Units(b)[1];
    }
  }

  lemma MembershipKeysDistinct()
    ensures KeyOrder(MEMBERSHIP_KEYS)
  {
    var order := MEMBERSHIP_KEYS;
    var sizes, firsts := [11, 9, 17, 11, 9, 21, 23, 24, 6, 16, 13, 20], "aaceegggssss";
    assert forall i :: 0 <= i < 12 ==> |order[i]| == sizes[i] && order[i][0] == firsts[i];
    forall i, j | 0 <= i < j < 12 ensures Units(order[i]) != Units(order[j]) {
      assert sizes[i] != sizes[j] || firsts[i] != firsts[j];
      TellApart(order[i], order[j]);
    }
  }

  const WEBHOOK_SIZES := [10, 16, 17, 17, 16, 10, 7, 9, 17, 15, 9, 13, 8, 7, 14, 18]
  const WEBHOOK_FIRSTS := "abccccee" + "iiiilpss"
  const WEBHOOK_SECONDS := "piahuuvv" + "nnnniruu"

  lemma WebhookSizes(i: nat)
    requires i < 16
    ensures |WEBHOOK_KEYS[i]| == WEBHOOK_SIZES[i] >= 2
  {
  }

  lemma WebhookFirsts(i: nat)
    requires i < 16
    ensures |WEBHOOK_KEYS[i]| >= 2 && WEBHOOK_KEYS[i][0] == WEBHOOK_FIRSTS[i] < '~'
  {
    WebhookSizes(i);
  }

  lemma WebhookSeconds(i: nat)
    requires i < 16
    ensures |WEBHOOK_KEYS[i]| >= 2 && WEBHOOK_KEYS[i][1] == WEBHOOK_SECONDS[i] < '~'
  {
    WebhookSizes(i);
  }

  lemma SignaturesDiffer(i: nat, j: nat)
    requires i < j < 16
    ensures WEBHOOK_SIZES[i] != WEBHOOK_SIZES[j] || WEBHOOK_FIRSTS[i] != WEBHOOK_FIRSTS[j]
         || WEBHOOK_SECONDS[i] != WEBHOOK_SECONDS[j]
  {
  }

  lemma WebhookKeysDistinct()
    ensures KeyOrder(WEBHOOK_KEYS)
  {
    forall i, j | 0 <= i < j < |WEBHOOK_KEYS| ensures Units(WEBHOOK_KEYS[i]) != Units(WEBHOOK_KEYS[j]) {
      WebhookSizes(i);
      WebhookSizes(j);
      WebhookFirsts(i);
      WebhookFirsts(j);
      WebhookSeconds(i);
      WebhookSeconds(j);
      SignaturesDiffer(i, j);
      hide WEBHOOK_KEYS, WEBHOOK_SIZES, WEBHOOK_FIRSTS, WEBHOOK_SECONDS;
      TellApart(WEBHOOK_KEYS[i], WEBHOOK_KEYS[j]);
    }
  }

  lemma KeyOrdersAreGood()
    ensures KeyOrder(MEMBERSHIP_KEYS) && KeyOrder(WEBHOOK_KEYS)
  {
    hide KeyOrder;
    MembershipKeysDistinct();
    WebhookKeysDistinct();
  }

  /** The hash function: distinct texts have distinct digests. */
  ghost predicate Injective(digest: Text -> string) {
    forall a, b :: digest(a) == digest(b) ==> a == b
  }

  /** Hashes agree exactly when the twelve, or the sixteen, fields do; and what is hashed has a UTF-8 form. */
  lemma HashDecidesPayload(digest: Text -> string, a: Payload, b: Payload)
    requires Injective(digest)
    ensures KeyOrder(MEMBERSHIP_KEYS) && KeyOrder(WEBHOOK_KEYS)
    ensures digest(CanonicalText(MEMBERSHIP_KEYS, a)) == digest(CanonicalText(MEMBERSHIP_KEYS, b))
       <==> forall key <- MEMBERSHIP_KEYS :: SameAt(a, b, key)
    ensures digest(CanonicalText(WEBHOOK_KEYS, a)) == digest(CanonicalText(WEBHOOK_KEYS, b))
       <==> forall key <- WEBHOOK_KEYS :: SameAt(a, b, key)
    ensures WellFormed(CanonicalText(MEMBERSHIP_KEYS, a)) && WellFormed(CanonicalText(WEBHOOK_KEYS, a))
  {
    KeyOrdersAreGood();
    TextDecidesPayload(MEMBERSHIP_KEYS, a, b);
    TextDecidesPayload(WEBHOOK_KEYS, a, b);
    ObjectIsWellFormed(Canonical(MEMBERSHIP_KEYS, a));
    ObjectIsWellFormed(Canonical(WEBHOOK_KEYS, a));
    hide Canonical, Stringify, WellFormed;
  }

  /** The loop that fills the canonical dictionary key by key. */
  method HashPayload(digest: Text -> string, order: seq<string>, payload: Payload) returns (hash: string)
    requires KeyOrder(order)
    ensures hash == digest(CanonicalText(order, payload))
  {
    var canonical: seq<Entry> := [];
    for k := 0 to |order|
      invariant canonical == Canonical(order[..k], payload)
    {
      assert order[..k + 1][..k] == order[..k];
      var key := order[k];
      if key in payload {
        canonical := canonical + [Entry(Units(key), payload[key])];
      }
    }
    assert order[..|order|] == order;
    hash := digest(Stringify(canonical));
  }
}
