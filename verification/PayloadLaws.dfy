/** The exact text of a hashed payload: which units are escaped and how, and what stands between the members. */
module PayloadLaws {
  import opened Prelude
  import opened PayloadHash

  // ---- Strings ------------------------------------------------------------

  /** A key or literal is written unit by unit. */
  lemma UnitsExactly(s: string, i: nat)
    requires i < |s| && s[i] as int < 0x10000
    ensures Units(s)[i] == s[i] as int
  {
  }

  function Hex(d: int): CodeUnit
    requires 0 <= d < 16
  {
    "0123456789abcdef"[d] as int
  }

  lemma HexExactly(d: int)
    requires 0 <= d < 16
    ensures HexDigit(d) == Hex(d)
  {
  }

  lemma SixteensOf(c: CodeUnit)
    ensures 0 <= c / 4096 < 16 && c / 16 / 16 / 16 == c / 4096
    ensures c / 16 / 16 % 16 == c / 256 % 16
  {
  }

  /** The letter after the backslash, where there is a short escape. */
  function Letter(c: CodeUnit): Option<char> {
    match c
    case 0x22 => Some('"')
    case 0x5c => Some('\\')
    case 8 => Some('b')
    case 9 => Some('t')
    case 10 => Some('n')
    case 12 => Some('f')
    case 13 => Some('r')
    case _ => None
  }

  /** One unit: seven short escapes, four lower-case digits for controls and lone surrogates, else itself. */
  lemma OneUnitExactly(c: CodeUnit)
    ensures 0 <= c / 4096 < 16
    ensures Escape([c]) ==
      if Letter(c).Some? then
        [0x5c, Letter(c).value as int]
      else if c < 0x20 || 0xd800 <= c <= 0xdfff then
        [0x5c, 'u' as int, Hex(c / 4096), Hex(c / 256 % 16), Hex(c / 16 % 16), Hex(c % 16)]
      else
        [c]
  {
    SixteensOf(c);
    assert Escape([c]) == EscapeUnit(c);
    assert ShortEscape(c) == match Letter(c) case None => None case Some(d) => Some(d as int);
    HexExactly(c / 4096);
    HexExactly(c / 256 % 16);
    HexExactly(c / 16 % 16);
    HexExactly(c % 16);
    hide HexDigit, Hex, Letter, ShortEscape, Escape;
  }

  /** A surrogate pair stays as it is. */
  lemma PairExactly(high: CodeUnit, low: CodeUnit)
    requires 0xd800 <= high < 0xdc00 <= low < 0xe000
    ensures Escape([high, low]) == [high, low]
  {
    assert [high, low][2..] == [];
  }

  lemma EscapeStep(s: Text)
    requires s != []
    ensures PairFirst(s) ==> Escape(s) == [s[0], s[1]] + Escape(s[2..])
    ensures !PairFirst(s) ==> Escape(s) == EscapeUnit(s[0]) + Escape(s[1..])
  {
    hide EscapeUnit;
  }

  /** Elsewhere a string is escaped piece by piece: only between the halves of a pair can it not be cut. */
  lemma {:induction false} EscapeAppends(s: Text, t: Text)
    requires s != [] && t != [] ==> !(0xd800 <= s[|s| - 1] < 0xdc00 <= t[0] < 0xe000)
    ensures Escape(s + t) == Escape(s) + Escape(t)
  {
    if s == [] {
      assert s + t == t;
    } else {
      hide Escape, EscapeUnit;
      var n := if PairFirst(s) then 2 else 1;
      assert |s| == 1 && t != [] ==> (s + t)[1] == t[0];
      assert PairFirst(s + t) <==> PairFirst(s);
      assert (s + t)[n..] == s[n..] + t && (s + t)[0] == s[0] && (PairFirst(s) ==> (s + t)[1] == s[1]);
      EscapeAppends(s[n..], t);
      EscapeStep(s);
      EscapeStep(s + t);
      Associative(if PairFirst(s) then [s[0], s[1]] else EscapeUnit(s[0]), Escape(s[n..]), Escape(t));
    }
  }

  // ---- Values and objects -------------------------------------------------

  /** Decimal digits without leading zeros, words in lower case, strings between quotation marks. */
  lemma ValueExactly(v: Value)
    ensures ValueText(v) ==
      match v
      case Str(text) => [0x22] + Escape(text) + [0x22]
      case Num(n) => if n < 0 then [0x2d] + ValueText(Num(-n))
                     else if n < 10 then [0x30 + n]
                     else ValueText(Num(n / 10)) + [0x30 + n % 10]
      case Bool(b) => Units(if b then "true" else "false")
      case Null => Units("null")
  {
  }

  /** No members, one member: a colon after its quoted key. */
  lemma SmallObjectsExactly(e: Entry)
    ensures Stringify([]) == [0x7b, 0x7d]
    ensures Stringify([e]) == [0x7b, 0x22] + Escape(e.key) + [0x22, 0x3a] + ValueText(e.value) + [0x7d]
  {
    assert MembersText([e]) == MemberText(e);
    assert MembersText([]) == [];
    hide Escape, ValueText, MembersText;
    Bracketed(Escape(e.key), ValueText(e.value));
  }

  lemma Bracketed(key: Text, value: Text)
    ensures [OPEN] + ([QUOTE] + key + [QUOTE] + [COLON] + value) + [CLOSE]
         == [0x7b, 0x22] + key + [0x22, 0x3a] + value + [0x7d]
  {
    assert [OPEN] + ([QUOTE] + key + [QUOTE] + [COLON] + value) == [OPEN] + [QUOTE] + key + [QUOTE] + [COLON] + value;
    assert [OPEN] + [QUOTE] == [0x7b, 0x22];
    assert [0x7b, 0x22] + key + [QUOTE] + [COLON] == [0x7b, 0x22] + key + [0x22, 0x3a];
  }

  /** One member more is written at the end, after a comma. */
  lemma NextMemberExactly(es: seq<Entry>, e: Entry)
    requires es != []
    ensures var before, alone := Stringify(es), Stringify([e]);
      |before| > 0 && Stringify(es + [e]) == before[..|before| - 1] + [0x2c] + alone[1..]
  {
    OneMoreMember(es, e);
    assert MembersText([e]) == MemberText(e);
    hide MembersText, MemberText;
    Joined(MembersText(es), MemberText(e));
  }

  lemma Joined(members: Text, next: Text)
    ensures var before, alone := [OPEN] + members + [CLOSE], [OPEN] + next + [CLOSE];
      [OPEN] + (members + [0x2c] + next) + [CLOSE] == before[..|before| - 1] + [0x2c] + alone[1..]
  {
    var before, alone := [OPEN] + members + [CLOSE], [OPEN] + next + [CLOSE];
    assert before[..|before| - 1] == [OPEN] + members && alone[1..] == next + [CLOSE];
    assert [OPEN] + (members + [0x2c] + next) == [OPEN] + members + [0x2c] + next;
  }

  lemma {:induction false} OneMoreMember(es: seq<Entry>, e: Entry)
    requires es != []
    ensures MembersText(es + [e]) == MembersText(es) + [0x2c] + MemberText(e)
  {
    hide MemberText;
    assert (es + [e])[1..] == es[1..] + [e];
    if |es| > 1 {
      OneMoreMember(es[1..], e);
    } else {
      assert es[1..] + [e] == [e];
    }
  }

  /** The record lists the payload's defined keys in the given order, and no others. */
  lemma {:induction false} RecordExactly(order: seq<string>, payload: Payload)
    ensures var keys := Filter((key: string) => key in payload, order);
      && |Canonical(order, payload)| == |keys|
      && forall i :: 0 <= i < |keys| ==>
           keys[i] in payload && Canonical(order, payload)[i] == Entry(Units(keys[i]), payload[keys[i]])
  {
    var keep := (key: string) => key in payload;
    if order != [] {
      var shorter, last := order[..|order| - 1], order[|order| - 1];
      RecordExactly(shorter, payload);
      FilterAppend(keep, shorter, last);
      assert order == shorter + [last];
      assert Canonical(order, payload) == Canonical(shorter, payload)
        + if last in payload then [Entry(Units(last), payload[last])] else [];
      hide Canonical, Filter, Units;
    }
  }
}
