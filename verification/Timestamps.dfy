/** Canonical ISO 8601 timestamps: `Date.prototype.toISOString` and the string comparisons that rely on it. */
module Timestamps {
  import opened Prelude

  /** Milliseconds since 1970-01-01T00:00:00.000Z. */
  type Instant = int

  const MS_PER_SECOND := 1_000
  const MS_PER_MINUTE := 60_000
  const MS_PER_HOUR := 3_600_000
  const MS_PER_DAY := 86_400_000

  /** A JavaScript Date holds at most this many milliseconds either side of the epoch. */
  const MAX_TIME := 8_640_000_000_000_000
  const FIRST_YEAR := -271821

  // ---- The proleptic Gregorian calendar -----------------------------------

  predicate IsLeap(y: int) {
    y % 4 == 0 && (y % 100 != 0 || y % 400 == 0)
  }

  /** Days from 1970-01-01 to the first of January of year `y`. */
  function DayFromYear(y: int): int {
    365 * (y - 1970) + (y - 1969) / 4 - (y - 1901) / 100 + (y - 1601) / 400
  }

  lemma FourthYears(y: int)
    ensures (y - 1968) / 4 == (y - 1969) / 4 + if y % 4 == 0 then 1 else 0
  {
  }

  lemma Centuries(y: int)
    ensures (y - 1900) / 100 == (y - 1901) / 100 + if y % 100 == 0 then 1 else 0
  {
  }

  lemma FourCenturies(y: int)
    ensures (y - 1600) / 400 == (y - 1601) / 400 + if y % 400 == 0 then 1 else 0
  {
  }

  lemma CyclesNest(y: int)
    ensures (y % 400 == 0 ==> y % 100 == 0) && (y % 100 == 0 ==> y % 4 == 0)
  {
  }

  /** Consecutive New Year's days are one year's length apart. */
  lemma YearStep(y: int)
    ensures DayFromYear(y + 1) == DayFromYear(y) + if IsLeap(y) then 366 else 365
  {
    FourthYears(y);
    Centuries(y);
    FourCenturies(y);
    CyclesNest(y);
    var fourth, century, fourCentury := y % 4 == 0, y % 100 == 0, y % 400 == 0;
    assert IsLeap(y) == (fourth && (!century || fourCentury));
  }

  lemma {:induction false} YearsIncrease(y: int, z: int)
    requires y <= z
    ensures DayFromYear(y) + 365 * (z - y) <= DayFromYear(z)
    decreases z - y
  {
    if y < z {
      YearStep(y);
      YearsIncrease(y + 1, z);
    }
  }

  /** Days of the year before month `m`; month 13 stands for the end of the year. */
  function MonthStart(m: int, leap: bool): (d: int)
    requires 1 <= m <= 13
    ensures 0 <= d <= 366
  {
    var shift := if leap then 1 else 0;
    [0, 31, 59, 90, 120, 151, 181, 212, 243, 273, 304, 334, 365][m - 1] + if m > 2 then shift else 0
  }

  datatype Fields = Fields(year: int, month: int, day: int, hour: int, minute: int, second: int, milli: int)

  predicate Valid(f: Fields) {
    && 1 <= f.month <= 12
    && 1 <= f.day <= MonthStart(f.month + 1, IsLeap(f.year)) - MonthStart(f.month, IsLeap(f.year))
    && 0 <= f.hour < 24 && 0 <= f.minute < 60 && 0 <= f.second < 60 && 0 <= f.milli < 1000
  }

  function DayNumber(f: Fields): int
    requires Valid(f)
  {
    DayFromYear(f.year) + MonthStart(f.month, IsLeap(f.year)) + f.day - 1
  }

  function TimeOfDay(f: Fields): int {
    f.hour * MS_PER_HOUR + f.minute * MS_PER_MINUTE + f.second * MS_PER_SECOND + f.milli
  }

  /** The instant that a calendar date and time denote. */
  function InstantOf(f: Fields): Instant
    requires Valid(f)
  {
    DayNumber(f) * MS_PER_DAY + TimeOfDay(f)
  }

  // ---- From an instant to its calendar fields -----------------------------

  function YearOf(day: int, from: int): (y: int)
    requires DayFromYear(from) <= day
    ensures y >= from && DayFromYear(y) <= day < DayFromYear(y + 1)
    decreases day - DayFromYear(from)
  {
    YearStep(from);
    if day < DayFromYear(from + 1) then from else YearOf(day, from + 1)
  }

  function MonthOf(dayOfYear: int, leap: bool, from: int): (m: int)
    requires 1 <= from <= 12 && MonthStart(from, leap) <= dayOfYear < MonthStart(13, leap)
    ensures 1 <= m <= 12 && MonthStart(m, leap) <= dayOfYear < MonthStart(m + 1, leap)
    decreases 13 - from
  {
    if dayOfYear < MonthStart(from + 1, leap) then from else MonthOf(dayOfYear, leap, from + 1)
  }

  predicate IsDate(t: Instant) {
    -MAX_TIME <= t <= MAX_TIME
  }

  /** Midnight of the given day. */
  function DateOf(day: int): (f: Fields)
    requires DayFromYear(FIRST_YEAR) <= day
    ensures Valid(f) && DayNumber(f) == day && TimeOfDay(f) == 0
  {
    var year := YearOf(day, FIRST_YEAR);
    YearStep(year);
    var leap := IsLeap(year);
    var month := MonthOf(day - DayFromYear(year), leap, 1);
    Fields(year, month, day - DayFromYear(year) - MonthStart(month, leap) + 1, 0, 0, 0, 0)
  }

  function FieldsOf(t: Instant): (f: Fields)
    requires IsDate(t)
    ensures Valid(f) && InstantOf(f) == t
  {
    var time := t % MS_PER_DAY;
    SplitTime(time);
    DateOf(t / MS_PER_DAY).(
      hour := time / MS_PER_HOUR, minute := time / MS_PER_MINUTE % 60,
      second := time / MS_PER_SECOND % 60, milli := time % MS_PER_SECOND)
  }

  lemma SplitTime(time: int)
    requires 0 <= time < MS_PER_DAY
    ensures time == time / MS_PER_HOUR * MS_PER_HOUR + time / MS_PER_MINUTE % 60 * MS_PER_MINUTE
                    + time / MS_PER_SECOND % 60 * MS_PER_SECOND + time % MS_PER_SECOND
  {
    var s := time / MS_PER_SECOND;
    var m := s / 60;
    assert time / MS_PER_MINUTE == m && time / MS_PER_HOUR == m / 60;
  }

  // ---- Order of calendar fields -------------------------------------------

  /** One zero-padded number of a timestamp and the separator after it. */
  datatype Part = Part(value: int, width: nat, separator: string)

  function Parts(f: Fields): seq<Part> {
    [Part(f.year, 4, "-"), Part(f.month, 2, "-"), Part(f.day, 2, "T"), Part(f.hour, 2, ":"),
     Part(f.minute, 2, ":"), Part(f.second, 2, "."), Part(f.milli, 3, "Z")]
  }

  /** Lexicographic order of the numbers from place `i` on. */
  predicate PartsLeq(a: seq<Part>, b: seq<Part>, i: nat)
    requires i <= |a| == |b|
    decreases |a| - i
  {
    i == |a| || a[i].value < b[i].value || (a[i].value == b[i].value && PartsLeq(a, b, i + 1))
  }

  predicate TimeLeq(f: Fields, g: Fields) {
    if f.hour != g.hour then f.hour < g.hour
    else if f.minute != g.minute then f.minute < g.minute
    else if f.second != g.second then f.second < g.second
    else f.milli <= g.milli
  }

  predicate FieldsLeq(f: Fields, g: Fields) {
    if f.year != g.year then f.year < g.year
    else if f.month != g.month then f.month < g.month
    else if f.day != g.day then f.day < g.day
    else TimeLeq(f, g)
  }

  lemma PartsAreFields(f: Fields, g: Fields)
    ensures PartsLeq(Parts(f), Parts(g), 0) <==> FieldsLeq(f, g)
  {
    var a, b := Parts(f), Parts(g);
    assert PartsLeq(a, b, 6) <==> f.milli <= g.milli;
    assert PartsLeq(a, b, 5) <==> f.second < g.second || (f.second == g.second && PartsLeq(a, b, 6));
    assert PartsLeq(a, b, 4) <==> f.minute < g.minute || (f.minute == g.minute && PartsLeq(a, b, 5));
    assert PartsLeq(a, b, 3) <==> TimeLeq(f, g);
    assert PartsLeq(a, b, 2) <==> f.day < g.day || (f.day == g.day && TimeLeq(f, g));
  }

  lemma TimesOrdered(f: Fields, g: Fields)
    requires Valid(f) && Valid(g)
    ensures TimeOfDay(f) <= TimeOfDay(g) <==> TimeLeq(f, g)
    ensures 0 <= TimeOfDay(f) < MS_PER_DAY
  {
  }

  lemma DaysOrdered(f: Fields, g: Fields)
    requires Valid(f) && Valid(g)
    ensures (f.year < g.year || (f.year == g.year && f.month < g.month)) ==> DayNumber(f) < DayNumber(g)
  {
    if f.year < g.year {
      YearStep(f.year);
      YearsIncrease(f.year + 1, g.year);
    }
  }

  /** Instants are ordered as their calendar fields are, most significant first. */
  lemma InstantsOrdered(f: Fields, g: Fields)
    requires Valid(f) && Valid(g)
    ensures InstantOf(f) <= InstantOf(g) <==> FieldsLeq(f, g)
  {
    DaysOrdered(f, g);
    DaysOrdered(g, f);
    TimesOrdered(f, g);
    TimesOrdered(g, f);
  }

  // ---- Text ---------------------------------------------------------------

  function Pow10(w: nat): (p: nat)
    ensures p >= 1
  {
    if w == 0 then 1 else 10 * Pow10(w - 1)
  }

  function Digit(d: int): char
    requires 0 <= d < 10
  {
    (d + '0' as int) as char
  }

  /** `n` in exactly `w` decimal digits. */
  function Pad(n: int, w: nat): (s: string)
    ensures |s| == w
    decreases w
  {
    if w == 0 then "" else Pad(n / 10, w - 1) + [Digit(n % 10)]
  }

  /** Equal-width decimals sort as numbers. */
  lemma {:induction false} PadOrdered(n: int, m: int, w: nat)
    requires 0 <= n < Pow10(w) && 0 <= m < Pow10(w)
    ensures LexLeq(Pad(n, w), Pad(m, w)) <==> n <= m
    ensures Pad(n, w) == Pad(m, w) <==> n == m
  {
    if w > 0 {
      PadOrdered(n / 10, m / 10, w - 1);
      LexAppend(Pad(n / 10, w - 1), Pad(m / 10, w - 1), [Digit(n % 10)], [Digit(m % 10)]);
      assert Pad(n, w)[w - 1] == Digit(n % 10) && Pad(n, w)[..w - 1] == Pad(n / 10, w - 1);
      assert Pad(m, w)[w - 1] == Digit(m % 10) && Pad(m, w)[..w - 1] == Pad(m / 10, w - 1);
    }
  }

  function Text(parts: seq<Part>, i: nat): string
    requires i <= |parts|
    decreases |parts| - i
  {
    if i == |parts| then "" else Pad(parts[i].value, parts[i].width) + parts[i].separator + Text(parts, i + 1)
  }

  ghost predicate SameShape(a: seq<Part>, b: seq<Part>) {
    && |a| == |b|
    && forall i :: 0 <= i < |a| ==>
         && a[i].width == b[i].width && a[i].separator == b[i].separator
         && 0 <= a[i].value < Pow10(a[i].width) && 0 <= b[i].value < Pow10(b[i].width)
  }

  lemma {:induction false} TextOrdered(a: seq<Part>, b: seq<Part>, i: nat)
    requires SameShape(a, b) && i <= |a|
    ensures LexLeq(Text(a, i), Text(b, i)) <==> PartsLeq(a, b, i)
    decreases |a| - i
  {
    if i < |a| {
      var x, y := Pad(a[i].value, a[i].width), Pad(b[i].value, b[i].width);
      var s := a[i].separator;
      TextOrdered(a, b, i + 1);
      PadOrdered(a[i].value, b[i].value, a[i].width);
      LexAppend(x + s, y + s, Text(a, i + 1), Text(b, i + 1));
      LexAppend(x, y, s, s);
      LexReflexive(s);
      assert x == (x + s)[..|x|] && y == (y + s)[..|y|];
    }
  }

  /** Four digits up to year 9999, otherwise a sign and six digits. */
  function IsoText(f: Fields): string {
    if 0 <= f.year <= 9999 then
      Text(Parts(f), 0)
    else
      [if f.year < 0 then '-' else '+'] + Pad(if f.year < 0 then -f.year else f.year, 6) + "-" + Text(Parts(f), 1)
  }

  /** `new Date(t).toISOString()`. */
  function ToIso(t: Instant): string
    requires IsDate(t)
  {
    IsoText(FieldsOf(t))
  }

  predicate FourDigitYear(t: Instant) {
    IsDate(t) && 0 <= FieldsOf(t).year <= 9999
  }

  /** Twenty-four characters, whatever the instant in those years. */
  lemma IsoLength(t: Instant)
    requires FourDigitYear(t)
    ensures |ToIso(t)| == 24
  {
    var p := Parts(FieldsOf(t));
    assert |Text(p, 6)| == 4;
    assert |Text(p, 5)| == 7;
    assert |Text(p, 3)| == 13;
    assert |Text(p, 1)| == 19;
  }

  lemma PartsBounded(f: Fields, g: Fields)
    requires Valid(f) && Valid(g) && 0 <= f.year <= 9999 && 0 <= g.year <= 9999
    ensures SameShape(Parts(f), Parts(g))
  {
    assert Pow10(2) == 100 && Pow10(3) == 1000 && Pow10(4) == 10_000;
  }

  /** On four-digit years the string order is the order of time. */
  lemma IsoOrderIsTimeOrder(s: Instant, t: Instant)
    requires FourDigitYear(s) && FourDigitYear(t)
    ensures LexLeq(ToIso(s), ToIso(t)) <==> s <= t
  {
    var f, g := FieldsOf(s), FieldsOf(t);
    PartsBounded(f, g);
    TextOrdered(Parts(f), Parts(g), 0);
    PartsAreFields(f, g);
    InstantsOrdered(f, g);
  }

  lemma {:induction false} PadStartsWithDigit(n: int, w: nat)
    requires w > 0
    ensures '0' <= Pad(n, w)[0] <= '9'
    decreases w
  {
    if w > 1 { PadStartsWithDigit(n / 10, w - 1); }
  }

  /** Past year 9999 the text starts with a plus sign, which sorts before every digit. */
  lemma IsoOrderExactly(s: Instant, t: Instant)
    requires FourDigitYear(s) && IsDate(t) && s <= t
    ensures LexLeq(ToIso(s), ToIso(t)) <==> FieldsOf(t).year <= 9999
  {
    var f, g := FieldsOf(s), FieldsOf(t);
    InstantsOrdered(f, g);
    if g.year <= 9999 {
      IsoOrderIsTimeOrder(s, t);
    } else {
      PadStartsWithDigit(f.year, 4);
      assert ToIso(s)[0] == Pad(f.year, 4)[0];
    }
  }

  // ---- Reading a timestamp ------------------------------------------------

  /** The calendar: 1970 begins at day 0, years have 365 or 366 days, months the usual number. */
  lemma CalendarExactly(y: int, m: int)
    requires 1 <= m <= 12
    ensures DayFromYear(1970) == 0
    ensures DayFromYear(y + 1) - DayFromYear(y) == if y % 400 == 0 || (y % 4 == 0 && y % 100 != 0) then 366 else 365
    ensures MonthStart(1, IsLeap(y)) == 0
    ensures MonthStart(m + 1, IsLeap(y)) - MonthStart(m, IsLeap(y)) ==
      if m == 2 then DayFromYear(y + 1) - DayFromYear(y) - 337 else if m in {4, 6, 9, 11} then 30 else 31
  {
    YearStep(y);
    CyclesNest(y);
  }

  /** The number that decimal digits stand for. */
  function Number(s: string): int {
    if s == "" then 0 else Number(s[..|s| - 1]) * 10 + s[|s| - 1] as int - '0' as int
  }

  lemma {:induction false} PadReadsBack(n: int, w: nat)
    requires 0 <= n < Pow10(w)
    ensures Number(Pad(n, w)) == n && forall i :: 0 <= i < w ==> '0' <= Pad(n, w)[i] <= '9'
    decreases w
  {
    if w > 0 {
      PadReadsBack(n / 10, w - 1);
      assert Pad(n, w)[..w - 1] == Pad(n / 10, w - 1);
    }
  }

  lemma PowersOfTen()
    ensures Pow10(4) == 10_000 && Pow10(6) == 1_000_000
  {
    assert Pow10(3) == 1_000;
    assert Pow10(5) == 100_000;
  }

  /** A number of some digits, the character after it, and what follows. */
  datatype Taken = Taken(value: int, separator: char, rest: string)

  function Take(s: string, width: nat): Taken {
    if |s| <= width then Taken(-1, '?', "") else Taken(Number(s[..width]), s[width], s[width + 1..])
  }

  /** Month, day, hour, minute, second and millisecond, each with its separator, and no more. */
  function ReadRest(year: int, s: string): Option<Fields> {
    var month := Take(s, 2);
    var day := Take(month.rest, 2);
    var hour := Take(day.rest, 2);
    var minute := Take(hour.rest, 2);
    var second := Take(minute.rest, 2);
    var milli := Take(second.rest, 3);
    if && month.separator == '-' && day.separator == 'T' && hour.separator == ':' && minute.separator == ':'
       && second.separator == '.' && milli.separator == 'Z' && milli.rest == ""
    then Some(Fields(year, month.value, day.value, hour.value, minute.value, second.value, milli.value))
    else None
  }

  /** A year of four digits, or a sign and six digits; then the rest. */
  function ReadIso(s: string): Option<Fields> {
    if s != "" && (s[0] == '+' || s[0] == '-') then
      var year := Take(s[1..], 6);
      if year.separator == '-' then ReadRest(if s[0] == '-' then -year.value else year.value, year.rest) else None
    else
      var year := Take(s, 4);
      if year.separator == '-' then ReadRest(year.value, year.rest) else None
  }

  lemma TakePart(value: int, width: nat, separator: string, rest: string)
    requires 0 <= value < Pow10(width) && |separator| == 1
    ensures Take(Pad(value, width) + separator + rest, width) == Taken(value, separator[0], rest)
  {
    var pad := Pad(value, width);
    PadReadsBack(value, width);
    var s := pad + separator + rest;
    assert s[..width] == pad && s[width] == separator[0] && s[width + 1..] == rest;
    hide Number, Pad;
  }

  lemma TakeNext(parts: seq<Part>, i: nat)
    requires i < |parts| && |parts[i].separator| == 1 && 0 <= parts[i].value < Pow10(parts[i].width)
    ensures Take(Text(parts, i), parts[i].width) ==
      Taken(parts[i].value, parts[i].separator[0], Text(parts, i + 1))
  {
    TakePart(parts[i].value, parts[i].width, parts[i].separator, Text(parts, i + 1));
    hide Take, Pad, Pow10;
  }

  /** The parts after the year, each within its width. */
  lemma PartsAfterYear(f: Fields)
    requires Valid(f)
    ensures var p := Parts(f);
      && |p| == 7 && (forall i :: 1 <= i < 7 ==> 0 <= p[i].value < Pow10(p[i].width) && |p[i].separator| == 1)
      && p[1] == Part(f.month, 2, "-") && p[2] == Part(f.day, 2, "T") && p[3] == Part(f.hour, 2, ":")
      && p[4] == Part(f.minute, 2, ":") && p[5] == Part(f.second, 2, ".") && p[6] == Part(f.milli, 3, "Z")
  {
    assert Pow10(2) == 100 && Pow10(3) == 1000;
  }

  lemma RestReadsBack(f: Fields)
    requires Valid(f)
    ensures ReadRest(f.year, Text(Parts(f), 1)) == Some(f)
  {
    var p := Parts(f);
    PartsAfterYear(f);
    assert Text(p, 7) == "";
    hide Parts, Text, Take, Valid, Pow10;
    TakeNext(p, 1);
    TakeNext(p, 2);
    TakeNext(p, 3);
    TakeNext(p, 4);
    TakeNext(p, 5);
    TakeNext(p, 6);
  }

  lemma StartsWithDigit(parts: seq<Part>, i: nat)
    requires i < |parts| && parts[i].width > 0
    ensures Text(parts, i) != "" && '0' <= Text(parts, i)[0] <= '9'
  {
    PadStartsWithDigit(parts[i].value, parts[i].width);
    hide Pad;
  }

  lemma ShortIsoReadsBack(f: Fields)
    requires Valid(f) && 0 <= f.year <= 9999
    ensures ReadIso(IsoText(f)) == Some(f)
  {
    var p := Parts(f);
    PowersOfTen();
    hide Text, Take, Valid, Pow10, ReadRest, Pad;
    StartsWithDigit(p, 0);
    RestReadsBack(f);
    TakeNext(p, 0);
  }

  lemma LongIsoText(f: Fields)
    requires !(0 <= f.year <= 9999)
    ensures IsoText(f) != "" && IsoText(f)[0] == if f.year < 0 then '-' else '+'
    ensures IsoText(f)[1..] == Pad(if f.year < 0 then -f.year else f.year, 6) + "-" + Text(Parts(f), 1)
  {
    hide Pad, Text;
    var digits, rest := Pad(if f.year < 0 then -f.year else f.year, 6), Text(Parts(f), 1);
    var sign := if f.year < 0 then '-' else '+';
    assert IsoText(f) == [sign] + digits + "-" + rest;
    assert ([sign] + digits + "-" + rest)[1..] == digits + "-" + rest;
  }

  lemma LongIsoReadsBack(f: Fields)
    requires Valid(f) && !(0 <= f.year <= 9999) && -1_000_000 < f.year < 1_000_000
    ensures ReadIso(IsoText(f)) == Some(f)
  {
    PowersOfTen();
    hide Text, Take, Valid, Pow10, ReadRest, Pad, IsoText;
    TakePart(if f.year < 0 then -f.year else f.year, 6, "-", Text(Parts(f), 1));
    LongIsoText(f);
    RestReadsBack(f);
  }

  /** The text of a date reads back as fields that denote it, in every year. */
  lemma IsoReadsBack(t: Instant)
    requires IsDate(t)
    ensures var read := ReadIso(ToIso(t));
      read.Some? && Valid(read.value) && InstantOf(read.value) == t
  {
    YearsBounded(t);
    var f := FieldsOf(t);
    if 0 <= f.year <= 9999 { ShortIsoReadsBack(f); } else { LongIsoReadsBack(f); }
    hide ReadIso, IsoText, Valid, InstantOf;
  }

  /** Dates have at most six-digit years. */
  lemma YearsBounded(t: Instant)
    requires IsDate(t)
    ensures -1_000_000 < FieldsOf(t).year < 1_000_000
  {
    var f := FieldsOf(t);
    TimesOrdered(f, f);
    if f.year >= 1_000_000 { YearsIncrease(1_000_000, f.year); }
    if f.year <= -1_000_000 { YearsIncrease(f.year + 1, -999_999); YearStep(f.year); }
  }
}
