/**
 * Calendar dates as Python's `datetime` handles them: the proleptic Gregorian
 * calendar for years 1 to 9999, the day ordinal (`date.toordinal()`), the
 * parser for the `"%B %d, %Y"` form (`datetime.strptime`) that reads the
 * release date, and the `"%b %d, %Y"` form (`strftime`) that displays it.
 */
module Dates {
  import opened Wrappers
  import opened Text

  /** A calendar date; meaningful when `ValidDate` holds. */
  datatype Date = Date(year: int, month: int, day: int)

  const MinYear := 1
  const MaxYear := 9999

  predicate IsLeapYear(y: int) {
    y % 4 == 0 && (y % 100 != 0 || y % 400 == 0)
  }

  function DaysInMonth(y: int, m: int): (n: int)
    requires 1 <= m <= 12
    ensures 28 <= n <= 31
    ensures m == 2 ==> (n == 29 <==> IsLeapYear(y))
  {
    if m == 2 then (if IsLeapYear(y) then 29 else 28)
    else if m == 4 || m == 6 || m == 9 || m == 11 then 30
    else 31
  }

  /** The dates `datetime.date(year, month, day)` accepts. */
  predicate ValidDate(d: Date) {
    MinYear <= d.year <= MaxYear && 1 <= d.month <= 12 && 1 <= d.day <= DaysInMonth(d.year, d.month)
  }

  function DaysInYear(y: int): int {
    if IsLeapYear(y) then 366 else 365
  }

  /** Days in the years before `y`, counted from year 1. */
  function DaysBeforeYear(y: int): int {
    var p := y - 1;
    p * 365 + p / 4 - p / 100 + p / 400
  }

  /** Days in the months of year `y` before month `m`. */
  function DaysBeforeMonth(y: int, m: int): nat
    requires 1 <= m <= 13
  {
    if m == 1 then 0 else DaysBeforeMonth(y, m - 1) + DaysInMonth(y, m - 1)
  }

  /** The day number of `d`, 1 for January 1 of year 1 (Python's `toordinal()`). */
  function Ordinal(d: Date): int
    requires ValidDate(d)
  {
    DaysBeforeYear(d.year) + DaysBeforeMonth(d.year, d.month) + d.day
  }

  /** Calendar order: `d1` falls on an earlier day than `d2`. */
  predicate Before(d1: Date, d2: Date) {
    d1.year < d2.year
    || (d1.year == d2.year && d1.month < d2.month)
    || (d1.year == d2.year && d1.month == d2.month && d1.day < d2.day)
  }

  lemma YearDivSteps(p: int)
    requires p >= 0
    ensures (p + 1) / 4 - p / 4 == if (p + 1) % 4 == 0 then 1 else 0
    ensures (p + 1) / 100 - p / 100 == if (p + 1) % 100 == 0 then 1 else 0
    ensures (p + 1) / 400 - p / 400 == if (p + 1) % 400 == 0 then 1 else 0
  {
  }

  lemma DivisibleBy100(y: int)
    requires y % 100 == 0
    ensures y % 4 == 0
  {
    var q := y / 100;
    assert y == 4 * (25 * q);
  }

  lemma DivisibleBy400(y: int)
    requires y % 400 == 0
    ensures y % 100 == 0
  {
    var q := y / 400;
    assert y == 100 * (4 * q);
  }

  /** Passing one year adds that year's length to the day count. */
  lemma DaysBeforeYearStep(y: int)
    requires y >= 1
    ensures DaysBeforeYear(y + 1) == DaysBeforeYear(y) + DaysInYear(y)
  {
    YearDivSteps(y - 1);
    if y % 100 == 0 { DivisibleBy100(y); }
    if y % 400 == 0 { DivisibleBy400(y); }
  }

  lemma {:induction false} DaysBeforeYearMonotone(a: int, b: int)
    requires 1 <= a < b
    ensures DaysBeforeYear(a) + DaysInYear(a) <= DaysBeforeYear(b)
    decreases b - a
  {
    DaysBeforeYearStep(a);
    if a + 1 < b {
      DaysBeforeYearMonotone(a + 1, b);
    }
  }

  lemma DaysBeforeMonthYear(y: int)
    ensures DaysBeforeMonth(y, 13) == DaysInYear(y)
  {
    var feb := DaysInMonth(y, 2);
    assert DaysBeforeMonth(y, 2) == 31;
    assert DaysBeforeMonth(y, 3) == 31 + feb;
    assert DaysBeforeMonth(y, 4) == 62 + feb;
    assert DaysBeforeMonth(y, 5) == 92 + feb;
    assert DaysBeforeMonth(y, 6) == 123 + feb;
    assert DaysBeforeMonth(y, 7) == 153 + feb;
    assert DaysBeforeMonth(y, 8) == 184 + feb;
    assert DaysBeforeMonth(y, 9) == 215 + feb;
    assert DaysBeforeMonth(y, 10) == 245 + feb;
    assert DaysBeforeMonth(y, 11) == 276 + feb;
    assert DaysBeforeMonth(y, 12) == 306 + feb;
    assert DaysBeforeMonth(y, 13) == 337 + feb;
  }

  lemma {:induction false} DaysBeforeMonthMonotone(y: int, a: int, b: int)
    requires 1 <= a < b <= 13
    ensures DaysBeforeMonth(y, a) + DaysInMonth(y, a) <= DaysBeforeMonth(y, b)
    decreases b - a
  {
    if a + 1 < b {
      DaysBeforeMonthMonotone(y, a + 1, b);
    }
  }

  /** A valid date's ordinal lies inside its own year's range of day numbers. */
  lemma OrdinalInYear(d: Date)
    requires ValidDate(d)
    ensures DaysBeforeYear(d.year) < Ordinal(d) <= DaysBeforeYear(d.year) + DaysInYear(d.year)
  {
    DaysBeforeMonthYear(d.year);
    if d.month < 12 {
      DaysBeforeMonthMonotone(d.year, d.month, 13);
    }
  }

  /** The day ordinal follows calendar order. */
  lemma OrdinalMonotone(d1: Date, d2: Date)
    requires ValidDate(d1) && ValidDate(d2) && Before(d1, d2)
    ensures Ordinal(d1) < Ordinal(d2)
  {
    if d1.year < d2.year {
      OrdinalInYear(d1);
      OrdinalInYear(d2);
      DaysBeforeYearMonotone(d1.year, d2.year);
    } else if d1.month < d2.month {
      DaysBeforeMonthMonotone(d1.year, d1.month, d2.month);
    }
  }

  /**
   * Comparing ordinals is comparing calendar dates: a smaller ordinal is an
   * earlier date and equal ordinals are the same date.
   */
  lemma OrdinalOrder(d1: Date, d2: Date)
    requires ValidDate(d1) && ValidDate(d2)
    ensures Ordinal(d1) < Ordinal(d2) <==> Before(d1, d2)
    ensures Ordinal(d1) == Ordinal(d2) <==> d1 == d2
  {
    if Before(d1, d2) {
      OrdinalMonotone(d1, d2);
    } else if Before(d2, d1) {
      OrdinalMonotone(d2, d1);
    }
  }

  // ---- Decimal digits ----

  predicate IsDigit(c: char) {
    '0' <= c <= '9'
  }

  predicate AllDigits(t: string) {
    forall i :: 0 <= i < |t| ==> IsDigit(t[i])
  }

  function DigitValue(c: char): int {
    (c as int) - ('0' as int)
  }

  function DigitChar(n: nat): (c: char)
    requires n < 10
    ensures IsDigit(c) && DigitValue(c) == n
  {
    (n + '0' as int) as char
  }

  /** The number a string of decimal digits denotes (leading zeros allowed). */
  function DigitsValue(t: string): int {
    if t == [] then 0 else DigitsValue(t[..|t| - 1]) * 10 + DigitValue(t[|t| - 1])
  }

  lemma DigitsValueSnoc(t: string, c: char)
    ensures DigitsValue(t + [c]) == DigitsValue(t) * 10 + DigitValue(c)
  {
    assert (t + [c])[..|t|] == t;
  }

  lemma DigitsValueTwo(t: string)
    requires |t| == 2
    ensures DigitsValue(t) == 10 * DigitValue(t[0]) + DigitValue(t[1])
  {
    DigitsValueSnoc([], t[0]);
    assert [] + [t[0]] == [t[0]];
    DigitsValueSnoc([t[0]], t[1]);
    assert [t[0]] + [t[1]] == t;
  }

  lemma DigitsValueAppendTwo(a: string, b: string)
    requires |b| == 2
    ensures DigitsValue(a + b) == 100 * DigitsValue(a) + DigitsValue(b)
  {
    DigitsValueTwo(b);
    DigitsValueSnoc(a, b[0]);
    DigitsValueSnoc(a + [b[0]], b[1]);
    assert a + [b[0]] + [b[1]] == a + b;
  }

  /** `n` in decimal without leading zeros. */
  function Decimal(n: nat): (r: string)
    ensures r != [] && AllDigits(r) && DigitsValue(r) == n
    ensures n < 10 <==> |r| == 1
    ensures n > 0 ==> r[0] != '0'
  {
    if n < 10 then
      DigitsValueSnoc([], DigitChar(n));
      assert [] + [DigitChar(n)] == [DigitChar(n)];
      [DigitChar(n)]
    else
      var r := Decimal(n / 10) + [DigitChar(n % 10)];
      DigitsValueSnoc(Decimal(n / 10), DigitChar(n % 10));
      r
  }

  /** A year from 1000 to 9999 is written as its four digits, the same text as the padded form. */
  lemma DecimalFour(n: nat)
    requires 1000 <= n < 10000
    ensures Decimal(n) == Pad4(n)
  {
    FourDigitArith(n);
    var a, b, c, d := DigitChar(n / 1000), DigitChar((n / 100) % 10), DigitChar((n % 100) / 10), DigitChar(n % 10);
    assert Decimal(n / 100) == [a, b];
    assert Decimal(n / 10) == [a, b, c];
    assert Pad4(n) == [a, b] + [c, d];
  }

  /** The digits of a four-digit number, taken off from the right and from the left, agree. */
  lemma FourDigitArith(n: nat)
    requires 1000 <= n < 10000
    ensures n / 10 / 10 == n / 100 && n / 100 / 10 == n / 1000
    ensures (n / 10) % 10 == (n % 100) / 10 && (n % 100) % 10 == n % 10
    ensures 10 <= n / 100 < 100 && 100 <= n / 10 < 1000
  {
  }

  /** `n` in exactly two decimal digits, zero-padded. */
  function Pad2(n: nat): (r: string)
    requires n < 100
    ensures |r| == 2 && AllDigits(r) && DigitsValue(r) == n
  {
    var r := [DigitChar(n / 10), DigitChar(n % 10)];
    DigitsValueTwo(r);
    r
  }

  /** `n` in exactly four decimal digits, zero-padded. */
  function Pad4(n: nat): (r: string)
    requires n < 10000
    ensures |r| == 4 && AllDigits(r) && DigitsValue(r) == n
  {
    DigitsValueAppendTwo(Pad2(n / 100), Pad2(n % 100));
    Pad2(n / 100) + Pad2(n % 100)
  }

  lemma DigitCharValue(c: char)
    requires IsDigit(c)
    ensures DigitChar(DigitValue(c)) == c
  {
  }

  /** Two digits are the padded rendering of their value. */
  lemma TwoDigits(t: string)
    requires AllDigits(t) && |t| == 2
    ensures 0 <= DigitsValue(t) < 100 && t == Pad2(DigitsValue(t))
  {
    DigitsValueTwo(t);
    DigitCharValue(t[0]);
    DigitCharValue(t[1]);
  }

  /** One digit is the decimal rendering of its value. */
  lemma OneDigit(t: string)
    requires AllDigits(t) && |t| == 1
    ensures 0 <= DigitsValue(t) < 10 && t == Decimal(DigitsValue(t))
  {
    DigitsValueSnoc([], t[0]);
    assert [] + [t[0]] == t;
    DigitCharValue(t[0]);
  }

  /** A four-digit year is the padded rendering of its value. */
  lemma FourDigits(t: string)
    requires AllDigits(t) && |t| == 4
    ensures 0 <= DigitsValue(t) < 10000 && t == Pad4(DigitsValue(t))
  {
    var hi, lo := t[..2], t[2..];
    assert t == hi + lo;
    DigitsValueAppendTwo(hi, lo);
    TwoDigits(hi);
    TwoDigits(lo);
    var a, b := DigitsValue(hi), DigitsValue(lo);
    var n := 100 * a + b;
    assert n / 100 == a && n % 100 == b;
    assert Pad4(n) == Pad2(a) + Pad2(b);
  }

  lemma DecimalOfDay(n: nat)
    requires 10 <= n < 100
    ensures Decimal(n) == Pad2(n)
  {
    assert Decimal(n / 10) == [DigitChar(n / 10)];
  }

  // ---- Month names (the C locale's) ----

  const MonthNames: seq<string> := ["January", "February", "March", "April", "May", "June",
    "July", "August", "September", "October", "November", "December"]

  const MonthAbbrevs: seq<string> := ["Jan", "Feb", "Mar", "Apr", "May", "Jun",
    "Jul", "Aug", "Sep", "Oct", "Nov", "Dec"]

  /** The position of the first `name` in `names`. */
  function Lookup(names: seq<string>, name: string): (r: Option<nat>)
    ensures r.Some? ==> (r.value < |names| && names[r.value] == name
      && forall k :: 0 <= k < r.value ==> names[k] != name)
    ensures r.None? ==> name !in names
  {
    if names == [] then None
    else if names[0] == name then Some(0)
    else match Lookup(names[1..], name)
      case None => None
      case Some(k) => Some(k + 1)
  }

  predicate NoSpaces(s: string) {
    forall i :: 0 <= i < |s| ==> s[i] != ' '
  }

  predicate Distinct(names: seq<string>) {
    forall i, j :: 0 <= i < j < |names| ==> names[i] != names[j]
  }

  /** The month's full name (`%B`) and its abbreviation (`%b`), its first three letters. */
  lemma MonthTables()
    ensures |MonthNames| == 12 && |MonthAbbrevs| == 12
    ensures Distinct(MonthNames) && Distinct(MonthAbbrevs)
    ensures forall i :: 0 <= i < 12 ==> NoSpaces(MonthNames[i]) && NoSpaces(MonthAbbrevs[i])
    ensures forall i :: 0 <= i < 12 ==> MonthAbbrevs[i] == MonthNames[i][..3]
  {
  }

  lemma LookupMonth(names: seq<string>, m: int)
    requires Distinct(names) && 0 <= m < |names|
    ensures Lookup(names, names[m]) == Some(m)
  {
  }

  /** Splits `prefix + " " + rest` at its first space when `prefix` has none. */
  lemma SplitAtSpace(prefix: string, rest: string)
    requires NoSpaces(prefix)
    ensures IndexOf(prefix + " " + rest, ' ') == Some(|prefix|)
    ensures (prefix + " " + rest)[..|prefix|] == prefix
    ensures (prefix + " " + rest)[|prefix| + 1..] == rest
  {
    var s := prefix + " " + rest;
    assert s[|prefix|] == ' ';
    assert forall k :: 0 <= k < |prefix| ==> s[k] == prefix[k];
  }

  // ---- Parsing "%B %d, %Y" ----

  /** `datetime(year, month, day)`: the date if the calendar has it. */
  function MakeDate(y: int, m: int, d: int): (r: Option<Date>)
    ensures r.Some? <==> ValidDate(Date(y, m, d))
    ensures r.Some? ==> r.value == Date(y, m, d)
  {
    if ValidDate(Date(y, m, d)) then Some(Date(y, m, d)) else None
  }

  /** The text after the month name: a one- or two-digit day, `", "` and a four-digit year. */
  function LongDayYear(rest: string, m: int): Option<Date> {
    if |rest| < 7 then None
    else
      var dayText, sep, yearText := rest[..|rest| - 6], rest[|rest| - 6..|rest| - 4], rest[|rest| - 4..];
      if sep == ", " && |dayText| <= 2 && AllDigits(dayText) && AllDigits(yearText)
      then MakeDate(DigitsValue(yearText), m, DigitsValue(dayText))
      else None
  }

  /**
   * `datetime.strptime(s, "%B %d, %Y")` for a full English month name, one space,
   * a day of one or two digits, a comma, one space and a four-digit year; the
   * result must be a date of the calendar.
   */
  function ParseLongDate(s: string): (r: Option<Date>)
    ensures r.Some? ==> ValidDate(r.value)
  {
    match IndexOf(s, ' ')
    case None => None
    case Some(k) =>
      match Lookup(MonthNames, s[..k])
      case None => None
      case Some(i) => LongDayYear(s[k + 1..], i + 1)
  }

  /** The strings of the `"%B %d, %Y"` form that name `d`, with the day unpadded or padded. */
  function LongText(d: Date, padDay: bool): string
    requires ValidDate(d)
  {
    MonthNames[d.month - 1] + " " + (DayText(d.day, padDay) + ", " + Pad4(d.year))
  }

  /** The day of the month, zero-padded to two digits or not. */
  function DayText(day: nat, padDay: bool): string
    requires day < 100
  {
    if padDay then Pad2(day) else Decimal(day)
  }

  lemma MonthFacts(m: int)
    requires 1 <= m <= 12
    ensures NoSpaces(MonthNames[m - 1]) && Lookup(MonthNames, MonthNames[m - 1]) == Some(m - 1)
    ensures NoSpaces(MonthAbbrevs[m - 1]) && Lookup(MonthAbbrevs, MonthAbbrevs[m - 1]) == Some(m - 1)
  {
    MonthTables();
    LookupMonth(MonthNames, m - 1);
    LookupMonth(MonthAbbrevs, m - 1);
  }

  /** After a month name and a space, the parser reads the rest as day and year. */
  lemma ParseLongAfterMonth(m: int, rest: string)
    requires 1 <= m <= 12
    ensures ParseLongDate(MonthNames[m - 1] + " " + rest) == LongDayYear(rest, m)
  {
    MonthFacts(m);
    SplitAtSpace(MonthNames[m - 1], rest);
  }

  lemma LongDayYearOf(dayText: string, y: int, m: int)
    requires 1 <= |dayText| <= 2 && AllDigits(dayText) && 0 <= y < 10000
    ensures LongDayYear(dayText + ", " + Pad4(y), m) == MakeDate(y, m, DigitsValue(dayText))
  {
    var rest := dayText + ", " + Pad4(y);
    assert rest[..|rest| - 6] == dayText;
    assert rest[|rest| - 6..|rest| - 4] == ", ";
    assert rest[|rest| - 4..] == Pad4(y);
  }

  lemma LongTextParses(d: Date, padDay: bool)
    requires ValidDate(d)
    ensures ParseLongDate(LongText(d, padDay)) == Some(d)
  {
    var dayText := DayText(d.day, padDay);
    DayTextFacts(d.day, padDay);
    ParseLongAfterMonth(d.month, dayText + ", " + Pad4(d.year));
    LongDayYearOf(dayText, d.year, d.month);
  }

  lemma DayTextFacts(day: nat, padDay: bool)
    requires day < 100
    ensures 1 <= |DayText(day, padDay)| <= 2 && AllDigits(DayText(day, padDay))
    ensures DigitsValue(DayText(day, padDay)) == day
  {
    if !padDay && day >= 10 { DecimalOfDay(day); }
  }

  /** What `LongDayYear` accepts is a day, padded when two digits long, `", "` and the year. */
  lemma DayYearIsText(rest: string, m: int, d: Date)
    requires LongDayYear(rest, m) == Some(d)
    ensures ValidDate(d) && d.month == m
    ensures rest == DayText(d.day, |rest| == 8) + ", " + Pad4(d.year)
  {
    var dayText, yearText := rest[..|rest| - 6], rest[|rest| - 4..];
    assert rest == dayText + ", " + yearText;
    FourDigits(yearText);
    if |dayText| == 1 { OneDigit(dayText); } else { TwoDigits(dayText); }
  }

  /** An accepted string is a month name, a space and a text `LongDayYear` accepts. */
  lemma SplitAccepted(s: string) returns (i: nat, rest: string)
    requires ParseLongDate(s).Some?
    ensures i < 12 && s == MonthNames[i] + " " + rest
    ensures LongDayYear(rest, i + 1) == ParseLongDate(s)
  {
    var k := IndexOf(s, ' ').value;
    var name := s[..k];
    i := Lookup(MonthNames, name).value;
    rest := s[k + 1..];
    SplitAt(s, k);
    assert s == name + " " + rest;
  }

  lemma SplitAt(s: string, k: nat)
    requires k < |s|
    ensures s == s[..k] + [s[k]] + s[k + 1..]
  {
  }

  lemma ParsedIsLongText(s: string, d: Date)
    requires ParseLongDate(s) == Some(d)
    ensures s == LongText(d, false) || s == LongText(d, true)
  {
    var i, rest := SplitAccepted(s);
    DayYearIsText(rest, i + 1, d);
  }

  /**
   * The parser accepts exactly the calendar dates, written in the long form
   * with the day padded or not.
   */
  lemma ParseLongDateExact(s: string, d: Date)
    ensures ParseLongDate(s) == Some(d) <==> ValidDate(d) && (s == LongText(d, false) || s == LongText(d, true))
  {
    if ParseLongDate(s) == Some(d) {
      ParsedIsLongText(s, d);
    }
    if ValidDate(d) && s == LongText(d, false) {
      LongTextParses(d, false);
    }
    if ValidDate(d) && s == LongText(d, true) {
      LongTextParses(d, true);
    }
  }

  lemma LeapDayText(y: int)
    requires MinYear <= y <= MaxYear
    ensures "February 29, " + Pad4(y) == MonthNames[1] + " " + ("29" + ", " + Pad4(y))
  {
    assert "February 29, " == MonthNames[1] + " " + "29" + ", ";
  }

  /** February 29 is read only in leap years. */
  lemma LeapDayParse(y: int)
    requires MinYear <= y <= MaxYear
    ensures ParseLongDate("February 29, " + Pad4(y)).Some? <==> IsLeapYear(y)
  {
    LeapDayText(y);
    ParseLongAfterMonth(2, "29" + ", " + Pad4(y));
    LongDayYearOf("29", y, 2);
    DigitsValueTwo("29");
  }

  // ---- Formatting "%b %d, %Y" ----

  /**
   * `strftime("%b %d, %Y")`: abbreviated month name, zero-padded two-digit day,
   * a comma, a space and the year. The C library on Linux writes the year
   * without leading zeros.
   */
  function FormatShort(d: Date): string
    requires ValidDate(d)
  {
    MonthAbbrevs[d.month - 1] + " " + Pad2(d.day) + ", " + Decimal(d.year)
  }

  /** The text after the abbreviation: a two-digit day, `", "` and the year's digits. */
  function ShortDayYear(rest: string, m: int): Option<Date> {
    if |rest| >= 5 && rest[2..4] == ", " && AllDigits(rest[..2]) && AllDigits(rest[4..])
    then MakeDate(DigitsValue(rest[4..]), m, DigitsValue(rest[..2]))
    else None
  }

  /** Reads the `"%b %d, %Y"` form back: an abbreviation, a two-digit day, `", "` and the year. */
  function ParseShortDate(s: string): (r: Option<Date>)
    ensures r.Some? ==> ValidDate(r.value)
  {
    match IndexOf(s, ' ')
    case None => None
    case Some(k) =>
      match Lookup(MonthAbbrevs, s[..k])
      case None => None
      case Some(i) => ShortDayYear(s[k + 1..], i + 1)
  }

  lemma ParseShortAfterMonth(m: int, rest: string)
    requires 1 <= m <= 12
    ensures ParseShortDate(MonthAbbrevs[m - 1] + " " + rest) == ShortDayYear(rest, m)
  {
    MonthFacts(m);
    SplitAtSpace(MonthAbbrevs[m - 1], rest);
  }

  /** The display string names the same calendar date it was made from. */
  lemma FormatShortRoundTrip(d: Date)
    requires ValidDate(d)
    ensures ParseShortDate(FormatShort(d)) == Some(d)
  {
    var rest := Pad2(d.day) + ", " + Decimal(d.year);
    assert FormatShort(d) == MonthAbbrevs[d.month - 1] + " " + rest;
    ParseShortAfterMonth(d.month, rest);
    assert rest[..2] == Pad2(d.day);
    assert rest[2..4] == ", ";
    assert rest[4..] == Decimal(d.year);
  }
}
