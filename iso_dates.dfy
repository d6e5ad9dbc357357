/**
 * Calendar dates written `YYYY-MM-DD` and the day distance between two of them,
 * as `_days_between` computes it with `date.fromisoformat` and date subtraction
 * (proleptic Gregorian calendar, years 1 to 9999).
 */
module IsoDates {
  import opened Wrappers
  import opened Text

  datatype Date = Date(year: int, month: int, day: int)

  predicate IsLeap(y: int) {
    y % 4 == 0 && (y % 100 != 0 || y % 400 == 0)
  }

  function DaysInMonth(y: int, m: int): int
    requires 1 <= m <= 12
  {
    if m == 2 then (if IsLeap(y) then 29 else 28)
    else if m == 4 || m == 6 || m == 9 || m == 11 then 30
    else 31
  }

  /** The dates Python's `date` accepts. */
  predicate ValidDate(d: Date) {
    1 <= d.year <= 9999 && 1 <= d.month <= 12 && 1 <= d.day <= DaysInMonth(d.year, d.month)
  }

  predicate IsDigit(c: char) {
    '0' <= c <= '9'
  }

  /** Decimal value of a string of ASCII digits. */
  function Number(s: string): int
    requires forall i :: 0 <= i < |s| ==> IsDigit(s[i])
  {
    if s == [] then 0 else Number(s[..|s| - 1]) * 10 + (s[|s| - 1] as int - '0' as int)
  }

  /** The shape `DDDD-DD-DD` with ASCII digits, the extended calendar-date form `date.fromisoformat` reads before Python 3.11. */
  predicate IsoShaped(s: string) {
    && |s| == 10 && s[4] == '-' && s[7] == '-'
    && (forall i :: 0 <= i < 10 && i != 4 && i != 7 ==> IsDigit(s[i]))
  }

  /** `date.fromisoformat(s)`: a date, or None where Python raises ValueError. */
  function ParseIsoDate(s: string): (r: Option<Date>)
    ensures r.Some? ==> IsoShaped(s) && ValidDate(r.value)
  {
    if IsoShaped(s) then
      var d := Date(Number(s[..4]), Number(s[5..7]), Number(s[8..]));
      if ValidDate(d) then Some(d) else None
    else None
  }

  /** Days before January 1st of year `y`, counted from 0001-01-01. */
  function DaysBeforeYear(y: int): int
    requires y >= 1
  {
    var p := y - 1;
    p * 365 + p / 4 - p / 100 + p / 400
  }

  /** Days in year `y` before the first of month `m`. */
  function DaysBeforeMonth(y: int, m: int): int
    requires 1 <= m <= 12
  {
    var table := [0, 31, 59, 90, 120, 151, 181, 212, 243, 273, 304, 334];
    table[m - 1] + (if m > 2 && IsLeap(y) then 1 else 0)
  }

  /** `date.toordinal()`: 0001-01-01 is day 1. */
  function Ordinal(d: Date): int
    requires ValidDate(d)
  {
    DaysBeforeYear(d.year) + DaysBeforeMonth(d.year, d.month) + d.day
  }

  /** `_days_between(a, b)`: the absolute day distance of the first ten characters of each, or None when either does not parse. */
  function DaysBetween(a: string, b: string): (r: Option<nat>)
    ensures r.Some? <==> ParseIsoDate(Take(a, 10)).Some? && ParseIsoDate(Take(b, 10)).Some?
  {
    match (ParseIsoDate(Take(a, 10)), ParseIsoDate(Take(b, 10)))
    case (Some(da), Some(db)) =>
      var diff := Ordinal(da) - Ordinal(db);
      Some(if diff < 0 then -diff else diff)
    case _ => None
  }

  /** The calendar day after `d`. */
  function NextDay(d: Date): Date
    requires ValidDate(d)
  {
    if d.day < DaysInMonth(d.year, d.month) then Date(d.year, d.month, d.day + 1)
    else if d.month < 12 then Date(d.year, d.month + 1, 1)
    else Date(d.year + 1, 1, 1)
  }

  /** A year has 366 days when it is a leap year and 365 otherwise. */
  lemma YearLength(y: int)
    requires y >= 1
    ensures DaysBeforeYear(y + 1) - DaysBeforeYear(y) == if IsLeap(y) then 366 else 365
  {
    var p := y - 1;
    assert (p + 1) / 4 - p / 4 == if y % 4 == 0 then 1 else 0;
    assert (p + 1) / 100 - p / 100 == if y % 100 == 0 then 1 else 0;
    assert (p + 1) / 400 - p / 400 == if y % 400 == 0 then 1 else 0;
  }

  /** Day numbers advance by exactly one from each date to the next, across month and year ends and leap days. */
  lemma OrdinalNextDay(d: Date)
    requires ValidDate(d) && ValidDate(NextDay(d))
    ensures Ordinal(NextDay(d)) == Ordinal(d) + 1
  {
    if d.day == DaysInMonth(d.year, d.month) && d.month == 12 {
      YearLength(d.year);
    }
  }

  /** The two-digit and four-digit renderings `strftime` produces. */
  function DigitChar(n: int): char
    requires 0 <= n <= 9
  {
    ('0' as int + n) as char
  }

  function Pad2(n: int): string
    requires 0 <= n <= 99
  {
    [DigitChar(n / 10), DigitChar(n % 10)]
  }

  function Pad4(n: int): string
    requires 0 <= n <= 9999
  {
    [DigitChar(n / 1000), DigitChar(n / 100 % 10), DigitChar(n / 10 % 10), DigitChar(n % 10)]
  }

  /** `d.isoformat()`. */
  function FormatIsoDate(d: Date): string
    requires ValidDate(d)
  {
    Pad4(d.year) + "-" + Pad2(d.month) + "-" + Pad2(d.day)
  }

  /** Appending a digit shifts the value one decimal place. */
  lemma NumberSnoc(s: string, c: char)
    requires (forall i :: 0 <= i < |s| ==> IsDigit(s[i])) && IsDigit(c)
    ensures Number(s + [c]) == Number(s) * 10 + (c as int - '0' as int)
  {
    assert (s + [c])[..|s|] == s;
  }

  lemma NumberPad2(n: int)
    requires 0 <= n <= 99
    ensures Number(Pad2(n)) == n
  {
    var d0, d1 := DigitChar(n / 10), DigitChar(n % 10);
    NumberSnoc([], d0);
    assert [] + [d0] == [d0];
    NumberSnoc([d0], d1);
    assert [d0] + [d1] == Pad2(n);
  }

  lemma NumberPad4(n: int)
    requires 0 <= n <= 9999
    ensures Number(Pad4(n)) == n
  {
    var d0, d1, d2, d3 := DigitChar(n / 1000), DigitChar(n / 100 % 10), DigitChar(n / 10 % 10), DigitChar(n % 10);
    DecimalDigits(n);
    NumberSnoc([], d0);
    assert [] + [d0] == [d0];
    NumberSnoc([d0], d1);
    assert Number([d0, d1]) == n / 100 by { assert [d0] + [d1] == [d0, d1]; }
    NumberSnoc([d0, d1], d2);
    assert Number([d0, d1, d2]) == n / 10 by { assert [d0, d1] + [d2] == [d0, d1, d2]; }
    NumberSnoc([d0, d1, d2], d3);
    assert [d0, d1, d2] + [d3] == Pad4(n);
  }

  /** Each leading part of a four-digit number is ten times the part before it plus its last digit. */
  lemma DecimalDigits(n: int)
    requires 0 <= n <= 9999
    ensures n / 100 == n / 1000 * 10 + n / 100 % 10
    ensures n / 10 == n / 100 * 10 + n / 10 % 10
    ensures n == n / 10 * 10 + n % 10
  {
    var q, r, t := n / 1000, n / 100, n / 10;
    assert r / 10 == q;
    assert t / 10 == r;
  }

  /** Reading back what `isoformat` wrote gives the same date. */
  lemma {:induction false} ParseFormatRoundTrip(d: Date)
    requires ValidDate(d)
    ensures ParseIsoDate(FormatIsoDate(d)) == Some(d)
  {
    var s := FormatIsoDate(d);
    assert s[..4] == Pad4(d.year) && s[5..7] == Pad2(d.month) && s[8..] == Pad2(d.day);
    NumberPad4(d.year);
    NumberPad2(d.month);
    NumberPad2(d.day);
  }

  /** A digit character is the rendering of its own value. */
  lemma DigitValue(c: char)
    requires IsDigit(c)
    ensures 0 <= c as int - '0' as int <= 9 && DigitChar(c as int - '0' as int) == c
  {
  }

  /** Two digits read as a number render back to themselves. */
  lemma PadNumber2(s: string)
    requires |s| == 2 && IsDigit(s[0]) && IsDigit(s[1])
    ensures 0 <= Number(s) <= 99 && Pad2(Number(s)) == s
  {
    var d0, d1 := s[0] as int - '0' as int, s[1] as int - '0' as int;
    assert Number(s[..1]) == d0 by { assert s[..1][..0] == []; }
    var n := d0 * 10 + d1;
    assert Number(s) == n;
    DigitValue(s[0]);
    DigitValue(s[1]);
    assert n / 10 == d0 && n % 10 == d1;
  }

  /** Four digits read as a number render back to themselves. */
  lemma PadNumber4(s: string)
    requires |s| == 4 && IsDigit(s[0]) && IsDigit(s[1]) && IsDigit(s[2]) && IsDigit(s[3])
    ensures 0 <= Number(s) <= 9999 && Pad4(Number(s)) == s
  {
    var d0, d1, d2, d3 := s[0] as int - '0' as int, s[1] as int - '0' as int, s[2] as int - '0' as int, s[3] as int - '0' as int;
    DigitValue(s[0]);
    DigitValue(s[1]);
    DigitValue(s[2]);
    DigitValue(s[3]);
    assert Number(s[..1]) == d0 by { assert s[..1][..0] == []; }
    assert Number(s[..2]) == d0 * 10 + d1 by { assert s[..2][..1] == s[..1]; }
    var t := d0 * 100 + d1 * 10 + d2;
    assert Number(s[..3]) == t by { assert s[..3][..2] == s[..2]; }
    var n := t * 10 + d3;
    assert Number(s) == n;
    assert n / 10 == t && n % 10 == d3;
    var h := d0 * 10 + d1;
    assert t / 10 == h && t % 10 == d2;
    assert h / 10 == d0 && h % 10 == d1;
    assert n / 100 == h by { assert n == h * 100 + (d2 * 10 + d3); }
    assert n / 1000 == d0 by { assert n == d0 * 1000 + (d1 * 100 + d2 * 10 + d3); }
  }

  /** Whatever `fromisoformat` accepts is exactly what `isoformat` writes for the parsed date. */
  lemma FormatParseRoundTrip(s: string)
    requires ParseIsoDate(s).Some?
    ensures FormatIsoDate(ParseIsoDate(s).value) == s
  {
    var d := ParseIsoDate(s).value;
    assert IsDigit(s[0]) && IsDigit(s[1]) && IsDigit(s[2]) && IsDigit(s[3]);
    assert IsDigit(s[5]) && IsDigit(s[6]) && IsDigit(s[8]) && IsDigit(s[9]);
    PadNumber4(s[..4]);
    PadNumber2(s[5..7]);
    PadNumber2(s[8..]);
    assert s == s[..4] + "-" + s[5..7] + "-" + s[8..];
  }

  /**
   * `_days_between(a, b)` for any two strings whose first ten characters parse:
   * those characters are the rendered dates, and the result is their distance.
   */
  lemma DaysBetweenParsed(a: string, b: string, da: Date, db: Date)
    requires ParseIsoDate(Take(a, 10)) == Some(da) && ParseIsoDate(Take(b, 10)) == Some(db)
    ensures Take(a, 10) == FormatIsoDate(da) && Take(b, 10) == FormatIsoDate(db)
    ensures DaysBetween(a, b) == Some(if Ordinal(da) >= Ordinal(db) then Ordinal(da) - Ordinal(db) else Ordinal(db) - Ordinal(da))
  {
    FormatParseRoundTrip(Take(a, 10));
    FormatParseRoundTrip(Take(b, 10));
  }

  /** `_days_between` of two rendered dates is the distance of their day numbers. */
  lemma DaysBetweenFormatted(d: Date, e: Date)
    requires ValidDate(d) && ValidDate(e)
    ensures DaysBetween(FormatIsoDate(d), FormatIsoDate(e)) == Some(if Ordinal(d) >= Ordinal(e) then Ordinal(d) - Ordinal(e) else Ordinal(e) - Ordinal(d))
  {
    var a, b := FormatIsoDate(d), FormatIsoDate(e);
    ParseFormatRoundTrip(d);
    ParseFormatRoundTrip(e);
    assert |a| == 10 && Take(a, 10) == a;
    assert |b| == 10 && Take(b, 10) == b;
  }

  /** Consecutive days render one day apart. */
  lemma NextDayFormatted(d: Date)
    requires ValidDate(d) && ValidDate(NextDay(d))
    ensures DaysBetween(FormatIsoDate(d), FormatIsoDate(NextDay(d))) == Some(1)
  {
    DaysBetweenFormatted(d, NextDay(d));
    OrdinalNextDay(d);
  }
}
