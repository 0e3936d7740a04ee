/** Calendar dates as the dashboard uses them: the date part of a parsed
    timestamp, compared day by day, and its "%Y-%m" month key. */
module Dates {
  import opened Wrappers
  import opened Strings

  datatype Date = Date(year: int, month: int, day: int)

  /** A date that parsing can produce; years have four digits. */
  predicate IsCalendarDate(d: Date) {
    1000 <= d.year <= 9999 && 1 <= d.month <= 12 && 1 <= d.day <= 31
  }

  type CalendarDate = d: Date | IsCalendarDate(d) witness Date(2000, 1, 1)

  /** `a <= b` on dates. */
  predicate OnOrBefore(a: Date, b: Date) {
    a.year < b.year || (a.year == b.year && (a.month < b.month || (a.month == b.month && a.day <= b.day)))
  }

  /** A day count that orders calendar dates as `OnOrBefore` does. */
  function DayNumber(d: CalendarDate): int {
    d.year * 372 + d.month * 31 + d.day
  }

  lemma DayNumberOrder(a: CalendarDate, b: CalendarDate)
    ensures OnOrBefore(a, b) <==> DayNumber(a) <= DayNumber(b)
  {
    var ra, rb := a.month * 31 + a.day, b.month * 31 + b.day;
    assert 32 <= ra <= 403 && 32 <= rb <= 403;
    if a.year < b.year {
      assert a.year * 372 + 372 <= b.year * 372;
    } else if a.year > b.year {
      assert b.year * 372 + 372 <= a.year * 372;
    }
  }

  function Pow10(w: nat): (p: nat)
    ensures p >= 1
  {
    if w == 0 then 1 else 10 * Pow10(w - 1)
  }

  function Digit(n: int): char
    requires 0 <= n <= 9
  {
    ('0' as int + n) as char
  }

  predicate IsDigit(c: char) {
    '0' <= c <= '9'
  }

  /** `n` written with exactly `w` decimal digits, zero-padded on the left. */
  function PadDigits(n: nat, w: nat): (s: string)
    ensures |s| == w
    ensures forall i :: 0 <= i < |s| ==> IsDigit(s[i])
  {
    if w == 0 then "" else PadDigits(n / 10, w - 1) + [Digit(n % 10)]
  }

  /** The number a string of decimal digits denotes. */
  function DigitsValue(s: string): nat
    requires forall i :: 0 <= i < |s| ==> IsDigit(s[i])
  {
    if s == [] then 0
    else
      assert IsDigit(s[|s| - 1]);
      10 * DigitsValue(s[..|s| - 1]) + (s[|s| - 1] as int - '0' as int)
  }

  lemma {:induction false} PadDigitsRoundTrip(n: nat, w: nat)
    requires n < Pow10(w)
    ensures DigitsValue(PadDigits(n, w)) == n
  {
    if w > 0 {
      PadDigitsRoundTrip(n / 10, w - 1);
      var s := PadDigits(n, w);
      assert s[..|s| - 1] == PadDigits(n / 10, w - 1);
    }
  }

  /** Zero-padded numbers of the same width compare as strings as they do as numbers. */
  lemma {:induction false} PadDigitsOrder(a: nat, b: nat, w: nat)
    requires a < Pow10(w) && b < Pow10(w)
    ensures StrLe(PadDigits(a, w), PadDigits(b, w)) <==> a <= b
  {
    if w > 0 {
      PadDigitsOrder(a / 10, b / 10, w - 1);
      PadDigitsRoundTrip(a / 10, w - 1);
      PadDigitsRoundTrip(b / 10, w - 1);
      StrLeConcat(PadDigits(a / 10, w - 1), [Digit(a % 10)], PadDigits(b / 10, w - 1), [Digit(b % 10)]);
    }
  }

  /** `strftime('%Y-%m')`. */
  function YearMonthKey(d: CalendarDate): (s: string)
    ensures |s| == 7 && s[4] == '-'
  {
    PadDigits(d.year, 4) + "-" + PadDigits(d.month, 2)
  }

  /** Reads a "YYYY-MM" key back as a (year, month) pair. */
  function ParseYearMonth(s: string): Option<(int, int)> {
    if |s| == 7 && s[4] == '-' && (forall i :: 0 <= i < 4 ==> IsDigit(s[i]))
      && (forall i :: 5 <= i < 7 ==> IsDigit(s[i]))
    then Some((DigitsValue(s[..4]), DigitsValue(s[5..])))
    else None
  }

  /** The month key determines the year and the month of the date. */
  lemma YearMonthRoundTrip(d: CalendarDate)
    ensures ParseYearMonth(YearMonthKey(d)) == Some((d.year, d.month))
  {
    var s := YearMonthKey(d);
    assert s[..4] == PadDigits(d.year, 4);
    assert s[5..] == PadDigits(d.month, 2);
    PadDigitsRoundTrip(d.year, 4);
    PadDigitsRoundTrip(d.month, 2);
  }

  lemma YearMonthKeyInjective(d1: CalendarDate, d2: CalendarDate)
    ensures YearMonthKey(d1) == YearMonthKey(d2) <==> d1.year == d2.year && d1.month == d2.month
  {
    YearMonthRoundTrip(d1);
    YearMonthRoundTrip(d2);
  }

  /** Sorting month keys as strings sorts them chronologically. */
  lemma YearMonthKeyOrder(d1: CalendarDate, d2: CalendarDate)
    ensures StrLe(YearMonthKey(d1), YearMonthKey(d2))
        <==> d1.year < d2.year || (d1.year == d2.year && d1.month <= d2.month)
  {
    var y1, y2 := PadDigits(d1.year, 4), PadDigits(d2.year, 4);
    var m1, m2 := PadDigits(d1.month, 2), PadDigits(d2.month, 2);
    assert YearMonthKey(d1) == y1 + ("-" + m1);
    assert YearMonthKey(d2) == y2 + ("-" + m2);
    StrLeConcat(y1, "-" + m1, y2, "-" + m2);
    StrLeConcat("-", m1, "-", m2);
    PadDigitsOrder(d1.year, d2.year, 4);
    PadDigitsOrder(d2.year, d1.year, 4);
    PadDigitsOrder(d1.month, d2.month, 2);
    PadDigitsRoundTrip(d1.year, 4);
    PadDigitsRoundTrip(d2.year, 4);
  }
}
