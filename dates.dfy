/**
 * Calendar dates in the proleptic Gregorian calendar, their day numbers
 * (as Python's `date.toordinal`, 0001-01-01 being day 1), and the two
 * fixed text layouts the pipeline reads and writes: year-month-day on the
 * way in and `DD/MM/YYYY` on the way out.
 */
module Dates {
  import opened Wrappers
  import opened Text

  datatype Date = Date(year: int, month: int, day: int)

  predicate IsLeap(y: int) {
    y % 4 == 0 && (y % 100 != 0 || y % 400 == 0)
  }

  function DaysInYear(y: int): int {
    if IsLeap(y) then 366 else 365
  }

  function DaysInMonth(y: int, m: int): int
    requires 1 <= m <= 12
  {
    if m == 2 then (if IsLeap(y) then 29 else 28)
    else if m == 4 || m == 6 || m == 9 || m == 11 then 30
    else 31
  }

  /** A date Python's `datetime` can hold: years 1..9999, a real month and day. */
  predicate ValidDate(d: Date) {
    && 1 <= d.year <= 9999
    && 1 <= d.month <= 12
    && 1 <= d.day <= DaysInMonth(d.year, d.month)
  }

  /** Strict calendar order: by year, then month, then day. */
  predicate Before(a: Date, b: Date) {
    || a.year < b.year
    || (a.year == b.year && a.month < b.month)
    || (a.year == b.year && a.month == b.month && a.day < b.day)
  }

  /** Days of year `y` that precede the first of month `m` (month 13 stands for the year's end). */
  function DaysBeforeMonth(y: int, m: int): nat
    requires 1 <= m <= 13
  {
    if m == 1 then 0 else DaysBeforeMonth(y, m - 1) + DaysInMonth(y, m - 1)
  }

  /** In a leap year, 335 days come before the first of December. */
  lemma DaysBeforeDecember(y: int)
    requires IsLeap(y)
    ensures DaysBeforeMonth(y, 12) == 335
  {
    assert DaysBeforeMonth(y, 2) == 31;
    assert DaysBeforeMonth(y, 3) == 60;
    assert DaysBeforeMonth(y, 4) == 91;
    assert DaysBeforeMonth(y, 5) == 121;
    assert DaysBeforeMonth(y, 6) == 152;
    assert DaysBeforeMonth(y, 7) == 182;
    assert DaysBeforeMonth(y, 8) == 213;
    assert DaysBeforeMonth(y, 9) == 244;
    assert DaysBeforeMonth(y, 10) == 274;
    assert DaysBeforeMonth(y, 11) == 305;
  }

  /** In a common year, 90 days come before the first of April and 243 before the first of September. */
  lemma DaysBeforeMonthsCommon(y: int)
    requires !IsLeap(y)
    ensures DaysBeforeMonth(y, 4) == 90 && DaysBeforeMonth(y, 9) == 243
  {
    assert DaysBeforeMonth(y, 2) == 31;
    assert DaysBeforeMonth(y, 3) == 59;
    assert DaysBeforeMonth(y, 4) == 90;
    assert DaysBeforeMonth(y, 5) == 120;
    assert DaysBeforeMonth(y, 6) == 151;
    assert DaysBeforeMonth(y, 7) == 181;
    assert DaysBeforeMonth(y, 8) == 212;
  }

  /** Days of all the years from 1 up to, not including, `y`. */
  function DaysBeforeYear(y: int): nat {
    if y <= 1 then 0 else DaysBeforeYear(y - 1) + DaysInYear(y - 1)
  }

  /** Proleptic-Gregorian day number; 0001-01-01 is day 1. */
  function DayNumber(d: Date): int
    requires 1 <= d.month <= 12
  {
    DaysBeforeYear(d.year) + DaysBeforeMonth(d.year, d.month) + d.day
  }

  /** The calendar day after `d`. */
  function NextDay(d: Date): Date
    requires ValidDate(d)
  {
    if d.day < DaysInMonth(d.year, d.month) then Date(d.year, d.month, d.day + 1)
    else if d.month < 12 then Date(d.year, d.month + 1, 1)
    else Date(d.year + 1, 1, 1)
  }

  lemma MonthsFillYear(y: int)
    ensures DaysBeforeMonth(y, 13) == DaysInYear(y)
  {
    var feb := DaysInMonth(y, 2);
    assert DaysBeforeMonth(y, 2) == 31;
    assert DaysBeforeMonth(y, 3) == 31 + feb;
    assert DaysBeforeMonth(y, 4) == 62 + feb;
    assert DaysBeforeMonth(y, 5) == 92 + feb;
    assert DaysBeforeMonth(y, 6) == 123 + feb;
    assert DaysBeforeMonth(y, 7) == 153 + feb;
    assert DaysBeforeMonth(y, 8) == 184 + feb;
    assert DaysBeforeMonth(y, 9) == 215 + feb;
    assert DaysBeforeMonth(y, 10) == 245 + feb;
    assert DaysBeforeMonth(y, 11) == 276 + feb;
    assert DaysBeforeMonth(y, 12) == 306 + feb;
  }

  lemma {:induction false} DaysBeforeMonthMonotone(y: int, m1: int, m2: int)
    requires 1 <= m1 <= m2 <= 13
    ensures DaysBeforeMonth(y, m1) <= DaysBeforeMonth(y, m2)
    decreases m2 - m1
  {
    if m1 < m2 {
      DaysBeforeMonthMonotone(y, m1, m2 - 1);
    }
  }

  lemma {:induction false} DaysBeforeYearMonotone(y1: int, y2: int)
    requires 1 <= y1 <= y2
    ensures DaysBeforeYear(y1) + (if y1 < y2 then DaysInYear(y1) else 0) <= DaysBeforeYear(y2)
    decreases y2 - y1
  {
    if y1 < y2 - 1 {
      DaysBeforeYearMonotone(y1, y2 - 1);
    }
  }

  /** The day number advances by exactly one from each valid date to the next. */
  lemma NextDayNumber(d: Date)
    requires ValidDate(d)
    ensures 1 <= NextDay(d).month <= 12
    ensures DayNumber(NextDay(d)) == DayNumber(d) + 1
  {
    if d.day == DaysInMonth(d.year, d.month) && d.month == 12 {
      MonthsFillYear(d.year);
    }
  }

  /** Day numbers respect calendar order, so distinct valid dates have distinct numbers. */
  lemma DayNumberOrder(a: Date, b: Date)
    requires ValidDate(a) && ValidDate(b) && Before(a, b)
    ensures DayNumber(a) < DayNumber(b)
  {
    if a.year < b.year {
      DaysBeforeMonthMonotone(a.year, a.month + 1, 13);
      MonthsFillYear(a.year);
      DaysBeforeYearMonotone(a.year, b.year);
    } else if a.month < b.month {
      DaysBeforeMonthMonotone(a.year, a.month + 1, b.month);
    }
  }

  lemma DayNumberInjective(a: Date, b: Date)
    requires ValidDate(a) && ValidDate(b) && DayNumber(a) == DayNumber(b)
    ensures a == b
  {
    if Before(a, b) {
      DayNumberOrder(a, b);
    } else if Before(b, a) {
      DayNumberOrder(b, a);
    }
  }

  /** The recursive day count agrees with the closed form Python's `datetime` uses. */
  lemma {:induction false} DaysBeforeYearClosedForm(y: int)
    requires y >= 1
    ensures DaysBeforeYear(y) == 365 * (y - 1) + (y - 1) / 4 - (y - 1) / 100 + (y - 1) / 400
  {
    if y > 1 {
      DaysBeforeYearClosedForm(y - 1);
      var p := y - 1;
      DivStep(p, 4);
      DivStep(p, 100);
      DivStep(p, 400);
      LeapCount(p);
    }
  }

  /** A year's length as the three divisibility tests of the Gregorian rule. */
  lemma LeapCount(p: int)
    ensures DaysInYear(p) == 365 + (if p % 4 == 0 then 1 else 0) - (if p % 100 == 0 then 1 else 0)
                                  + (if p % 400 == 0 then 1 else 0)
  {
    if p % 400 == 0 {
      var q := p / 400;
      assert p == 100 * (4 * q);
      assert p == 4 * (100 * q);
    } else if p % 100 == 0 {
      var q := p / 100;
      assert p == 4 * (25 * q);
    }
  }

  /** Stepping `p - 1` to `p` raises `p / k` exactly when `k` divides `p`. */
  lemma DivStep(p: int, k: int)
    requires k == 4 || k == 100 || k == 400
    ensures p / k - (p - 1) / k == (if p % k == 0 then 1 else 0)
  {
    if k == 4 {
      assert p / 4 - (p - 1) / 4 == (if p % 4 == 0 then 1 else 0);
    } else if k == 100 {
      assert p / 100 - (p - 1) / 100 == (if p % 100 == 0 then 1 else 0);
    } else {
      assert p / 400 - (p - 1) / 400 == (if p % 400 == 0 then 1 else 0);
    }
  }

  // ---------------------------------------------------------------------
  // Text layouts

  function Pad2(n: int): (s: string)
    requires 0 <= n <= 99
    ensures |s| == 2 && AllDigits(s)
  {
    [DigitChar(n / 10), DigitChar(n % 10)]
  }

  function Pad4(n: int): (s: string)
    requires 0 <= n <= 9999
    ensures |s| == 4 && AllDigits(s)
  {
    [DigitChar(n / 1000), DigitChar(n / 100 % 10), DigitChar(n / 10 % 10), DigitChar(n % 10)]
  }

  lemma DecimalValue2(s: string)
    requires |s| == 2 && AllDigits(s)
    ensures DecimalValue(s) == DigitValue(s[0]) * 10 + DigitValue(s[1])
  {
    var p := s[..1];
    assert p[..0] == [] && p[0] == s[0];
    assert DecimalValue(p) == DigitValue(s[0]);
    assert s[..|s| - 1] == p;
  }

  lemma DecimalValue4(s: string)
    requires |s| == 4 && AllDigits(s)
    ensures DecimalValue(s) == DigitValue(s[0]) * 1000 + DigitValue(s[1]) * 100
                               + DigitValue(s[2]) * 10 + DigitValue(s[3])
  {
    var p2 := s[..2];
    var p3 := s[..3];
    DecimalValue2(p2);
    assert p3[..|p3| - 1] == p2 && p3[2] == s[2];
    assert DecimalValue(p3) == DecimalValue(p2) * 10 + DigitValue(s[2]);
    assert s[..|s| - 1] == p3;
  }

  lemma DivDigits(q: int, r: int, b: int)
    requires b == 10 || b == 100 || b == 1000
    requires 0 <= r < b
    ensures (q * b + r) / b == q && (q * b + r) % b == r
  {
    if b == 10 {
      assert (q * 10 + r) / 10 == q;
    } else if b == 100 {
      assert (q * 100 + r) / 100 == q;
    } else {
      assert (q * 1000 + r) / 1000 == q;
    }
  }

  lemma Pad2RoundTrip(n: int)
    requires 0 <= n <= 99
    ensures DecimalValue(Pad2(n)) == n
  {
    DecimalValue2(Pad2(n));
  }

  lemma Pad4RoundTrip(n: int)
    requires 0 <= n <= 9999
    ensures DecimalValue(Pad4(n)) == n
  {
    var s := Pad4(n);
    DecimalValue4(s);
    assert DigitValue(s[0]) == n / 1000;
    assert DigitValue(s[1]) == n / 100 % 10;
    assert DigitValue(s[2]) == n / 10 % 10;
    assert DigitValue(s[3]) == n % 10;
    Decompose4(n);
  }

  lemma Decompose4(n: int)
    requires 0 <= n <= 9999
    ensures n / 1000 * 1000 + n / 100 % 10 * 100 + n / 10 % 10 * 10 + n % 10 == n
  {
    var t := n / 10;
    assert n == t * 10 + n % 10;
    var h := t / 10;
    assert t == h * 10 + t % 10;
    assert h == n / 100;
    assert h == h / 10 * 10 + h % 10;
    assert h / 10 == n / 1000;
  }

  lemma Pad2Reads(s: string)
    requires |s| == 2 && AllDigits(s)
    ensures DecimalValue(s) <= 99 && Pad2(DecimalValue(s)) == s
  {
    DecimalValue2(s);
    var n := DecimalValue(s);
    assert n / 10 == DigitValue(s[0]) && n % 10 == DigitValue(s[1]);
    assert DigitChar(DigitValue(s[0])) == s[0];
    assert DigitChar(DigitValue(s[1])) == s[1];
  }

  /** `Pad4` writes the four decimal digits of a number below 10000. */
  lemma {:induction false} Pad4Digits(a: int, b: int, c: int, d: int)
    requires 0 <= a <= 9 && 0 <= b <= 9 && 0 <= c <= 9 && 0 <= d <= 9
    ensures 0 <= a * 1000 + b * 100 + c * 10 + d <= 9999
    ensures Pad4(a * 1000 + b * 100 + c * 10 + d) == [DigitChar(a), DigitChar(b), DigitChar(c), DigitChar(d)]
  {
    var ab := a * 10 + b;
    var abc := ab * 10 + c;
    var n := abc * 10 + d;
    assert n == a * 1000 + b * 100 + c * 10 + d;
    DivDigits(abc, d, 10);
    DivDigits(ab, c, 10);
    DivDigits(a, b, 10);
    assert n / 10 == abc && n % 10 == d && abc % 10 == c && ab % 10 == b;
    DivDigits(ab, c * 10 + d, 100);
    assert n == ab * 100 + (c * 10 + d);
    DivDigits(a, b * 100 + c * 10 + d, 1000);
    assert n / 100 == ab && n / 1000 == a;
  }

  lemma Pad4Reads(s: string)
    requires |s| == 4 && AllDigits(s)
    ensures DecimalValue(s) <= 9999 && Pad4(DecimalValue(s)) == s
  {
    DecimalValue4(s);
    var a, b, c, d := DigitValue(s[0]), DigitValue(s[1]), DigitValue(s[2]), DigitValue(s[3]);
    Pad4Digits(a, b, c, d);
    assert DigitChar(a) == s[0] && DigitChar(b) == s[1] && DigitChar(c) == s[2] && DigitChar(d) == s[3];
  }

  /** `strftime('%d/%m/%Y')`. */
  function FormatDMY(d: Date): (s: string)
    requires ValidDate(d)
    ensures |s| == 10
  {
    Pad2(d.day) + "/" + Pad2(d.month) + "/" + Pad4(d.year)
  }

  /** Reads the fixed `DD/MM/YYYY` layout back into a date; anything else is `None`. */
  function ParseDMY(s: string): (r: Option<Date>)
    ensures r.Some? ==> ValidDate(r.value)
  {
    if |s| == 10 && s[2] == '/' && s[5] == '/'
       && AllDigits(s[..2]) && AllDigits(s[3..5]) && AllDigits(s[6..])
    then
      var d := Date(DecimalValue(s[6..]), DecimalValue(s[3..5]), DecimalValue(s[..2]));
      if ValidDate(d) then Some(d) else None
    else None
  }

  /** Writing a date as `DD/MM/YYYY` and reading it back gives the same date. */
  lemma DMYRoundTrip(d: Date)
    requires ValidDate(d)
    ensures ParseDMY(FormatDMY(d)) == Some(d)
  {
    var s := FormatDMY(d);
    assert s[..2] == Pad2(d.day) && s[3..5] == Pad2(d.month) && s[6..] == Pad4(d.year);
    Pad2RoundTrip(d.day);
    Pad2RoundTrip(d.month);
    Pad4RoundTrip(d.year);
  }

  /** Every string `ParseDMY` accepts is exactly the `DD/MM/YYYY` spelling of its date. */
  lemma DMYParsedIsFormatted(s: string)
    requires ParseDMY(s).Some?
    ensures FormatDMY(ParseDMY(s).value) == s
  {
    Pad2Reads(s[..2]);
    Pad2Reads(s[3..5]);
    Pad4Reads(s[6..]);
    assert s == s[..2] + "/" + s[3..5] + "/" + s[6..];
  }

  /**
   * `DD/MM/YYYY` text as a format-less `pd.to_datetime` reads it before
   * pandas 2.0 (through `dateutil`, month first by default): the first
   * field is the month whenever that names a real date, and the day only
   * otherwise.
   */
  function ParseMonthFirst(s: string): (r: Option<Date>)
    ensures r.Some? ==> ValidDate(r.value)
  {
    if |s| == 10 && s[2] == '/' && s[5] == '/'
       && AllDigits(s[..2]) && AllDigits(s[3..5]) && AllDigits(s[6..])
    then
      var first, second, year := DecimalValue(s[..2]), DecimalValue(s[3..5]), DecimalValue(s[6..]);
      if ValidDate(Date(year, first, second)) then Some(Date(year, first, second))
      else if ValidDate(Date(year, second, first)) then Some(Date(year, second, first))
      else None
    else None
  }

  /** A written date whose day could be a month is read back with day and month exchanged. */
  lemma MonthFirstSwaps(d: Date)
    requires ValidDate(d) && d.day <= 12
    ensures ValidDate(Date(d.year, d.day, d.month))
    ensures ParseMonthFirst(FormatDMY(d)) == Some(Date(d.year, d.day, d.month))
  {
    DMYRoundTrip(d);
    assert DaysInMonth(d.year, d.day) >= 28;
  }

  /** A written date whose day is above 12 is read back as itself. */
  lemma MonthFirstKeeps(d: Date)
    requires ValidDate(d) && d.day > 12
    ensures ParseMonthFirst(FormatDMY(d)) == Some(d)
  {
    DMYRoundTrip(d);
  }

  /** The first and last calendar days a pandas nanosecond `Timestamp` covers at midnight. */
  const TimestampFirst := Date(1677, 9, 22)
  const TimestampLast := Date(2262, 4, 11)

  predicate InTimestampRange(d: Date) {
    !Before(d, TimestampFirst) && !Before(TimestampLast, d)
  }

  /** Year-month-day with `-` (as the data is written) or `/` (as the format string says). */
  function FormatYMD(d: Date, sep: char): (s: string)
    requires ValidDate(d)
  {
    Pad4(d.year) + [sep] + Pad2(d.month) + [sep] + Pad2(d.day)
  }

  /**
   * `pd.to_datetime(x, format='%Y/%m/%d', errors='coerce')` on a string, read
   * as intended: a zero-padded year-month-day with `-` or `/` separators that
   * names a real date inside the `Timestamp` range; anything else is NaT (`None`).
   */
  function ParseYMD(s: string): (r: Option<Date>)
    ensures r.Some? ==> ValidDate(r.value) && InTimestampRange(r.value)
  {
    if |s| == 10 && s[4] == s[7] && (s[4] == '-' || s[4] == '/')
       && AllDigits(s[..4]) && AllDigits(s[5..7]) && AllDigits(s[8..])
    then
      var d := Date(DecimalValue(s[..4]), DecimalValue(s[5..7]), DecimalValue(s[8..]));
      if ValidDate(d) && InTimestampRange(d) then Some(d) else None
    else None
  }

  lemma YMDRoundTrip(d: Date, sep: char)
    requires ValidDate(d) && InTimestampRange(d) && (sep == '-' || sep == '/')
    ensures ParseYMD(FormatYMD(d, sep)) == Some(d)
  {
    var s := FormatYMD(d, sep);
    assert s[..4] == Pad4(d.year) && s[5..7] == Pad2(d.month) && s[8..] == Pad2(d.day);
    Pad2RoundTrip(d.day);
    Pad2RoundTrip(d.month);
    Pad4RoundTrip(d.year);
  }
}
