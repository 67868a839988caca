/**
 * Calendar dates in the `YYYY-MM-DD` layout that both Go commands use
 * (`time.Parse("2006-01-02", ...)`), day numbers counted from 1970-01-01,
 * and `tenorDays`, the whole-day span between two such dates.
 *
 * Go computes the span through a floating-point hour count; for two dates
 * at midnight UTC that count is an exact multiple of 24, so the model does
 * the same computation on integer day numbers.
 */
module Dates {
  import opened Wrappers

  datatype Date = Date(year: int, month: int, day: int)

  /** Proleptic Gregorian leap years, as Go's `isLeap`. */
  predicate IsLeapYear(y: int)
  {
    y % 4 == 0 && (y % 100 != 0 || y % 400 == 0)
  }

  /** Go's `daysIn(month, year)`. */
  function DaysIn(month: int, year: int): (n: int)
    ensures 28 <= n <= 31
    ensures month == 2 ==> (n == 29 <==> IsLeapYear(year))
  {
    if month == 2 then (if IsLeapYear(year) then 29 else 28)
    else if month == 4 || month == 6 || month == 9 || month == 11 then 30
    else 31
  }

  predicate ValidDate(d: Date)
  {
    1 <= d.month <= 12 && 1 <= d.day <= DaysIn(d.month, d.year)
  }

  predicate IsDigit(c: char)
  {
    '0' <= c <= '9'
  }

  function DigitValue(c: char): (v: int)
    requires IsDigit(c)
    ensures 0 <= v <= 9
  {
    c as int - '0' as int
  }

  function Digit(v: int): (c: char)
    requires 0 <= v <= 9
    ensures IsDigit(c) && DigitValue(c) == v
  {
    ('0' as int + v) as char
  }

  /** The shape of the layout: four digits, '-', two digits, '-', two digits. */
  predicate HasDateShape(s: string)
  {
    && |s| == 10
    && IsDigit(s[0]) && IsDigit(s[1]) && IsDigit(s[2]) && IsDigit(s[3])
    && s[4] == '-'
    && IsDigit(s[5]) && IsDigit(s[6])
    && s[7] == '-'
    && IsDigit(s[8]) && IsDigit(s[9])
  }

  /**
   * `time.Parse("2006-01-02", s)`: the text must have the layout's shape
   * exactly (no extra text), the month must be 1..12 and the day must
   * exist in that month of that year; anything else is a parse error.
   */
  function ParseDate(s: string): (r: Option<Date>)
    ensures r.Some? ==> HasDateShape(s) && ValidDate(r.value) && 0 <= r.value.year <= 9999
  {
    if HasDateShape(s) then
      var y := DigitValue(s[0]) * 1000 + DigitValue(s[1]) * 100 + DigitValue(s[2]) * 10 + DigitValue(s[3]);
      var m := DigitValue(s[5]) * 10 + DigitValue(s[6]);
      var d := DigitValue(s[8]) * 10 + DigitValue(s[9]);
      if 1 <= m <= 12 && 1 <= d <= DaysIn(m, y) then Some(Date(y, m, d)) else None
    else
      None
  }

  /**
   * Days from 1970-01-01 to the given civil date (the "days from civil"
   * algorithm; Dafny's `/` on a positive divisor is floor division, which is
   * what the algorithm needs for years before 0).
   */
  function DaysFromCivil(y: int, m: int, d: int): int
  {
    ShiftedYearStart(ShiftedYear(y, m)) + DayOfShiftedYear(m, d)
  }

  /** The algorithm's years start on March 1st: January and February count with the year before. */
  function ShiftedYear(y: int, m: int): int
  {
    if m <= 2 then y - 1 else y
  }

  /** Days from March 1st of the shifted year to day `d` of month `m`. */
  function DayOfShiftedYear(m: int, d: int): int
  {
    var mp := if m > 2 then m - 3 else m + 9;
    (153 * mp + 2) / 5 + d - 1
  }

  /** Days from 1970-01-01 to March 1st of the shifted year `y`. */
  function ShiftedYearStart(y: int): int
  {
    var era := y / 400;
    var yoe := y - era * 400;
    era * 146097 + EraDays(yoe) - 719468
  }

  function DayNumber(dt: Date): int
  {
    DaysFromCivil(dt.year, dt.month, dt.day)
  }

  lemma UnixEpochIsDayZero()
    ensures DayNumber(Date(1970, 1, 1)) == 0
    ensures DayNumber(Date(2000, 3, 1)) == 11017
  {
    assert 1969 / 400 == 4 && EraDays(369) == 134774 && DayOfShiftedYear(1, 1) == 306;
    assert 2000 / 400 == 5 && EraDays(0) == 0 && DayOfShiftedYear(3, 1) == 0;
  }

  /** Days from the start of a 400-year era to March 1st of its year `yoe`. */
  function EraDays(yoe: int): int
  {
    yoe * 365 + yoe / 4 - yoe / 100
  }

  lemma EraDaysStep(k: int)
    requires 0 <= k < 399
    ensures EraDays(k + 1) - EraDays(k) == 365 + (if (k + 1) % 4 == 0 && (k + 1) % 100 != 0 then 1 else 0)
  {
  }

  lemma LeapWithinEra(era: int, k: int)
    requires 0 < k < 400
    ensures IsLeapYear(era * 400 + k) <==> k % 4 == 0 && k % 100 != 0
  {
    var y := era * 400 + k;
    assert y / 4 == era * 100 + k / 4;
    assert y / 100 == era * 4 + k / 100;
    assert y / 400 == era;
  }

  /** Days before March 1st of year y + 1, minus those before March 1st of y. */
  lemma MarchToMarch(y: int)
    ensures DaysFromCivil(y + 1, 3, 1) - DaysFromCivil(y, 3, 1) == 365 + (if IsLeapYear(y + 1) then 1 else 0)
  {
    if y - y / 400 * 400 == 399 {
      MarchToMarchAcrossEras(y);
    } else {
      MarchToMarchWithinEra(y);
    }
  }

  /** The last year of a 400-year era: the next March 1st starts a new era. */
  lemma MarchToMarchAcrossEras(y: int)
    requires y - y / 400 * 400 == 399
    ensures DaysFromCivil(y + 1, 3, 1) - DaysFromCivil(y, 3, 1) == 365 + (if IsLeapYear(y + 1) then 1 else 0)
  {
    var era := y / 400;
    assert DaysFromCivil(y, 3, 1) == era * 146097 + EraDays(399) - 719468;
    assert (y + 1) / 400 == era + 1;
    assert DaysFromCivil(y + 1, 3, 1) == (era + 1) * 146097 - 719468;
    assert (y + 1) % 400 == 0;
  }

  /** Any other year: both March 1sts fall in the same era. */
  lemma MarchToMarchWithinEra(y: int)
    requires y - y / 400 * 400 != 399
    ensures DaysFromCivil(y + 1, 3, 1) - DaysFromCivil(y, 3, 1) == 365 + (if IsLeapYear(y + 1) then 1 else 0)
  {
    var era := y / 400;
    var yoe := y - era * 400;
    assert DaysFromCivil(y, 3, 1) == era * 146097 + EraDays(yoe) - 719468;
    assert (y + 1) / 400 == era;
    assert DaysFromCivil(y + 1, 3, 1) == era * 146097 + EraDays(yoe + 1) - 719468;
    EraDaysStep(yoe);
    LeapWithinEra(era, yoe + 1);
  }

  /** The last day of February is followed by March 1st. */
  lemma EndOfFebruary(y: int)
    ensures DaysFromCivil(y, 3, 1) == DaysFromCivil(y, 2, DaysIn(2, y)) + 1
  {
    MarchToMarch(y - 1);
    assert DaysFromCivil(y - 1, 3, 1) + 364 == DaysFromCivil(y, 2, 28);
  }

  /** The calendar day before a valid date. */
  function PrevDay(dt: Date): (r: Date)
    requires ValidDate(dt)
    ensures ValidDate(r)
    ensures r.year == dt.year || r == Date(dt.year - 1, 12, 31)
  {
    if dt.day > 1 then
      Date(dt.year, dt.month, dt.day - 1)
    else if dt.month > 1 then
      Date(dt.year, dt.month - 1, DaysIn(dt.month - 1, dt.year))
    else
      Date(dt.year - 1, 12, 31)
  }

  /** `PrevDay` is exactly one day number earlier. */
  lemma PrevDayIsOneDayEarlier(dt: Date)
    requires ValidDate(dt)
    ensures DayNumber(PrevDay(dt)) == DayNumber(dt) - 1
  {
    var y, m := dt.year, dt.month;
    if dt.day > 1 {
      assert ShiftedYear(y, m) == ShiftedYear(PrevDay(dt).year, PrevDay(dt).month);
    } else if m == 1 {
      assert ShiftedYear(y, 1) == ShiftedYear(y - 1, 12);
      assert DayOfShiftedYear(1, 1) == DayOfShiftedYear(12, 31) + 1;
    } else if m == 3 {
      EndOfFebruary(y);
    } else {
      MonthStart(y, m);
    }
  }

  /** The first of a month other than January and March follows the last day of the month before. */
  lemma MonthStart(y: int, m: int)
    requires m == 2 || 4 <= m <= 12
    ensures DaysFromCivil(y, m, 1) == DaysFromCivil(y, m - 1, DaysIn(m - 1, y)) + 1
  {
    assert ShiftedYear(y, m) == ShiftedYear(y, m - 1);
    assert DayOfShiftedYear(m, 1) == DayOfShiftedYear(m - 1, DaysIn(m - 1, y)) + 1;
  }

  /** `t.AddDate(0, 0, -n)` on a date at midnight: `n` steps of `PrevDay`. */
  function DaysBefore(dt: Date, n: nat): (r: Date)
    requires ValidDate(dt)
    ensures ValidDate(r)
  {
    if n == 0 then dt else PrevDay(DaysBefore(dt, n - 1))
  }

  /** `DaysBefore(dt, n)` is exactly `n` day numbers earlier. */
  lemma {:induction false} DaysBeforeIsNDaysEarlier(dt: Date, n: nat)
    requires ValidDate(dt)
    ensures DayNumber(DaysBefore(dt, n)) == DayNumber(dt) - n
  {
    if n > 0 {
      DaysBeforeIsNDaysEarlier(dt, n - 1);
      PrevDayIsOneDayEarlier(DaysBefore(dt, n - 1));
    }
  }

  /** Stepping back at most 28 days crosses at most one new year and then lands in late December. */
  lemma {:induction false} DaysBeforeNearYear(dt: Date, n: nat)
    requires ValidDate(dt) && n <= 28
    ensures DaysBefore(dt, n).year >= dt.year - 1
    ensures DaysBefore(dt, n).year < dt.year ==> DaysBefore(dt, n).month == 12 && DaysBefore(dt, n).day + n >= 32
  {
    if n > 0 {
      DaysBeforeNearYear(dt, n - 1);
    }
  }

  /** The number of days in the months of year `y` before month `m`. */
  function DaysBeforeMonth(m: int, y: int): (n: int)
    requires 1 <= m <= 12
    ensures m == 1 ==> n == 0
    ensures m > 1 ==> n >= 31
  {
    if m == 1 then 0 else DaysBeforeMonth(m - 1, y) + DaysIn(m - 1, y)
  }

  /** The position of a date in its year: 1 for January 1st, 32 for February 1st. */
  function DayOfYear(dt: Date): int
    requires ValidDate(dt)
  {
    DaysBeforeMonth(dt.month, dt.year) + dt.day
  }

  /** Stepping back fewer days than the date's position in its year stays in that year. */
  lemma {:induction false} DaysBeforeWithinYear(dt: Date, n: nat)
    requires ValidDate(dt) && n < DayOfYear(dt)
    ensures DaysBefore(dt, n).year == dt.year
    ensures DayOfYear(DaysBefore(dt, n)) == DayOfYear(dt) - n
  {
    if n > 0 {
      DaysBeforeWithinYear(dt, n - 1);
    }
  }

  /** Stepping back at least the date's position in its year leaves that year. */
  lemma {:induction false} DaysBeforeIntoPriorYear(dt: Date, n: nat)
    requires ValidDate(dt) && DayOfYear(dt) <= n
    ensures DaysBefore(dt, n).year < dt.year
  {
    if n == DayOfYear(dt) {
      DaysBeforeWithinYear(dt, n - 1);
      var r := DaysBefore(dt, n - 1);
      assert r.month == 1 && r.day == 1;
    } else {
      DaysBeforeIntoPriorYear(dt, n - 1);
    }
  }

  /** The decimal digits of `n`, most significant first. */
  function Decimal(n: nat): (s: string)
    ensures |s| >= 1
    ensures n >= 10 ==> |s| >= 2
    ensures n >= 100 ==> |s| >= 3
    ensures n >= 1000 ==> |s| >= 4
    ensures n >= 10000 ==> |s| >= 5
  {
    if n < 10 then [Digit(n)] else Decimal(n / 10) + [Digit(n % 10)]
  }

  /** Go's `appendInt(b, n, 4)` for `n >= 0`: at least four digits, zero-padded. */
  function Pad4(n: nat): string
  {
    if n < 10000 then [Digit(n / 1000), Digit(n / 100 % 10), Digit(n / 10 % 10), Digit(n % 10)]
    else Decimal(n)
  }

  function Pad2(n: int): string
    requires 0 <= n <= 99
  {
    [Digit(n / 10), Digit(n % 10)]
  }

  /** The "2006" element of a Go layout: the year padded to four digits, '-' before a negative year. */
  function FormatYear(y: int): string
  {
    if y < 0 then "-" + Pad4(-y) else Pad4(y)
  }

  /** `t.Format("2006-01-02")` for a time at midnight on `dt`. */
  function FormatDate(dt: Date): (s: string)
    requires 1 <= dt.month <= 12 && 1 <= dt.day <= 31
    ensures HasDateShape(s) <==> 0 <= dt.year <= 9999
  {
    FormatYear(dt.year) + "-" + Pad2(dt.month) + "-" + Pad2(dt.day)
  }

  lemma Pad4Digits(n: int)
    requires 0 <= n < 10000
    ensures |Pad4(n)| == 4
    ensures IsDigit(Pad4(n)[0]) && IsDigit(Pad4(n)[1]) && IsDigit(Pad4(n)[2]) && IsDigit(Pad4(n)[3])
    ensures DigitValue(Pad4(n)[0]) * 1000 + DigitValue(Pad4(n)[1]) * 100
            + DigitValue(Pad4(n)[2]) * 10 + DigitValue(Pad4(n)[3]) == n
  {
    var m1, d := n / 10, n % 10;
    var m2, c := m1 / 10, m1 % 10;
    var a, b := m2 / 10, m2 % 10;
    assert n == a * 1000 + b * 100 + c * 10 + d;
    DigitsOfFour(a, b, c, d);
  }

  lemma Pad2Digits(n: int)
    requires 0 <= n <= 99
    ensures |Pad2(n)| == 2 && IsDigit(Pad2(n)[0]) && IsDigit(Pad2(n)[1])
    ensures DigitValue(Pad2(n)[0]) * 10 + DigitValue(Pad2(n)[1]) == n
  {
  }

  /** The ten characters of a formatted date of years 0..9999. */
  lemma FormatDateChars(dt: Date)
    requires 0 <= dt.year <= 9999 && 1 <= dt.month <= 12 && 1 <= dt.day <= 31
    ensures var y, m, d := Pad4(dt.year), Pad2(dt.month), Pad2(dt.day);
      |y| == 4 && |m| == 2 && |d| == 2 &&
      FormatDate(dt) == [y[0], y[1], y[2], y[3], '-', m[0], m[1], '-', d[0], d[1]]
  {
    Pad4Digits(dt.year);
  }

  /** Formatting a date of years 0..9999 and parsing the text gives the date back. */
  lemma ParseFormatRoundTrip(dt: Date)
    requires ValidDate(dt) && 0 <= dt.year <= 9999
    ensures ParseDate(FormatDate(dt)) == Some(dt)
  {
    Pad4Digits(dt.year);
    Pad2Digits(dt.month);
    Pad2Digits(dt.day);
    FormatDateChars(dt);
  }

  lemma DigitsOfFour(a: int, b: int, c: int, d: int)
    requires 0 <= a <= 9 && 0 <= b <= 9 && 0 <= c <= 9 && 0 <= d <= 9
    ensures var y := a * 1000 + b * 100 + c * 10 + d;
      y / 1000 == a && y / 100 % 10 == b && y / 10 % 10 == c && y % 10 == d
  {
    var y := a * 1000 + b * 100 + c * 10 + d;
    DivModOf(y, 1000, a, b * 100 + c * 10 + d);
    DivModOf(y, 100, a * 10 + b, c * 10 + d);
    DivModOf(a * 10 + b, 10, a, b);
    DivModOf(y, 10, a * 100 + b * 10 + c, d);
    DivModOf(a * 100 + b * 10 + c, 10, a * 10 + b, c);
  }

  /** Division by 10, 100 or 1000, from a quotient and a remainder in range. */
  lemma DivModOf(n: int, k: int, q: int, r: int)
    requires k == 10 || k == 100 || k == 1000
    requires 0 <= r < k && n == q * k + r
    ensures n / k == q && n % k == r
  {
    if k == 10 {
      assert n == q * 10 + r;
    } else if k == 100 {
      assert n == q * 100 + r;
    } else {
      assert n == q * 1000 + r;
    }
  }

  lemma DigitOfValue(c: char)
    requires IsDigit(c)
    ensures Digit(DigitValue(c)) == c
  {
  }

  lemma Pad4OfDigits(a: char, b: char, c: char, d: char)
    requires IsDigit(a) && IsDigit(b) && IsDigit(c) && IsDigit(d)
    ensures Pad4(DigitValue(a) * 1000 + DigitValue(b) * 100 + DigitValue(c) * 10 + DigitValue(d)) == [a, b, c, d]
  {
    DigitsOfFour(DigitValue(a), DigitValue(b), DigitValue(c), DigitValue(d));
    DigitOfValue(a);
    DigitOfValue(b);
    DigitOfValue(c);
    DigitOfValue(d);
  }

  lemma Pad2OfDigits(a: char, b: char)
    requires IsDigit(a) && IsDigit(b)
    ensures Pad2(DigitValue(a) * 10 + DigitValue(b)) == [a, b]
  {
  }

  /** Parsing a text and formatting the date gives the text back. */
  lemma FormatParseRoundTrip(s: string)
    requires ParseDate(s).Some?
    ensures FormatDate(ParseDate(s).value) == s
  {
    var dt := ParseDate(s).value;
    Pad4OfDigits(s[0], s[1], s[2], s[3]);
    Pad2OfDigits(s[5], s[6]);
    Pad2OfDigits(s[8], s[9]);
    FormatDateChars(dt);
    assert FormatDate(dt) == [s[0], s[1], s[2], s[3], '-', s[5], s[6], '-', s[8], s[9]];
  }

  /** The zero `time.Time`: midnight UTC, January 1 of year 1. */
  const ZeroTime: Date := Date(1, 1, 1)

  /** `t, _ := time.Parse("2006-01-02", s)`: a failed parse leaves the zero time. */
  function ParseOrZero(s: string): (dt: Date)
    ensures ValidDate(dt)
    ensures ParseDate(s).Some? ==> dt == ParseDate(s).value
    ensures ParseDate(s).None? ==> dt == ZeroTime
  {
    match ParseDate(s)
    case Some(d) => d
    case None => ZeroTime
  }

  /** `int(d.Hours()/24 + 0.5)` for the largest `time.Duration` (2^63 - 1 ns). */
  const MaxTenorDays: int := 106752
  /** `int(d.Hours()/24 + 0.5)` for the smallest `time.Duration` (-2^63 ns). */
  const MinTenorDays: int := -106751

  /**
   * `int(b.Sub(a).Hours()/24 + 0.5)` for two midnights `n` days apart:
   * `b.Sub(a)` saturates beyond about 292 years, and the conversion to int
   * truncates `n + 0.5` toward zero.
   */
  function RoundedDays(n: int): (r: int)
    ensures MinTenorDays <= r <= MaxTenorDays
    ensures -106751 <= n <= 106751 && 2 * n + 1 >= 0 ==> 2 * r <= 2 * n + 1 < 2 * r + 2
    ensures -106751 <= n <= 106751 && 2 * n + 1 < 0 ==> 2 * r - 2 < 2 * n + 1 <= 2 * r
    ensures n > 106751 ==> r == MaxTenorDays
    ensures n < -106751 ==> r == MinTenorDays
  {
    if n >= MaxTenorDays then MaxTenorDays
    else if n >= 0 then n
    else if n >= MinTenorDays then n + 1
    else MinTenorDays
  }

  /** `tenorDays(from, to)`: whole days from `from` to `to`, 0 when either fails to parse. */
  function TenorDays(from: string, to: string): (r: int)
    ensures MinTenorDays <= r <= MaxTenorDays
    ensures ParseDate(from).None? || ParseDate(to).None? ==> r == 0
    ensures from == to ==> r == 0
  {
    match (ParseDate(from), ParseDate(to))
    case (Some(a), Some(b)) => RoundedDays(DayNumber(b) - DayNumber(a))
    case _ => 0
  }

  /** For a forward span that fits a Duration, `tenorDays` is the exact number of days. */
  lemma TenorDaysForward(from: string, to: string)
    requires ParseDate(from).Some? && ParseDate(to).Some?
    requires 0 <= DayNumber(ParseDate(to).value) - DayNumber(ParseDate(from).value) <= MaxTenorDays
    ensures TenorDays(from, to) == DayNumber(ParseDate(to).value) - DayNumber(ParseDate(from).value)
  {
  }

  /** For a backward span, rounding toward zero loses one day: `tenorDays` is the span plus one. */
  lemma TenorDaysBackward(from: string, to: string)
    requires ParseDate(from).Some? && ParseDate(to).Some?
    requires MinTenorDays <= DayNumber(ParseDate(to).value) - DayNumber(ParseDate(from).value) < 0
    ensures TenorDays(from, to) == DayNumber(ParseDate(to).value) - DayNumber(ParseDate(from).value) + 1
  {
  }
}
