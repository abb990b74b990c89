/** Calendar fields of an instant, as pandas' `.dt.hour`, `.dt.dayofweek` and
    `.dt.month` read them off a UTC timestamp: integer arithmetic on the
    seconds since 1970-01-01T00:00:00 in the proleptic Gregorian calendar.
    Dafny's `/` and `%` with a positive divisor round toward negative
    infinity, which is the rounding these fields need before 1970 too. */
module Calendar {

  const NanosPerSecond := 1_000_000_000
  const SecondsPerHour := 3600
  const SecondsPerDay := 86400
  /** Days in 400 consecutive Gregorian years. */
  const DaysPerEra := 146097

  /** Whole seconds since the epoch, rounded down (`ns // 10**9`). */
  function EpochSeconds(ns: int): (s: int)
    ensures s * NanosPerSecond <= ns < (s + 1) * NanosPerSecond
  {
    ns / NanosPerSecond
  }

  /** Hour of the day, 0..23. */
  function HourOfDay(s: int): (h: int)
    ensures 0 <= h < 24
    ensures h == (s % SecondsPerDay) / SecondsPerHour
  {
    HourWithinDay(s);
    (s / SecondsPerHour) % 24
  }

  lemma HourWithinDay(s: int)
    ensures (s / SecondsPerHour) % 24 == (s % SecondsPerDay) / SecondsPerHour
  {
    var q, r := s / SecondsPerDay, s % SecondsPerDay;
    assert s == SecondsPerDay * q + r;
    var c := r / SecondsPerHour;
    assert r == SecondsPerHour * c + r % SecondsPerHour;
    assert s / SecondsPerHour == 24 * q + c;
  }

  /** Day of the week with Monday = 0; 1970-01-01 was a Thursday (3). */
  function DayOfWeek(s: int): (d: int)
    ensures 0 <= d < 7
    ensures s / SecondsPerDay == 0 ==> d == 3
  {
    (s / SecondsPerDay + 3) % 7
  }

  /** A day later is the next weekday, Sunday (6) wrapping to Monday (0). */
  lemma DayOfWeekNextDay(s: int)
    ensures DayOfWeek(s + SecondsPerDay) == (DayOfWeek(s) + 1) % 7
  {
    assert (s + SecondsPerDay) / SecondsPerDay == s / SecondsPerDay + 1;
  }

  /** An hour later is the next hour, 23 wrapping to 0. */
  lemma HourOfDayNextHour(s: int)
    ensures HourOfDay(s + SecondsPerHour) == (HourOfDay(s) + 1) % 24
  {
    assert (s + SecondsPerHour) / SecondsPerHour == s / SecondsPerHour + 1;
  }

  // ---------------------------------------------------------------------------
  // Civil dates

  datatype Date = Date(year: int, month: int, day: int)

  predicate IsLeapYear(y: int) {
    y % 4 == 0 && (y % 100 != 0 || y % 400 == 0)
  }

  function DaysInYear(y: int): int {
    if IsLeapYear(y) then 366 else 365
  }

  function DaysInMonth(y: int, m: int): int
    requires 1 <= m <= 12
  {
    if m == 2 then (if IsLeapYear(y) then 29 else 28)
    else if m == 4 || m == 6 || m == 9 || m == 11 then 30
    else 31
  }

  /** Days from 1 January of `y` to the first of month `m`. */
  function DaysBeforeMonth(y: int, m: int): int
    requires 1 <= m <= 12
  {
    var leap := if IsLeapYear(y) then 1 else 0;
    if m == 1 then 0
    else if m == 2 then 31
    else if m == 3 then 59 + leap
    else if m == 4 then 90 + leap
    else if m == 5 then 120 + leap
    else if m == 6 then 151 + leap
    else if m == 7 then 181 + leap
    else if m == 8 then 212 + leap
    else if m == 9 then 243 + leap
    else if m == 10 then 273 + leap
    else if m == 11 then 304 + leap
    else 334 + leap
  }

  predicate ValidDate(d: Date) {
    1 <= d.month <= 12 && 1 <= d.day <= DaysInMonth(d.year, d.month)
  }

  /** Days from 0001-01-01 to 1 January of `y`. */
  function Ordinal(y: int): int {
    365 * (y - 1) + (y - 1) / 4 - (y - 1) / 100 + (y - 1) / 400
  }

  /** Days from 1970-01-01 to 1 January of `y` (negative before 1970). */
  function DaysBeforeYear(y: int): int {
    Ordinal(y) - Ordinal(1970)
  }

  /** Days from 1970-01-01 to `d`. */
  function DaysFromCivil(d: Date): int
    requires 1 <= d.month <= 12
  {
    DaysBeforeYear(d.year) + DaysBeforeMonth(d.year, d.month) + d.day - 1
  }

  /** Consecutive new years are a year's length apart. */
  lemma YearLength(y: int)
    ensures DaysBeforeYear(y + 1) == DaysBeforeYear(y) + DaysInYear(y)
  {
    DivStep(y, 4);
    DivStep(y, 100);
    DivStep(y, 400);
    DivisorsOfCenturies(y);
    var a, b, c := (if y % 4 == 0 then 1 else 0), (if y % 100 == 0 then 1 else 0), (if y % 400 == 0 then 1 else 0);
    assert Ordinal(y + 1) - Ordinal(y) == 365 + a - b + c;
    assert DaysInYear(y) == 365 + a - b + c;
  }

  /** Every 400th year is a 100th year, and every 100th year a 4th one. */
  lemma DivisorsOfCenturies(y: int)
    ensures y % 400 == 0 ==> y % 100 == 0
    ensures y % 100 == 0 ==> y % 4 == 0
  {
    var k, m := y / 400, y / 100;
    assert y == 400 * k + y % 400;
    assert y == 100 * m + y % 100;
    if y % 400 == 0 {
      assert y == 100 * (4 * k) + 0;
    }
    if y % 100 == 0 {
      assert y == 4 * (25 * m) + 0;
    }
  }

  /** Moving from y - 1 to y passes a multiple of d exactly when d divides y. */
  lemma DivStep(y: int, d: int)
    requires d == 4 || d == 100 || d == 400
    ensures y / d == (y - 1) / d + (if y % d == 0 then 1 else 0)
  {
    var q, r := (y - 1) / d, (y - 1) % d;
    assert y - 1 == d * q + r && 0 <= r < d;
    if r == d - 1 {
      assert y == d * (q + 1);
    } else {
      assert y == d * q + (r + 1);
    }
  }

  /** Month starts are a month's length apart, and December ends the year. */
  lemma MonthLength(y: int, m: int)
    requires 1 <= m <= 12
    ensures m < 12 ==> DaysBeforeMonth(y, m + 1) == DaysBeforeMonth(y, m) + DaysInMonth(y, m)
    ensures m == 12 ==> DaysBeforeMonth(y, m) + DaysInMonth(y, m) == DaysInYear(y)
  {
  }

  /** Every 400 years from 1970 span exactly `DaysPerEra` days. */
  lemma EraLength(e: int)
    ensures DaysBeforeYear(1970 + 400 * e) == DaysPerEra * e
  {
    assert (1969 + 400 * e) / 4 == 492 + 100 * e;
    assert (1969 + 400 * e) / 100 == 19 + 4 * e;
    assert (1969 + 400 * e) / 400 == 4 + e;
  }

  lemma {:induction false} DaysBeforeYearMonotone(a: int, b: int)
    requires a <= b
    ensures DaysBeforeYear(a) + 365 * (b - a) <= DaysBeforeYear(b)
    decreases b - a
  {
    if a < b {
      YearLength(b - 1);
      DaysBeforeYearMonotone(a, b - 1);
    }
  }

  /** The year, from `y` on, whose days contain day number `z`. */
  function YearContaining(y: int, z: int): (y': int)
    requires DaysBeforeYear(y) <= z
    ensures y <= y' && DaysBeforeYear(y') <= z < DaysBeforeYear(y' + 1)
    decreases z - DaysBeforeYear(y)
  {
    YearLength(y);
    if z < DaysBeforeYear(y + 1) then y else YearContaining(y + 1, z)
  }

  /** The month, from `m` on, of year `y` whose days contain day `k` of the year. */
  function MonthContaining(y: int, m: int, k: int): (m': int)
    requires 1 <= m <= 12 && DaysBeforeMonth(y, m) <= k < DaysInYear(y)
    ensures m <= m' <= 12
    ensures DaysBeforeMonth(y, m') <= k < DaysBeforeMonth(y, m') + DaysInMonth(y, m')
    decreases 12 - m
  {
    MonthLength(y, m);
    if m == 12 || k < DaysBeforeMonth(y, m) + DaysInMonth(y, m) then m
    else MonthContaining(y, m + 1, k)
  }

  /** The civil date of day number `z` (days since 1970-01-01). The search
      starts at the first year of the 400-year era holding `z`, so it is
      bounded and handles days before 1970 alike. */
  function CivilFromDays(z: int): (d: Date)
    ensures ValidDate(d)
    ensures DaysFromCivil(d) == z
  {
    var era := z / DaysPerEra;
    EraLength(era);
    var y := YearContaining(1970 + 400 * era, z);
    YearLength(y);
    var k := z - DaysBeforeYear(y);
    var m := MonthContaining(y, 1, k);
    Date(y, m, k - DaysBeforeMonth(y, m) + 1)
  }

  /** A valid date lies within its own year. */
  lemma DateInYear(d: Date)
    requires ValidDate(d)
    ensures DaysBeforeYear(d.year) <= DaysFromCivil(d) < DaysBeforeYear(d.year + 1)
  {
    YearLength(d.year);
    MonthLength(d.year, d.month);
    if d.month < 12 {
      MonthsOrdered(d.year, d.month + 1, 12);
      MonthLength(d.year, 12);
    }
  }

  lemma MonthsOrdered(y: int, m: int, m': int)
    requires 1 <= m <= m' <= 12
    ensures DaysBeforeMonth(y, m) <= DaysBeforeMonth(y, m')
  {
  }

  /** Two valid dates with the same day number fall in the same year. */
  lemma SameYear(d: Date, d': Date)
    requires ValidDate(d) && ValidDate(d') && DaysFromCivil(d) == DaysFromCivil(d')
    ensures d.year == d'.year
  {
    DateInYear(d);
    DateInYear(d');
    if d.year < d'.year {
      DaysBeforeYearMonotone(d.year + 1, d'.year);
    } else if d'.year < d.year {
      DaysBeforeYearMonotone(d'.year + 1, d.year);
    }
  }

  /** Within one year, the day number fixes month and day. */
  lemma SameDayOfYear(d: Date, d': Date)
    requires ValidDate(d) && ValidDate(d') && d.year == d'.year
    requires DaysFromCivil(d) == DaysFromCivil(d')
    ensures d == d'
  {
    MonthLength(d.year, d.month);
    MonthLength(d.year, d'.month);
    if d.month < d'.month {
      MonthsOrdered(d.year, d.month + 1, d'.month);
    } else if d'.month < d.month {
      MonthsOrdered(d.year, d'.month + 1, d.month);
    }
  }

  /** Day numbers name dates one-to-one: converting a valid date to its day
      number and back gives the date again. */
  lemma CivilFromDaysInverse(d: Date)
    requires ValidDate(d)
    ensures CivilFromDays(DaysFromCivil(d)) == d
  {
    var d' := CivilFromDays(DaysFromCivil(d));
    SameYear(d, d');
    SameDayOfYear(d, d');
  }

  /** The month, 1..12, of the instant `s` seconds after the epoch. */
  function MonthOf(s: int): (m: int)
    ensures 1 <= m <= 12
  {
    CivilFromDays(s / SecondsPerDay).month
  }

  /** The epoch itself is 1970-01-01, and the day before it 1969-12-31. */
  lemma EpochDates()
    ensures CivilFromDays(0) == Date(1970, 1, 1)
    ensures CivilFromDays(-1) == Date(1969, 12, 31)
  {
    var epoch, eve := Date(1970, 1, 1), Date(1969, 12, 31);
    assert DaysFromCivil(epoch) == 0 by {
      assert Ordinal(1970) - Ordinal(1970) == 0;
    }
    assert DaysFromCivil(eve) == -1 by {
      YearLength(1969);
    }
    CivilFromDaysInverse(epoch);
    CivilFromDaysInverse(eve);
  }
}
