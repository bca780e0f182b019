/** Naive (time-zone free) dates and datetimes of the proleptic Gregorian
    calendar, as Python's `datetime` module defines them: years MINYEAR = 1
    through MAXYEAR = 9999, microsecond resolution. */
module Calendar {

  const MinYear := 1
  const MaxYear := 9999

  datatype Date = Date(year: int, month: int, day: int)

  datatype Time = Time(hour: int, minute: int, second: int, microsecond: int)

  datatype DateTime = DateTime(date: Date, time: Time)

  const Midnight := Time(0, 0, 0, 0)

  predicate IsLeapYear(year: int) {
    year % 4 == 0 && (year % 100 != 0 || year % 400 == 0)
  }

  function DaysInMonth(year: int, month: int): (n: int)
    requires 1 <= month <= 12
    ensures 28 <= n <= 31
    ensures n == 29 <==> month == 2 && IsLeapYear(year)
  {
    if month == 2 then (if IsLeapYear(year) then 29 else 28)
    else if month == 4 || month == 6 || month == 9 || month == 11 then 30
    else 31
  }

  function DaysInYear(year: int): int {
    if IsLeapYear(year) then 366 else 365
  }

  predicate ValidDate(d: Date) {
    && MinYear <= d.year <= MaxYear
    && 1 <= d.month <= 12
    && 1 <= d.day <= DaysInMonth(d.year, d.month)
  }

  predicate ValidTime(t: Time) {
    && 0 <= t.hour < 24
    && 0 <= t.minute < 60
    && 0 <= t.second < 60
    && 0 <= t.microsecond < 1000000
  }

  /** Every Python datetime object satisfies this. */
  predicate ValidDateTime(dt: DateTime) {
    ValidDate(dt.date) && ValidTime(dt.time)
  }

  /** The datetime `datetime(year, month, day)`: the date at 00:00:00. */
  function AtMidnight(d: Date): DateTime {
    DateTime(d, Midnight)
  }

  // ----- Ordering -----------------------------------------------------------
  // Python compares naive datetimes field by field: year, month, day, hour,
  // minute, second, microsecond.

  predicate DateBefore(a: Date, b: Date) {
    || a.year < b.year
    || (a.year == b.year && (a.month < b.month || (a.month == b.month && a.day < b.day)))
  }

  predicate TimeBefore(a: Time, b: Time) {
    || a.hour < b.hour
    || (a.hour == b.hour && a.minute < b.minute)
    || (a.hour == b.hour && a.minute == b.minute && a.second < b.second)
    || (a.hour == b.hour && a.minute == b.minute && a.second == b.second && a.microsecond < b.microsecond)
  }

  /** Python's `a < b` on naive datetimes: irreflexive, and for valid
      datetimes the field-by-field comparison agrees with comparing elapsed
      microseconds. */
  predicate Before(a: DateTime, b: DateTime)
    ensures Before(a, b) ==> a != b
    ensures ValidDateTime(a) && ValidDateTime(b) ==> (Before(a, b) <==> Micros(a) < Micros(b))
  {
    DayNumberMonotone(a.date, b.date);
    DateBefore(a.date, b.date) || (a.date == b.date && TimeBefore(a.time, b.time))
  }

  /** Python's `a >= b` on naive datetimes. */
  predicate AtOrAfter(a: DateTime, b: DateTime)
    ensures AtOrAfter(a, b) <==> a == b || Before(b, a)
  {
    !Before(a, b)
  }

  lemma BeforeIsStrictTotalOrder(a: DateTime, b: DateTime, c: DateTime)
    ensures !Before(a, a)
    ensures Before(a, b) && Before(b, c) ==> Before(a, c)
    ensures Before(a, b) || a == b || Before(b, a)
    ensures !(Before(a, b) && Before(b, a))
  {
  }

  // ----- Day numbers --------------------------------------------------------
  // An independent reference for the ordering: the day number Python's
  // `date.toordinal()` gives (1 January of year 1 is day 1) and the
  // number of microseconds since the start of that day.

  function DaysBeforeYear(year: int): int
    requires year >= 1
  {
    var y := year - 1;
    y * 365 + y / 4 - y / 100 + y / 400
  }

  function DaysBeforeMonth(year: int, month: int): int
    requires 1 <= month <= 12
  {
    [0, 31, 59, 90, 120, 151, 181, 212, 243, 273, 304, 334][month - 1]
    + (if month > 2 && IsLeapYear(year) then 1 else 0)
  }

  function DayNumber(d: Date): int
    requires ValidDate(d)
  {
    DaysBeforeYear(d.year) + DaysBeforeMonth(d.year, d.month) + d.day
  }

  function MicrosOfDay(t: Time): int {
    ((t.hour * 60 + t.minute) * 60 + t.second) * 1000000 + t.microsecond
  }

  const MicrosPerDay := 86400000000

  function Micros(dt: DateTime): int
    requires ValidDate(dt.date)
  {
    DayNumber(dt.date) * MicrosPerDay + MicrosOfDay(dt.time)
  }

  /** Going from y to y + 1 raises y / k by one exactly when k divides y + 1. */
  lemma DivStep(y: int, k: int)
    requires y >= 0 && (k == 4 || k == 100 || k == 400)
    ensures (y + 1) / k == y / k + (if (y + 1) % k == 0 then 1 else 0)
  {
    var q, r := y / k, y % k;
    assert y == k * q + r && 0 <= r < k;
    if r == k - 1 {
      assert y + 1 == k * (q + 1);
    } else {
      assert y + 1 == k * q + (r + 1);
    }
  }

  lemma DivisibilityChain(year: int)
    ensures year % 400 == 0 ==> year % 100 == 0
    ensures year % 100 == 0 ==> year % 4 == 0
  {
    if year % 400 == 0 {
      var q := year / 400;
      assert year == 100 * (4 * q) + 0;
      assert year / 100 == 4 * q;
    }
    if year % 100 == 0 {
      var q := year / 100;
      assert year == 4 * (25 * q) + 0;
      assert year / 4 == 25 * q;
    }
  }

  lemma DaysBeforeNextYear(year: int)
    requires year >= 1
    ensures DaysBeforeYear(year + 1) == DaysBeforeYear(year) + DaysInYear(year)
  {
    var y := year - 1;
    DivStep(y, 4);
    DivStep(y, 100);
    DivStep(y, 400);
    DivisibilityChain(year);
    var a, b, c := year / 4 - y / 4, year / 100 - y / 100, year / 400 - y / 400;
    assert DaysBeforeYear(year + 1) - DaysBeforeYear(year) == 365 + a - b + c;
    assert DaysInYear(year) == 365 + a - b + c;
  }

  lemma {:induction false} DaysBeforeYearMonotone(a: int, b: int)
    requires 1 <= a <= b
    ensures DaysBeforeYear(a) + (b - a) * 365 <= DaysBeforeYear(b)
    decreases b - a
  {
    if a < b {
      DaysBeforeNextYear(a);
      DaysBeforeYearMonotone(a + 1, b);
    }
  }

  lemma DaysBeforeNextMonth(year: int, month: int)
    requires 1 <= month <= 12
    ensures month < 12 ==> DaysBeforeMonth(year, month + 1) == DaysBeforeMonth(year, month) + DaysInMonth(year, month)
    ensures month == 12 ==> DaysBeforeMonth(year, month) + DaysInMonth(year, month) == DaysInYear(year)
  {
  }

  lemma MonthEndsWithinYear(year: int, month: int)
    requires 1 <= month <= 12
    ensures DaysBeforeMonth(year, month) + DaysInMonth(year, month) <= DaysInYear(year)
  {
  }

  lemma {:induction false} DaysBeforeMonthMonotone(year: int, a: int, b: int)
    requires 1 <= a < b <= 12
    ensures DaysBeforeMonth(year, a) + DaysInMonth(year, a) <= DaysBeforeMonth(year, b)
    decreases b - a
  {
    DaysBeforeNextMonth(year, a);
    if a + 1 < b {
      DaysBeforeMonthMonotone(year, a + 1, b);
    }
  }

  /** Day numbers grow with the calendar order: consecutive days of the
      calendar get consecutive numbers, so earlier dates get smaller ones. */
  lemma DayNumberMonotone(a: Date, b: Date)
    ensures ValidDate(a) && ValidDate(b) ==> (DateBefore(a, b) <==> DayNumber(a) < DayNumber(b))
    ensures ValidDate(a) && ValidDate(b) ==> (a == b <==> DayNumber(a) == DayNumber(b))
  {
    if !ValidDate(a) || !ValidDate(b) {
    } else if DateBefore(a, b) {
      DayNumberStrictlyLess(a, b);
    } else if DateBefore(b, a) {
      DayNumberStrictlyLess(b, a);
    }
  }

  lemma DayNumberStrictlyLess(a: Date, b: Date)
    requires ValidDate(a) && ValidDate(b) && DateBefore(a, b)
    ensures DayNumber(a) < DayNumber(b)
  {
    if a.year < b.year {
      MonthEndsWithinYear(a.year, a.month);
      DaysBeforeNextYear(a.year);
      DaysBeforeYearMonotone(a.year + 1, b.year);
    } else if a.month < b.month {
      DaysBeforeMonthMonotone(a.year, a.month, b.month);
    }
  }
}
