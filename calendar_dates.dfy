/**
 * Date arithmetic behind the calendar screen.
 *
 * The screen reads everything through JavaScript `Date` objects: it builds
 * `new Date(year, month, day)` and reads back `getFullYear`, `getMonth`
 * (zero-based), `getDate` and `getDay` (0 = Sunday). This module replaces the
 * `Date` object by plain integers in the proleptic Gregorian calendar: a date
 * is its (year, zero-based month, day-of-month), `MakeDate` is the
 * constructor with its overflow normalisation, and `Weekday` is `getDay`.
 */
module CalendarDates {

  /** A date as `getFullYear()`, `getMonth()` (0..11) and `getDate()` return it. */
  datatype Date = Date(year: int, month: int, day: int)

  /** The Gregorian leap-year rule. */
  predicate IsLeapYear(y: int) {
    y % 4 == 0 && (y % 100 != 0 || y % 400 == 0)
  }

  /** The number of days of zero-based month `m` of year `y`, as the Gregorian calendar fixes it. */
  function MonthLength(y: int, m: int): int
    requires 0 <= m < 12
  {
    if m == 1 then (if IsLeapYear(y) then 29 else 28)
    else if m == 3 || m == 5 || m == 8 || m == 10 then 30
    else 31
  }

  function YearLength(y: int): int {
    if IsLeapYear(y) then 366 else 365
  }

  /** A date that names a real day: a month in 0..11 and a day within that month. */
  predicate ValidDate(d: Date) {
    0 <= d.month < 12 && 1 <= d.day <= MonthLength(d.year, d.month)
  }

  /**
   * Days from 0000-01-01 to January 1st of year `y` (negative before year 0).
   * The three quotients count the leap years in [0, y): multiples of 4,
   * less multiples of 100, plus multiples of 400.
   */
  function DaysBeforeYear(y: int): int {
    365 * y + (y + 3) / 4 - (y + 99) / 100 + (y + 399) / 400
  }

  /** Days from January 1st to the first of zero-based month `m` (12 = the next January). */
  function DaysBeforeMonth(y: int, m: int): int
    requires 0 <= m <= 12
  {
    [0, 31, 59, 90, 120, 151, 181, 212, 243, 273, 304, 334, 365][m]
      + (if m >= 2 && IsLeapYear(y) then 1 else 0)
  }

  /** The day number of a date: days elapsed since 0000-01-01. */
  function DayNumber(d: Date): int
    requires 0 <= d.month < 12
  {
    DaysBeforeYear(d.year) + DaysBeforeMonth(d.year, d.month) + d.day - 1
  }

  /** `getDay()`: 0 = Sunday .. 6 = Saturday; 0000-01-01 was a Saturday. */
  function Weekday(d: Date): (w: int)
    requires 0 <= d.month < 12
    ensures 0 <= w < 7
  {
    (DayNumber(d) + 6) % 7
  }

  /** Adding to a weekday and reducing again is reducing once. */
  lemma ModSevenShift(a: int, k: int)
    ensures (a + k) % 7 == (a % 7 + k) % 7
  {
    var q := a / 7;
    assert a == 7 * q + a % 7;
    assert a + k == 7 * q + (a % 7 + k);
  }

  /** The month before (y, m) and the month after it, with the year carried. */
  function PrevMonth(y: int, m: int): (int, int)
    requires 0 <= m < 12
  {
    if m == 0 then (y - 1, 11) else (y, m - 1)
  }

  function NextMonth(y: int, m: int): (int, int)
    requires 0 <= m < 12
  {
    if m == 11 then (y + 1, 0) else (y, m + 1)
  }

  /** A multiple of 400 is a multiple of 100. */
  lemma MultipleOf400(y: int)
    requires y % 400 == 0
    ensures y % 100 == 0
  {
    var k := 4 * (y / 400);
    assert y == 100 * k;
  }

  /** A multiple of 100 is a multiple of 4. */
  lemma MultipleOf100(y: int)
    requires y % 100 == 0
    ensures y % 4 == 0
  {
    var k := 25 * (y / 100);
    assert y == 4 * k;
  }

  /** Each leap-year count of `DaysBeforeYear` grows by one exactly past a multiple. */
  lemma QuotientStep4(y: int)
    ensures (y + 4) / 4 - (y + 3) / 4 == if y % 4 == 0 then 1 else 0
  {
  }

  lemma QuotientStep100(y: int)
    ensures (y + 100) / 100 - (y + 99) / 100 == if y % 100 == 0 then 1 else 0
  {
  }

  lemma QuotientStep400(y: int)
    ensures (y + 400) / 400 - (y + 399) / 400 == if y % 400 == 0 then 1 else 0
  {
  }

  /** A year is 365 days long, plus one in a leap year. */
  lemma DaysBeforeNextYear(y: int)
    ensures DaysBeforeYear(y + 1) == DaysBeforeYear(y) + YearLength(y)
  {
    QuotientStep4(y);
    QuotientStep100(y);
    QuotientStep400(y);
    if y % 400 == 0 {
      MultipleOf400(y);
    }
    if y % 100 == 0 {
      MultipleOf100(y);
    }
    assert DaysBeforeYear(y + 1) == 365 * (y + 1) + (y + 4) / 4 - (y + 100) / 100 + (y + 400) / 400;
  }

  /** The first of the following month lies `MonthLength` days after the first of this one. */
  lemma NextMonthStart(y: int, m: int)
    requires 0 <= m < 12
    ensures var (ny, nm) := NextMonth(y, m);
      DayNumber(Date(ny, nm, 1)) == DayNumber(Date(y, m, 1)) + MonthLength(y, m)
  {
    if m == 11 {
      DaysBeforeNextYear(y);
    }
  }

  /**
   * Day normalisation of the `Date` constructor: a day below 1 borrows from
   * the months before, a day past the end of the month spills into the months
   * after, until the day lies within its month.
   */
  function Normalize(y: int, m: int, d: int): (r: Date)
    requires 0 <= m < 12
    ensures ValidDate(r)
    ensures 1 <= d <= MonthLength(y, m) ==> r == Date(y, m, d)
    decreases (if d < 1 then 2 else if d > 31 then 1 else 0), (if d < 1 then -d else d)
  {
    if d < 1 then
      var (py, pm) := PrevMonth(y, m);
      Normalize(py, pm, d + MonthLength(py, pm))
    else if d > MonthLength(y, m) then
      var (ny, nm) := NextMonth(y, m);
      Normalize(ny, nm, d - MonthLength(y, m))
    else
      Date(y, m, d)
  }

  /**
   * The normalised date is the one the ECMAScript `MakeDay` operation
   * defines: its day number is that of the first of the month, plus `d - 1`.
   */
  lemma {:induction false} NormalizeDayNumber(y: int, m: int, d: int)
    requires 0 <= m < 12
    ensures DayNumber(Normalize(y, m, d)) == DayNumber(Date(y, m, 1)) + d - 1
    decreases (if d < 1 then 2 else if d > 31 then 1 else 0), (if d < 1 then -d else d)
  {
    if d < 1 {
      var (py, pm) := PrevMonth(y, m);
      assert NextMonth(py, pm) == (y, m);
      assert Normalize(y, m, d) == Normalize(py, pm, d + MonthLength(py, pm));
      NextMonthStart(py, pm);
      NormalizeDayNumber(py, pm, d + MonthLength(py, pm));
    } else if d > MonthLength(y, m) {
      var (ny, nm) := NextMonth(y, m);
      assert Normalize(y, m, d) == Normalize(ny, nm, d - MonthLength(y, m));
      NextMonthStart(y, m);
      NormalizeDayNumber(ny, nm, d - MonthLength(y, m));
    }
  }

  /**
   * `new Date(y, m, d)` read back through its getters: the month is first
   * brought into 0..11 with the year carried (floor division, which is what
   * Dafny's `/` and `%` do for the divisor 12), then the day is normalised.
   */
  function MakeDate(y: int, m: int, d: int): (r: Date)
    ensures ValidDate(r)
    ensures 0 <= m < 12 && 1 <= d <= MonthLength(y, m) ==> r == Date(y, m, d)
  {
    Normalize(y + m / 12, m % 12, d)
  }

  /** `new Date(y, m, d)` is `d - 1` days after the first of month `m`, counted with the year carried. */
  lemma MakeDateDayNumber(y: int, m: int, d: int)
    ensures DayNumber(MakeDate(y, m, d)) == DayNumber(Date(y + m / 12, m % 12, 1)) + d - 1
  {
    NormalizeDayNumber(y + m / 12, m % 12, d);
  }

  /**
   * `daysInMonth` (Calendar.tsx): day 0 of the following month, which the
   * constructor turns into the last day of this month. It is the Gregorian
   * month length: 28..31, and 29 for February exactly in a leap year.
   */
  function DaysInMonth(y: int, m: int): (n: int)
    requires 0 <= m < 12
    ensures n == MonthLength(y, m)
    ensures 28 <= n <= 31
    ensures m == 1 ==> (n == 29 <==> IsLeapYear(y))
  {
    assert PrevMonth(y + (m + 1) / 12, (m + 1) % 12) == (y, m);
    MakeDate(y, m + 1, 0).day
  }

  /**
   * Day 0 of the next month is the last day of this month, and the month's
   * length is the distance between consecutive month starts.
   */
  lemma DaysInMonthIsLastDay(y: int, m: int)
    requires 0 <= m < 12
    ensures MakeDate(y, m + 1, 0) == Date(y, m, DaysInMonth(y, m))
    ensures var (ny, nm) := NextMonth(y, m);
      DayNumber(Date(ny, nm, 1)) - DayNumber(Date(y, m, 1)) == DaysInMonth(y, m)
  {
    var (ny, nm) := NextMonth(y, m);
    assert (y + (m + 1) / 12, (m + 1) % 12) == (ny, nm);
    assert PrevMonth(ny, nm) == (y, m);
    NextMonthStart(y, m);
  }

  /** `firstDayOfMonth` (Calendar.tsx): `getDay()` of the first of the month. */
  function FirstDayOfMonth(y: int, m: int): (w: int)
    requires 0 <= m < 12
    ensures 0 <= w < 7
  {
    Weekday(MakeDate(y, m, 1))
  }

  /** A date `k` days after another falls `k` weekdays later. */
  lemma WeekdayAfter(a: Date, b: Date, k: int)
    requires 0 <= a.month < 12 && 0 <= b.month < 12
    requires DayNumber(b) == DayNumber(a) + k
    ensures Weekday(b) == (Weekday(a) + k) % 7
  {
    ModSevenShift(DayNumber(a) + 6, k);
  }

  /** Within a month the weekday advances by one per day from that of the first. */
  lemma WeekdayInMonth(d: Date)
    requires ValidDate(d)
    ensures Weekday(d) == (FirstDayOfMonth(d.year, d.month) + d.day - 1) % 7
  {
    var first := Date(d.year, d.month, 1);
    WeekdayAfter(first, d, d.day - 1);
  }

  /** `firstDayOfMonth` is the weekday of the first of the month. */
  lemma FirstDayIsWeekday(y: int, m: int)
    requires 0 <= m < 12
    ensures FirstDayOfMonth(y, m) == Weekday(Date(y, m, 1))
  {
  }

  /**
   * The next month starts as many weekdays later as this month has days
   * (`DaysInMonth` is this length).
   */
  lemma FirstDayOfNextMonth(y: int, m: int)
    requires 0 <= m < 12
    ensures var (ny, nm) := NextMonth(y, m);
      FirstDayOfMonth(ny, nm) == (FirstDayOfMonth(y, m) + MonthLength(y, m)) % 7
  {
    var (ny, nm) := NextMonth(y, m);
    FirstDayIsWeekday(y, m);
    FirstDayIsWeekday(ny, nm);
    NextMonthStart(y, m);
    WeekdayAfter(Date(y, m, 1), Date(ny, nm, 1), MonthLength(y, m));
  }

  /** The weekday count is anchored correctly: 1970-01-01 was a Thursday. */
  lemma UnixEpochIsThursday()
    ensures Weekday(Date(1970, 0, 1)) == 4
  {
  }
}
