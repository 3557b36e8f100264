/**
 * The state of the calendar screen: the month shown (`currentDate`) and the
 * selected day, the month navigation that updates both, and the "is today"
 * test that picks the highlighted cell. The clock is not read: "today" is a
 * parameter wherever the screen calls `new Date()`.
 */
module CalendarScreen {
  import opened CalendarDates

  /**
   * The date `changeMonth(offset)` moves to: the first of the month `offset`
   * months away, the year carried in either direction.
   */
  function ChangeMonthTarget(current: Date, offset: int): (r: Date)
    ensures ValidDate(r) && r.day == 1
    ensures 12 * r.year + r.month == 12 * current.year + current.month + offset
  {
    var m := current.month + offset;
    assert Normalize(current.year + m / 12, m % 12, 1) == Date(current.year + m / 12, m % 12, 1);
    MakeDate(current.year, m, 1)
  }

  /** Moving forward and then back by the same number of months returns to the first of the month. */
  lemma ChangeMonthRoundTrip(current: Date, offset: int)
    requires ValidDate(current)
    ensures ChangeMonthTarget(ChangeMonthTarget(current, offset), -offset) == Date(current.year, current.month, 1)
  {
    var there := ChangeMonthTarget(current, offset);
    var back := ChangeMonthTarget(there, -offset);
    assert 12 * back.year + back.month == 12 * current.year + current.month;
  }

  /** Two month changes in a row land where one change by the sum lands. */
  lemma ChangeMonthCompose(current: Date, a: int, b: int)
    ensures ChangeMonthTarget(ChangeMonthTarget(current, a), b) == ChangeMonthTarget(current, a + b)
  {
    var x := ChangeMonthTarget(ChangeMonthTarget(current, a), b);
    var y := ChangeMonthTarget(current, a + b);
    assert 12 * x.year + x.month == 12 * y.year + y.month;
  }

  /** The date shown after pressing the "<" button `k` times, each press a `changeMonth(-1)`. */
  function PressPrevious(current: Date, k: nat): Date
    decreases k
  {
    if k == 0 then current else ChangeMonthTarget(PressPrevious(current, k - 1), -1)
  }

  /** Pressing "<" `k` times, for `k >= 1`, shows the month `changeMonth(-k)` would. */
  lemma {:induction false} PressPreviousIsChangeMonth(current: Date, k: nat)
    requires k >= 1
    ensures PressPrevious(current, k) == ChangeMonthTarget(current, -(k as int))
    decreases k
  {
    if k > 1 {
      PressPreviousIsChangeMonth(current, k - 1);
      ChangeMonthCompose(current, -((k - 1) as int), -1);
    }
  }

  /**
   * The day selected after a month change, as the code computes it: today's
   * day when the new month index is today's month index (the year is not
   * compared), day 1 otherwise.
   */
  function SelectedDayAfterChange(newDate: Date, today: Date): (d: int)
    ensures d == today.day <==> newDate.month == today.month || today.day == 1
    ensures d == 1 || d == today.day
  {
    if newDate.month == today.month then today.day else 1
  }

  /**
   * `isCurrentDay(item)` as written: it compares `item` with the day of
   * `currentDate`, not with today's day, and the month and year of
   * `currentDate` with today's.
   */
  function IsCurrentDay(currentDate: Date, today: Date, item: int): (b: bool)
    ensures b ==> currentDate.year == today.year && currentDate.month == today.month
  {
    item == currentDate.day && currentDate.month == today.month && currentDate.year == today.year
  }

  /** Before any navigation `currentDate` is today, and `isCurrentDay` is exactly "today". */
  lemma IsCurrentDayOnOpening(today: Date, item: int)
    ensures IsCurrentDay(today, today, item) <==> item == today.day
  {
  }

  /** After any month change `currentDate` is a first, so only day 1 can be marked as today. */
  lemma IsCurrentDayAfterChange(current: Date, offset: int, today: Date, item: int)
    requires IsCurrentDay(ChangeMonthTarget(current, offset), today, item)
    ensures item == 1
  {
  }

  /** After a month change onto today's month and year, day 1 is marked as today. */
  lemma DayOneMarkedAfterChange(current: Date, offset: int, today: Date)
    requires ChangeMonthTarget(current, offset).month == today.month
    requires ChangeMonthTarget(current, offset).year == today.year
    ensures IsCurrentDay(ChangeMonthTarget(current, offset), today, 1)
  {
  }

  /** How a day cell is drawn: the selection wins over the "today" mark. */
  datatype CellStyle = SelectedStyle | CurrentDayStyle | PlainStyle

  function DayCellStyle(selectedDay: int, currentDate: Date, today: Date, item: int): (s: CellStyle)
    ensures s == SelectedStyle <==> item == selectedDay
    ensures s == CurrentDayStyle <==> item != selectedDay && IsCurrentDay(currentDate, today, item)
  {
    if selectedDay == item then SelectedStyle
    else if IsCurrentDay(currentDate, today, item) then CurrentDayStyle
    else PlainStyle
  }

  /** The calendar screen's state fields. */
  class CalendarState {
    var currentDate: Date
    var selectedDay: int

    ghost predicate Valid()
      reads this
    {
      ValidDate(currentDate)
    }

    /** The screen opens on today, with today selected. */
    constructor (today: Date)
      requires ValidDate(today)
      ensures Valid()
      ensures currentDate == today && selectedDay == today.day
    {
      currentDate := today;
      selectedDay := today.day;
    }

    /** `changeMonth(offset)`: move to the first of another month and reset the selected day. */
    method ChangeMonth(offset: int, today: Date)
      requires Valid()
      modifies this
      ensures Valid()
      ensures currentDate == ChangeMonthTarget(old(currentDate), offset)
      ensures selectedDay == SelectedDayAfterChange(currentDate, today)
    {
      var newDate := MakeDate(currentDate.year, currentDate.month + offset, 1);
      currentDate := newDate;
      selectedDay := if newDate.month == today.month then today.day else 1;
    }

    /** Pressing a day cell selects that day; the month shown is unchanged. */
    method SelectDay(item: int)
      requires Valid()
      modifies this
      ensures Valid()
      ensures selectedDay == item && currentDate == old(currentDate)
    {
      selectedDay := item;
    }
  }

  /**
   * Today is 29 February 2028; pressing "<" twelve times, which by
   * `PressPreviousIsChangeMonth` is `changeMonth(-12)`, lands on February
   * 2027, whose month index matches, so day 29 is selected in a month of 28
   * days. No cell is marked selected, and the tasks query is built for
   * `new Date(2027, 1, 29)`, which is 1 March 2027.
   */
  lemma SelectedDayOutOfMonth()
    ensures var today := Date(2028, 1, 29);
      var target := ChangeMonthTarget(today, -12);
      && ValidDate(today)
      && target == Date(2027, 1, 1)
      && SelectedDayAfterChange(target, today) == 29
      && DaysInMonth(2027, 1) == 28
      && MakeDate(2027, 1, 29) == Date(2027, 2, 1)
  {
    var today := Date(2028, 1, 29);
    var target := ChangeMonthTarget(today, -12);
    assert target.year == 2027 && target.month == 1 by {
      assert 12 * target.year + target.month == 12 * 2027 + 1;
    }
    DaysInMonthIsLastDay(2027, 1);
    assert Normalize(2027, 1, 29) == Normalize(2027, 2, 1);
  }

  /**
   * The reset selects a day past the end of the month shown exactly when
   * today is 29 February and the month shown is February of a common year.
   */
  lemma SelectedDayOverflow(t: Date, today: Date)
    requires ValidDate(t) && ValidDate(today)
    ensures SelectedDayAfterChange(t, today) > MonthLength(t.year, t.month) <==>
      today.month == 1 && today.day == 29 && t.month == 1 && !IsLeapYear(t.year)
  {
  }

  /** The selected day compares the year as well, as `isCurrentMonth` does. */
  function IntendedSelectedDay(newDate: Date, today: Date): (d: int)
    ensures ValidDate(newDate) && ValidDate(today) ==> 1 <= d <= MonthLength(newDate.year, newDate.month)
    ensures d == today.day <==> (newDate.month == today.month && newDate.year == today.year) || today.day == 1
  {
    if newDate.month == today.month && newDate.year == today.year then today.day else 1
  }

  /**
   * Today is 14 October 2026; one month forward and one back shows October
   * 2026 again, but now `currentDate` is the 1st, so the 1st is marked as
   * today and the 14th is not.
   */
  lemma TodayMarkMovesAfterNavigation()
    ensures var today := Date(2026, 9, 14);
      var back := ChangeMonthTarget(ChangeMonthTarget(today, 1), -1);
      && back == Date(2026, 9, 1)
      && !IsCurrentDay(back, today, 14)
      && IsCurrentDay(back, today, 1)
  {
    ChangeMonthRoundTrip(Date(2026, 9, 14), 1);
  }

  /** "Is today" as intended: the cell's date, in the month shown, is today's date. */
  function IsToday(currentDate: Date, today: Date, item: int): (b: bool)
    ensures b <==> Date(currentDate.year, currentDate.month, item) == today
  {
    item == today.day && currentDate.month == today.month && currentDate.year == today.year
  }
}
