/**
 * The month grid of the calendar screen: the list of day numbers, the
 * leading blank cells that align the first of the month under a Monday-first
 * weekday header, and the seven-column layout the list is rendered in.
 */
module CalendarGrid {
  import opened CalendarDates

  /** A grid cell: a blank (`null` in the screen's array) or a day of the month. */
  datatype Cell = Blank | Day(number: int)

  /** The header row, Monday first. */
  const Weekdays: seq<string> := ["Mon", "Tue", "Wed", "Thu", "Fri", "Sat", "Sun"]

  /** The names of `getDay()` values, which count from Sunday = 0. */
  const DayNames: seq<string> := ["Sun", "Mon", "Tue", "Wed", "Thu", "Fri", "Sat"]

  /** The grid has seven columns (`numColumns={7}`). */
  const Columns := 7

  /** `days`: the day numbers 1..n of a month of n days. */
  function Days(n: nat): (r: seq<int>)
    ensures |r| == n
    ensures forall i, j :: 0 <= i < j < |r| ==> r[i] < r[j]
    ensures forall k :: k in r <==> 1 <= k <= n
  {
    var r := seq(n, i => i + 1);
    assert forall k :: 1 <= k <= n ==> k in r by {
      forall k | 1 <= k <= n ensures k in r {
        assert r[k - 1] == k;
      }
    }
    r
  }

  /** Blank cells of a run of `k`. */
  function Blanks(k: nat): (r: seq<Cell>)
    ensures |r| == k && forall i :: 0 <= i < k ==> r[i] == Blank
  {
    seq(k, _ => Blank)
  }

  /**
   * The number of leading blanks, exactly as the screen computes it: the outer
   * test skips the padding for a month that starts on Sunday, so the inner
   * Sunday branch (six blanks) is never taken.
   */
  function LeadingBlanks(firstDayOfMonth: int): (k: int)
    requires 0 <= firstDayOfMonth < 7
    ensures 0 <= k <= 5
    ensures firstDayOfMonth == 0 ==> k == 0
    ensures firstDayOfMonth != 0 ==> k == firstDayOfMonth - 1
  {
    if firstDayOfMonth != 0 then
      if firstDayOfMonth == 0 then 6 else firstDayOfMonth - 1
    else
      0
  }

  /**
   * The grid the screen renders: its leading blanks followed by the days,
   * unchanged and in order.
   */
  function Grid(days: seq<int>, firstDayOfMonth: int): (g: seq<Cell>)
    requires 0 <= firstDayOfMonth < 7
    ensures var k := LeadingBlanks(firstDayOfMonth);
      && |g| == k + |days|
      && (forall i :: 0 <= i < k ==> g[i] == Blank)
      && (forall i :: 0 <= i < |days| ==> g[k + i] == Day(days[i]))
  {
    Blanks(LeadingBlanks(firstDayOfMonth)) + seq(|days|, i requires 0 <= i < |days| => Day(days[i]))
  }

  /** `unshift` of `k` nulls: the same cells with `k` blanks in front. */
  method Unshift(a: array<Cell>, k: nat) returns (b: array<Cell>)
    ensures fresh(b)
    ensures b[..] == Blanks(k) + a[..]
  {
    b := new Cell[k + a.Length](i reads a requires 0 <= i < k + a.Length =>
      if i < k then Blank else a[i - k]);
    assert b[..] == Blanks(k) + a[..] by {
      assert forall i :: 0 <= i < k + a.Length ==> b[..][i] == (Blanks(k) + a[..])[i];
    }
  }

  /**
   * `getAdjustedDays`: copy `days`, then put the leading blanks in front of
   * the copy. `days` itself is not modified (the method has no `modifies`).
   */
  method GetAdjustedDays(days: array<int>, firstDayOfMonth: int) returns (adjusted: array<Cell>)
    requires 0 <= firstDayOfMonth < 7
    ensures fresh(adjusted)
    ensures adjusted[..] == Grid(days[..], firstDayOfMonth)
  {
    adjusted := new Cell[days.Length](i reads days requires 0 <= i < days.Length => Day(days[i]));
    if firstDayOfMonth != 0 {
      var startOffset := if firstDayOfMonth == 0 then 6 else firstDayOfMonth - 1;
      adjusted := Unshift(adjusted, startOffset);
    }
  }

  /** The Monday-first column a `getDay()` value belongs in. */
  function Column(weekday: int): (c: int)
    requires 0 <= weekday < 7
    ensures 0 <= c < 7 && Weekdays[c] == DayNames[weekday]
  {
    (weekday + 6) % 7
  }

  /** Column c of the Monday-first header names weekday c + 1, never weekday c. */
  lemma HeaderShiftedByOne(c: int)
    requires 0 <= c < 7
    ensures Weekdays[c] == DayNames[(c + 1) % 7] && Weekdays[c] != DayNames[c]
  {
  }

  /** Day d of an n-day month sits right after the leading blanks. */
  lemma GridDay(n: nat, w: int, d: int)
    requires 0 <= w < 7 && 1 <= d <= n
    ensures Grid(Days(n), w)[LeadingBlanks(w) + d - 1] == Day(d)
  {
    assert Days(n)[d - 1] == d;
  }

  /**
   * With w - 1 blanks in front, day d of a month whose first has weekday
   * w != 0 falls in the column of weekday (w + d - 1) mod 7.
   */
  lemma ColumnAfterDays(w: int, d: int)
    requires 1 <= w < 7 && d >= 1
    ensures (LeadingBlanks(w) + d - 1) % Columns == Column((w + d - 1) % 7)
  {
    ModSevenShift(w + d - 1, 6);
    assert w + d + 5 == (LeadingBlanks(w) + d - 1) + 7;
  }

  /**
   * For a month that does not start on Sunday, day 1 sits at grid index
   * `firstDayOfMonth - 1`, under the header naming its weekday.
   */
  lemma FirstDayColumn(y: int, m: int)
    requires 0 <= m < 12
    requires FirstDayOfMonth(y, m) != 0
    ensures var w := FirstDayOfMonth(y, m);
      var g := Grid(Days(DaysInMonth(y, m)), w);
      && g[w - 1] == Day(1)
      && Weekdays[w - 1] == DayNames[w]
  {
    var w := FirstDayOfMonth(y, m);
    GridDay(DaysInMonth(y, m), w, 1);
    assert Column(w) == w - 1;
  }

  /**
   * For a month that does not start on Sunday, every day d of the month is
   * in the grid at index `blanks + d - 1`, and that index's column is the
   * header of d's weekday.
   */
  lemma GridAlignedUnlessSunday(y: int, m: int, d: int)
    requires 0 <= m < 12
    requires FirstDayOfMonth(y, m) != 0
    requires 1 <= d <= DaysInMonth(y, m)
    ensures var w := FirstDayOfMonth(y, m);
      var g, k := Grid(Days(DaysInMonth(y, m)), w), LeadingBlanks(w);
      && g[k + d - 1] == Day(d)
      && Weekdays[(k + d - 1) % Columns] == DayNames[Weekday(Date(y, m, d))]
  {
    var w := FirstDayOfMonth(y, m);
    GridDay(DaysInMonth(y, m), w, d);
    WeekdayInMonth(Date(y, m, d));
    ColumnAfterDays(w, d);
  }

  /** In a month starting on Sunday, day d has weekday (d - 1) mod 7, its grid column. */
  lemma SundayColumn(w: int, c: int, d: int)
    requires w == 0 && d >= 1 && c == (w + d - 1) % 7
    ensures (d - 1) % Columns == c
  {
  }

  /**
   * What the code really does with a month that starts on Sunday: no blanks,
   * so day d sits in column (d - 1) mod 7 and every day of the month is shown
   * under the header of the weekday after its own.
   */
  lemma SundayMonthMisaligned(y: int, m: int, d: int)
    requires 0 <= m < 12
    requires FirstDayOfMonth(y, m) == 0
    requires 1 <= d <= DaysInMonth(y, m)
    ensures var g := Grid(Days(DaysInMonth(y, m)), 0);
      && g[d - 1] == Day(d)
      && Weekdays[(d - 1) % Columns] == DayNames[(Weekday(Date(y, m, d)) + 1) % 7]
      && Weekdays[(d - 1) % Columns] != DayNames[Weekday(Date(y, m, d))]
  {
    GridDay(DaysInMonth(y, m), 0, d);
    WeekdayInMonth(Date(y, m, d));
    var c := Weekday(Date(y, m, d));
    SundayColumn(FirstDayOfMonth(y, m), c, d);
    HeaderShiftedByOne(c);
  }

  /** February 2026 starts on a Sunday, so its first is drawn under "Mon". */
  lemma February2026DayOneUnderMonday()
    ensures FirstDayOfMonth(2026, 1) == 0
    ensures Grid(Days(DaysInMonth(2026, 1)), FirstDayOfMonth(2026, 1))[0] == Day(1)
    ensures Weekdays[0] == "Mon" && DayNames[Weekday(Date(2026, 1, 1))] == "Sun"
  {
    FirstDayIsWeekday(2026, 1);
    assert DayNumber(Date(2026, 1, 1)) == 740013;
    GridDay(28, 0, 1);
  }

  /** The padding the inner branch shows was meant: six blanks before a Sunday. */
  function IntendedLeadingBlanks(firstDayOfMonth: int): (k: nat)
    requires 0 <= firstDayOfMonth < 7
    ensures k <= 6
    ensures k == Column(firstDayOfMonth)
  {
    if firstDayOfMonth == 0 then 6 else firstDayOfMonth - 1
  }

  /** The grid with the intended padding. */
  function IntendedGrid(days: seq<int>, firstDayOfMonth: int): seq<Cell>
    requires 0 <= firstDayOfMonth < 7
  {
    Blanks(IntendedLeadingBlanks(firstDayOfMonth)) + seq(|days|, i requires 0 <= i < |days| => Day(days[i]))
  }

  /** With the intended padding, day d of an n-day month sits right after the blanks. */
  lemma IntendedGridDay(n: nat, w: int, d: int)
    requires 0 <= w < 7 && 1 <= d <= n
    ensures |IntendedGrid(Days(n), w)| == IntendedLeadingBlanks(w) + n
    ensures IntendedGrid(Days(n), w)[IntendedLeadingBlanks(w) + d - 1] == Day(d)
  {
    assert Days(n)[d - 1] == d;
  }

  /** After the intended blanks, day d of a month whose first has weekday w falls in its weekday's column. */
  lemma IntendedColumn(w: int, d: int)
    requires 0 <= w < 7 && d >= 1
    ensures (IntendedLeadingBlanks(w) + d - 1) % Columns == Column((w + d - 1) % 7)
  {
    ModSevenShift(w + d - 1, 6);
    if w != 0 {
      assert w + d + 5 == (IntendedLeadingBlanks(w) + d - 1) + 7;
    }
  }

  /** With the intended padding every day of every month is under its own weekday. */
  lemma IntendedGridAligned(y: int, m: int, d: int)
    requires 0 <= m < 12
    requires 1 <= d <= DaysInMonth(y, m)
    ensures var w := FirstDayOfMonth(y, m);
      var g, k := IntendedGrid(Days(DaysInMonth(y, m)), w), IntendedLeadingBlanks(w);
      && |g| == k + DaysInMonth(y, m)
      && g[k + d - 1] == Day(d)
      && Weekdays[(k + d - 1) % Columns] == DayNames[Weekday(Date(y, m, d))]
  {
    var w := FirstDayOfMonth(y, m);
    IntendedGridDay(DaysInMonth(y, m), w, d);
    WeekdayInMonth(Date(y, m, d));
    IntendedColumn(w, d);
  }
}
