# BranchBuddy screen logic in Dafny

A model of the logic inside four React Native screens of BranchBuddy.

- **The calendar screen** (`app/screens/Calendar.tsx`) covers:
  - the number of days in the month shown and the weekday of its first day;
  - the Monday-first month grid with its leading blank cells;
  - month navigation and the selected-day reset that goes with it;
  - the `dd/mm/yyyy` date formatter;
  - the "is today" test that highlights a cell.
- **The notes list** (`app/screens/Notes.tsx`) covers its initial notes and the id filter that deletes one.
- **The note card** (`app/screens/NotesCard.tsx`) covers the delete-button colour and the rule that a deleted card renders nothing.
- **The home screen** (`app/screens/Home.tsx`, the first of the copies left by its unresolved merge) covers the greeting's username fallback and the tab bar's screen switch.

The JavaScript `Date` object is replaced by integers in the proleptic Gregorian calendar:
- `CalendarDates.MakeDate` is `new Date(y, m, d)` with its overflow normalisation. `CalendarDates.MakeDateDayNumber` proves that it agrees with the day-number definition of the `MakeDay` operation in the ECMAScript standard (ECMA-262).
- `CalendarDates.Weekday` is `getDay()`.
- The clock is never read. "Today" is a parameter wherever the screen calls `new Date()`.

The modules are:

| file | module | models |
|---|---|---|
| `wrappers.dfy` | `Wrappers` | `Option` |
| `calendar_dates.dfy` | `CalendarDates` | Gregorian calendar, `new Date(y, m, d)`, `daysInMonth`, `firstDayOfMonth` |
| `calendar_grid.dfy` | `CalendarGrid` | `days`, `getAdjustedDays` over arrays, the weekday header |
| `calendar_screen.dfy` | `CalendarScreen` | `currentDate`/`selectedDay` state, `changeMonth`, `isCurrentDay`, the cell styles |
| `date_format.dfy` | `DateFormat` | `formatDate` and a parser that inverts it |
| `notes.dfy` | `Notes` | the `Note` type, the initial list, `deleteNote` |
| `notes_card.dfy` | `NotesCard` | `getDeleteButtonColor`, the `isDeleted`/`isAnimating` flags, rendering |
| `home.dfy` | `Home` | username fallback, `screens`, the tabs, `handleScreenChange` |

Stateful code is written as classes whose methods update fields:
- `CalendarScreen.CalendarState` holds `currentDate` and `selectedDay`.
- `Home.HomeState` holds `selectedButton`, `activeScreen` and `username`. It also keeps a list of navigation requests.

`getAdjustedDays` copies the `days` array and then puts blanks in front of the copy. It is a method over arrays.

Everything else is a pure function, with lemmas beside it.

The classes and screen functions follow the code as written, quirks included. Three quirks are logged under "## Findings". For each one, a corrected definition sits next to the as-written one and carries the intended property. The as-written members are the ones the screen model uses.

## Model

| member | source | states |
|---|---|---|
| CalendarDates.Weekday | app/screens/Calendar.tsx:30 | `getDay()` is a value in 0..6, counted from Sunday. |
| CalendarDates.DaysBeforeNextYear | app/screens/Calendar.tsx:29 | Consecutive years start 365 days apart, or 366 when the earlier one is a Gregorian leap year. |
| CalendarDates.NextMonthStart | app/screens/Calendar.tsx:29 | The next month starts as many days after this month's first as this month has days, across the year boundary too. |
| CalendarDates.Normalize | app/screens/Calendar.tsx:29-30 | The `Date` constructor's day overflow always gives a real date, and a day already inside the month is left alone. |
| CalendarDates.NormalizeDayNumber | app/screens/Calendar.tsx:29-30 | For any day, including 0 and negatives, the normalised date's day number is that of the first of the month plus `d - 1`. |
| CalendarDates.MakeDate | app/screens/Calendar.tsx:29-30 | `new Date(y, m, d)` always gives a real date, and an in-range month and day are taken unchanged. |
| CalendarDates.MakeDateDayNumber | app/screens/Calendar.tsx:29-30 | `new Date(y, m, d)` is the first of month `m mod 12` of year `y + floor(m / 12)`, moved `d - 1` days, for every integer `m` and `d`. |
| CalendarDates.DaysInMonth | app/screens/Calendar.tsx:29 | `daysInMonth` equals the Gregorian month length, lies in 28..31, and is 29 for February exactly in a leap year. |
| CalendarDates.DaysInMonthIsLastDay | app/screens/Calendar.tsx:29 | Day 0 of the next month is the last day of this month, and `daysInMonth` is the gap between consecutive month starts. |
| CalendarDates.FirstDayOfMonth | app/screens/Calendar.tsx:30 | `firstDayOfMonth` is a `getDay()` value in 0..6. |
| CalendarDates.FirstDayIsWeekday | app/screens/Calendar.tsx:30 | `firstDayOfMonth` is the `getDay()` of the month's 1st. |
| CalendarDates.WeekdayAfter | app/screens/Calendar.tsx:30 | A date `k` days after another has the weekday `k` places later, mod 7. |
| CalendarDates.WeekdayInMonth | app/screens/Calendar.tsx:30 | The weekday of day `d` is the first day's weekday plus `d - 1`, mod 7. |
| CalendarDates.FirstDayOfNextMonth | app/screens/Calendar.tsx:29-30 | The next month starts as many weekdays later as this month has days. That is `MonthLength`, which `DaysInMonth` shows equal to `daysInMonth`. |
| CalendarDates.UnixEpochIsThursday | app/screens/Calendar.tsx:30 | The weekday count is anchored: 1 January 1970 is a Thursday (`getDay() == 4`). |
| CalendarGrid.Days | app/screens/Calendar.tsx:31 | `days` has `n` entries, is strictly ascending, and contains exactly 1..n. |
| CalendarGrid.Blanks | app/screens/Calendar.tsx:46 | `Array(k).fill(null)` is `k` blank cells. |
| CalendarGrid.LeadingBlanks | app/screens/Calendar.tsx:44-45 | As written: 0 blanks for a Sunday start, `firstDayOfMonth - 1` otherwise, so always 0..5. The inner six-blank branch is dead. |
| CalendarGrid.Grid | app/screens/Calendar.tsx:42-48 | The value `getAdjustedDays` returns: `LeadingBlanks` blanks followed by every day, unchanged and in order. Its length is days plus blanks. |
| CalendarGrid.Unshift | app/screens/Calendar.tsx:46 | `unshift(...Array(k).fill(null))` gives `k` blanks followed by the old cells, in a new array. |
| CalendarGrid.GetAdjustedDays | app/screens/Calendar.tsx:42-49 | The adjusted array is a new array holding `Grid(days, firstDayOfMonth)`. `days` is not modified. |
| CalendarGrid.Column | app/screens/Calendar.tsx:34 | The Monday-first header column of a `getDay()` value names that weekday. |
| CalendarGrid.GridDay | app/screens/Calendar.tsx:42-48 | Day `d` of an `n`-day month sits right after the leading blanks. |
| CalendarGrid.ColumnAfterDays | app/screens/Calendar.tsx:34-46 | With `firstDayOfMonth - 1` blanks, day `d` lands in the header column of weekday `firstDayOfMonth + d - 1`, mod 7. |
| CalendarGrid.FirstDayColumn | app/screens/Calendar.tsx:34-46 | If the month does not start on Sunday, day 1 sits at index `firstDayOfMonth - 1`, under its own weekday's header. |
| CalendarGrid.GridAlignedUnlessSunday | app/screens/Calendar.tsx:34-46 | If the month does not start on Sunday, every day is in the grid under its own weekday's header. |
| CalendarGrid.SundayMonthMisaligned | app/screens/Calendar.tsx:44-46 | If the month starts on Sunday, every day is under the header of the following weekday, never under its own. |
| CalendarGrid.HeaderShiftedByOne | app/screens/Calendar.tsx:34 | Header column `c` names `getDay()` value `c + 1`, never `c`. |
| CalendarGrid.February2026DayOneUnderMonday | app/screens/Calendar.tsx:44-46 | February 2026 starts on a Sunday, and its 1st is drawn in the "Mon" column. |
| CalendarGrid.IntendedLeadingBlanks | app/screens/Calendar.tsx:45 | Corrected padding: a Sunday start gets 6 blanks. The count always equals the weekday's header column. |
| CalendarGrid.IntendedGridDay | app/screens/Calendar.tsx:42-48 | With the corrected padding the grid is blanks plus days, and day `d` sits right after the blanks. |
| CalendarGrid.IntendedColumn | app/screens/Calendar.tsx:34-46 | With the corrected padding, day `d` lands in the header column of weekday `firstDayOfMonth + d - 1`, mod 7, for every start weekday. |
| CalendarGrid.IntendedGridAligned | app/screens/Calendar.tsx:42-48 | With the corrected padding, every day of every month lies under its own weekday's header. |
| CalendarScreen.ChangeMonthTarget | app/screens/Calendar.tsx:37 | `changeMonth(offset)` moves to a real date that is day 1, `offset` months away, with the year carried in either direction. |
| CalendarScreen.ChangeMonthRoundTrip | app/screens/Calendar.tsx:37 | Moving `offset` months and then `-offset` months returns to the first of the starting month. |
| CalendarScreen.ChangeMonthCompose | app/screens/Calendar.tsx:37 | Two month changes in a row land on the month that one change by the sum of the offsets lands on. |
| CalendarScreen.PressPreviousIsChangeMonth | app/screens/Calendar.tsx:121 | Pressing "<" `k >= 1` times shows the same date as `changeMonth(-k)`. `PressPrevious(d, k)` is the date shown after `k` presses. |
| CalendarScreen.SelectedDayAfterChange | app/screens/Calendar.tsx:39 | After a month change the selected day is today's day exactly when the month index matches; the year is not compared. Otherwise it is 1. |
| CalendarScreen.CalendarState.constructor | app/screens/Calendar.tsx:23-24 | The screen opens on today, with today's day selected. |
| CalendarScreen.CalendarState.ChangeMonth | app/screens/Calendar.tsx:36-40 | The whole new state is `ChangeMonthTarget(old date, offset)` plus the selected-day rule. A real date is kept. |
| CalendarScreen.CalendarState.SelectDay | app/screens/Calendar.tsx:149-152 | Pressing a cell selects its day and leaves the month shown unchanged. |
| CalendarScreen.IsCurrentDay | app/screens/Calendar.tsx:89-95 | As written: it can hold only when the month and year shown are today's. Which cell it accepts is stated by `IsCurrentDayOnOpening` and `IsCurrentDayAfterChange`. |
| CalendarScreen.IsCurrentDayOnOpening | app/screens/Calendar.tsx:89-95 | Before any navigation, exactly today's day is marked. |
| CalendarScreen.DayOneMarkedAfterChange | app/screens/Calendar.tsx:89-95 | After a month change that lands on today's month and year, day 1 is marked as today. |
| CalendarScreen.IsCurrentDayAfterChange | app/screens/Calendar.tsx:89-95 | After any month change, only day 1 can be marked as today. |
| CalendarScreen.DayCellStyle | app/screens/Calendar.tsx:147 | The selected style holds exactly for the selected day. The "today" style holds exactly for a non-selected cell that `isCurrentDay` accepts. |
| CalendarScreen.SelectedDayOutOfMonth | app/screens/Calendar.tsx:39 | From 29 February 2028, going back 12 months (twelve presses of "<", by `PressPreviousIsChangeMonth`) selects day 29 of a 28-day February. The date built from it is 1 March 2027. |
| CalendarScreen.SelectedDayOverflow | app/screens/Calendar.tsx:39 | For real dates, the selected day lies past the end of the month shown exactly when today is 29 February and the month shown is February of a common year. |
| CalendarScreen.IntendedSelectedDay | app/screens/Calendar.tsx:39 | Corrected reset: the year is compared too, so the selected day always lies within the month shown. |
| CalendarScreen.TodayMarkMovesAfterNavigation | app/screens/Calendar.tsx:89-95 | From 14 October 2026, one month forward and back shows October again with the 1st marked as today, not the 14th. |
| CalendarScreen.IsToday | app/screens/Calendar.tsx:89-95 | Corrected test: it holds exactly when the cell's date is today. |
| DateFormat.DecimalDigits | app/screens/Calendar.tsx:83-85 | `String(n)` of a natural number is a non-empty string of digits. |
| DateFormat.IntToString | app/screens/Calendar.tsx:85 | `String(i)` is never empty. `IntToStringRoundTrip` shows that `ParseInt` inverts it. |
| DateFormat.FormatDate | app/screens/Calendar.tsx:82-87 | `formatDate` ends in `/` and the year. For a day and month below 100 it is six characters longer than the year, with `/` at positions 2 and 5. |
| DateFormat.PadStart | app/screens/Calendar.tsx:83-84 | `padStart(width, pad)` keeps the string as its suffix, fills the rest with the pad character, and yields length `max(|s|, width)`. |
| DateFormat.DecimalDigitsValue | app/screens/Calendar.tsx:83-85 | Reading the decimal digits of `n` back gives `n`. |
| DateFormat.DecimalDigitsLength | app/screens/Calendar.tsx:85 | A number written with L digits lies below 10^L and, unless it is 0, at least 10^(L-1). |
| DateFormat.FourCharacterYears | app/screens/Calendar.tsx:85 | The year is written with four characters exactly for years 1000..9999 and -999..-100. |
| DateFormat.IntToStringRoundTrip | app/screens/Calendar.tsx:83-85 | `ParseInt` undoes `String(i)` for every integer. |
| DateFormat.PaddedRoundTrip | app/screens/Calendar.tsx:83-84 | A day or month below 100, padded to two digits, is two characters long and reads back as itself. |
| DateFormat.FormatDateRoundTrip | app/screens/Calendar.tsx:82-87 | For every real date, `ParseDate(formatDate(d)) == d`. The output has two-digit day and one-based month, `/` at positions 2 and 5, and then the year. It is 10 characters exactly for a four-character year. |
| DateFormat.FieldsOfFormat | app/screens/Calendar.tsx:86 | In `dd/mm/y` the year always follows the last `/`. With two-character day and month fields the separators are at 2 and 5, and the slices give back the three fields. |
| DateFormat.FormatDateInjective | app/screens/Calendar.tsx:82-87 | Two different real dates never format to the same string. |
| Notes.DeleteNote | app/screens/Notes.tsx:20-22 | No kept note has the id. Every note with another id is kept. The length drops by the number of notes carrying the id. |
| Notes.DeleteNotePreservesOrder | app/screens/Notes.tsx:21 | The kept notes are a subsequence of the list, in their original relative order. |
| Notes.DeleteNoteUnchanged | app/screens/Notes.tsx:21 | Deleting leaves the list identical exactly when no note carries the id. |
| Notes.DeleteAbsentId | app/screens/Notes.tsx:21 | Deleting an id that no note carries leaves the list identical. |
| Notes.DeleteNoteIdempotent | app/screens/Notes.tsx:21 | Deleting the same id twice equals deleting it once. |
| Notes.DeleteNoteCommutes | app/screens/Notes.tsx:21 | Deleting two ids gives the same list in either order. |
| Notes.DistinctTail | app/screens/Notes.tsx:46 | Dropping the first note keeps the ids distinct. |
| Notes.DeleteNoteKeepsKeysDistinct | app/screens/Notes.tsx:21 | Deleting keeps the ids distinct, so they stay valid list keys. |
| Notes.CountOfDistinctId | app/screens/Notes.tsx:21 | With distinct ids, an id is carried by one note if present and by none otherwise. |
| Notes.DeleteShownNote | app/screens/Notes.tsx:21 | Deleting a shown card's note removes exactly that one note. |
| Notes.InitialNotesHaveDistinctIds | app/screens/Notes.tsx:11-17 | The screen starts with five notes, ids 1..5, all distinct. |
| NotesCard.DeleteButtonColor | app/screens/NotesCard.tsx:20-31 | The button gets yellow's secondary shade exactly when the card is not blue, red or green. |
| NotesCard.DeleteButtonColorMatchesCard | app/screens/NotesCard.tsx:20-31 | Blue, red, green and yellow each get their own secondary shade, and every shade is reached. Any other colour gets yellow's shade. |
| NotesCard.Render | app/screens/NotesCard.tsx:47-66 | A card renders nothing exactly when it is deleted. Otherwise it shows its colour, the derived button colour, and absolute position exactly while animating. |
| NotesCard.Step | app/screens/NotesCard.tsx:33-44 | A card is deleted after an event exactly when it already was or the event is a finished animation. A press on a live card starts the animation. Only a press can start one. |
| NotesCard.Run | app/screens/NotesCard.tsx:33-44 | `onDelete` is called at most once per event. Without a finished animation it is never called and the deleted flag is unchanged. |
| NotesCard.DeletedCardRendersNothing | app/screens/NotesCard.tsx:42-47 | Once deleted, a card stays deleted and renders nothing, whatever events follow. |
| NotesCard.DeletedIffOnDeleteCalled | app/screens/NotesCard.tsx:41-44 | A card is deleted exactly when `onDelete` has been called at least once. |
| NotesCard.DeleteRepeatedly | app/screens/Notes.tsx:30 | `onDelete` called `k` times keeps only notes of the list, never more of them. After at least one call no kept note has the id. |
| NotesCard.RepeatedOnDeleteIsOneDeletion | app/screens/NotesCard.tsx:41-44 | Any number of repeated `onDelete` calls leaves the list as one deletion does. |
| NotesCard.DoublePressCallsOnDeleteTwice | app/screens/NotesCard.tsx:33-45 | A double press before the animation ends runs two animations and calls `onDelete` twice. |
| Home.Username | app/screens/Home.tsx:41 | The username is the display name if non-empty, else the email if non-empty, else "Guest". It is never empty. |
| Home.ScreenAt | app/screens/Home.tsx:35 | `screens[index]` is a real screen exactly for indices 0 and 1. |
| Home.OnlyTwoTabsHaveScreens | app/screens/Home.tsx:100 | Four tabs are offered but only "Seeds" and "Notes" show a screen. |
| Home.HomeState.constructor | app/screens/Home.tsx:30-33 | The first tab is selected, the Seeds screen is shown, and the username is empty. |
| Home.HomeState.OnAuthStateChanged | app/screens/Home.tsx:39-46 | With a user, the username follows the fallback. Without one, it is "Guest" and a Login navigation is requested. The tab state is untouched. |
| Home.HomeState.HandleScreenChange | app/screens/Home.tsx:52-58 | Pressing the selected tab changes nothing. Another tab becomes selected and `screens[index]` is shown. The username and navigation requests are unchanged. |

## Left out

- The JavaScript `Date` quirks:
  - years 0..99 passed to the constructor are remapped to 1900..1999;
  - dates outside ±8.64e15 ms are invalid;
  - the time of day and the time zone are ignored.

  The model's dates are unbounded proleptic Gregorian dates.
- The clock: `new Date()` is replaced by a `today` parameter.
- The task query, `fetchTasks` (`app/screens/Calendar.tsx:52-79`). `fetchTasks` is a Firestore call. The locale formats `toLocaleDateString('en-GB')` (:55) and `toLocaleString` (:124) are left out as well. The selected date it is built from is modelled by `MakeDate` (see `SelectedDayOutOfMonth`).
- `formatDate`'s output is modelled, but the screen never calls it.
- All animations (calendar zoom, task fade, card spring and fade, home fade value), styles and layout.
- In the card, the animation is reduced to two events: the delete press and the animation's completion.
- Navigation wiring:
  - `go_to_chat` and `go_to_login` (`app/screens/Home.tsx:60-67`) and the layout and routing files are not modelled;
  - the Login navigation of the auth callback is recorded only as an entry in `navigations`;
  - the auth subscription and its clean-up are not modelled.
- `CalendarGrid.Unshift`: JavaScript's `unshift` grows the array in place. Dafny arrays have a fixed length, so the method returns a new array with the blanks in front. `GetAdjustedDays` still copies `days` first and never writes to it.
- NotesCard.DeleteButtonColor:
  - the colour constants of `../colors` are not part of this model;
  - they are an enumeration that assumes blue, red, green and yellow are distinct strings;
  - every other value, including `undefined`, is `Unlisted`.

  `Notes.tsx` passes `text` and `index` to the card while the card reads `name`, `contents` and `color`. So in the app every card's colour is `undefined` and its button is yellow's secondary shade. The model keeps `Render`'s props as parameters.
- `createdAt` and its display are not modelled.
- Chat, Seeds, SeedCard, Login, SignUp and the other two merge copies of `Home.tsx` (lines 223-405 and 408-590) are not part of this model.

## Findings

| source | as written | input that shows it | evidently intended | confidence | as-written member | corrected member |
|---|---|---|---|---|---|---|
| app/screens/Calendar.tsx:44-45 | A month starting on Sunday gets no leading blanks; the inner `=== 0 ? 6` branch is dead. | February 2026 (the 1st is a Sunday): day 1 is drawn under "Mon", and every day sits under the next weekday's header (one column to the right; Monday 2 February under "Tue"). | Six blanks before a Sunday, so every day is under its own weekday. | not executed | CalendarGrid.SundayMonthMisaligned | CalendarGrid.IntendedGridAligned |
| app/screens/Calendar.tsx:39 | The selected day resets to today's day when the month index matches, whatever the year. | Today 29 February 2028, "<" pressed twelve times (each press is `changeMonth(-1)`, :121): February 2027 with day 29 selected in a 28-day month; the task date becomes 1 March 2027. In general (`SelectedDayOverflow`), the selected day is past the month's end exactly when today is 29 February and February of a common year is shown. | Compare the year as well, as `isCurrentMonth` (:32) does. | not executed | CalendarScreen.SelectedDayOutOfMonth | CalendarScreen.IntendedSelectedDay |
| app/screens/Calendar.tsx:91 | `isCurrentDay` compares the cell with `currentDate.getDate()`, which becomes 1 after any navigation. | Today 14 October 2026, `changeMonth(1)` then `changeMonth(-1)`: the 1st is marked as today, the 14th is not. | Compare with today's day of the month. | not executed | CalendarScreen.TodayMarkMovesAfterNavigation | CalendarScreen.IsToday |
