# Multi-range date picker: a verified model

This project models the logic of a React multi-range date picker. The picker
keeps up to six coloured date ranges, the id of the range that currently
receives day clicks, and the month the calendar shows. Its calendar lays out
that month as a seven-column grid.

The model has three modules:

- `Dates` is the calendar the JavaScript `Date` object provides.
  - The Gregorian month lengths and day numbers.
  - The weekday of a date (`getDay`, 0 is Sunday).
  - The constructor `new Date(year, month, day)` as `MakeDate`. It reads years 0..99 as 1900..1999, carries the month into the year, and carries an out-of-range day into the neighbouring months. Day 0 of a month is therefore the last day of the month before.
  - The source compares dates by their time values. The model compares them by day numbers (`Ordinal`), and `OrdinalOrderIff` proves that this order is plain calendar order.
- `DateRangeSelector` is the component's state and handlers.
  - The class `Selector` holds the fields `ranges`, `selectedRange` and `currentMonth`. Each handler (`addNewRange`, `removeRange`, selecting a range, `handleDateClick`, previous and next month) is a method that changes those fields. Each method keeps the invariant `Valid()`: at most six ranges, unique ids, start no later than end, and real calendar days.
  - The pure parts are functions with their own contracts and lemmas: the per-range click transition, the filter of `removeRange`, `getDaysInMonth`, and the three membership queries.
- `Calendar` is the month grid of the calendar component.
  - The leading cells show the last days of the previous month, and then come the day cells `1..days`.
  - The lemmas prove that every cell stands under its weekday column.
  - `DayClasses` builds a day cell's class list with a loop, as the source does with `forEach` and `push`.
  - `HighlightOf` is the highlight decision of each range for a day cell.

`removeRange` is modelled as written. The repaired selection is taken from the list *before* the removal. So removing the selected range when it is the first one leaves the selection naming the removed id. `SelectionAfterRemoveNamesRange` states exactly when the selection after a removal still names a range. The picker's design description says the selection always names a range or is empty. The code does not keep that rule, and the model follows the code.

## Model

| member | source | states |
|---|---|---|
| Dates.DaysInMonth | src/components/DateRangeSelector/DateRangeSelector.tsx:51 | a month has 28 to 31 days; February has 28 days exactly in common years and 29 exactly in leap years |
| Dates.ConstructorYear | src/components/DateRangeSelector/DateRangeSelector.tsx:65-69 | the `Date` constructor keeps a year unless it lies in 0..99, and reads such a year as the year of the 1900s with the same last two digits |
| Dates.MakeDate | src/components/DateRangeSelector/DateRangeSelector.tsx:65-69 | `new Date(year, month, day)` is a valid calendar date whose day number is that of the given day, with the month carried into the year (floor division) and the day carried across months |
| Dates.MakeDateOfValid | src/components/DateRangeSelector/DateRangeSelector.tsx:65-69 | rebuilding a valid date from its own year, month and day gives it back, for years the constructor reads as given |
| Dates.OrdinalOrderIff | src/components/DateRangeSelector/DateRangeSelector.tsx:78 | for valid dates, comparing time values (day numbers) is calendar order, and equal time values mean equal dates |
| Dates.DayZeroIsLastDay | src/components/DateRangeSelector/DateRangeSelector.tsx:51 | day 0 of month m + 1 is the last day of month m, across the December/January boundary too |
| Dates.DayZeroIsPreviousMonthEnd | src/components/DateRangeSelector/Calendar.tsx:30-34 | day 0 of month m is the last day of the month before, in December of the previous year when m is January |
| Dates.Weekday | src/components/DateRangeSelector/DateRangeSelector.tsx:52 | `getDay` is in 0..6; the two anchor lemmas and `NextDayNextWeekday` below tie it to the real calendar |
| Dates.February2024IsThursday | src/components/DateRangeSelector/DateRangeSelector.tsx:52 | the weekday function puts 1 February 2024 on a Thursday (4) |
| Dates.January1970IsThursday | src/components/DateRangeSelector/DateRangeSelector.tsx:52 | the weekday function puts 1 January 1970 on a Thursday (4) |
| Dates.NextDayNextWeekday | src/components/DateRangeSelector/DateRangeSelector.tsx:52 | consecutive days fall on consecutive weekdays, Saturday followed by Sunday |
| DateRangeSelector.CellDate | src/components/DateRangeSelector/DateRangeSelector.tsx:65-69 | the date of day `day` of the month shown is a valid date whose day number is that of `day` counted from the first of that month, in the year the constructor reads |
| DateRangeSelector.GetDaysInMonth | src/components/DateRangeSelector/DateRangeSelector.tsx:48-54 | `days` is the Gregorian length of the month shown, and `firstDay` is in 0..6 and is the weekday of its first day |
| DateRangeSelector.February2024 | src/components/DateRangeSelector/DateRangeSelector.tsx:48-54 | February 2024 has 29 days and starts on a Thursday |
| DateRangeSelector.February2023 | src/components/DateRangeSelector/DateRangeSelector.tsx:48-54 | February 2023 has 28 days |
| DateRangeSelector.PreviousMonthOf | src/components/DateRangeSelector/DateRangeSelector.tsx:144 | going back a month gives the first of the previous month, in December of the previous year from January |
| DateRangeSelector.NextMonthOf | src/components/DateRangeSelector/DateRangeSelector.tsx:145 | going forward a month gives the first of the next month, in January of the next year from December |
| DateRangeSelector.NavigationRoundTrip | src/components/DateRangeSelector/DateRangeSelector.tsx:144-145 | for years the constructor reads as given, back then forward returns to the first of the month shown unless it is January 100, and forward then back does unless it is December of year -1 |
| DateRangeSelector.NavigationFromJanuary100 | src/components/DateRangeSelector/DateRangeSelector.tsx:144-145 | back from January 100 gives December 99, which the constructor reads as 1999, so forward again gives January 2000 |
| DateRangeSelector.NavigationFromDecemberMinus1 | src/components/DateRangeSelector/DateRangeSelector.tsx:144-145 | forward from December of year -1 gives January of year 0, read as 1900, so back again gives December 1899 |
| DateRangeSelector.Click | src/components/DateRangeSelector/DateRangeSelector.tsx:74-82 | an empty or complete range restarts at the clicked day with no end; a partial range becomes complete on its old start and the clicked day, in order; id and colour never change |
| DateRangeSelector.ClickKeepsRangeWellFormed | src/components/DateRangeSelector/DateRangeSelector.tsx:74-82 | a click keeps start no later than end, and an end only with a start |
| DateRangeSelector.TwoClicks | src/components/DateRangeSelector/DateRangeSelector.tsx:74-82 | two clicks on an empty or complete range give the range from the earlier day to the later, in either click order |
| DateRangeSelector.SwapExample | src/components/DateRangeSelector/DateRangeSelector.tsx:78-79 | clicking 10 and then 5 February 2024 gives 5 to 10 February |
| DateRangeSelector.ClickSelected | src/components/DateRangeSelector/DateRangeSelector.tsx:71-83 | the list keeps its length; only ranges with the selected id make the transition, every other range is untouched |
| DateRangeSelector.ClickKeepsStore | src/components/DateRangeSelector/DateRangeSelector.tsx:71-83 | a click keeps the store invariant and every range's id in place |
| DateRangeSelector.ClickWithoutSelection | src/components/DateRangeSelector/DateRangeSelector.tsx:72 | with a selection that names no range, a click changes nothing |
| DateRangeSelector.ClicksKeepStore | src/components/DateRangeSelector/DateRangeSelector.tsx:64-84 | start no later than end, and the rest of the store invariant, hold after any sequence of clicks |
| DateRangeSelector.RemoveId | src/components/DateRangeSelector/DateRangeSelector.tsx:42 | the result holds exactly the ranges of the list whose id differs from the removed one |
| DateRangeSelector.RemoveIdAppend | src/components/DateRangeSelector/DateRangeSelector.tsx:42 | removal distributes over concatenation, so relative order is kept |
| DateRangeSelector.RemoveIdAt | src/components/DateRangeSelector/DateRangeSelector.tsx:42 | with unique ids, removing the id at index k cuts out exactly that entry and keeps the rest in order |
| DateRangeSelector.RemoveIdAbsent | src/components/DateRangeSelector/DateRangeSelector.tsx:42 | removing an id that no range has leaves the list unchanged |
| DateRangeSelector.RemoveIdIds | src/components/DateRangeSelector/DateRangeSelector.tsx:42 | an id remains after removal if and only if it was present and is not the removed one |
| DateRangeSelector.RemoveKeepsStore | src/components/DateRangeSelector/DateRangeSelector.tsx:42 | removal keeps the store invariant |
| DateRangeSelector.SelectionAfterRemove | src/components/DateRangeSelector/DateRangeSelector.tsx:43-45 | a selection other than the removed id is kept; a selected removed id becomes '' or an id of the list before removal, and one of that list's ids whenever the removed id was in it |
| DateRangeSelector.SelectionAfterRemoveNamesRange | src/components/DateRangeSelector/DateRangeSelector.tsx:43-45 | after a removal the selection is empty or names a remaining range if and only if the removed range was not both selected and first |
| DateRangeSelector.FindById | src/components/DateRangeSelector/DateRangeSelector.tsx:92 | `find` fails exactly when no range has the id; otherwise it returns the first range of the list with that id, and with unique ids the one at that id's index |
| DateRangeSelector.IsDateInRange | src/components/DateRangeSelector/DateRangeSelector.tsx:86-95 | false for an unknown id or a range without both ends; for a well-formed store, true exactly when the day lies from start to end inclusive |
| DateRangeSelector.IsDateStart | src/components/DateRangeSelector/DateRangeSelector.tsx:97-105 | false for an unknown id; for a well-formed store, true exactly when the range starts on that day |
| DateRangeSelector.IsDateEnd | src/components/DateRangeSelector/DateRangeSelector.tsx:107-115 | false for an unknown id; for a well-formed store, true exactly when the range ends on that day |
| DateRangeSelector.Selector.constructor | src/components/DateRangeSelector/DateRangeSelector.tsx:23-27 | the state starts with one empty range '1' in the first colour, selected, showing today's month |
| DateRangeSelector.Selector.AddNewRange | src/components/DateRangeSelector/DateRangeSelector.tsx:29-39 | at six ranges nothing changes; otherwise exactly one empty range with the next colour is appended after the unchanged old ones and becomes the selection; the invariant (at most six ranges) is kept |
| DateRangeSelector.Selector.RemoveRange | src/components/DateRangeSelector/DateRangeSelector.tsx:41-46 | the ranges become the filtered list; a selected removed id is replaced by the first id of the list before removal, or '' for an empty list; any other selection is unchanged |
| DateRangeSelector.Selector.SelectRange | src/components/DateRangeSelector/DateRangeSelector.tsx:134 | selecting a range sets the selection and changes nothing else |
| DateRangeSelector.Selector.HandleDateClick | src/components/DateRangeSelector/DateRangeSelector.tsx:64-84 | the clicked day of the month shown is applied to the selected range only; the selection and the month are unchanged; the invariant is kept |
| DateRangeSelector.Selector.PrevMonth | src/components/DateRangeSelector/DateRangeSelector.tsx:144 | the month shown becomes the first of the previous month; ranges and selection are unchanged |
| DateRangeSelector.Selector.NextMonth | src/components/DateRangeSelector/DateRangeSelector.tsx:145 | the month shown becomes the first of the next month; ranges and selection are unchanged |
| Calendar.PrevMonthDays | src/components/DateRangeSelector/Calendar.tsx:30-34 | the length of the month before the one shown, December of the previous year for January |
| Calendar.MonthGrid | src/components/DateRangeSelector/Calendar.tsx:68-75 | there are `firstDay` (at most 6) leading cells whose labels are consecutive, each between 1 and the length of the previous month, the last equal to that length; the day cells are exactly 1..days in order |
| Calendar.LeadingCell | src/components/DateRangeSelector/Calendar.tsx:68-70 | the i-th leading label is a real day of the previous month that fell on weekday i |
| Calendar.DayCell | src/components/DateRangeSelector/Calendar.tsx:74-75 | day i + 1 of a month whose first day is weekday f falls on weekday (f + i) mod 7 |
| Calendar.LeadingCellsAreWeekdays | src/components/DateRangeSelector/Calendar.tsx:62-72 | every leading cell stands under the weekday header of the day it shows |
| Calendar.DayCellsAreWeekdays | src/components/DateRangeSelector/Calendar.tsx:62-75 | every day cell stands under the weekday header of the day it shows |
| Calendar.CellDateInMonth | src/components/DateRangeSelector/Calendar.tsx:74-86 | the date built from a day number of the month shown is that calendar day |
| Calendar.DayCellDates | src/components/DateRangeSelector/Calendar.tsx:74-86 | a click on day cell i reports day i + 1, which is day i + 1 of the month shown |
| Calendar.DayClasses | src/components/DateRangeSelector/Calendar.tsx:76-81 | the class list is 'day' followed only by 'range-start' and 'range-end'; for a well-formed store, 'range-start' appears once per range starting on the day and 'range-end' once per range ending on it |
| Calendar.HighlightOf | src/components/DateRangeSelector/Calendar.tsx:89-94 | a range's highlight is its own colour or nothing; for a well-formed store it appears exactly when the day is the range's start or lies inside the complete range |
| Calendar.HighlightMeaning | src/components/DateRangeSelector/Calendar.tsx:90-94 | for a well-formed store, "start or end or inside" is the same as "start, or inside the complete range" |
| Calendar.Highlights | src/components/DateRangeSelector/Calendar.tsx:89-104 | the cell has one highlight per range, in list order, each in that range's own colour; for a well-formed store a range's highlight is present exactly when the day is its start or lies inside it as a complete range |
| Calendar.HighlightByState | src/components/DateRangeSelector/Calendar.tsx:89-94 | an empty range highlights no day, a partial range only its start, and a complete range exactly the days from its start to its end |

## Left out

- Rendering is not modelled: JSX markup, CSS class strings joined with spaces, inline styles, and DOM event wiring. Only the values the markup is built from are modelled.
- `src/components/DateRangeSelector/DateRange.tsx` and `src/App.tsx` only render and mount components, so they are not part of this model.
- `formatDate` is a thin wrapper over `toLocaleDateString`, and the model has no locale formatting.
- The year dropdown is not modelled. Its options come from the wall clock. Its `onChange` calls `onYearChange`, which `Calendar` declares but `DateRangeSelector` never passes, so changing the year has no modelled effect.
- There is no dual-view calendar and no synchronisation between two month cursors in the code. The picker's design description mentions both, but neither is modelled.
- Clocks are parameters. `new Date()` for the initial month is the constructor's `today` argument. `Date.now().toString()` for a new id is `AddNewRange`'s `freshId` argument.
- React state batching and stale closures are not modelled. Each handler is one atomic transition of the three state fields.
- Time zones and times of day are not modelled. Of the current instant `new Date()` only the year and month are read; every date the source builds from a day number is a local midnight. The model compares day numbers where the source compares millisecond time values, which assumes local midnights keep day order and equality.
- The model's years are unbounded integers. JavaScript's `Date` has a finite range, and an out-of-range date is an Invalid Date; that error path is not modelled.
- The two UI guards are not modelled: the add button appears only below six ranges, and the remove button only with more than one range. The handlers are modelled without them, as the source defines them.
- Dates.Weekday: its own contract states only the range 0..6; its agreement with the calendar is stated by `January1970IsThursday`, `February2024IsThursday` and `NextDayNextWeekday`.
- DateRangeSelector.Selector.AddNewRange: requires `freshId` to be new among the ids, standing in for the uniqueness of `Date.now()` ids, which the source takes for granted.
- Every `Selector` method requires `Valid()`, which the constructor establishes and every method keeps.
- DateRangeSelector.NavigationRoundTrip: requires a year outside 0..99, because the constructor reads those years as 19xx and the month shown is then not one the round trip can return to. January 100 and December of year -1 are excluded from one direction each, because the intermediate month falls in year 99 or 0; `NavigationFromJanuary100` and `NavigationFromDecemberMinus1` state what happens there.
- DateRangeSelector.IsDateInRange: the exact characterisation is stated for a well-formed store. With duplicate ids `find` consults the first matching range, as `FindById` states; for any store the query promises only that a true answer names a range with both ends set.
- DateRangeSelector.IsDateStart: the exact characterisation is stated for a well-formed store; for any store a true answer only implies that the id exists.
- DateRangeSelector.IsDateEnd: the exact characterisation is stated for a well-formed store; for any store a true answer only implies that the id exists.
- Calendar.DayClasses: the class counts are stated for a well-formed store; for any store it states only the shape of the list.
- Calendar.HighlightOf: the meaning of the highlight is stated for a well-formed store; for any store it states only that the colour is the range's own.
