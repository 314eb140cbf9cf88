/** The proleptic Gregorian calendar, and the part of JavaScript's `Date` that the
    date-range selector relies on: `new Date(year, month, day)` at local midnight,
    with its normalisation of out-of-range months and days, `getDate`, `getDay`,
    and comparison of two dates through their time values. Time of day and time
    zones play no part: of the current instant the selector reads only the year
    and the month, and every date it builds from a day number is a local
    midnight, so a date is identified with its calendar day. */
module Dates {

  /** A month index as JavaScript's `getMonth` returns it: 0 is January. */
  type Month = m: int | 0 <= m < 12

  /** A calendar day: `getFullYear`, `getMonth` and `getDate` of a `Date`. */
  datatype Date = Date(year: int, month: Month, day: int)

  predicate IsLeapYear(y: int) {
    y % 4 == 0 && (y % 100 != 0 || y % 400 == 0)
  }

  /** Length of month `m` of year `y` in the Gregorian calendar. */
  function DaysInMonth(y: int, m: Month): (n: int)
    ensures 28 <= n <= 31
    ensures n == 28 <==> m == 1 && !IsLeapYear(y)
    ensures n == 29 <==> m == 1 && IsLeapYear(y)
  {
    if m == 1 then (if IsLeapYear(y) then 29 else 28)
    else if m == 3 || m == 5 || m == 8 || m == 10 then 30
    else 31
  }

  function DaysInYear(y: int): int {
    if IsLeapYear(y) then 366 else 365
  }

  /** A day that exists in the calendar (every `Date` the source builds is one). */
  predicate ValidDate(d: Date) {
    1 <= d.day <= DaysInMonth(d.year, d.month)
  }

  /** Number of leap years in 1..y (for y < 1, minus the number in y+1..0). */
  function LeapYearsThrough(y: int): int {
    y / 4 - y / 100 + y / 400
  }

  /** Days from 1 January of year 1 to 1 January of year `y` (negative before
      year 1), year by year. */
  function DaysBeforeYear(y: int): int
    decreases if y >= 1 then y - 1 else 1 - y
  {
    if y == 1 then 0
    else if y > 1 then DaysBeforeYear(y - 1) + DaysInYear(y - 1)
    else DaysBeforeYear(y + 1) - DaysInYear(y)
  }

  /** Days from 1 January to the first day of month `m` of year `y`. */
  function DaysBeforeMonth(y: int, m: Month): int {
    [0, 31, 59, 90, 120, 151, 181, 212, 243, 273, 304, 334][m]
      + (if m >= 2 && IsLeapYear(y) then 1 else 0)
  }

  /** Day number of day `d` of month `m` of year `y`, counting 1 January of year 1
      as 0; `d` may lie outside the month, as in `MakeDay` of ECMAScript. */
  function DayNumber(y: int, m: Month, d: int): int {
    DaysBeforeYear(y) + DaysBeforeMonth(y, m) + d - 1
  }

  /** The time value of a date at local midnight, in days. */
  function Ordinal(d: Date): int {
    DayNumber(d.year, d.month, d.day)
  }

  /** `getDay`: 0 is Sunday. 1 January of year 1 (day number 0) was a Monday. */
  function Weekday(d: Date): (w: int)
    ensures 0 <= w < 7
  {
    (Ordinal(d) + 1) % 7
  }

  /** Calendar order, written independently of day numbers. */
  predicate Precedes(a: Date, b: Date) {
    a.year < b.year
    || (a.year == b.year && (a.month < b.month || (a.month == b.month && a.day < b.day)))
  }

  /** First day of the month after month `m` of year `y`. */
  function FirstOfNextMonth(y: int, m: Month): Date {
    if m == 11 then Date(y + 1, 0, 1) else Date(y, m + 1, 1)
  }

  /** First day of the month before month `m` of year `y`. */
  function FirstOfPreviousMonth(y: int, m: Month): Date {
    if m == 0 then Date(y - 1, 11, 1) else Date(y, m - 1, 1)
  }

  lemma FloorStep4(y: int)
    ensures y / 4 == (y - 1) / 4 + (if y % 4 == 0 then 1 else 0)
  {
  }

  lemma FloorStep100(y: int)
    ensures y / 100 == (y - 1) / 100 + (if y % 100 == 0 then 1 else 0)
  {
  }

  lemma FloorStep400(y: int)
    ensures y / 400 == (y - 1) / 400 + (if y % 400 == 0 then 1 else 0)
  {
  }

  lemma LeapYearsStep(y: int)
    ensures LeapYearsThrough(y) == LeapYearsThrough(y - 1) + (if IsLeapYear(y) then 1 else 0)
  {
    FloorStep4(y);
    FloorStep100(y);
    FloorStep400(y);
    MultipleOf400(y);
    MultipleOf100(y);
  }

  lemma MultipleOf400(y: int)
    ensures y % 400 == 0 ==> y % 100 == 0
  {
    if y % 400 == 0 {
      var q := y / 400;
      assert y == 100 * (4 * q);
    }
  }

  lemma MultipleOf100(y: int)
    ensures y % 100 == 0 ==> y % 4 == 0
  {
    if y % 100 == 0 {
      var q := y / 100;
      assert y == 4 * (25 * q);
    }
  }

  /** A year holds DaysInYear days. */
  lemma YearStep(y: int)
    ensures DaysBeforeYear(y + 1) == DaysBeforeYear(y) + DaysInYear(y)
  {
  }

  /** The closed form: 365 days a year plus one per leap year before `y`. */
  lemma {:induction false} DaysBeforeYearClosedForm(y: int)
    ensures DaysBeforeYear(y) == 365 * (y - 1) + LeapYearsThrough(y - 1)
    decreases if y >= 1 then y - 1 else 1 - y
  {
    if y > 1 {
      DaysBeforeYearClosedForm(y - 1);
      LeapYearsStep(y - 1);
    } else if y < 1 {
      DaysBeforeYearClosedForm(y + 1);
      LeapYearsStep(y);
    }
  }

  /** The first day of the next month comes DaysInMonth days after the first day
      of this one, across a year boundary too. */
  lemma MonthStep(y: int, m: Month)
    ensures var n := FirstOfNextMonth(y, m);
      DayNumber(n.year, n.month, 1) == DayNumber(y, m, 1) + DaysInMonth(y, m)
  {
    if m == 11 {
      YearStep(y);
    }
  }

  /** A month ends before any later month of the same year begins. */
  lemma MonthsOfYearOrdered(y: int, m: Month, m': Month)
    requires m < m'
    ensures DaysBeforeMonth(y, m) + DaysInMonth(y, m) <= DaysBeforeMonth(y, m')
  {
  }

  /** A day of a month lies before the end of its year. */
  lemma MonthWithinYear(y: int, m: Month)
    ensures DaysBeforeMonth(y, m) + DaysInMonth(y, m) <= DaysInYear(y)
  {
  }

  lemma {:induction false} YearsOrdered(x: int, y: int)
    requires x < y
    ensures DaysBeforeYear(x) + DaysInYear(x) <= DaysBeforeYear(y)
    decreases y - x
  {
    YearStep(x);
    if x + 1 < y {
      YearsOrdered(x + 1, y);
    }
  }

  /** Day numbers of valid dates follow the calendar order: the time-value
      comparison `a < b` of JavaScript agrees with comparing year, then month,
      then day. */
  lemma OrdinalOrder(a: Date, b: Date)
    requires ValidDate(a) && ValidDate(b)
    ensures Precedes(a, b) ==> Ordinal(a) < Ordinal(b)
  {
    if a.year < b.year {
      MonthWithinYear(a.year, a.month);
      YearsOrdered(a.year, b.year);
    } else if a.year == b.year && a.month < b.month {
      MonthsOfYearOrdered(a.year, a.month, b.month);
    }
  }

  /** Comparing time values is comparing calendar days, in both directions, and
      equal time values mean the same day. */
  lemma OrdinalOrderIff(a: Date, b: Date)
    ensures ValidDate(a) && ValidDate(b) ==> (Ordinal(a) < Ordinal(b) <==> Precedes(a, b))
    ensures ValidDate(a) && ValidDate(b) ==> (Ordinal(a) == Ordinal(b) <==> a == b)
  {
    if ValidDate(a) && ValidDate(b) {
      OrdinalOrder(a, b);
      OrdinalOrder(b, a);
    }
  }

  /** The year rule of JavaScript's `Date` constructor: a year argument in 0..99
      means 1900 + year. */
  function ConstructorYear(y: int): (r: int)
    ensures r == y <==> !(0 <= y <= 99)
    ensures 0 <= y <= 99 ==> 1900 <= r <= 1999 && r % 100 == y
  {
    if 0 <= y <= 99 then 1900 + y else y
  }

  /** Day `d` counted from the first of month `m` of year `y`, carried into the
      neighbouring months while it falls outside month `m`. */
  function NormalizeDay(y: int, m: Month, d: int): (r: Date)
    ensures ValidDate(r)
    ensures Ordinal(r) == DayNumber(y, m, d)
    decreases if d < 1 then 1 else 0, if d < 1 then -d else d
  {
    if d < 1 then
      var p := FirstOfPreviousMonth(y, m);
      MonthStep(p.year, p.month);
      NormalizeDay(p.year, p.month, d + DaysInMonth(p.year, p.month))
    else if d > DaysInMonth(y, m) then
      var n := FirstOfNextMonth(y, m);
      MonthStep(y, m);
      NormalizeDay(n.year, n.month, d - DaysInMonth(y, m))
    else
      Date(y, m, d)
  }

  /** `new Date(year, month, day)`: the year rule above, then the month carried
      into the year (`floor(month / 12)` and `month modulo 12`), then the day
      carried into the months, as ECMAScript's `MakeDay` does. The result is the
      one valid date whose time value is that day number. */
  function MakeDate(year: int, month: int, day: int): (r: Date)
    ensures ValidDate(r)
    ensures Ordinal(r) == DayNumber(ConstructorYear(year) + month / 12, month % 12, day)
  {
    NormalizeDay(ConstructorYear(year) + month / 12, month % 12, day)
  }

  /** A valid date is rebuilt unchanged from its own fields (outside the years
      0..99 that the constructor reads as 19xx). */
  lemma MakeDateOfValid(d: Date)
    requires ValidDate(d) && !(0 <= d.year <= 99)
    ensures MakeDate(d.year, d.month, d.day) == d
  {
    var r := MakeDate(d.year, d.month, d.day);
    assert Ordinal(r) == Ordinal(d);
    OrdinalOrderIff(r, d);
  }

  /** Day 0 of the month after `m` is the last day of month `m`; this is how the
      source obtains a month's length. */
  lemma {:induction false} DayZeroIsLastDay(year: int, m: Month)
    ensures MakeDate(year, m + 1, 0)
         == Date(ConstructorYear(year), m, DaysInMonth(ConstructorYear(year), m))
  {
    var y := ConstructorYear(year);
    var r := MakeDate(year, m + 1, 0);
    var last := Date(y, m, DaysInMonth(y, m));
    MonthStep(y, m);
    OrdinalOrderIff(r, last);
  }

  /** Day 0 of month `m` is the last day of the month before it, in the previous
      year when `m` is January. */
  lemma {:induction false} DayZeroIsPreviousMonthEnd(year: int, m: Month)
    ensures var p := FirstOfPreviousMonth(ConstructorYear(year), m);
      MakeDate(year, m, 0) == Date(p.year, p.month, DaysInMonth(p.year, p.month))
  {
    var y := ConstructorYear(year);
    var p := FirstOfPreviousMonth(y, m);
    var r := MakeDate(year, m, 0);
    var last := Date(p.year, p.month, DaysInMonth(p.year, p.month));
    MonthStep(p.year, p.month);
    OrdinalOrderIff(r, last);
  }

  /** Consecutive days fall on consecutive weekdays. */
  lemma NextDayNextWeekday(a: Date, b: Date)
    requires Ordinal(b) == Ordinal(a) + 1
    ensures Weekday(b) == (Weekday(a) + 1) % 7
  {
    WeekdayStep(Ordinal(a) + 1, Ordinal(b) + 1);
  }

  lemma WeekdayStep(x: int, y: int)
    requires y == x + 1
    ensures y % 7 == (x % 7 + 1) % 7
  {
  }

  /** Anchor against the real calendar: 1 January 1970 was a Thursday. (The
      year is a parameter so that the verifier does not unfold DaysBeforeYear
      year by year.) */
  lemma January1970IsThursday(y: int)
    requires y == 1970
    ensures Weekday(Date(y, 0, 1)) == 4
  {
    DaysBeforeYearClosedForm(y);
    assert DaysBeforeYear(y) == 719162;
  }

  /** Anchor against the real calendar: 1 February 2024 was a Thursday. */
  lemma February2024IsThursday(y: int)
    requires y == 2024
    ensures Weekday(Date(y, 1, 1)) == 4
  {
    DaysBeforeYearClosedForm(y);
    assert DaysBeforeYear(y) == 738885;
  }
}
