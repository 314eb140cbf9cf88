/** The calendar's month grid: leading cells with the last days of the previous
    month, then one cell per day of the month shown, seven to a row starting on
    Sunday; and, for each day cell, the CSS classes and highlights the ranges
    give it. */
module Calendar {
  import opened Dates
  import opened DateRangeSelector

  /** `prevMonthDays`: day 0 of the month shown is the last day of the month
      before it, in December of the previous year when the month is January. */
  function PrevMonthDays(currentMonth: Date): (n: int)
    ensures var p := FirstOfPreviousMonth(ConstructorYear(currentMonth.year), currentMonth.month);
      n == DaysInMonth(p.year, p.month)
  {
    DayZeroIsPreviousMonthEnd(currentMonth.year, currentMonth.month);
    MakeDate(currentMonth.year, currentMonth.month, 0).day
  }

  /** The day numbers written in the cells: `leading` for the greyed-out days of
      the previous month, `days` for the month shown. */
  datatype Grid = Grid(leading: seq<int>, days: seq<int>)

  /** The grid for the month shown. */
  function MonthGrid(currentMonth: Date): (g: Grid)
    ensures |g.leading| == GetDaysInMonth(currentMonth).firstDay <= 6
    ensures |g.days| == DaysInMonth(ConstructorYear(currentMonth.year), currentMonth.month)
    ensures forall i :: 0 <= i < |g.days| ==> g.days[i] == i + 1
    ensures forall i :: 0 < i < |g.leading| ==> g.leading[i] == g.leading[i - 1] + 1
    ensures |g.leading| > 0 ==> g.leading[|g.leading| - 1] == PrevMonthDays(currentMonth)
    ensures forall i :: 0 <= i < |g.leading| ==> 1 <= g.leading[i] <= PrevMonthDays(currentMonth)
  {
    var info := GetDaysInMonth(currentMonth);
    var prevMonthDays := PrevMonthDays(currentMonth);
    Grid(seq(info.firstDay, i => prevMonthDays - info.firstDay + i + 1),
         seq(info.days, i => i + 1))
  }

  lemma Mod7Shift(a: int, f: int, i: int)
    requires f == a % 7
    ensures (a - f + i) % 7 == i % 7
  {
  }

  /** In a month of year `y` whose first day falls on weekday `f`, the i-th
      of the last `f` days of the month before falls on weekday i. */
  lemma {:induction false} LeadingCell(y: int, m: Month, f: int, i: int)
    requires f == Weekday(Date(y, m, 1)) && 0 <= i < f
    ensures var p := FirstOfPreviousMonth(y, m);
      var shown := DaysInMonth(p.year, p.month) - f + i + 1;
      ValidDate(Date(p.year, p.month, shown)) && Weekday(Date(p.year, p.month, shown)) == i
  {
    var p := FirstOfPreviousMonth(y, m);
    var shown := DaysInMonth(p.year, p.month) - f + i + 1;
    assert FirstOfNextMonth(p.year, p.month) == Date(y, m, 1);
    MonthStep(p.year, p.month);
    assert Ordinal(Date(p.year, p.month, shown)) + 1 == Ordinal(Date(y, m, 1)) + 1 - f + i;
    Mod7Shift(Ordinal(Date(y, m, 1)) + 1, f, i);
  }

  /** In a month whose first day falls on weekday `f`, day i + 1 falls on
      weekday (f + i) mod 7. */
  lemma {:induction false} DayCell(y: int, m: Month, f: int, i: int)
    requires f == Weekday(Date(y, m, 1)) && 0 <= i < DaysInMonth(y, m)
    ensures ValidDate(Date(y, m, i + 1)) && Weekday(Date(y, m, i + 1)) == (f + i) % 7
  {
    assert Ordinal(Date(y, m, i + 1)) + 1 == Ordinal(Date(y, m, 1)) + 1 - f + (f + i);
    Mod7Shift(Ordinal(Date(y, m, 1)) + 1, f, f + i);
  }

  /** The leading cells stand in the weekday columns of the days they show:
      leading cell i shows a day of the previous month that fell on weekday i. */
  lemma {:induction false} LeadingCellsAreWeekdays(currentMonth: Date)
    ensures var g := MonthGrid(currentMonth);
      var p := FirstOfPreviousMonth(ConstructorYear(currentMonth.year), currentMonth.month);
      forall i :: 0 <= i < |g.leading| ==>
        ValidDate(Date(p.year, p.month, g.leading[i])) && Weekday(Date(p.year, p.month, g.leading[i])) == i
  {
    var g := MonthGrid(currentMonth);
    var y := ConstructorYear(currentMonth.year);
    var m := currentMonth.month;
    var f := GetDaysInMonth(currentMonth).firstDay;
    forall i | 0 <= i < |g.leading|
      ensures var p := FirstOfPreviousMonth(y, m);
        ValidDate(Date(p.year, p.month, g.leading[i])) && Weekday(Date(p.year, p.month, g.leading[i])) == i
    {
      assert g.leading[i] == PrevMonthDays(currentMonth) - f + i + 1;
      LeadingCell(y, m, f, i);
    }
  }

  /** The day cells continue the rows: day cell i shows day i + 1 of the month,
      which falls on weekday (leading + i) mod 7. */
  lemma {:induction false} DayCellsAreWeekdays(currentMonth: Date)
    ensures var g := MonthGrid(currentMonth);
      var y := ConstructorYear(currentMonth.year);
      forall i :: 0 <= i < |g.days| ==>
        ValidDate(Date(y, currentMonth.month, g.days[i]))
        && Weekday(Date(y, currentMonth.month, g.days[i])) == (|g.leading| + i) % 7
  {
    var g := MonthGrid(currentMonth);
    var y := ConstructorYear(currentMonth.year);
    var m := currentMonth.month;
    var f := GetDaysInMonth(currentMonth).firstDay;
    assert |g.leading| == f;
    forall i | 0 <= i < |g.days|
      ensures ValidDate(Date(y, m, g.days[i])) && Weekday(Date(y, m, g.days[i])) == (f + i) % 7
    {
      assert g.days[i] == i + 1;
      DayCell(y, m, f, i);
    }
  }

  /** Day `day` of the month shown, built with the constructor, is that very
      calendar day. */
  lemma CellDateInMonth(currentMonth: Date, day: int)
    requires 1 <= day <= DaysInMonth(ConstructorYear(currentMonth.year), currentMonth.month)
    ensures CellDate(currentMonth, day) == Date(ConstructorYear(currentMonth.year), currentMonth.month, day)
  {
    var d := Date(ConstructorYear(currentMonth.year), currentMonth.month, day);
    assert ValidDate(d);
    assert currentMonth.month / 12 == 0 && currentMonth.month % 12 == currentMonth.month;
    OrdinalOrderIff(CellDate(currentMonth, day), d);
  }

  /** Day cell i reports its label i + 1 when clicked, and the date built from
      that shown is day i + 1 of the month shown. */
  lemma {:induction false} DayCellDates(currentMonth: Date)
    ensures var g := MonthGrid(currentMonth);
      forall i :: 0 <= i < |g.days| ==>
        CellDate(currentMonth, g.days[i]) == Date(ConstructorYear(currentMonth.year), currentMonth.month, i + 1)
  {
    var g := MonthGrid(currentMonth);
    forall i | 0 <= i < |g.days|
      ensures CellDate(currentMonth, g.days[i]) == Date(ConstructorYear(currentMonth.year), currentMonth.month, i + 1)
    {
      CellDateInMonth(currentMonth, g.days[i]);
    }
  }

  /** Number of occurrences of `x` in `s`. */
  function Occurrences(s: seq<string>, x: string): nat {
    if s == [] then 0
    else Occurrences(s[..|s| - 1], x) + (if s[|s| - 1] == x then 1 else 0)
  }

  /** Number of ranges that start on day `d`. */
  function StartingOn(ranges: seq<DateRange>, d: Date): nat {
    if ranges == [] then 0
    else StartingOn(ranges[..|ranges| - 1], d) + (if ranges[|ranges| - 1].startDate == Some(d) then 1 else 0)
  }

  /** Number of ranges that end on day `d`. */
  function EndingOn(ranges: seq<DateRange>, d: Date): nat {
    if ranges == [] then 0
    else EndingOn(ranges[..|ranges| - 1], d) + (if ranges[|ranges| - 1].endDate == Some(d) then 1 else 0)
  }

  /** The classes of the cell of day `day`: 'day', then 'range-start' once per
      range that starts on it and 'range-end' once per range that ends on it. */
  method DayClasses(ranges: seq<DateRange>, currentMonth: Date, day: int) returns (classes: seq<string>)
    ensures |classes| >= 1 && classes[0] == "day"
    ensures forall k :: 1 <= k < |classes| ==> classes[k] == "range-start" || classes[k] == "range-end"
    ensures WellFormedStore(ranges) ==>
      Occurrences(classes, "range-start") == StartingOn(ranges, CellDate(currentMonth, day))
      && Occurrences(classes, "range-end") == EndingOn(ranges, CellDate(currentMonth, day))
  {
    ghost var date := CellDate(currentMonth, day);
    ghost var wellFormed := WellFormedStore(ranges);
    classes := ["day"];
    var i := 0;
    while i < |ranges|
      invariant 0 <= i <= |ranges|
      invariant |classes| >= 1 && classes[0] == "day"
      invariant forall k :: 1 <= k < |classes| ==> classes[k] == "range-start" || classes[k] == "range-end"
      invariant wellFormed ==> Occurrences(classes, "range-start") == StartingOn(ranges[..i], date)
      invariant wellFormed ==> Occurrences(classes, "range-end") == EndingOn(ranges[..i], date)
    {
      var range := ranges[i];
      assert ranges[..i + 1][..i] == ranges[..i];
      assert ranges[..i + 1][i] == range;
      assert wellFormed ==> forall j :: 0 <= j < |ranges| && ranges[j].id == range.id ==> j == i;
      assert wellFormed ==> (IsDateStart(ranges, currentMonth, day, range.id) <==> range.startDate == Some(date));
      assert wellFormed ==> (IsDateEnd(ranges, currentMonth, day, range.id) <==> range.endDate == Some(date));
      if IsDateStart(ranges, currentMonth, day, range.id) {
        classes := classes + ["range-start"];
      }
      if IsDateEnd(ranges, currentMonth, day, range.id) {
        classes := classes + ["range-end"];
      }
      i := i + 1;
    }
    assert ranges[..i] == ranges;
  }

  /** The highlight range i draws in the cell of day `day`: its colour when the
      day is its start, its end or inside it. */
  function HighlightOf(ranges: seq<DateRange>, currentMonth: Date, day: int, i: int): (h: Option<string>)
    requires 0 <= i < |ranges|
    ensures h.None? || h == Some(ranges[i].color)
    ensures WellFormedStore(ranges) ==>
      (h.Some? <==> ranges[i].startDate == Some(CellDate(currentMonth, day)) || Covers(ranges[i], CellDate(currentMonth, day)))
  {
    var id := ranges[i].id;
    HighlightMeaning(ranges, currentMonth, day, i);
    if IsDateStart(ranges, currentMonth, day, id) || IsDateEnd(ranges, currentMonth, day, id)
       || IsDateInRange(ranges, currentMonth, day, id)
    then Some(ranges[i].color) else None
  }

  lemma HighlightMeaning(ranges: seq<DateRange>, currentMonth: Date, day: int, i: int)
    requires 0 <= i < |ranges|
    ensures var id := ranges[i].id;
      var d := CellDate(currentMonth, day);
      WellFormedStore(ranges) ==>
        ((IsDateStart(ranges, currentMonth, day, id) || IsDateEnd(ranges, currentMonth, day, id)
          || IsDateInRange(ranges, currentMonth, day, id))
        <==> ranges[i].startDate == Some(d) || Covers(ranges[i], d))
  {
    if WellFormedStore(ranges) {
      var id := ranges[i].id;
      var d := CellDate(currentMonth, day);
      var r := ranges[i];
      assert WellFormedRange(r);
      assert forall j :: 0 <= j < |ranges| && ranges[j].id == id ==> j == i;
      assert IsDateStart(ranges, currentMonth, day, id) <==> r.startDate == Some(d);
      assert IsDateEnd(ranges, currentMonth, day, id) <==> r.endDate == Some(d);
      assert IsDateInRange(ranges, currentMonth, day, id) <==> Covers(r, d);
      if r.endDate == Some(d) {
        OrdinalOrderIff(d, r.startDate.value);
        OrdinalOrderIff(r.endDate.value, d);
      }
    }
  }

  /** The highlights of the cell of day `day`, one per range in order. */
  function Highlights(ranges: seq<DateRange>, currentMonth: Date, day: int): (h: seq<Option<string>>)
    ensures |h| == |ranges|
    ensures forall i :: 0 <= i < |ranges| ==> h[i] == HighlightOf(ranges, currentMonth, day, i)
    ensures forall i :: 0 <= i < |ranges| ==> h[i].None? || h[i] == Some(ranges[i].color)
    ensures WellFormedStore(ranges) ==> forall i :: 0 <= i < |ranges| ==>
      (h[i].Some? <==> ranges[i].startDate == Some(CellDate(currentMonth, day)) || Covers(ranges[i], CellDate(currentMonth, day)))
  {
    seq(|ranges|, i requires 0 <= i < |ranges| => HighlightOf(ranges, currentMonth, day, i))
  }

  /** What a highlight means for each state of a range: an empty range
      highlights nothing, a partial range only its start, and a complete range
      exactly the days from its start to its end. */
  lemma HighlightByState(ranges: seq<DateRange>, currentMonth: Date, day: int, i: int)
    requires WellFormedStore(ranges) && 0 <= i < |ranges|
    ensures var d := CellDate(currentMonth, day);
      var r := ranges[i];
      var h := HighlightOf(ranges, currentMonth, day, i);
      (r.startDate.None? ==> h.None?)
      && (r.startDate.Some? && r.endDate.None? ==> (h.Some? <==> d == r.startDate.value))
      && (r.startDate.Some? && r.endDate.Some? ==>
            (h.Some? <==> !Precedes(d, r.startDate.value) && !Precedes(r.endDate.value, d)))
  {
    var d := CellDate(currentMonth, day);
    var r := ranges[i];
    assert WellFormedRange(r);
    if r.startDate.Some? && r.endDate.Some? {
      OrdinalOrderIff(r.endDate.value, r.startDate.value);
    }
  }
}
