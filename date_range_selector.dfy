/** The date-range selector: an ordered store of at most six coloured date
    ranges, the id of the range that receives day clicks, and the month shown
    by the calendar. A click on a day moves the selected range through the
    states empty (no start), partial (a start and no end) and complete (a start
    and an end, in calendar order). */
module DateRangeSelector {
  import opened Dates

  datatype Option<T> = None | Some(value: T)

  /** The highlight colours; their number bounds the number of ranges. */
  const Colors: seq<string> :=
    ["#ec4899", "#a855f7", "#3b82f6", "#22c55e", "#eab308", "#f97316"]

  datatype DateRange = DateRange(id: string, startDate: Option<Date>, endDate: Option<Date>, color: string)

  /** What `getDaysInMonth` returns: the month's length and the weekday of its
      first day. */
  datatype MonthInfo = MonthInfo(days: int, firstDay: int)

  /** The invariant every range in the store keeps: an end only after a start,
      real calendar days, and a start no later than the end. */
  predicate WellFormedRange(r: DateRange) {
    (r.endDate.Some? ==> r.startDate.Some?)
    && (r.startDate.Some? ==> ValidDate(r.startDate.value))
    && (r.endDate.Some? ==> ValidDate(r.endDate.value))
    && (r.startDate.Some? && r.endDate.Some? ==> Ordinal(r.startDate.value) <= Ordinal(r.endDate.value))
    && r.color in Colors
  }

  predicate HasId(ranges: seq<DateRange>, id: string) {
    exists i :: 0 <= i < |ranges| && ranges[i].id == id
  }

  predicate UniqueIds(ranges: seq<DateRange>) {
    forall i, j :: 0 <= i < j < |ranges| ==> ranges[i].id != ranges[j].id
  }

  /** The invariant of the store: bounded by the palette, unique ids, and
      well-formed ranges. */
  predicate WellFormedStore(ranges: seq<DateRange>) {
    |ranges| <= |Colors|
    && UniqueIds(ranges)
    && forall i :: 0 <= i < |ranges| ==> WellFormedRange(ranges[i])
  }

  /** Day `d` is inside a complete range, both ends included, in calendar order. */
  predicate Covers(r: DateRange, d: Date) {
    r.startDate.Some? && r.endDate.Some?
    && !Precedes(d, r.startDate.value) && !Precedes(r.endDate.value, d)
  }

  /** The date of day `day` of the month shown: `new Date(year, month, day)`. */
  function CellDate(currentMonth: Date, day: int): (d: Date)
    ensures ValidDate(d)
    ensures Ordinal(d) == DayNumber(ConstructorYear(currentMonth.year), currentMonth.month, day)
  {
    MakeDate(currentMonth.year, currentMonth.month, day)
  }

  /** `getDaysInMonth`: day 0 of the next month gives the length, and day 1 the
      weekday; both agree with the Gregorian calendar for the year the `Date`
      constructor reads. */
  function GetDaysInMonth(date: Date): (info: MonthInfo)
    ensures info.days == DaysInMonth(ConstructorYear(date.year), date.month)
    ensures 0 <= info.firstDay < 7
    ensures info.firstDay == Weekday(Date(ConstructorYear(date.year), date.month, 1))
  {
    var year := date.year;
    var month := date.month;
    DayZeroIsLastDay(year, month);
    FirstOfMonth(year, month);
    MonthInfo(MakeDate(year, month + 1, 0).day, Weekday(MakeDate(year, month, 1)))
  }

  lemma FirstOfMonth(year: int, m: Month)
    ensures MakeDate(year, m, 1) == Date(ConstructorYear(year), m, 1)
  {
    OrdinalOrderIff(MakeDate(year, m, 1), Date(ConstructorYear(year), m, 1));
  }

  /** Shown any day of February 2024, the calendar has 29 days starting on a
      Thursday. */
  lemma February2024(d: Date)
    requires d.year == 2024 && d.month == 1
    ensures GetDaysInMonth(d) == MonthInfo(29, 4)
  {
    assert IsLeapYear(d.year) && ConstructorYear(d.year) == d.year;
    February2024IsThursday(d.year);
  }

  /** Shown any day of February 2023, the calendar has 28 days. */
  lemma February2023(d: Date)
    requires d.year == 2023 && d.month == 1
    ensures GetDaysInMonth(d).days == 28
  {
    assert !IsLeapYear(d.year) && ConstructorYear(d.year) == d.year;
  }

  /** The month before the one shown: `new Date(year, month - 1)`. */
  function PreviousMonthOf(currentMonth: Date): (r: Date)
    ensures r == FirstOfPreviousMonth(ConstructorYear(currentMonth.year), currentMonth.month)
  {
    var r := MakeDate(currentMonth.year, currentMonth.month - 1, 1);
    OrdinalOrderIff(r, FirstOfPreviousMonth(ConstructorYear(currentMonth.year), currentMonth.month));
    r
  }

  /** The month after the one shown: `new Date(year, month + 1)`. */
  function NextMonthOf(currentMonth: Date): (r: Date)
    ensures r == FirstOfNextMonth(ConstructorYear(currentMonth.year), currentMonth.month)
  {
    var r := MakeDate(currentMonth.year, currentMonth.month + 1, 1);
    MonthStep(ConstructorYear(currentMonth.year), currentMonth.month);
    OrdinalOrderIff(r, FirstOfNextMonth(ConstructorYear(currentMonth.year), currentMonth.month));
    r
  }

  /** Going back a month and forward again returns to the first of the month
      shown, and so does the reverse, for years the constructor reads as given;
      except when the intermediate month falls in a year 0..99 and is read as
      19xx: back from January 100, and forward from December of year -1. */
  lemma NavigationRoundTrip(currentMonth: Date)
    requires !(0 <= currentMonth.year <= 99)
    ensures !(currentMonth.year == 100 && currentMonth.month == 0) ==>
      NextMonthOf(PreviousMonthOf(currentMonth)) == Date(currentMonth.year, currentMonth.month, 1)
    ensures !(currentMonth.year == -1 && currentMonth.month == 11) ==>
      PreviousMonthOf(NextMonthOf(currentMonth)) == Date(currentMonth.year, currentMonth.month, 1)
  {
  }

  /** Back from January of year 100 lands in December of year 99, which the
      constructor reads as 1999, so forward again gives January 2000. */
  lemma NavigationFromJanuary100(currentMonth: Date)
    requires currentMonth.year == 100 && currentMonth.month == 0
    ensures PreviousMonthOf(currentMonth) == Date(99, 11, 1)
    ensures NextMonthOf(PreviousMonthOf(currentMonth)) == Date(2000, 0, 1)
  {
  }

  /** Forward from December of year -1 lands in January of year 0, which the
      constructor reads as 1900, so back again gives December 1899. */
  lemma NavigationFromDecemberMinus1(currentMonth: Date)
    requires currentMonth.year == -1 && currentMonth.month == 11
    ensures NextMonthOf(currentMonth) == Date(0, 0, 1)
    ensures PreviousMonthOf(NextMonthOf(currentMonth)) == Date(1899, 11, 1)
  {
  }

  /** The transition the selected range makes when day `d` is clicked. */
  function Click(r: DateRange, d: Date): (c: DateRange)
    ensures c.id == r.id && c.color == r.color
    ensures r.startDate.None? || r.endDate.Some? ==> c.startDate == Some(d) && c.endDate == None
    ensures r.startDate.Some? && r.endDate.None? ==>
      c.startDate.Some? && c.endDate.Some?
      && multiset{c.startDate.value, c.endDate.value} == multiset{r.startDate.value, d}
      && Ordinal(c.startDate.value) <= Ordinal(c.endDate.value)
  {
    if r.startDate.None? || r.endDate.Some? then
      r.(startDate := Some(d), endDate := None)
    else if Ordinal(d) < Ordinal(r.startDate.value) then
      r.(startDate := Some(d), endDate := r.startDate)
    else
      r.(endDate := Some(d))
  }

  lemma ClickKeepsRangeWellFormed(r: DateRange, d: Date)
    requires WellFormedRange(r) && ValidDate(d)
    ensures WellFormedRange(Click(r, d))
  {
  }

  /** Two clicks on an empty or complete range give the range from the earlier
      day to the later one, whichever was clicked first. */
  lemma TwoClicks(r: DateRange, d1: Date, d2: Date)
    requires r.startDate.None? || r.endDate.Some?
    requires ValidDate(d1) && ValidDate(d2)
    ensures Click(Click(r, d1), d2).startDate == Some(if Precedes(d2, d1) then d2 else d1)
    ensures Click(Click(r, d1), d2).endDate == Some(if Precedes(d2, d1) then d1 else d2)
  {
    OrdinalOrderIff(d1, d2);
  }

  /** On an empty range, a click on 10 February 2024 and then one on 5 February
      give the range from 5 to 10 February. */
  lemma SwapExample(r: DateRange)
    requires r.startDate.None?
    ensures Click(r, Date(2024, 1, 10)) == r.(startDate := Some(Date(2024, 1, 10)), endDate := None)
    ensures Click(Click(r, Date(2024, 1, 10)), Date(2024, 1, 5)).startDate == Some(Date(2024, 1, 5))
    ensures Click(Click(r, Date(2024, 1, 10)), Date(2024, 1, 5)).endDate == Some(Date(2024, 1, 10))
  {
    TwoClicks(r, Date(2024, 1, 10), Date(2024, 1, 5));
  }

  /** `ranges.map(...)` of `handleDateClick`: the range whose id is the selected
      one makes its transition, every other range stays as it was. */
  function ClickSelected(ranges: seq<DateRange>, selected: string, d: Date): (rs: seq<DateRange>)
    ensures |rs| == |ranges|
    ensures forall i :: 0 <= i < |ranges| && ranges[i].id != selected ==> rs[i] == ranges[i]
    ensures forall i :: 0 <= i < |ranges| && ranges[i].id == selected ==> rs[i] == Click(ranges[i], d)
  {
    if ranges == [] then []
    else
      [if ranges[0].id == selected then Click(ranges[0], d) else ranges[0]]
        + ClickSelected(ranges[1..], selected, d)
  }

  /** A click keeps the store's invariant, in particular start <= end. */
  lemma ClickKeepsStore(ranges: seq<DateRange>, selected: string, d: Date)
    requires WellFormedStore(ranges) && ValidDate(d)
    ensures WellFormedStore(ClickSelected(ranges, selected, d))
    ensures forall i :: 0 <= i < |ranges| ==> ClickSelected(ranges, selected, d)[i].id == ranges[i].id
  {
    var rs := ClickSelected(ranges, selected, d);
    forall i | 0 <= i < |ranges|
      ensures WellFormedRange(rs[i]) && rs[i].id == ranges[i].id
    {
      if ranges[i].id == selected {
        ClickKeepsRangeWellFormed(ranges[i], d);
      }
    }
  }

  /** With a selection that names no range, a click changes nothing. */
  lemma ClickWithoutSelection(ranges: seq<DateRange>, selected: string, d: Date)
    requires !HasId(ranges, selected)
    ensures ClickSelected(ranges, selected, d) == ranges
  {
  }

  /** A sequence of clicks on the days `days`, one after another. */
  function ApplyClicks(ranges: seq<DateRange>, selected: string, days: seq<Date>): seq<DateRange>
    decreases |days|
  {
    if days == [] then ranges
    else ApplyClicks(ClickSelected(ranges, selected, days[0]), selected, days[1..])
  }

  /** start <= end, and the rest of the store's invariant, survive any sequence
      of clicks. */
  lemma {:induction false} ClicksKeepStore(ranges: seq<DateRange>, selected: string, days: seq<Date>)
    requires WellFormedStore(ranges)
    requires forall k :: 0 <= k < |days| ==> ValidDate(days[k])
    ensures WellFormedStore(ApplyClicks(ranges, selected, days))
    decreases |days|
  {
    if days != [] {
      ClickKeepsStore(ranges, selected, days[0]);
      ClicksKeepStore(ClickSelected(ranges, selected, days[0]), selected, days[1..]);
    }
  }

  /** `ranges.filter(range => range.id !== id)`. */
  function RemoveId(ranges: seq<DateRange>, id: string): (rs: seq<DateRange>)
    ensures forall x :: x in rs <==> x in ranges && x.id != id
  {
    if ranges == [] then []
    else
      assert forall x :: x in ranges <==> x == ranges[0] || x in ranges[1..];
      (if ranges[0].id != id then [ranges[0]] else []) + RemoveId(ranges[1..], id)
  }

  /** Removal keeps the relative order: it distributes over concatenation. */
  lemma {:induction false} RemoveIdAppend(a: seq<DateRange>, b: seq<DateRange>, id: string)
    ensures RemoveId(a + b, id) == RemoveId(a, id) + RemoveId(b, id)
    decreases |a|
  {
    if a == [] {
      assert a + b == b;
    } else {
      assert (a + b)[0] == a[0];
      assert (a + b)[1..] == a[1..] + b;
      RemoveIdAppend(a[1..], b, id);
      var head := if a[0].id != id then [a[0]] else [];
      calc {
        RemoveId(a + b, id);
        head + RemoveId(a[1..] + b, id);
        head + (RemoveId(a[1..], id) + RemoveId(b, id));
        (head + RemoveId(a[1..], id)) + RemoveId(b, id);
      }
    }
  }

  /** With unique ids, removing the id of the range at index k cuts out exactly
      that range. */
  lemma RemoveIdAt(ranges: seq<DateRange>, k: int)
    requires UniqueIds(ranges) && 0 <= k < |ranges|
    ensures RemoveId(ranges, ranges[k].id) == ranges[..k] + ranges[k + 1..]
  {
    SplitAt(ranges, k);
    IdOnlyAt(ranges, k);
    RemoveIdSplice(ranges[..k], ranges[k], ranges[k + 1..]);
  }

  /** Removing the id of a range that is the only one with that id. */
  lemma RemoveIdSplice(before: seq<DateRange>, x: DateRange, after: seq<DateRange>)
    requires !HasId(before, x.id) && !HasId(after, x.id)
    ensures RemoveId(before + [x] + after, x.id) == before + after
  {
    assert RemoveId([x], x.id) == [] by {
      assert [x][1..] == [];
    }
    calc {
      RemoveId(before + [x] + after, x.id);
      { RemoveIdAppend(before + [x], after, x.id); }
      RemoveId(before + [x], x.id) + RemoveId(after, x.id);
      { RemoveIdAppend(before, [x], x.id); }
      RemoveId(before, x.id) + RemoveId([x], x.id) + RemoveId(after, x.id);
      { RemoveIdAbsent(before, x.id); RemoveIdAbsent(after, x.id); }
      before + after;
    }
  }

  /** With unique ids, the id at index k occurs nowhere before or after it. */
  lemma IdOnlyAt(ranges: seq<DateRange>, k: int)
    requires UniqueIds(ranges) && 0 <= k < |ranges|
    ensures !HasId(ranges[..k], ranges[k].id) && !HasId(ranges[k + 1..], ranges[k].id)
  {
    var before, after := ranges[..k], ranges[k + 1..];
    forall i | 0 <= i < |before| ensures before[i].id != ranges[k].id {
      assert before[i] == ranges[i];
    }
    forall i | 0 <= i < |after| ensures after[i].id != ranges[k].id {
      assert after[i] == ranges[k + 1 + i];
    }
  }

  lemma SplitAt<T>(s: seq<T>, k: int)
    requires 0 <= k < |s|
    ensures s == s[..k] + [s[k]] + s[k + 1..]
  {
  }

  lemma {:induction false} RemoveIdAbsent(ranges: seq<DateRange>, id: string)
    requires !HasId(ranges, id)
    ensures RemoveId(ranges, id) == ranges
    decreases |ranges|
  {
    if ranges != [] {
      assert !HasId(ranges[1..], id) by {
        forall i | 0 <= i < |ranges[1..]| ensures ranges[1..][i].id != id {
          assert ranges[1..][i] == ranges[i + 1];
        }
      }
      RemoveIdAbsent(ranges[1..], id);
    }
  }

  /** Removal keeps exactly the ids other than the removed one. */
  lemma RemoveIdIds(ranges: seq<DateRange>, id: string, x: string)
    ensures HasId(RemoveId(ranges, id), x) <==> HasId(ranges, x) && x != id
  {
    var rs := RemoveId(ranges, id);
    if HasId(rs, x) {
      var i :| 0 <= i < |rs| && rs[i].id == x;
      assert rs[i] in ranges;
      var j :| 0 <= j < |ranges| && ranges[j] == rs[i];
    }
    if HasId(ranges, x) && x != id {
      var j :| 0 <= j < |ranges| && ranges[j].id == x;
      assert ranges[j] in rs;
      var i :| 0 <= i < |rs| && rs[i] == ranges[j];
    }
  }

  /** Removal keeps the store's invariant. */
  lemma RemoveKeepsStore(ranges: seq<DateRange>, id: string)
    requires WellFormedStore(ranges)
    ensures WellFormedStore(RemoveId(ranges, id))
  {
    if HasId(ranges, id) {
      var k :| 0 <= k < |ranges| && ranges[k].id == id;
      RemoveIdAt(ranges, k);
      CutKeepsStore(ranges, k);
    } else {
      RemoveIdAbsent(ranges, id);
    }
  }

  lemma CutKeepsStore(ranges: seq<DateRange>, k: int)
    requires WellFormedStore(ranges) && 0 <= k < |ranges|
    ensures WellFormedStore(ranges[..k] + ranges[k + 1..])
  {
    var rs := ranges[..k] + ranges[k + 1..];
    assert |rs| == |ranges| - 1;
    forall i | 0 <= i < |rs|
      ensures rs[i] == ranges[if i < k then i else i + 1]
    {
    }
    forall i, j | 0 <= i < j < |rs|
      ensures rs[i].id != rs[j].id
    {
      assert rs[i] == ranges[if i < k then i else i + 1];
      assert rs[j] == ranges[if j < k then j else j + 1];
    }
    forall i | 0 <= i < |rs|
      ensures WellFormedRange(rs[i])
    {
      assert rs[i] == ranges[if i < k then i else i + 1];
    }
  }

  /** The selection after `removeRange(id)`: when the removed range was the
      selected one, the first id of the list as it was BEFORE the removal,
      or '' when that list was empty. */
  function SelectionAfterRemove(ranges: seq<DateRange>, selected: string, id: string): (s: string)
    ensures selected != id ==> s == selected
    ensures selected == id ==> s == "" || HasId(ranges, s)
    ensures selected == id && HasId(ranges, id) ==> HasId(ranges, s)
  {
    if selected == id then (if |ranges| > 0 then ranges[0].id else "") else selected
  }

  /** From a selection that named a range (or none), the selection after a
      removal again names a remaining range or is '', except in one case: the
      selected range was the first one, so the repair picks the removed id. */
  lemma SelectionAfterRemoveNamesRange(ranges: seq<DateRange>, selected: string, id: string)
    requires UniqueIds(ranges)
    requires selected == "" || HasId(ranges, selected)
    ensures var s := SelectionAfterRemove(ranges, selected, id);
      (s == "" || HasId(RemoveId(ranges, id), s))
      <==> !(selected == id && |ranges| > 0 && ranges[0].id == id && id != "")
  {
    var s := SelectionAfterRemove(ranges, selected, id);
    RemoveIdIds(ranges, id, s);
    if selected == id && |ranges| > 0 && ranges[0].id != id {
      assert HasId(ranges, ranges[0].id);
    }
  }

  /** `ranges.find(r => r.id === rangeId)`: the first range with that id. */
  function FindById(ranges: seq<DateRange>, id: string): (r: Option<DateRange>)
    ensures r.None? <==> !HasId(ranges, id)
    ensures r.Some? ==> r.value.id == id && r.value in ranges
    ensures UniqueIds(ranges) ==> forall i :: 0 <= i < |ranges| && ranges[i].id == id ==> r == Some(ranges[i])
    ensures r.Some? ==> exists k :: 0 <= k < |ranges| && r == Some(ranges[k]) && !HasId(ranges[..k], id)
  {
    if ranges == [] then None
    else if ranges[0].id == id then
      assert !HasId(ranges[..0], id);
      Some(ranges[0])
    else
      var r := FindById(ranges[1..], id);
      assert forall i :: 1 <= i < |ranges| ==> ranges[i] == ranges[1..][i - 1];
      if r.Some? then
        FirstMatchShift(ranges, id, r.value);
        r
      else
        r
  }

  /** A first match in the tail, behind a head without the id, is a first match
      in the whole list. */
  lemma FirstMatchShift(ranges: seq<DateRange>, id: string, x: DateRange)
    requires |ranges| > 0 && ranges[0].id != id
    requires exists k :: 0 <= k < |ranges[1..]| && x == ranges[1..][k] && !HasId(ranges[1..][..k], id)
    ensures exists k :: 0 <= k < |ranges| && x == ranges[k] && !HasId(ranges[..k], id)
  {
    var k :| 0 <= k < |ranges[1..]| && x == ranges[1..][k] && !HasId(ranges[1..][..k], id);
    var prefix := ranges[..k + 1];
    assert prefix == [ranges[0]] + ranges[1..][..k];
    forall i | 0 <= i < |prefix|
      ensures prefix[i].id != id
    {
      if i > 0 {
        assert prefix[i] == ranges[1..][..k][i - 1];
      }
    }
    assert x == ranges[k + 1];
  }

  /** `isDateInRange`: the shown month's day `day` lies in the complete range
      with id `rangeId`. */
  function IsDateInRange(ranges: seq<DateRange>, currentMonth: Date, day: int, rangeId: string): (b: bool)
    ensures b ==> exists i :: 0 <= i < |ranges| && ranges[i].id == rangeId
                             && ranges[i].startDate.Some? && ranges[i].endDate.Some?
    ensures WellFormedStore(ranges) ==>
      (b <==> exists i :: 0 <= i < |ranges| && ranges[i].id == rangeId && Covers(ranges[i], CellDate(currentMonth, day)))
  {
    var date := CellDate(currentMonth, day);
    match FindById(ranges, rangeId)
    case None => false
    case Some(r) =>
      if r.startDate.None? || r.endDate.None? then false
      else
        OrdinalOrderIff(date, r.startDate.value);
        OrdinalOrderIff(r.endDate.value, date);
        Ordinal(date) >= Ordinal(r.startDate.value) && Ordinal(date) <= Ordinal(r.endDate.value)
  }

  /** `isDateStart`: the shown month's day `day` is the start of the range with
      id `rangeId`. */
  function IsDateStart(ranges: seq<DateRange>, currentMonth: Date, day: int, rangeId: string): (b: bool)
    ensures b ==> HasId(ranges, rangeId)
    ensures WellFormedStore(ranges) ==>
      (b <==> exists i :: 0 <= i < |ranges| && ranges[i].id == rangeId && ranges[i].startDate == Some(CellDate(currentMonth, day)))
  {
    var date := CellDate(currentMonth, day);
    match FindById(ranges, rangeId)
    case None => false
    case Some(r) =>
      if r.startDate.None? then false
      else
        OrdinalOrderIff(date, r.startDate.value);
        Ordinal(r.startDate.value) == Ordinal(date)
  }

  /** `isDateEnd`: the shown month's day `day` is the end of the range with id
      `rangeId`. */
  function IsDateEnd(ranges: seq<DateRange>, currentMonth: Date, day: int, rangeId: string): (b: bool)
    ensures b ==> HasId(ranges, rangeId)
    ensures WellFormedStore(ranges) ==>
      (b <==> exists i :: 0 <= i < |ranges| && ranges[i].id == rangeId && ranges[i].endDate == Some(CellDate(currentMonth, day)))
  {
    var date := CellDate(currentMonth, day);
    match FindById(ranges, rangeId)
    case None => false
    case Some(r) =>
      if r.endDate.None? then false
      else
        OrdinalOrderIff(date, r.endDate.value);
        Ordinal(r.endDate.value) == Ordinal(date)
  }

  /** The selector's state: the ranges, the selected id and the month shown. */
  class Selector {
    var ranges: seq<DateRange>
    var selectedRange: string
    var currentMonth: Date

    ghost predicate Valid()
      reads this
    {
      WellFormedStore(ranges) && ValidDate(currentMonth)
    }

    /** One empty range '1', selected; `today` stands for `new Date()`. */
    constructor (today: Date)
      requires ValidDate(today)
      ensures Valid()
      ensures ranges == [DateRange("1", None, None, Colors[0])]
      ensures selectedRange == "1" && currentMonth == today
    {
      ranges := [DateRange("1", None, None, Colors[0])];
      selectedRange := "1";
      currentMonth := today;
    }

    /** `addNewRange`; `freshId` stands for `Date.now().toString()`. */
    method AddNewRange(freshId: string)
      requires Valid() && !HasId(ranges, freshId)
      modifies this
      ensures Valid() && currentMonth == old(currentMonth)
      ensures |old(ranges)| >= |Colors| ==> ranges == old(ranges) && selectedRange == old(selectedRange)
      ensures |old(ranges)| < |Colors| ==>
        ranges == old(ranges) + [DateRange(freshId, None, None, Colors[|old(ranges)|])]
        && selectedRange == freshId
    {
      if |ranges| >= |Colors| {
        return;
      }
      var newRange := DateRange(freshId, None, None, Colors[|ranges| % |Colors|]);
      ranges := ranges + [newRange];
      selectedRange := newRange.id;
    }

    /** `removeRange`. */
    method RemoveRange(id: string)
      requires Valid()
      modifies this
      ensures Valid() && currentMonth == old(currentMonth)
      ensures ranges == RemoveId(old(ranges), id)
      ensures old(selectedRange) != id ==> selectedRange == old(selectedRange)
      ensures old(selectedRange) == id ==>
        selectedRange == (if |old(ranges)| > 0 then old(ranges)[0].id else "")
    {
      RemoveKeepsStore(ranges, id);
      var before := ranges;
      ranges := RemoveId(ranges, id);
      if selectedRange == id {
        selectedRange := SelectionAfterRemove(before, selectedRange, id);
      }
    }

    /** `onSelect` of a range row. */
    method SelectRange(id: string)
      requires Valid()
      modifies this
      ensures Valid() && ranges == old(ranges) && currentMonth == old(currentMonth)
      ensures selectedRange == id
    {
      selectedRange := id;
    }

    /** `handleDateClick(day)`. */
    method HandleDateClick(day: int)
      requires Valid()
      modifies this
      ensures Valid() && selectedRange == old(selectedRange) && currentMonth == old(currentMonth)
      ensures ranges == ClickSelected(old(ranges), selectedRange, CellDate(currentMonth, day))
    {
      var clickedDate := CellDate(currentMonth, day);
      ClickKeepsStore(ranges, selectedRange, clickedDate);
      ranges := ClickSelected(ranges, selectedRange, clickedDate);
    }

    /** `onPrevMonth`. */
    method PrevMonth()
      requires Valid()
      modifies this
      ensures Valid() && ranges == old(ranges) && selectedRange == old(selectedRange)
      ensures currentMonth == FirstOfPreviousMonth(ConstructorYear(old(currentMonth).year), old(currentMonth).month)
    {
      currentMonth := PreviousMonthOf(currentMonth);
    }

    /** `onNextMonth`. */
    method NextMonth()
      requires Valid()
      modifies this
      ensures Valid() && ranges == old(ranges) && selectedRange == old(selectedRange)
      ensures currentMonth == FirstOfNextMonth(ConstructorYear(old(currentMonth).year), old(currentMonth).month)
    {
      currentMonth := NextMonthOf(currentMonth);
    }
  }
}
