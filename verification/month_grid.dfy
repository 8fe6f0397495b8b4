/**
 * The month grid of src/components/CalendarMonthView.tsx: blank cells up to
 * the weekday of the first, one cell per day, and each day's events bucketed
 * by day of the month, of which a cell shows two and counts the rest.
 */
module MonthGrid {
  import opened Wrappers
  import opened Text
  import opened Seqs
  import opened CalendarData
  import opened CalendarNav

  /** Gregorian leap years. */
  predicate LeapYear(year: int) {
    year % 4 == 0 && (year % 100 != 0 || year % 400 == 0)
  }

  /** `new Date(year, month + 1, 0).getDate()`: the last day of the month. */
  function DaysInMonth(year: int, month: int): (r: int)
    requires ValidMonth(month)
    ensures 28 <= r <= 31
    ensures r == 29 <==> month == 1 && LeapYear(year)
    ensures r == 28 <==> month == 1 && !LeapYear(year)
  {
    if month == 1 then (if LeapYear(year) then 29 else 28)
    else if month == 3 || month == 5 || month == 8 || month == 10 then 30
    else 31
  }

  /** The days in the months of `year` before `month`. */
  function DaysBefore(year: int, month: int): int
    requires 0 <= month <= 12
  {
    if month == 0 then 0 else DaysBefore(year, month - 1) + DaysInMonth(year, month - 1)
  }

  /** The month lengths add up to the length of the Gregorian year. */
  lemma YearLength(year: int)
    ensures DaysBefore(year, 12) == if LeapYear(year) then 366 else 365
  {
    var feb := DaysInMonth(year, 1);
    assert DaysBefore(year, 0) == 0;
    assert DaysBefore(year, 1) == 31;
    assert DaysBefore(year, 2) == 31 + feb;
    assert DaysBefore(year, 3) == 31 + feb + 31;
    assert DaysBefore(year, 4) == 31 + feb + 31 + 30;
    assert DaysBefore(year, 5) == 31 + feb + 31 + 30 + 31;
    assert DaysBefore(year, 6) == 31 + feb + 31 + 30 + 31 + 30;
    assert DaysBefore(year, 7) == 31 + feb + 31 + 30 + 31 + 30 + 31;
    assert DaysBefore(year, 8) == 31 + feb + 31 + 30 + 31 + 30 + 31 + 31;
    assert DaysBefore(year, 9) == 31 + feb + 31 + 30 + 31 + 30 + 31 + 31 + 30;
    assert DaysBefore(year, 10) == 31 + feb + 31 + 30 + 31 + 30 + 31 + 31 + 30 + 31;
    assert DaysBefore(year, 11) == 31 + feb + 31 + 30 + 31 + 30 + 31 + 31 + 30 + 31 + 30;
    assert DaysBefore(year, 12) == 31 + feb + 31 + 30 + 31 + 30 + 31 + 31 + 30 + 31 + 30 + 31;
  }

  /** The grid: `startDow` blanks, then the days 1 to `days`. */
  function Cells(startDow: nat, days: nat): (r: seq<Option<int>>)
    ensures |r| == startDow + days
    ensures forall i :: 0 <= i < startDow ==> r[i] == None
    ensures forall i :: startDow <= i < |r| ==> r[i] == Some(i - startDow + 1)
  {
    seq(startDow, _ => None) + seq(days, i => Some(i + 1))
  }

  /** The two loops that fill `cells`. */
  method BuildCells(startDow: nat, days: nat) returns (cells: seq<Option<int>>)
    ensures cells == Cells(startDow, days)
  {
    cells := [];
    var i := 0;
    while i < startDow
      invariant 0 <= i <= startDow
      invariant |cells| == i
      invariant forall k :: 0 <= k < i ==> cells[k] == None
    {
      cells := cells + [None];
      i := i + 1;
    }
    var d := 1;
    while d <= days
      invariant 1 <= d <= days + 1
      invariant |cells| == startDow + d - 1
      invariant forall k :: 0 <= k < startDow ==> cells[k] == None
      invariant forall k :: startDow <= k < |cells| ==> cells[k] == Some(k - startDow + 1)
    {
      cells := cells + [Some(d)];
      d := d + 1;
    }
  }

  /**
   * Every day of the month has exactly one cell, in the column of its
   * weekday (0 = Sunday) when `startDow` is the weekday of the first.
   */
  lemma DayCellPosition(startDow: nat, days: nat, i: int, d: int)
    requires 0 <= i < startDow + days
    ensures Cells(startDow, days)[i] == Some(d) <==> 1 <= d <= days && i == startDow + d - 1
    ensures Cells(startDow, days)[i] == Some(d) ==> i % 7 == (startDow + d - 1) % 7
  {
  }

  /** A month needs at most six grid rows: the first day is in the first row. */
  lemma GridFitsSixWeeks(year: int, month: int, startDow: nat)
    requires ValidMonth(month) && startDow < 7
    ensures |Cells(startDow, DaysInMonth(year, month))| <= 42
    ensures Cells(startDow, DaysInMonth(year, month))[startDow] == Some(1)
  {
  }

  /** An event in the displayed month on day `day`. */
  function OnDay(year: int, month: int, day: int): CalEvent -> bool {
    (e: CalEvent) => e.year == year && e.month == month && e.day == day
  }

  /** The events of one day, in input order. */
  function DayEvents(events: seq<CalEvent>, year: int, month: int, day: int): seq<CalEvent> {
    Filter(events, OnDay(year, month, day))
  }

  /** `byDay` holds a bucket for each day of `events` that has any, with that day's events in order. */
  ghost predicate BucketsOf(byDay: map<int, seq<CalEvent>>, events: seq<CalEvent>, year: int, month: int) {
    && (forall day :: day in byDay <==> DayEvents(events, year, month, day) != [])
    && (forall day :: day in byDay ==> byDay[day] == DayEvents(events, year, month, day))
  }

  /** Pushing the next event onto its day's bucket (creating it if needed) keeps the buckets right. */
  lemma BucketStep(byDay: map<int, seq<CalEvent>>, events: seq<CalEvent>, e: CalEvent, year: int, month: int)
    requires BucketsOf(byDay, events, year, month)
    requires e.year == year && e.month == month
    ensures BucketsOf(byDay[e.day := (if e.day in byDay then byDay[e.day] else []) + [e]], events + [e], year, month)
  {
    forall day: int
      ensures DayEvents(events + [e], year, month, day)
        == DayEvents(events, year, month, day) + (if day == e.day then [e] else [])
    {
      FilterSnoc(events, e, OnDay(year, month, day));
    }
  }

  /** An event outside the displayed month changes no bucket. */
  lemma BucketSkip(byDay: map<int, seq<CalEvent>>, events: seq<CalEvent>, e: CalEvent, year: int, month: int)
    requires BucketsOf(byDay, events, year, month)
    requires !(e.year == year && e.month == month)
    ensures BucketsOf(byDay, events + [e], year, month)
  {
    forall day: int
      ensures DayEvents(events + [e], year, month, day) == DayEvents(events, year, month, day)
    {
      FilterSnoc(events, e, OnDay(year, month, day));
    }
  }

  /** The `eventsByDay` loop: a bucket for each day that has events, holding them in input order. */
  method BucketByDay(events: seq<CalEvent>, year: int, month: int) returns (byDay: map<int, seq<CalEvent>>)
    ensures forall day :: day in byDay <==> DayEvents(events, year, month, day) != []
    ensures forall day :: day in byDay ==> byDay[day] == DayEvents(events, year, month, day)
  {
    byDay := map[];
    var i := 0;
    while i < |events|
      invariant 0 <= i <= |events|
      invariant BucketsOf(byDay, events[..i], year, month)
    {
      var e := events[i];
      assert events[..i + 1] == events[..i] + [e];
      if e.year == year && e.month == month {
        BucketStep(byDay, events[..i], e, year, month);
        var bucket := if e.day in byDay then byDay[e.day] else [];
        byDay := byDay[e.day := bucket + [e]];
      } else {
        BucketSkip(byDay, events[..i], e, year, month);
      }
      i := i + 1;
    }
    assert events[..|events|] == events;
  }

  /** Each event of the displayed month lands in its own day's bucket and no other; the rest land nowhere. */
  lemma BucketsPartition(events: seq<CalEvent>, year: int, month: int, e: CalEvent, day: int)
    requires e in events
    ensures e in DayEvents(events, year, month, day) <==> e.year == year && e.month == month && e.day == day
  {
  }

  /** What the viewer's clock says today is, in their time zone. */
  datatype Today = Today(year: int, month: int, date: int)

  /** `isToday`: the displayed month is the current one and the cell is today's date. */
  predicate IsToday(year: int, month: int, today: Today, day: int) {
    today.year == year && today.month == month && day == today.date
  }

  /** One rendered day cell: the first two events as links, and the count behind "+N more". */
  datatype DayCell = DayCell(day: int, isToday: bool, shown: seq<CalEvent>, extra: int)

  function ViewCell(byDay: map<int, seq<CalEvent>>, year: int, month: int, today: Today, day: int): (r: DayCell)
    ensures var dayEvents := if day in byDay then byDay[day] else [];
      && r.shown <= dayEvents
      && |r.shown| == (if |dayEvents| <= 2 then |dayEvents| else 2)
      && r.extra == |dayEvents| - 2
      && |r.shown| + (if r.extra > 0 then r.extra else 0) == |dayEvents|
      && (r.extra > 0 <==> |dayEvents| > 2)
    ensures r.isToday == IsToday(year, month, today, day)
  {
    var dayEvents := if day in byDay then byDay[day] else [];
    var shown := if |dayEvents| <= 2 then dayEvents else dayEvents[..2];
    DayCell(day, IsToday(year, month, today, day), shown, |dayEvents| - 2)
  }

  /** The "+N more" label, present only when some events are hidden; N reads back as their number. */
  function MoreLabel(c: DayCell): (r: Option<string>)
    ensures r.Some? <==> c.extra > 0
    ensures r.Some? ==>
      && 7 <= |r.value| && r.value[0] == '+' && r.value[|r.value| - 5..] == " more"
      && (forall i :: 1 <= i < |r.value| - 5 ==> IsDigit(r.value[i]))
      && DigitsValue(r.value[1..|r.value| - 5]) == c.extra
      && r.value[1] != '0'
  {
    if c.extra > 0 then
      var digits := NatToString(c.extra);
      var text := "+" + digits + " more";
      NatToStringValue(c.extra);
      NatToStringNoLeadingZero(c.extra);
      assert text[1..|text| - 5] == digits;
      Some(text)
    else None
  }

  /** At most one cell of the grid is highlighted as today, and one is exactly when today falls in the displayed month. */
  lemma TodayUnique(startDow: nat, days: nat, year: int, month: int, today: Today, i: int, j: int)
    requires 0 <= i < startDow + days && 0 <= j < startDow + days
    requires Cells(startDow, days)[i].Some? && Cells(startDow, days)[j].Some?
    requires IsToday(year, month, today, Cells(startDow, days)[i].value)
    requires IsToday(year, month, today, Cells(startDow, days)[j].value)
    ensures i == j
  {
  }

  lemma TodayShown(startDow: nat, days: nat, year: int, month: int, today: Today)
    ensures (exists i :: 0 <= i < startDow + days && Cells(startDow, days)[i].Some?
                && IsToday(year, month, today, Cells(startDow, days)[i].value))
        <==> today.year == year && today.month == month && 1 <= today.date <= days
  {
    if today.year == year && today.month == month && 1 <= today.date <= days {
      var i := startDow + today.date - 1;
      assert Cells(startDow, days)[i] == Some(today.date);
    }
  }
}
