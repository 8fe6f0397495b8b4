/**
 * An event as the calendar components see it: `new Date(startAt)` read in
 * the viewer's time zone (full year, 0-based month, day of the month) and
 * its `toLocaleDateString` label, all taken as given.
 */
module CalendarData {
  import opened Wrappers

  datatype CalEvent = CalEvent(
    id: string, title: string, description: Option<string>,
    year: int, month: int, day: int, dateKey: string)

  /** `d.getFullYear() === year && d.getMonth() === month`. */
  function InMonth(year: int, month: int): CalEvent -> bool {
    (e: CalEvent) => e.year == year && e.month == month
  }
}

/**
 * The month navigation of src/components/CalendarViewSwitcher.tsx: the
 * displayed (year, month) moves one month at a time inside the window
 * [min, max] given as props; months are 0-based as in JavaScript.
 */
module CalendarNav {
  import opened Seqs
  import opened CalendarData

  /** The months since year 0: lexicographic (year, month) order is the order of this index. */
  function MonthIndex(year: int, month: int): int {
    year * 12 + month
  }

  predicate ValidMonth(month: int) { 0 <= month < 12 }

  /** The month after (year, month). */
  function Next(year: int, month: int): (r: (int, int))
    requires ValidMonth(month)
    ensures ValidMonth(r.1) && MonthIndex(r.0, r.1) == MonthIndex(year, month) + 1
  {
    if month == 11 then (year + 1, 0) else (year, month + 1)
  }

  /** The month before (year, month). */
  function Prev(year: int, month: int): (r: (int, int))
    requires ValidMonth(month)
    ensures ValidMonth(r.1) && MonthIndex(r.0, r.1) == MonthIndex(year, month) - 1
  {
    if month == 0 then (year - 1, 11) else (year, month - 1)
  }

  /** Going forward and then back returns to the starting month, and back then forward too. */
  lemma PrevNext(year: int, month: int)
    requires ValidMonth(month)
    ensures var n := Next(year, month); Prev(n.0, n.1) == (year, month)
    ensures var p := Prev(year, month); Next(p.0, p.1) == (year, month)
  {
  }

  /** A month index determines the (year, month) pair. */
  lemma MonthIndexInjective(y1: int, m1: int, y2: int, m2: int)
    requires ValidMonth(m1) && ValidMonth(m2)
    requires MonthIndex(y1, m1) == MonthIndex(y2, m2)
    ensures y1 == y2 && m1 == m2
  {
    assert (y1 - y2) * 12 == m2 - m1;
  }

  /** The switcher's displayed month and its navigation window. */
  class MonthNavigator {
    var year: int
    var month: int
    const minYear: int
    const minMonth: int
    const maxYear: int
    const maxMonth: int

    ghost predicate Valid()
      reads this
    {
      ValidMonth(month) && ValidMonth(minMonth) && ValidMonth(maxMonth)
    }

    /** The displayed month lies in the window. */
    predicate InWindow()
      reads this
    {
      MonthIndex(minYear, minMonth) <= MonthIndex(year, month) <= MonthIndex(maxYear, maxMonth)
    }

    constructor(initialYear: int, initialMonth: int, minYear: int, minMonth: int, maxYear: int, maxMonth: int)
      requires ValidMonth(initialMonth) && ValidMonth(minMonth) && ValidMonth(maxMonth)
      ensures Valid()
      ensures year == initialYear && month == initialMonth
      ensures this.minYear == minYear && this.minMonth == minMonth
      ensures this.maxYear == maxYear && this.maxMonth == maxMonth
    {
      year := initialYear;
      month := initialMonth;
      this.minYear := minYear;
      this.minMonth := minMonth;
      this.maxYear := maxYear;
      this.maxMonth := maxMonth;
    }

    /** `canPrev`. */
    predicate CanPrev()
      reads this
    {
      year > minYear || (year == minYear && month > minMonth)
    }

    /** `canNext`. */
    predicate CanNext()
      reads this
    {
      year < maxYear || (year == maxYear && month < maxMonth)
    }

    /** `canPrev` and `canNext` compare month indexes: the lexicographic test is the linear one. */
    lemma CanMoveByIndex()
      requires Valid()
      ensures CanPrev() <==> MonthIndex(year, month) > MonthIndex(minYear, minMonth)
      ensures CanNext() <==> MonthIndex(year, month) < MonthIndex(maxYear, maxMonth)
    {
      if year > minYear {
        assert MonthIndex(year, month) >= minYear * 12 + 12;
      } else if year < minYear {
        assert MonthIndex(year, month) < year * 12 + 12 <= MonthIndex(minYear, minMonth);
      }
      if year < maxYear {
        assert MonthIndex(year, month) < year * 12 + 12 <= MonthIndex(maxYear, maxMonth);
      } else if year > maxYear {
        assert MonthIndex(year, month) >= maxYear * 12 + 12;
      }
    }

    /** `goPrev`: one month back when allowed, otherwise nothing. */
    method GoPrev()
      requires Valid()
      modifies this
      ensures Valid()
      ensures old(CanPrev()) ==> (year, month) == Prev(old(year), old(month))
      ensures !old(CanPrev()) ==> year == old(year) && month == old(month)
      ensures old(InWindow()) ==> InWindow()
    {
      CanMoveByIndex();
      if !CanPrev() {
        return;
      }
      if month == 0 {
        month := 11;
        year := year - 1;
      } else {
        month := month - 1;
      }
    }

    /** `goNext`: one month forward when allowed, otherwise nothing. */
    method GoNext()
      requires Valid()
      modifies this
      ensures Valid()
      ensures old(CanNext()) ==> (year, month) == Next(old(year), old(month))
      ensures !old(CanNext()) ==> year == old(year) && month == old(month)
      ensures old(InWindow()) ==> InWindow()
      ensures old(CanNext()) && old(InWindow()) ==> CanPrev()
    {
      CanMoveByIndex();
      if !CanNext() {
        return;
      }
      if month == 11 {
        month := 0;
        year := year + 1;
      } else {
        month := month + 1;
      }
      CanMoveByIndex();
    }

    /** `monthEvents`: the events of the displayed month, in input order. */
    function MonthEvents(events: seq<CalEvent>): (r: seq<CalEvent>)
      reads this
      ensures forall i :: 0 <= i < |r| ==> r[i] in events && r[i].year == year && r[i].month == month
      ensures forall i :: 0 <= i < |events| && events[i].year == year && events[i].month == month ==> events[i] in r
    {
      Filter(events, InMonth(year, month))
    }

    /** Input order is kept: an event appended to the input is appended to the result when it is in the month. */
    lemma MonthEventsSnoc(events: seq<CalEvent>, e: CalEvent)
      ensures MonthEvents(events + [e])
           == MonthEvents(events) + (if e.year == year && e.month == month then [e] else [])
    {
      FilterSnoc(events, e, InMonth(year, month));
    }
  }
}
