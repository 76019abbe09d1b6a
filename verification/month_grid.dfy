/**
 * The visible month: 42 consecutive days (six weeks of seven) starting on the
 * Sunday of the week that holds the first of the anchor's month.
 */
module MonthGrid {
  import opened Dates

  /** Cells of the grid: six rows of seven. */
  const CellCount := 42

  /** Column headers, Sunday first. */
  const WeekDays := ["sun", "mon", "tue", "wed", "thu", "fri", "sat"]

  /** The header name of a day's weekday. */
  function DayName(d: Day): string {
    WeekDays[Weekday(d)]
  }

  /** getMonthDates(anchor). */
  function GetMonthDates(anchor: Day): (cells: seq<Day>)
    ensures |cells| == CellCount
    ensures Weekday(cells[0]) == 0
    ensures Ordinal(StartOfMonth(anchor)) - 6 <= Ordinal(cells[0]) <= Ordinal(StartOfMonth(anchor))
    ensures Ordinal(cells[0]) == Ordinal(StartOfMonth(anchor)) - Weekday(StartOfMonth(anchor))
    ensures forall n :: 0 <= n < CellCount ==> Ordinal(cells[n]) == Ordinal(cells[0]) + n
  {
    var start := StartOfWeek(StartOfMonth(anchor));
    seq(CellCount, n requires 0 <= n < CellCount => AddDays(start, n))
  }

  /** Grid position of a day of the anchor's month: the first's weekday plus the day number minus one. */
  function CellOf(anchor: Day, k: int): int
    requires 1 <= k <= DaysInMonth(anchor.year, anchor.month)
  {
    Weekday(StartOfMonth(anchor)) + k - 1
  }

  /** Every day of the anchor's month appears in the grid, at the position CellOf gives. */
  lemma {:induction false} GridCoversMonth(anchor: Day, k: int)
    requires 1 <= k <= DaysInMonth(anchor.year, anchor.month)
    ensures 0 <= CellOf(anchor, k) < CellCount
    ensures GetMonthDates(anchor)[CellOf(anchor, k)] == Date(anchor.year, anchor.month, k)
  {
    var cells := GetMonthDates(anchor);
    var first := StartOfMonth(anchor);
    var target: Day := Date(anchor.year, anchor.month, k);
    var i := CellOf(anchor, k);
    assert Ordinal(target) == Ordinal(first) + k - 1;
    OrdinalInjective(cells[i], target);
  }

  /** The anchor itself is in its own grid: the active date's cell is always rendered. */
  lemma AnchorInGrid(anchor: Day)
    ensures anchor in GetMonthDates(anchor)
  {
    GridCoversMonth(anchor, anchor.day);
  }

  /** Column c of the grid holds days whose weekday is c, so each cell sits under its own day's header. */
  lemma {:induction false} GridColumns(anchor: Day, n: int)
    requires 0 <= n < CellCount
    ensures Weekday(GetMonthDates(anchor)[n]) == n % 7
    ensures DayName(GetMonthDates(anchor)[n]) == WeekDays[n % 7]
  {
    var cells := GetMonthDates(anchor);
    var o := Ordinal(cells[0]) + 4;
    assert o % 7 == 0;
    WholeWeeksShift(o, n);
    assert Ordinal(cells[n]) + 4 == o + n;
  }

  lemma WholeWeeksShift(o: int, n: int)
    requires o % 7 == 0
    ensures (o + n) % 7 == n % 7
  {
    var q, r := o / 7 + n / 7, n % 7;
    assert o + n == 7 * q + r;
  }

  /** The grid lists days in strictly increasing order, each cell's midnight before the next. */
  lemma GridIncreasing(anchor: Day, i: int, j: int)
    requires 0 <= i < j < CellCount
    ensures IsBefore(Midnight(GetMonthDates(anchor)[i]), Midnight(GetMonthDates(anchor)[j]))
  {
  }

  /**
   * Grids of two different months never show the same day in the same cell
   * (their starts differ by a non-zero number of whole weeks).
   */
  lemma {:induction false} DifferentMonthsShareNoCell(a: Day, b: Day, n: int)
    requires !IsSameMonth(a, b)
    requires 0 <= n < CellCount
    ensures GetMonthDates(a)[n] != GetMonthDates(b)[n]
  {
    var ga, gb := GetMonthDates(a), GetMonthDates(b);
    var fa, fb := StartOfMonth(a), StartOfMonth(b);
    if ga[n] == gb[n] {
      assert Ordinal(ga[0]) == Ordinal(gb[0]);
      if MonthIndex(a) < MonthIndex(b) {
        MonthAfterStart(fa, fb);
      } else {
        MonthAfterStart(fb, fa);
      }
      assert false;
    }
  }

  /** The first of a later month is at least 28 days after the first of an earlier one. */
  lemma {:induction false} MonthAfterStart(a: Day, b: Day)
    requires a.day == 1 && b.day == 1
    requires MonthIndex(a) < MonthIndex(b)
    ensures Ordinal(a) + 28 <= Ordinal(b)
  {
    var last: Day := Date(a.year, a.month, DaysInMonth(a.year, a.month));
    assert Ordinal(last) == Ordinal(a) + DaysInMonth(a.year, a.month) - 1;
    OrdinalMonthOrder(last, b);
  }

  /** 1 June 1995 was a Thursday, so June 1995 fills cells 4 to 33 of its grid. */
  lemma June1995(anchor: Day)
    requires anchor.year == 1995 && anchor.month == 6
    ensures Weekday(StartOfMonth(anchor)) == 4
    ensures GetMonthDates(anchor)[4] == Date(1995, 6, 1)
    ensures GetMonthDates(anchor)[33] == Date(1995, 6, 30)
  {
    assert Weekday(StartOfMonth(anchor)) == 4 by {
      assert LeapYearsBefore(1995) == 484;
      assert Ordinal(StartOfMonth(anchor)) == 9282;
    }
    GridCoversMonth(anchor, 1);
    GridCoversMonth(anchor, 30);
  }
}
