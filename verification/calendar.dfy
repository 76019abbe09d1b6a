/**
 * The Calendar component's state and event handlers. The component holds the
 * active month (whose grid is shown) and the active date (the highlighted,
 * selected cell); the rendered table contributes the tabindex attribute of each
 * of its 42 cells and which cell has keyboard focus.
 */
module CalendarComponent {
  import opened Wrappers
  import opened Dates
  import opened MonthGrid
  import opened Availability
  import opened KeyNavigation

  /** The tabindex attributes of a freshly rendered grid: every cell is rendered with -1. */
  function RenderedTabIndex(): (tab: seq<int>)
    ensures |tab| == CellCount && NoTabStop(tab)
    ensures forall j :: 0 <= j < CellCount ==> tab[j] == -1
  {
    seq(CellCount, _ => -1)
  }

  /** enableFirstAvailableDate: the first cell marked data-disabled="false" gets tabindex 0. */
  function EnableFirst(tab: seq<int>, attrs: seq<Attr>): (r: seq<int>)
    requires |tab| == |attrs|
    ensures |r| == |tab|
    ensures FirstFalse(attrs, 0).Some? ==> r[FirstFalse(attrs, 0).value] == 0
    ensures forall j :: 0 <= j < |tab| && FirstFalse(attrs, 0) != Some(j) ==> r[j] == tab[j]
  {
    match FirstFalse(attrs, 0)
    case None => tab
    case Some(i) => tab[i := 0]
  }

  /**
   * The effect only adds a tab stop: when another cell already holds tabindex 0
   * (after an arrow move within the month), both cells are tab stops afterwards
   * and neither is the sole one.
   */
  lemma {:induction false} EnableFirstKeepsOldTabStop(tab: seq<int>, attrs: seq<Attr>, j: nat)
    requires |tab| == |attrs| && j < |tab| && tab[j] == 0
    requires FirstFalse(attrs, 0).Some? && FirstFalse(attrs, 0).value != j
    ensures EnableFirst(tab, attrs)[j] == 0
    ensures EnableFirst(tab, attrs)[FirstFalse(attrs, 0).value] == 0
    ensures forall i :: !SoleTabStop(EnableFirst(tab, attrs), i)
  {
  }

  /**
   * After a fresh render and enableFirstAvailableDate, the first cell marked
   * "false" is the one tab stop; with no such cell there is none.
   */
  lemma FreshGridTabStop(attrs: seq<Attr>)
    requires |attrs| == CellCount
    ensures FirstFalse(attrs, 0).Some? ==>
      SoleTabStop(EnableFirst(RenderedTabIndex(), attrs), FirstFalse(attrs, 0).value)
    ensures FirstFalse(attrs, 0).None? ==> NoTabStop(EnableFirst(RenderedTabIndex(), attrs))
  {
  }

  /**
   * The same on the shown days: with `max` given, the first day that is not
   * disabled becomes the sole tab stop, and there is none only when every day
   * is disabled; without `max` the grid never gets a tab stop.
   */
  lemma {:induction false} FreshGridTabStopByDays(cells: seq<Day>, min: Option<Moment>, max: Option<Moment>)
    requires |cells| == CellCount
    ensures var tab := EnableFirst(RenderedTabIndex(), DisabledAttrs(cells, min, max));
      max.Some? && (exists j :: 0 <= j < CellCount && !IsDateDisabled(cells[j], min, max)) ==>
        exists i :: 0 <= i < CellCount && SoleTabStop(tab, i) && !IsDateDisabled(cells[i], min, max) &&
          forall j :: 0 <= j < i ==> IsDateDisabled(cells[j], min, max)
    ensures max.None? ==> NoTabStop(EnableFirst(RenderedTabIndex(), DisabledAttrs(cells, min, max)))
  {
    var attrs := DisabledAttrs(cells, min, max);
    FirstFalseFindsFirstEnabled(cells, min, max);
    FreshGridTabStop(attrs);
    var r := FirstFalse(attrs, 0);
    if max.Some? && r.Some? {
      var tab := EnableFirst(RenderedTabIndex(), attrs);
      assert SoleTabStop(tab, r.value);
    }
  }

  /**
   * New bounds can strand the tab stop: when the cell that became the tab stop
   * under the old bounds is disabled under the new ones, the grid's only tab
   * stop is a cell whose data-disabled reads "true".
   */
  lemma {:induction false} NewBoundsStrandTabStop(cells: seq<Day>, min: Option<Moment>, max: Option<Moment>, newMin: Option<Moment>, newMax: Option<Moment>)
    requires |cells| == CellCount
    requires FirstFalse(DisabledAttrs(cells, min, max), 0).Some?
    requires IsDateDisabled(cells[FirstFalse(DisabledAttrs(cells, min, max), 0).value], newMin, newMax)
    ensures exists i :: (SoleTabStop(EnableFirst(RenderedTabIndex(), DisabledAttrs(cells, min, max)), i) &&
      DisabledAttrs(cells, newMin, newMax)[i] == True)
  {
    var i := FirstFalse(DisabledAttrs(cells, min, max), 0).value;
    FreshGridTabStop(DisabledAttrs(cells, min, max));
    assert DisabledAttrs(cells, newMin, newMax)[i] == True;
  }

  class Calendar {
    var min: Option<Moment>
    var max: Option<Moment>
    /** Whether the host passed an onClick callback. */
    var hasOnClick: bool
    /** The tabindex attribute of each cell, in document order. */
    const tabIndex: array<int>

    var activeMonth: Day
    var activeDate: Day
    /** The dates passed to onClick so far, in order. */
    var clicks: seq<Day>
    /** The cell holding keyboard focus, if focus is inside the grid. */
    var focus: Option<nat>

    ghost predicate Valid()
      reads this`focus, tabIndex
    {
      tabIndex.Length == CellCount &&
      (focus.Some? ==> focus.value < CellCount) &&
      forall j :: 0 <= j < tabIndex.Length ==> tabIndex[j] == 0 || tabIndex[j] == -1
    }

    /** The days shown: getMonthDates(activeMonth). */
    function Cells(): (cells: seq<Day>)
      reads this`activeMonth
      ensures |cells| == CellCount
    {
      GetMonthDates(activeMonth)
    }

    /** The data-disabled attribute of each shown cell. */
    function Attrs(): (attrs: seq<Attr>)
      reads this`activeMonth, this`min, this`max
      ensures |attrs| == CellCount
    {
      DisabledAttrs(Cells(), min, max)
    }

    /** The Prev button's disabled attribute: once it is set, the previous month has no enabled day. */
    function PrevButtonDisabled(): (r: bool)
      reads this`activeMonth, this`min, this`max
      ensures min.None? ==> !r
      ensures r ==> forall e: Day :: MonthIndex(e) == MonthIndex(activeMonth) - 1 ==> IsDateDisabled(e, min, max)
    {
      PrevDisabledGuardsEmptyMonth(min, max, activeMonth);
      PrevDisabled(min, activeMonth)
    }

    /** The Next button's disabled attribute: once it is set, the next month has no enabled day. */
    function NextButtonDisabled(): (r: bool)
      reads this`activeMonth, this`min, this`max
      ensures max.None? ==> !r
      ensures r ==> forall e: Day :: MonthIndex(e) == MonthIndex(activeMonth) + 1 ==> IsDateDisabled(e, min, max)
    {
      NextDisabledGuardsEmptyMonth(min, max, activeMonth);
      NextDisabled(max, activeMonth)
    }

    /**
     * Mounting: both state fields start at the `date` prop, or at the current
     * day when it is absent; the grid is rendered and the first enabled cell
     * becomes the tab stop.
     */
    constructor (date: Option<Day>, now: Day, min: Option<Moment>, max: Option<Moment>, hasOnClick: bool)
      ensures Valid() && fresh(tabIndex)
      ensures this.min == min && this.max == max && this.hasOnClick == hasOnClick
      ensures activeMonth == date.GetOr(now) && activeDate == date.GetOr(now)
      ensures clicks == [] && focus.None?
      ensures tabIndex[..] == EnableFirst(RenderedTabIndex(), Attrs())
    {
      this.min, this.max, this.hasOnClick := min, max, hasOnClick;
      activeMonth, activeDate := date.GetOr(now), date.GetOr(now);
      clicks, focus := [], None;
      tabIndex := new int[CellCount](_ => -1);
      new;
      assert tabIndex[..] == RenderedTabIndex();
      EnableFirstAvailableDate();
    }

    /** The effect on activeMonth: the first cell marked data-disabled="false" gets tabindex 0. */
    method EnableFirstAvailableDate()
      requires Valid()
      modifies tabIndex
      ensures Valid()
      ensures tabIndex[..] == EnableFirst(old(tabIndex[..]), Attrs())
    {
      var first := FirstFalse(Attrs(), 0);
      if first.Some? {
        tabIndex[first.value] := 0;
      }
    }

    /**
     * The grid after activeMonth was set, coming from the month of `previous`.
     * For another month every cell is a new element (no day sits at the same
     * position in both grids), rendered with tabindex -1, and the focused
     * element is gone; for the same month the cells and their attributes stay.
     * Then the effect on activeMonth runs.
     */
    method Render(previous: Day)
      requires Valid()
      modifies tabIndex, this`focus
      ensures Valid()
      ensures activeMonth == old(activeMonth) && activeDate == old(activeDate) && clicks == old(clicks)
      ensures IsSameMonth(previous, activeMonth) ==>
        focus == old(focus) && tabIndex[..] == EnableFirst(old(tabIndex[..]), Attrs())
      ensures !IsSameMonth(previous, activeMonth) ==>
        focus.None? && tabIndex[..] == EnableFirst(RenderedTabIndex(), Attrs())
    {
      if !IsSameMonth(previous, activeMonth) {
        forall j | 0 <= j < tabIndex.Length {
          tabIndex[j] := -1;
        }
        assert tabIndex[..] == RenderedTabIndex();
        focus := None;
      }
      EnableFirstAvailableDate();
    }

    /** prevMonth: activeMonth moves back one calendar month; the active date stays. */
    method PrevMonth()
      requires Valid()
      modifies this`activeMonth, this`focus, tabIndex
      ensures Valid()
      ensures MonthIndex(activeMonth) == MonthIndex(old(activeMonth)) - 1
      ensures activeMonth == SubMonths(old(activeMonth), 1)
      ensures activeDate == old(activeDate) && clicks == old(clicks)
      ensures focus.None? && tabIndex[..] == EnableFirst(RenderedTabIndex(), Attrs())
    {
      var previous := activeMonth;
      activeMonth := SubMonths(activeMonth, 1);
      assert !IsSameMonth(previous, activeMonth);
      Render(previous);
    }

    /** nextMonth: activeMonth moves on one calendar month; the active date stays. */
    method NextMonth()
      requires Valid()
      modifies this`activeMonth, this`focus, tabIndex
      ensures Valid()
      ensures MonthIndex(activeMonth) == MonthIndex(old(activeMonth)) + 1
      ensures activeMonth == AddMonths(old(activeMonth), 1)
      ensures activeDate == old(activeDate) && clicks == old(clicks)
      ensures focus.None? && tabIndex[..] == EnableFirst(RenderedTabIndex(), Attrs())
    {
      var previous := activeMonth;
      activeMonth := AddMonths(activeMonth, 1);
      assert !IsSameMonth(previous, activeMonth);
      Render(previous);
    }

    /** The Prev button: its click reaches prevMonth only when it is not disabled. */
    method PressPrev()
      requires Valid()
      modifies this`activeMonth, this`focus, tabIndex
      ensures Valid()
      ensures old(PrevButtonDisabled()) ==>
        activeMonth == old(activeMonth) && tabIndex[..] == old(tabIndex[..]) && focus == old(focus)
      ensures !old(PrevButtonDisabled()) ==>
        activeMonth == SubMonths(old(activeMonth), 1) &&
        focus.None? && tabIndex[..] == EnableFirst(RenderedTabIndex(), Attrs())
      ensures activeDate == old(activeDate) && clicks == old(clicks)
    {
      if !PrevButtonDisabled() {
        PrevMonth();
      }
    }

    /** The Next button: its click reaches nextMonth only when it is not disabled. */
    method PressNext()
      requires Valid()
      modifies this`activeMonth, this`focus, tabIndex
      ensures Valid()
      ensures old(NextButtonDisabled()) ==>
        activeMonth == old(activeMonth) && tabIndex[..] == old(tabIndex[..]) && focus == old(focus)
      ensures !old(NextButtonDisabled()) ==>
        activeMonth == AddMonths(old(activeMonth), 1) &&
        focus.None? && tabIndex[..] == EnableFirst(RenderedTabIndex(), Attrs())
      ensures activeDate == old(activeDate) && clicks == old(clicks)
    {
      if !NextButtonDisabled() {
        NextMonth();
      }
    }

    /**
     * selectDate(d): both state fields become d, onClick (when given) is called
     * once with d, and d's cell is shown. Nothing checks whether d is disabled.
     */
    method SelectDate(d: Day)
      requires Valid()
      modifies this`activeMonth, this`activeDate, this`clicks, this`focus, tabIndex
      ensures Valid()
      ensures activeDate == d && activeMonth == d
      ensures clicks == old(clicks) + (if hasOnClick then [d] else [])
      ensures d in Cells()
      ensures IsSameMonth(old(activeMonth), d) ==>
        focus == old(focus) && tabIndex[..] == EnableFirst(old(tabIndex[..]), Attrs())
      ensures !IsSameMonth(old(activeMonth), d) ==>
        focus.None? && tabIndex[..] == EnableFirst(RenderedTabIndex(), Attrs())
    {
      var previous := activeMonth;
      activeDate := d;
      activeMonth := d;
      if hasOnClick {
        clicks := clicks + [d];
      }
      AnchorInGrid(d);
      Render(previous);
    }

    /** A mouse click on cell i: the cell takes focus and its date is selected, disabled or not. */
    method ClickCell(i: nat)
      requires Valid() && i < CellCount
      modifies this`activeMonth, this`activeDate, this`clicks, this`focus, tabIndex
      ensures Valid()
      ensures activeDate == old(Cells())[i] && activeMonth == old(Cells())[i]
      ensures clicks == old(clicks) + (if hasOnClick then [old(Cells())[i]] else [])
      ensures IsSameMonth(old(activeMonth), old(Cells())[i]) ==>
        focus == Some(i) && tabIndex[..] == EnableFirst(old(tabIndex[..]), Attrs())
      ensures !IsSameMonth(old(activeMonth), old(Cells())[i]) ==>
        focus.None? && tabIndex[..] == EnableFirst(RenderedTabIndex(), Attrs())
    {
      var d := Cells()[i];
      focus := Some(i);
      SelectDate(d);
    }

    /** The browser moves keyboard focus to cell i (Tab onto the tab stop, or a mouse press). */
    method Focus(i: nat)
      requires Valid() && i < CellCount
      modifies this`focus
      ensures Valid() && focus == Some(i)
    {
      focus := Some(i);
    }

    /**
     * The effect that follows the `date` prop: when it is given and is not the
     * active date, both state fields become it; otherwise nothing changes.
     */
    method SyncDate(date: Option<Day>)
      requires Valid()
      modifies this`activeMonth, this`activeDate, this`focus, tabIndex
      ensures Valid()
      ensures clicks == old(clicks)
      ensures date.None? || date.value == old(activeDate) ==>
        activeDate == old(activeDate) && activeMonth == old(activeMonth) &&
        focus == old(focus) && tabIndex[..] == old(tabIndex[..])
      ensures date.Some? && date.value != old(activeDate) ==>
        activeDate == date.value && activeMonth == date.value
      ensures date.Some? && date.value != old(activeDate) && IsSameMonth(old(activeMonth), date.value) ==>
        focus == old(focus) && tabIndex[..] == EnableFirst(old(tabIndex[..]), Attrs())
      ensures date.Some? && date.value != old(activeDate) && !IsSameMonth(old(activeMonth), date.value) ==>
        focus.None? && tabIndex[..] == EnableFirst(RenderedTabIndex(), Attrs())
    {
      if date.None? {
        return;
      }
      if date.value == activeDate {
        return;
      }
      var previous := activeMonth;
      activeDate := date.value;
      activeMonth := date.value;
      Render(previous);
    }

    /**
     * A re-render with new `min`, `max` and `onClick` props (the host page
     * computes its bounds anew on every render). The cells keep their elements,
     * so data-disabled and the Prev/Next buttons follow the new bounds; the
     * effect on activeMonth does not run, so tabindex and focus stay as they are.
     */
    method ReceiveProps(min: Option<Moment>, max: Option<Moment>, hasOnClick: bool)
      requires Valid()
      modifies this`min, this`max, this`hasOnClick
      ensures Valid()
      ensures this.min == min && this.max == max && this.hasOnClick == hasOnClick
      ensures activeMonth == old(activeMonth) && activeDate == old(activeDate) && clicks == old(clicks)
      ensures focus == old(focus) && tabIndex[..] == old(tabIndex[..])
    {
      this.min, this.max, this.hasOnClick := min, max, hasOnClick;
    }

    /**
     * An arrow-key step from the focused cell applied to the grid: the tabindex
     * attributes change as ApplyStep says, and a move takes focus to its target.
     */
    method TakeStep(s: Step)
      requires Valid() && focus.Some?
      requires s.MoveTo? ==> s.target < CellCount
      modifies tabIndex, this`focus
      ensures Valid()
      ensures tabIndex[..] == ApplyStep(old(tabIndex[..]), old(focus).value, s)
      ensures focus == (if s.MoveTo? then Some(s.target) else old(focus))
    {
      var cell := focus.value;
      match s
      case Stay =>
      case MoveTo(t) =>
        tabIndex[cell] := -1;
        tabIndex[t] := 0;
        focus := Some(t);
      case Release =>
        tabIndex[cell] := -1;
    }

    /**
     * The keydown handler on the table, for the focused cell. Arrow keys take
     * the step ArrowStep gives on the shown cells' data-disabled attributes;
     * Enter and Space click the cell, which selects its date; other keys do
     * nothing.
     */
    method OnKeyDown(key: Key)
      requires Valid() && focus.Some?
      modifies this`activeMonth, this`activeDate, this`clicks, this`focus, tabIndex
      ensures Valid()
      ensures (key.Enter? || key.Space?) ==>
        activeDate == old(Cells())[old(focus).value] && activeMonth == activeDate &&
        clicks == old(clicks) + (if hasOnClick then [activeDate] else [])
      ensures (key.Enter? || key.Space?) && IsSameMonth(old(activeMonth), activeDate) ==>
        focus == old(focus) && tabIndex[..] == EnableFirst(old(tabIndex[..]), Attrs())
      ensures (key.Enter? || key.Space?) && !IsSameMonth(old(activeMonth), activeDate) ==>
        focus.None? && tabIndex[..] == EnableFirst(RenderedTabIndex(), Attrs())
      ensures !(key.Enter? || key.Space?) ==>
        var s := ArrowStep(old(focus).value, key, old(Attrs()));
        tabIndex[..] == ApplyStep(old(tabIndex[..]), old(focus).value, s) &&
        focus == (if s.MoveTo? then Some(s.target) else old(focus)) &&
        activeDate == old(activeDate) && activeMonth == old(activeMonth) && clicks == old(clicks)
    {
      if key.Enter? || key.Space? {
        SelectDate(Cells()[focus.value]);
      } else {
        TakeStep(ArrowStep(focus.value, key, Attrs()));
      }
    }
  }
}
