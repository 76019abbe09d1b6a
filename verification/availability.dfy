/**
 * Which days can be picked and where month navigation stops: the per-cell
 * disabled expression, the data-disabled attribute it renders to, and the
 * Prev/Next button rule, all driven by the optional `min` and `max` props.
 * The props are moments (a day and a time of day); the cells are midnights.
 */
module Availability {
  import opened Wrappers
  import opened Dates

  /** The values the disabled expression can take: `undefined` or a boolean. */
  datatype JsValue = Undefined | Bool(b: bool)

  /** JavaScript's `a || b`: `a` when it is truthy, `b` otherwise. */
  function Or(a: JsValue, b: JsValue): JsValue {
    if a == Bool(true) then a else b
  }

  /**
   * The value of `(min && isBefore(date, min)) || (max && (isEqual(date, max) ||
   * isAfter(date, max)))` for the cell of `date`; an absent prop makes its side
   * `undefined`.
   */
  function DisabledValue(date: Day, min: Option<Moment>, max: Option<Moment>): (r: JsValue)
    ensures r.Undefined? <==> max.None? && !(min.Some? && IsBefore(Midnight(date), min.value))
    ensures r == Bool(false) <==>
      max.Some? && !(min.Some? && IsBefore(Midnight(date), min.value)) &&
      !IsEqual(Midnight(date), max.value) && !IsAfter(Midnight(date), max.value)
  {
    var cell := Midnight(date);
    Or(if min.Some? then Bool(IsBefore(cell, min.value)) else Undefined,
       if max.Some? then Bool(IsEqual(cell, max.value) || IsAfter(cell, max.value)) else Undefined)
  }

  /** The cell is disabled when the expression is truthy (aria-disabled, and "true" in data-disabled). */
  function IsDateDisabled(date: Day, min: Option<Moment>, max: Option<Moment>): (r: bool)
    ensures r <==>
      (min.Some? && IsBefore(Midnight(date), min.value)) ||
      (max.Some? && (IsEqual(Midnight(date), max.value) || IsAfter(Midnight(date), max.value)))
  {
    DisabledValue(date, min, max) == Bool(true)
  }

  /**
   * On day numbers, a day is disabled exactly when it comes before min's first
   * midnight or is on or after max's first midnight, each side applying only
   * when its bound is given. A bound at midnight therefore includes its own day
   * for `min` and excludes it for `max`; a bound later in the day excludes its
   * own day for `min` and includes it for `max`.
   */
  lemma DisabledIff(date: Day, min: Option<Moment>, max: Option<Moment>)
    ensures IsDateDisabled(date, min, max) <==>
      (min.Some? && Ordinal(date) < FirstMidnight(min.value)) ||
      (max.Some? && Ordinal(date) >= FirstMidnight(max.value))
  {
    if min.Some? {
      MidnightComparison(date, min.value);
    }
    if max.Some? {
      MidnightComparison(date, max.value);
    }
  }

  /**
   * Without bounds no day is disabled. min's own day is disabled when min has a
   * time of day, and otherwise depends on max alone; max's own day is disabled
   * when max is a midnight, and otherwise depends on min alone; the day after
   * max is always disabled.
   */
  lemma BoundsAtTheirEnds(date: Day, min: Option<Moment>, max: Option<Moment>)
    ensures min.None? && max.None? ==> !IsDateDisabled(date, min, max)
    ensures min.Some? && min.value.ms > 0 ==> IsDateDisabled(min.value.date, min, max)
    ensures min.Some? && min.value.ms == 0 ==>
      (IsDateDisabled(min.value.date, min, max) <==> IsDateDisabled(min.value.date, None, max))
    ensures max.Some? && max.value.ms == 0 ==> IsDateDisabled(max.value.date, min, max)
    ensures max.Some? && max.value.ms > 0 ==>
      (IsDateDisabled(max.value.date, min, max) <==> IsDateDisabled(max.value.date, min, None))
    ensures max.Some? ==> IsDateDisabled(NextDay(max.value.date), min, max)
  {
    if min.Some? {
      DisabledIff(min.value.date, min, max);
      DisabledIff(min.value.date, None, max);
    }
    if max.Some? {
      DisabledIff(max.value.date, min, max);
      DisabledIff(max.value.date, min, None);
      DisabledIff(NextDay(max.value.date), min, max);
    }
  }

  /** The enabled days form an interval: a day between two enabled days is enabled. */
  lemma EnabledInterval(a: Day, b: Day, c: Day, min: Option<Moment>, max: Option<Moment>)
    requires Ordinal(a) <= Ordinal(b) <= Ordinal(c)
    requires !IsDateDisabled(a, min, max) && !IsDateDisabled(c, min, max)
    ensures !IsDateDisabled(b, min, max)
  {
    DisabledIff(a, min, max);
    DisabledIff(b, min, max);
    DisabledIff(c, min, max);
  }

  /** The data-disabled attribute as rendered: "true", "false", or left out for `undefined`. */
  datatype Attr = True | False | Absent

  /**
   * The data-disabled attribute of the cell of `date`. It reads "true" exactly
   * on disabled cells; it is left out exactly when there is no `max` and the
   * cell is not disabled, so it reads "false" only when `max` is given.
   */
  function DisabledAttr(date: Day, min: Option<Moment>, max: Option<Moment>): (a: Attr)
    ensures a == True <==> IsDateDisabled(date, min, max)
    ensures a == Absent <==> max.None? && !IsDateDisabled(date, min, max)
    ensures a == False <==> max.Some? && !IsDateDisabled(date, min, max)
  {
    match DisabledValue(date, min, max)
    case Undefined => Absent
    case Bool(b) => if b then True else False
  }

  /** The data-disabled attribute of each rendered cell. */
  function DisabledAttrs(cells: seq<Day>, min: Option<Moment>, max: Option<Moment>): (attrs: seq<Attr>)
    ensures |attrs| == |cells|
    ensures forall i :: 0 <= i < |cells| ==> attrs[i] == DisabledAttr(cells[i], min, max)
  {
    seq(|cells|, i requires 0 <= i < |cells| => DisabledAttr(cells[i], min, max))
  }

  /**
   * The first cell at or after `from`, in document order, whose data-disabled
   * attribute reads "false" (the query `td[data-disabled="false"]`).
   */
  function FirstFalse(attrs: seq<Attr>, from: nat): (r: Option<nat>)
    requires from <= |attrs|
    ensures r.Some? ==> from <= r.value < |attrs| && attrs[r.value] == False
    ensures r.Some? ==> forall j :: from <= j < r.value ==> attrs[j] != False
    ensures r.None? ==> forall j :: from <= j < |attrs| ==> attrs[j] != False
    decreases |attrs| - from
  {
    if from == |attrs| then None
    else if attrs[from] == False then Some(from)
    else FirstFalse(attrs, from + 1)
  }

  /**
   * With `max` given, the query finds the first cell that is not disabled, and
   * finds nothing only when every cell is disabled. Without `max` it finds
   * nothing at all, since no cell carries data-disabled="false".
   */
  lemma {:induction false} FirstFalseFindsFirstEnabled(cells: seq<Day>, min: Option<Moment>, max: Option<Moment>)
    ensures var r := FirstFalse(DisabledAttrs(cells, min, max), 0);
      max.Some? && r.Some? ==>
        (!IsDateDisabled(cells[r.value], min, max) &&
         forall j :: 0 <= j < r.value ==> IsDateDisabled(cells[j], min, max))
    ensures max.Some? && FirstFalse(DisabledAttrs(cells, min, max), 0).None? ==>
      forall j :: 0 <= j < |cells| ==> IsDateDisabled(cells[j], min, max)
    ensures max.None? ==> FirstFalse(DisabledAttrs(cells, min, max), 0).None?
  {
  }

  /** The Prev button is disabled when `min` lies in the active month. */
  function PrevDisabled(min: Option<Moment>, activeMonth: Day): (r: bool)
    ensures r <==> min.Some? && MonthIndex(min.value.date) == MonthIndex(activeMonth)
  {
    min.Some? && IsSameMonth(min.value.date, activeMonth)
  }

  /** The Next button is disabled when `max` lies in the active month. */
  function NextDisabled(max: Option<Moment>, activeMonth: Day): (r: bool)
    ensures r <==> max.Some? && MonthIndex(max.value.date) == MonthIndex(activeMonth)
  {
    max.Some? && IsSameMonth(max.value.date, activeMonth)
  }

  /** When Prev is disabled, every day of the previous month is disabled. */
  lemma {:induction false} PrevDisabledGuardsEmptyMonth(min: Option<Moment>, max: Option<Moment>, activeMonth: Day)
    ensures PrevDisabled(min, activeMonth) ==>
      forall e: Day :: MonthIndex(e) == MonthIndex(activeMonth) - 1 ==> IsDateDisabled(e, min, max)
  {
    if PrevDisabled(min, activeMonth) {
      forall e: Day | MonthIndex(e) == MonthIndex(activeMonth) - 1
        ensures IsDateDisabled(e, min, max)
      {
        OrdinalMonthOrder(e, min.value.date);
        DisabledIff(e, min, max);
      }
    }
  }

  /** When Next is disabled, every day of the next month is disabled. */
  lemma {:induction false} NextDisabledGuardsEmptyMonth(min: Option<Moment>, max: Option<Moment>, activeMonth: Day)
    ensures NextDisabled(max, activeMonth) ==>
      forall e: Day :: MonthIndex(e) == MonthIndex(activeMonth) + 1 ==> IsDateDisabled(e, min, max)
  {
    if NextDisabled(max, activeMonth) {
      forall e: Day | MonthIndex(e) == MonthIndex(activeMonth) + 1
        ensures IsDateDisabled(e, min, max)
      {
        OrdinalMonthOrder(max.value.date, e);
        DisabledIff(e, min, max);
      }
    }
  }

  /** Following an enabled Prev never leaves a month at or after min's month for one before it. */
  lemma {:induction false} PrevStaysFromMinMonth(min: Moment, activeMonth: Day)
    requires MonthIndex(activeMonth) >= MonthIndex(min.date)
    requires !PrevDisabled(Some(min), activeMonth)
    ensures MonthIndex(SubMonths(activeMonth, 1)) >= MonthIndex(min.date)
  {
  }

  /** Following an enabled Next never leaves a month at or before max's month for one after it. */
  lemma {:induction false} NextStaysToMaxMonth(max: Moment, activeMonth: Day)
    requires MonthIndex(activeMonth) <= MonthIndex(max.date)
    requires !NextDisabled(Some(max), activeMonth)
    ensures MonthIndex(AddMonths(activeMonth, 1)) <= MonthIndex(max.date)
  {
  }

  /**
   * A `max` at midnight on the first of a month disables its own day, yet
   * leaves Next enabled in the month before; Next then shows a month whose
   * every day is disabled.
   */
  lemma {:induction false} NextReachesFullyDisabledMonth(min: Option<Moment>, max: Moment, activeMonth: Day, e: Day)
    requires max.date.day == 1 && max.ms == 0
    requires MonthIndex(activeMonth) == MonthIndex(max.date) - 1
    requires IsSameMonth(e, AddMonths(activeMonth, 1))
    ensures !NextDisabled(Some(max), activeMonth)
    ensures IsDateDisabled(e, min, Some(max))
  {
    assert IsSameMonth(e, max.date);
    assert Ordinal(e) == Ordinal(max.date) + e.day - 1;
    DisabledIff(e, min, Some(max));
  }
}
