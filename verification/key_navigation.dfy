/**
 * Roving-tabindex keyboard navigation over the 6 x 7 table of day cells. The
 * handler finds neighbours through the table's rows (`tr` siblings) and the
 * cells of a row (`td` siblings) and reads their data-disabled attribute; a
 * move hands tabindex 0 from the source cell to the target cell. Cells are
 * numbered 0..41 in document order.
 */
module KeyNavigation {
  import opened Wrappers
  import opened Dates
  import opened ArrayUtils
  import opened Availability
  import MonthGrid

  const Columns := 7
  const Rows := 6

  datatype Key = ArrowUp | ArrowDown | ArrowLeft | ArrowRight | Enter | Space | Other

  /**
   * What an arrow key does to the tabindex attributes:
   * Stay    - the handler returns without touching anything;
   * MoveTo  - the source cell gets -1, the target 0, and the target takes focus;
   * Release - the source cell gets -1 and there is no target (a row edge).
   */
  datatype Step = Stay | MoveTo(target: nat) | Release

  /** The table body: the data-disabled attributes of the 42 cells cut into rows of seven. */
  function Rows42(attrs: seq<Attr>): (rows: seq<seq<Attr>>)
    requires |attrs| == MonthGrid.CellCount
    ensures |rows| == Rows
    ensures forall w :: 0 <= w < Rows ==> |rows[w]| == Columns
    ensures forall w, d :: 0 <= w < Rows && 0 <= d < Columns ==> rows[w][d] == attrs[7 * w + d]
  {
    SixWeeks(attrs);
    Chunks(attrs, Columns).value
  }

  /**
   * The arrow-key step from `cell`, read off the table as the DOM sees it:
   * Up/Down query the same column of the previous/next row, if that row exists,
   * for data-disabled="false" and move only on a match; Left/Right look at the
   * previous/next cell of the row and stop only when its data-disabled reads
   * "true", so with no neighbour at all they release the source. Other keys
   * are not steps.
   */
  function ArrowStep(cell: nat, key: Key, attrs: seq<Attr>): (s: Step)
    requires cell < MonthGrid.CellCount && |attrs| == MonthGrid.CellCount
    ensures s.MoveTo? ==> s.target < MonthGrid.CellCount && s.target != cell && attrs[s.target] != True
    ensures (key.ArrowUp? || key.ArrowDown?) && s.MoveTo? ==> attrs[s.target] == False
  {
    var rows := Rows42(attrs);
    var row, col := cell / 7, cell % 7;
    assert cell == 7 * row + col && 0 <= row < Rows && 0 <= col < Columns;
    match key
    case ArrowUp =>
      if row == 0 || rows[row - 1][col] != False then Stay
      else assert rows[row - 1][col] == attrs[cell - 7]; MoveTo(cell - 7)
    case ArrowDown =>
      if row == Rows - 1 || rows[row + 1][col] != False then Stay
      else assert rows[row + 1][col] == attrs[cell + 7]; MoveTo(cell + 7)
    case ArrowLeft =>
      if col == 0 then Release
      else if rows[row][col - 1] == True then Stay
      else assert rows[row][col - 1] == attrs[cell - 1]; MoveTo(cell - 1)
    case ArrowRight =>
      if col == Columns - 1 then Release
      else if rows[row][col + 1] == True then Stay
      else assert rows[row][col + 1] == attrs[cell + 1]; MoveTo(cell + 1)
    case _ => Stay
  }

  /**
   * The same steps as index arithmetic on the 42 cells: Up/Down are -7/+7 onto
   * a cell of the grid marked "false"; Left/Right are -1/+1 inside the row onto
   * any cell not marked "true", so an absent attribute does not block them.
   */
  lemma ArrowStepArithmetic(cell: nat, key: Key, attrs: seq<Attr>)
    requires cell < MonthGrid.CellCount && |attrs| == MonthGrid.CellCount
    ensures ArrowStep(cell, key, attrs) ==
      match key
      case ArrowUp => if cell >= 7 && attrs[cell - 7] == False then MoveTo(cell - 7) else Stay
      case ArrowDown => if cell + 7 < 42 && attrs[cell + 7] == False then MoveTo(cell + 7) else Stay
      case ArrowLeft => if cell % 7 == 0 then Release else if attrs[cell - 1] == True then Stay else MoveTo(cell - 1)
      case ArrowRight => if cell % 7 == 6 then Release else if attrs[cell + 1] == True then Stay else MoveTo(cell + 1)
      case _ => Stay
  {
    var row, col := cell / 7, cell % 7;
    assert cell == 7 * row + col && 0 <= col < 7;
    assert cell >= 7 <==> row > 0;
    assert cell + 7 < 42 <==> row < 5;
  }

  /** The tabindex attributes after a step from `cell`. */
  function ApplyStep(tab: seq<int>, cell: nat, s: Step): (r: seq<int>)
    requires cell < |tab|
    requires s.MoveTo? ==> s.target < |tab|
    ensures |r| == |tab|
  {
    match s
    case Stay => tab
    case MoveTo(t) => tab[cell := -1][t := 0]
    case Release => tab[cell := -1]
  }

  /** Cell i is the one tab stop of the grid: the only cell with tabindex 0. */
  ghost predicate SoleTabStop(tab: seq<int>, i: int) {
    0 <= i < |tab| && forall j :: 0 <= j < |tab| ==> (tab[j] == 0 <==> j == i)
  }

  /** No cell of the grid is reachable with Tab. */
  ghost predicate NoTabStop(tab: seq<int>) {
    forall j :: 0 <= j < |tab| ==> tab[j] != 0
  }

  /**
   * A move changes exactly the source (to -1) and the target (to 0); starting
   * from the source as sole tab stop, the target becomes the sole tab stop. A
   * blocked step changes nothing. A release at a row edge leaves the grid with
   * no tab stop at all.
   */
  lemma RovingTabIndex(tab: seq<int>, cell: nat, s: Step)
    requires cell < |tab|
    requires s.MoveTo? ==> s.target < |tab| && s.target != cell
    ensures s.MoveTo? ==> ApplyStep(tab, cell, s)[cell] == -1 && ApplyStep(tab, cell, s)[s.target] == 0
    ensures s.MoveTo? ==> forall j :: 0 <= j < |tab| && j != cell && j != s.target ==>
      ApplyStep(tab, cell, s)[j] == tab[j]
    ensures s.MoveTo? && SoleTabStop(tab, cell) ==> SoleTabStop(ApplyStep(tab, cell, s), s.target)
    ensures s.Stay? ==> ApplyStep(tab, cell, s) == tab
    ensures s.Release? ==> ApplyStep(tab, cell, s)[cell] == -1
    ensures s.Release? ==> forall j :: 0 <= j < |tab| && j != cell ==> ApplyStep(tab, cell, s)[j] == tab[j]
    ensures s.Release? && SoleTabStop(tab, cell) ==> NoTabStop(ApplyStep(tab, cell, s))
  {
  }

  /** Pressing Left on the first cell of a row, while it is the sole tab stop, leaves no tab stop. */
  lemma {:induction false} LeftAtRowStartDropsTabStop(tab: seq<int>, cell: nat, attrs: seq<Attr>)
    requires |tab| == MonthGrid.CellCount && |attrs| == MonthGrid.CellCount
    requires cell < MonthGrid.CellCount && cell % 7 == 0
    requires SoleTabStop(tab, cell)
    ensures NoTabStop(ApplyStep(tab, cell, ArrowStep(cell, ArrowLeft, attrs)))
  {
    ArrowStepArithmetic(cell, ArrowLeft, attrs);
    RovingTabIndex(tab, cell, Release);
  }

  /**
   * Without `max` no cell is marked "false", so Up and Down never move, while
   * Left and Right still move onto any neighbour that is not disabled.
   */
  lemma {:induction false} WithoutMaxOnlySidewaysMoves(cells: seq<Day>, min: Option<Moment>, cell: nat)
    requires |cells| == MonthGrid.CellCount && cell < MonthGrid.CellCount
    ensures ArrowStep(cell, ArrowUp, DisabledAttrs(cells, min, None)) == Stay
    ensures ArrowStep(cell, ArrowDown, DisabledAttrs(cells, min, None)) == Stay
    ensures cell % 7 != 0 && !IsDateDisabled(cells[cell - 1], min, None) ==>
      ArrowStep(cell, ArrowLeft, DisabledAttrs(cells, min, None)) == MoveTo(cell - 1)
    ensures cell % 7 != 6 && !IsDateDisabled(cells[cell + 1], min, None) ==>
      ArrowStep(cell, ArrowRight, DisabledAttrs(cells, min, None)) == MoveTo(cell + 1)
  {
    var attrs := DisabledAttrs(cells, min, None);
    ArrowStepArithmetic(cell, ArrowUp, attrs);
    ArrowStepArithmetic(cell, ArrowDown, attrs);
    ArrowStepArithmetic(cell, ArrowLeft, attrs);
    ArrowStepArithmetic(cell, ArrowRight, attrs);
  }
}
