# Calendar date-grid engine

A Dafny model of the logic of the accessible date-picker `Calendar` component:
the six-week grid of days it shows for a month, the rule that disables days
outside the `min`/`max` props and the `data-disabled` attribute it renders,
the rule that disables the Prev/Next buttons, the component's two state
fields (`activeMonth`, `activeDate`) and the handlers that change them, the
roving-tabindex keyboard navigation over the grid, and the `chunks` helper
that cuts the grid into weeks.

Modules, one per concern:

- `Dates` (`dates.dfy`): Gregorian days as `(year, month, day)` values, numbered
  consecutively by `Ordinal` (1970-01-01 is day 0), with the date-library
  operations the component uses: addDays, startOfMonth, startOfWeek (Sunday
  first), addMonths/subMonths with the day clamped to the target month,
  isSameMonth; and moments (a day plus the milliseconds since its midnight)
  with isBefore/isEqual/isAfter comparing their timestamps.
- `MonthGrid` (`month_grid.dfy`): `getMonthDates` and its properties.
- `ArrayUtils` (`array_utils.dfy`): `chunks`, including JavaScript's behaviour
  for a zero or negative size.
- `Availability` (`availability.dfy`): the per-cell disabled expression with
  its JavaScript values (`undefined` or a boolean), the three-state
  `data-disabled` attribute, the Prev/Next disabled predicates, and the query
  behind `enableFirstAvailableDate`.
- `KeyNavigation` (`key_navigation.dfy`): the arrow-key handler as a step on
  the table's rows and cells, and its effect on the tabindex attributes.
- `CalendarComponent` (`calendar.dfy`): class `Calendar`, holding the state
  fields, the current `min`/`max` props and whether `onClick` is given (all
  three can change on a re-render), the dates passed to `onClick`, the focused
  cell, and a 42-slot array of tabindex attributes.

The `min` and `max` props are moments: they keep their time of day, and the
disabled expression compares them with the cells' dates by exact timestamp.
The cells are midnights, because startOfMonth and startOfWeek reset the time
and addDays keeps it. `activeMonth`, `activeDate` and the `date` prop keep only
their day: every use of them (getMonthDates, isSameMonth, isSameDay) ignores
the time of day. The current date (`new Date()`) is a constructor parameter.
Whether the host passed `onClick` is a flag; each call is recorded in the
`clicks` field.

The disabled expression `(min && isBefore(date, min)) || (max && (isEqual(date,
max) || isAfter(date, max)))` is `true`, `false` or `undefined`: it is
`undefined` when `max` is absent and the cell is not disabled. React leaves the
`data-disabled` attribute out for `undefined`. So without `max` no cell reads
`data-disabled="false"`.

When `activeMonth` is set, the grid re-renders. Rows are keyed by their index
and cells, within a row, by their date. So React keeps a cell's element only
when the same day renders in the same row. Each day sits in its weekday's
column (`MonthGrid.GridColumns`), so that means the same row and column. Two
grids of different months never show the same day at the same position
(`MonthGrid.DifferentMonthsShareNoCell`). So after a month change every cell is
a new element with tabindex -1, and focus has left the grid. In the same month
the cells and their attributes are kept. Either way, the effect on
`activeMonth` then gives tabindex 0 to the first cell reading
`data-disabled="false"`.

## Model

| member | source | states |
|---|---|---|
| `Dates.NextDay` | src/components/calendar.tsx:19 | the day after d has d's day number plus one (addDays(d, 1)) |
| `Dates.PrevDay` | src/components/calendar.tsx:19 | the day before d has d's day number minus one (addDays(d, -1)) |
| `Dates.AddDays` | src/components/calendar.tsx:19 | addDays(d, n) is the day whose day number is d's plus n (negative n goes back) |
| `Dates.StartOfMonth` | src/components/calendar.tsx:18 | startOfMonth(d) is the first of d's month, d.day - 1 days before d |
| `Dates.StartOfWeek` | src/components/calendar.tsx:15-18 | startOfWeek(d) is a Sunday (the first entry of WEEK_DAYS), exactly weekday(d) days before d |
| `Dates.AddMonths` | src/components/calendar.tsx:58 | addMonths(d, n) lies exactly n calendar months after d; it keeps d's day of month, or the target month's last day when d's day is later than that |
| `Dates.SubMonths` | src/components/calendar.tsx:54 | subMonths(d, n) lies exactly n calendar months before d, with the same clamping |
| `Dates.AddMonthsRoundTrip` | src/components/calendar.tsx:53-59 | moving n months forward and back gives the original day when the first move did not clamp |
| `Dates.AddMonthsBackSameMonth` | src/components/calendar.tsx:53-59 | moving n months forward and back always returns to the original month, on the same or an earlier day |
| `Dates.IsSameMonth` | src/components/calendar.tsx:157-163 | isSameMonth(a, b) holds exactly when a and b have the same month number (year * 12 + month - 1) |
| `Dates.IsBefore` | src/components/calendar.tsx:186 | isBefore(a, b): a falls on an earlier day than b, or on the same day at an earlier time |
| `Dates.IsEqual` | src/components/calendar.tsx:187 | isEqual(a, b): a and b are the same day at the same time |
| `Dates.IsAfter` | src/components/calendar.tsx:187 | isAfter(a, b): a falls on a later day than b, or on the same day at a later time |
| `Dates.OrdinalInjective` | src/components/calendar.tsx:184 | different days have different day numbers, so isSameDay is equality of days |
| `Dates.TimestampInjective` | src/components/calendar.tsx:186-187 | different moments have different timestamps, so isEqual is equality of moments |
| `Dates.MidnightComparison` | src/components/calendar.tsx:186-187 | a cell's midnight is before a moment t exactly when its day number is below t's first midnight on or after t; it is equal to or after t exactly otherwise; it is equal to t only when t is that very midnight |
| `MonthGrid.GetMonthDates` | src/components/calendar.tsx:17-22 | 42 entries; the first is the Sunday weekday(1st) days before the 1st of the anchor's month; entry n is n days after the first |
| `MonthGrid.GridCoversMonth` | src/components/calendar.tsx:17-22 | every day k of the anchor's month is in the grid, at position weekday(1st) + k - 1 |
| `MonthGrid.AnchorInGrid` | src/components/calendar.tsx:17-22 | the anchor day itself is one of the 42 cells |
| `MonthGrid.GridColumns` | src/components/calendar.tsx:15-19 | the cell at position n falls on weekday n mod 7, and its day name is WEEK_DAYS[n mod 7], the header of its column |
| `MonthGrid.GridIncreasing` | src/components/calendar.tsx:19 | the cells' midnights are in strictly increasing order by isBefore |
| `MonthGrid.DifferentMonthsShareNoCell` | src/components/calendar.tsx:180-191 | grids of two different months never show the same day at the same row and column |
| `MonthGrid.June1995` | src/components/calendar.tsx:17-22 | for June 1995, whose 1st was a Thursday, cells 4 and 33 hold June 1 and June 30 |
| `ArrayUtils.CeilDiv` | src/utils/array.ts:2 | Math.ceil(len / size): the least count of size-long slices that covers len elements |
| `ArrayUtils.Slice` | src/utils/array.ts:3 | slice(from, to) within bounds is the subsequence s[from..to] |
| `ArrayUtils.Chunks` | src/utils/array.ts:1-4 | fails (RangeError) exactly when size is 0 and the array is not empty; a size of 0 or below otherwise gives no chunks |
| `ArrayUtils.ChunkCount` | src/utils/array.ts:2 | for size > 0 the number of chunks is ceil(len / size); an empty array gives no chunks, and only an empty array does |
| `ArrayUtils.ChunkAt` | src/utils/array.ts:3 | chunk i is arr[i * size .. min(len, i * size + size)]; all chunks but the last have size elements, the last has 1 to size |
| `ArrayUtils.ChunksConcat` | src/utils/array.ts:2-3 | concatenating the chunks in order gives back the array |
| `ArrayUtils.SixWeeks` | src/components/calendar.tsx:49 | the 42 grid days cut by 7 give 6 weeks of 7 days; day 7w + d is day d of week w |
| `Availability.DisabledValue` | src/components/calendar.tsx:185-187 | the value of the disabled expression is `undefined` exactly when max is absent and min does not make the cell disabled, and `false` exactly when max is given and neither bound disables the cell |
| `Availability.IsDateDisabled` | src/components/calendar.tsx:185-187 | the expression is truthy exactly when min is given and the cell's midnight is before it, or max is given and the cell's midnight is equal to it or after it |
| `Availability.DisabledIff` | src/components/calendar.tsx:185-187 | a cell is disabled exactly when min is given and its day comes before min's first midnight, or max is given and its day is on or after max's first midnight |
| `Availability.BoundsAtTheirEnds` | src/components/calendar.tsx:185-187 | without bounds no day is disabled; min's own day is disabled when min has a time of day and otherwise is left to max; max's own day is disabled when max is a midnight and otherwise is left to min; the day after max is disabled |
| `Availability.EnabledInterval` | src/components/calendar.tsx:185-187 | a day between two enabled days is enabled |
| `Availability.DisabledAttr` | src/components/calendar.tsx:185-199 | data-disabled reads "true" exactly on disabled cells; it is left out exactly when max is absent and the cell is not disabled; it reads "false" exactly when max is given and the cell is not disabled |
| `Availability.DisabledAttrs` | src/components/calendar.tsx:180-199 | the data-disabled attribute of each rendered cell, one per cell |
| `Availability.FirstFalse` | src/components/calendar.tsx:24-27 | the first cell in document order whose data-disabled reads "false"; no cell before it reads "false"; none when no cell does |
| `Availability.FirstFalseFindsFirstEnabled` | src/components/calendar.tsx:24-27 | with max given, the query finds the first cell that is not disabled, every earlier cell being disabled, and finds nothing only when every cell is disabled; without max it finds nothing |
| `Availability.PrevDisabled` | src/components/calendar.tsx:157 | Prev's disabled attribute is set exactly when min is given and its day has the active month's month number |
| `Availability.NextDisabled` | src/components/calendar.tsx:163 | Next's disabled attribute is set exactly when max is given and its day has the active month's month number |
| `Availability.PrevDisabledGuardsEmptyMonth` | src/components/calendar.tsx:157 | when Prev is disabled (min in the active month), every day of the previous month is disabled |
| `Availability.NextDisabledGuardsEmptyMonth` | src/components/calendar.tsx:163 | when Next is disabled (max in the active month), every day of the next month is disabled |
| `Availability.PrevStaysFromMinMonth` | src/components/calendar.tsx:155-158 | from a month at or after min's month, an enabled Prev leads to a month at or after min's month |
| `Availability.NextStaysToMaxMonth` | src/components/calendar.tsx:161-164 | from a month at or before max's month, an enabled Next leads to a month at or before max's month |
| `Availability.NextReachesFullyDisabledMonth` | src/components/calendar.tsx:163 | with max at midnight on the 1st of a month, Next is enabled in the month before and leads to a month where every day is disabled |
| `KeyNavigation.Rows42` | src/components/calendar.tsx:180-183 | the table body: 6 rows of 7 attributes, row w column d being cell 7w + d |
| `KeyNavigation.ArrowStep` | src/components/calendar.tsx:86-124 | an arrow key moves focus only to another cell of the grid whose data-disabled does not read "true"; Up/Down move only onto a cell reading "false" |
| `KeyNavigation.ArrowStepArithmetic` | src/components/calendar.tsx:87-124 | Up/Down move by -7/+7 exactly when the target is in the grid and reads "false", else stay; Left/Right release the source at a row edge, stay when the neighbour reads "true", and otherwise move by -1/+1, also onto a cell without the attribute; other keys do nothing |
| `KeyNavigation.ApplyStep` | src/components/calendar.tsx:94-95 | the tabindex attributes after a step, one per cell |
| `KeyNavigation.RovingTabIndex` | src/components/calendar.tsx:92-124 | a move sets the source to -1 and the target to 0 and changes no other cell, so a sole tab stop passes to the target; a blocked key changes nothing; a release sets only the source to -1 and leaves the grid with no tab stop |
| `KeyNavigation.LeftAtRowStartDropsTabStop` | src/components/calendar.tsx:109-116 | Left on the first cell of a row, while it is the sole tab stop, leaves no cell with tabindex 0 |
| `KeyNavigation.WithoutMaxOnlySidewaysMoves` | src/components/calendar.tsx:86-124 | without max, Up and Down never move; Left and Right still move onto a neighbour in the row that is not disabled |
| `CalendarComponent.RenderedTabIndex` | src/components/calendar.tsx:201 | every freshly rendered cell has tabindex -1, so no cell is a tab stop |
| `CalendarComponent.EnableFirst` | src/components/calendar.tsx:24-27 | enableFirstAvailableDate on the tabindex attributes: the first cell reading "false" gets 0 and every other cell keeps its tabindex |
| `CalendarComponent.EnableFirstKeepsOldTabStop` | src/components/calendar.tsx:24-27 | when another cell already has tabindex 0, both it and the first cell reading "false" have 0 afterwards, so neither is the sole tab stop |
| `CalendarComponent.NewBoundsStrandTabStop` | src/components/calendar.tsx:76-78 | when the cell that became the tab stop is disabled under new bounds, the grid's only tab stop reads data-disabled="true" |
| `CalendarComponent.FreshGridTabStop` | src/components/calendar.tsx:76-78 | after a fresh render and enableFirstAvailableDate, the first cell reading "false" is the only tab stop; with no such cell there is none |
| `CalendarComponent.FreshGridTabStopByDays` | src/components/calendar.tsx:76-78 | with max given and some day enabled, the first enabled day is the only tab stop; without max the fresh grid has no tab stop |
| `CalendarComponent.Calendar.constructor` | src/components/calendar.tsx:46-47 | both state fields start at the date prop, or today when it is absent; the first cell reading "false" is the tab stop; focus is outside the grid |
| `CalendarComponent.Calendar.Cells` | src/components/calendar.tsx:48 | the 42 days shown for the active month |
| `CalendarComponent.Calendar.Attrs` | src/components/calendar.tsx:185-199 | the data-disabled attribute of each of the 42 shown days |
| `CalendarComponent.Calendar.PrevButtonDisabled` | src/components/calendar.tsx:155-157 | Prev is never disabled without min; when it is disabled, every day of the previous month is disabled |
| `CalendarComponent.Calendar.NextButtonDisabled` | src/components/calendar.tsx:161-163 | Next is never disabled without max; when it is disabled, every day of the next month is disabled |
| `CalendarComponent.Calendar.EnableFirstAvailableDate` | src/components/calendar.tsx:76-78 | the first shown cell reading "false" gets tabindex 0; nothing else changes |
| `CalendarComponent.Calendar.Render` | src/components/calendar.tsx:180-201 | the state fields are unchanged; after a month change all cells are new (tabindex -1, focus lost); in the same month attributes and focus are kept; then the first cell reading "false" gets 0 |
| `CalendarComponent.Calendar.PrevMonth` | src/components/calendar.tsx:53-55 | activeMonth goes back exactly one calendar month; activeDate and onClick calls are unchanged; focus leaves the grid and the fresh grid gets its tab stop |
| `CalendarComponent.Calendar.NextMonth` | src/components/calendar.tsx:57-59 | activeMonth goes forward exactly one calendar month; activeDate and onClick calls are unchanged; focus leaves the grid and the fresh grid gets its tab stop |
| `CalendarComponent.Calendar.PressPrev` | src/components/calendar.tsx:155-157 | a disabled Prev button changes nothing; an enabled one moves activeMonth back one month, drops focus and gives the fresh grid its tab stop |
| `CalendarComponent.Calendar.PressNext` | src/components/calendar.tsx:161-163 | a disabled Next button changes nothing; an enabled one moves activeMonth on one month, drops focus and gives the fresh grid its tab stop |
| `CalendarComponent.Calendar.SelectDate` | src/components/calendar.tsx:61-65 | activeDate and activeMonth both become d; onClick, when given, is called once with d; d is among the shown cells; tabindex and focus follow Render for the old and new month |
| `CalendarComponent.Calendar.ClickCell` | src/components/calendar.tsx:195 | a click on any cell, disabled or not, selects its date; in the same month the clicked cell holds focus and the first cell reading "false" gets tabindex 0, in another month focus leaves the grid and the fresh grid gets its tab stop |
| `CalendarComponent.Calendar.Focus` | src/components/calendar.tsx:201 | keyboard focus moves to the given cell |
| `CalendarComponent.Calendar.SyncDate` | src/components/calendar.tsx:67-74 | if the date prop is given and is not the active date, both state fields become it and the grid re-renders as Render says; otherwise nothing changes |
| `CalendarComponent.Calendar.ReceiveProps` | src/components/calendar.tsx:38-45 | a re-render with new min, max and onClick props sets them and changes nothing else: activeMonth, activeDate, focus and the tabindex attributes stay, since the effect on activeMonth does not run |
| `CalendarComponent.Calendar.TakeStep` | src/components/calendar.tsx:94-123 | a step's effect on the grid: the tabindex attributes become ApplyStep's, and a move takes focus to its target |
| `CalendarComponent.Calendar.OnKeyDown` | src/components/calendar.tsx:81-133 | arrows apply ArrowStep on the shown cells' data-disabled attributes to the tabindex attributes and move focus to the target; Enter/Space select the focused cell's date, with SelectDate's effect on focus and tabindex; other keys do nothing |

## Left out

- Rendering: the JSX, the `format` strings, the aria-label texts, `tileClassName` and `tileContent` (calendar.tsx:149-221). Only the `data-disabled` and tabindex attributes of the cells are modelled.
- DOM calls: `closest`, `querySelector`, `focus()`, and adding or removing the listener. The handler is modelled on cell indices and the table's rows. The document-wide scope of `enableFirstAvailableDate`'s query is modelled as a search of the grid's cells.
- The post-render focus step (`focusActiveDateRef`, calendar.tsx:128 and 140-147): after Enter/Space the model does not move focus to the active cell.
- React scheduling: the order of state updates, renders and effects is left to the caller of the methods. The date-sync effect lists `selectDate` as a dependency, and `selectDate` is a new function on each render. So the effect runs after every render. The model leaves it to the host to call `SyncDate`.
- `CalendarComponent.Calendar.Render`: React's reconciliation is not modelled; a cell's element and attributes are taken to survive exactly when the same day renders at the same row and column, which is where React's same-row keyed reuse lands given `MonthGrid.GridColumns`.
- Time zones and daylight saving: every day has 86 400 000 ms, and moments are local wall-clock times. The time of day of `activeMonth`, `activeDate` and the `date` prop is dropped, since nothing the component does with them depends on it.
- Dates are unbounded proleptic Gregorian days. The finite range of JavaScript `Date` is not modelled.
- `ArrayUtils.Chunks`: sizes that are not integers are not modelled.
- `CalendarComponent.Calendar.OnKeyDown`: Home and End reach the `default` branch (calendar.tsx:130-131) and are modelled as "other keys".
- src/App.tsx, the host page, is not part of this model; the moments it passes as `min` and `max` (App.tsx:8-9) are discussed below.
- src/components/calendar.test.tsx targets another version of the component: it uses `generateDates`, `disabledTile`, `onSelect` and `name`, and expects month clamping. Only its Prev/Next-disabled cases agree with the code modelled here.

## Behaviour worth knowing

- A day is disabled when its midnight is before `min`, or equal to or after `max` (`Availability.DisabledIff`). So the bounds' time of day matters (`Availability.BoundsAtTheirEnds`):
  - a `min` at midnight keeps its own day enabled; a `min` with a time of day disables its own day. The host passes `min = new Date()` (App.tsx:8), so today's cell is disabled: `enableFirstAvailableDate` never makes it the tab stop and the arrow keys never move onto it (`KeyNavigation.ArrowStep`). A click on it still selects it and calls `onClick`, because the cell's click handler is not guarded (`CalendarComponent.Calendar.ClickCell`);
  - a `max` at midnight disables its own day, so the upper bound is exclusive only for a `max` at midnight; a `max` with a time of day keeps its own day enabled. The host passes `max = addMonths(new Date(), 3)` (App.tsx:9), so that day can be picked.
- Without `max`, `data-disabled` is left out on every enabled cell (`Availability.DisabledAttr`). Then `enableFirstAvailableDate` finds nothing and the grid has no tab stop (`CalendarComponent.FreshGridTabStopByDays`). Up and Down never move, while Left and Right still move onto enabled cells (`KeyNavigation.WithoutMaxOnlySidewaysMoves`).
- Prev is disabled only while `min` is in the active month, and Next only while `max` is. With `max` at midnight on the 1st of a month, Next leads to a month with no enabled day (`Availability.NextReachesFullyDisabledMonth`).
- `prevMonth`/`nextMonth` move `activeMonth` only. They do not clamp to `min`/`max`, and they do not change `activeDate`.
- `selectDate` is not guarded by the disabled expression. It calls `onClick` on every call, even with the same day again. There is no separate selected date: `activeDate` is both the active and the selected day.
- The date-sync effect compares the prop with `activeDate` by day, with isSameDay.
- Arrow keys move inside the rendered 6 x 7 grid; they never move across its edges. At a row edge, Left/Right set the source cell to -1 and move nowhere. When the source cell was the only tab stop, this leaves the grid with none (`KeyNavigation.LeftAtRowStartDropsTabStop`).
- The effect on `activeMonth` only adds a tab stop. After an arrow move, selecting another day of the same month keeps the moved-to cell at tabindex 0 and gives 0 to the first cell reading "false" too, so the grid has two tab stops (`CalendarComponent.EnableFirstKeepsOldTabStop`).
- New `min`/`max` props re-render `data-disabled` and the Prev/Next buttons, but the effect on `activeMonth` does not run again (`CalendarComponent.Calendar.ReceiveProps`). The host computes its bounds anew on every render (App.tsx:8-9). So the tab stop can stay on a cell that has since become disabled (`CalendarComponent.NewBoundsStrandTabStop`).
