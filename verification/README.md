# Admin dashboard components in Dafny

This project models the core of a small admin dashboard built from three plain-JavaScript
components and the page that wires them together:

- **the sortable table**: a best-sellers list configured by column descriptors. It sorts in
  memory (`sortData`, numeric, collated-string or custom comparison, reversed for `desc`)
  or re-fetches the first page from the server (`sortOnServer`). That request carries the
  direction as `_order` and the window as `_start`/`_end`, but no sort column. It appends
  further pages of 30 rows on scroll, guarded by a re-entrancy flag. A header click
  toggles the direction of the clicked column.
- **the range picker**: a two-month calendar overlay.
  - Its grid is built from the weekday of the first of the month and from the month
    length, taken as "day 0 of the next month".
  - Day clicks build a `{from, to}` selection. A complete selection dispatches
    `date-select`.
  - Cells are highlighted as from, to or between.
- **the column chart**: a bar chart of a date-keyed series.
  - Bars are scaled against the series maximum to a height of 50.
  - The header shows the formatted total.
  - One hovered bar at a time.
- **the dashboard page**:
  - `initComponents` builds the five components.
  - The sales chart's `formatNumber` inserts thousands separators with a regular
    expression.
  - `onRangePickerDateSelect` points the table and the three charts at the picked
    interval and reloads them.

State is immutable datatypes, and every handler is a pure transition. The fetches become
an input: each is a `Response`, either `Received(body)` or `Rejected`. A rejected fetch is
the promise that never resolves into the continuation. Dates are integer day numbers
(1970-01-01 is day 0, a Thursday), with proleptic Gregorian arithmetic in `Calendar`. The
ISO text of a date is kept symbolic as `IsoDate(day)`.

Modules:

- `Common`: `Option` and `Response`.
- `Sorting`: a stable insertion sort that stands in for `Array.prototype.sort` with a
  JavaScript comparator.
- `SortableTable`
- `Calendar`
- `RangePicker`
- `NumberText`: integer decimal text and the sales formatter.
- `ColumnChart`
- `Dashboard`

## Model

| member | source | states |
|---|---|---|
| Sorting.SortBy | src/components/sortable-table/index.js:39-50 | the sorted rows are a permutation of the input (same multiset, same length) |
| Sorting.SortByIsSorted | src/components/sortable-table/index.js:39-50 | with a comparator that is antisymmetric and transitive on the rows, the output is in comparator order |
| Sorting.SortIsIdempotent | src/components/sortable-table/index.js:39-50 | sorting an already sorted sequence with a consistent comparator returns it unchanged |
| Sorting.SortedUnique | src/components/sortable-table/index.js:39-50 | when no two distinct elements compare equal, two sorted permutations of each other are the same sequence, so the sort's result is determined by the comparator alone |
| SortableTable.FirstSortable | src/components/sortable-table/index.js:17 | `find(item => item.sortable)`: the index of the first sortable column, or none when no column is sortable |
| SortableTable.FindColumn | src/components/sortable-table/index.js:36 | `find(item => item.id === sorted.id)`: the first column with that id, or none |
| SortableTable.Create | src/components/sortable-table/index.js:13-33 | the constructor throws exactly when no `sorted` option is given and no column is sortable; the default sort is the first sortable column ascending; the window is `[start, start + step)`; `needToRead` is set |
| SortableTable.ExplicitEndIgnored | src/components/sortable-table/index.js:23-31 | an explicit `end` option has no effect: the window end is always `start + step` |
| SortableTable.KeyCompare | src/components/sortable-table/index.js:39-48 | a `number` column, and any unrecognised type, orders two numeric cells by value (negative, zero, positive as `a - b` is) and treats a non-numeric pair as equal; a `string` column gives the collation of two text cells; a `custom` column gives `customSorting` |
| SortableTable.RowComparator | src/components/sortable-table/index.js:37-49 | the comparator handed to `sort` is the column's key comparison on the rows' cells at `sorted.id` for `asc`, and its negation for `desc` |
| SortableTable.DescNegatesAsc | src/components/sortable-table/index.js:37-49 | the `desc` comparator is the negation of the `asc` comparator on every pair of rows |
| SortableTable.SortData | src/components/sortable-table/index.js:35-51 | `sortData` returns a permutation of the loaded rows |
| SortableTable.DirectedComparatorConsistent | src/components/sortable-table/index.js:37-49 | if the column's key comparison is consistent on the rows, so is the direction-multiplied row comparator |
| SortableTable.SortDataFollowsComparator | src/components/sortable-table/index.js:35-51 | for any column type, an `asc` sort leaves every earlier key comparing `<= 0` with every later one, and a `desc` sort `>= 0` |
| SortableTable.NumberSortOrdersValues | src/components/sortable-table/index.js:41-42 | a `number` column, or an unrecognised type (which uses the same subtraction, lines 47-48), sorts `asc` into non-decreasing and `desc` into non-increasing numbers, as a permutation of the rows |
| SortableTable.StringSortFollowsCollation | src/components/sortable-table/index.js:43-44 | a `string` column with a consistent collation is in collation order for `asc` and in reverse collation order for `desc` |
| SortableTable.CustomSortFollowsComparator | src/components/sortable-table/index.js:45-46 | a `custom` column is ordered by `customSorting`, reversed for `desc` |
| SortableTable.SortDataIdempotent | src/components/sortable-table/index.js:35-51 | re-sorting the sorted rows by the same column and direction changes nothing |
| SortableTable.HeaderOrders | src/components/sortable-table/index.js:53-59 | each header cell's `data-order` is the sort direction for the active column and empty for every other column |
| SortableTable.ExactlyOneHeaderLabelled | src/components/sortable-table/index.js:53-59 | with distinct column ids, exactly one header cell carries a direction: the active column's, with the active direction |
| SortableTable.RenderRows | src/components/sortable-table/index.js:111-119 | the rows become both `data` and the body; the empty class is set exactly when there are no rows |
| SortableTable.Update | src/components/sortable-table/index.js:121-127 | a page loaded on scroll is appended after the existing body rows in order; `data` is untouched; `needToRead` stays on exactly when the page was non-empty |
| SortableTable.SortOnServer | src/components/sortable-table/index.js:175-179 | the window becomes `[1, 31)` whatever it was; a received response is rendered as the new rows; a rejected one leaves the rows and the loading class on |
| SortableTable.Render | src/components/sortable-table/index.js:99-109 | the header labels match the sort state, the window is the first page, and the body holds exactly the fetched rows (empty when the fetch is rejected) |
| SortableTable.SortLocally | src/components/sortable-table/index.js:171-173 | the in-memory rows are re-rendered as a permutation of themselves, with no fetch and the window left alone |
| SortableTable.NearBottom | src/components/sortable-table/index.js:161 | the page's bottom edge lies less than 50 pixels below the viewport's height; in particular a page whose bottom is already inside the viewport is near the bottom |
| SortableTable.ScrollStart | src/components/sortable-table/index.js:153-164 | a scroll is ignored while a load is in flight; a server-sorted table whose document bottom is less than 50 pixels below the viewport's height, with `needToRead`, raises the flag and advances the window to `[end, end + 30)`; any other scroll leaves the table unchanged |
| SortableTable.ScrollFinish | src/components/sortable-table/index.js:165-168 | a settled fetch appends the page and clears the flag; a rejected one leaves the flag set |
| SortableTable.RejectedScrollBlocksLoading | src/components/sortable-table/index.js:154-168 | after a rejected scroll load the re-entrancy flag stays set, so no later scroll loads anything |
| SortableTable.ScrollPagesAppend | src/components/sortable-table/index.js:153-169 | successive scroll loads request contiguous 30-row windows and append their pages to the body in order |
| SortableTable.ClickSortable | src/components/sortable-table/index.js:181-191 | a click can always be handled when it misses every header cell or the table sorts on the server; only a local sort of a `string` column needs text cells |
| SortableTable.ClickedSort | src/components/sortable-table/index.js:184-185 | the clicked column becomes the sort column, `desc` exactly when its cell was labelled `asc` |
| SortableTable.HeaderClick | src/components/sortable-table/index.js:181-193 | a click outside a sortable header cell changes nothing; a click on one sets that column active, descending iff its label was `asc`, and rewrites every label; the table is then exactly the relabelled table sorted locally, or the relabelled table reloaded from its first page with the response's rows (loading left on when the fetch is rejected) |
| SortableTable.HeaderClickToggles | src/components/sortable-table/index.js:184-188 | with the labels in sync, a click on the active column flips its direction, and a click on another column selects it ascending |
| SortableTable.HeaderClickTwiceRestores | src/components/sortable-table/index.js:184-188 | two clicks on the active column restore the original sort state |
| SortableTable.ResortRestores | src/components/sortable-table/index.js:35-51 | rows in a column's order, without ties on it, come back to exactly that order when re-sorted by the column, whatever direction they were sorted in meanwhile |
| SortableTable.HeaderClickTwiceRestoresRows | src/components/sortable-table/index.js:181-193 | on a locally sorted table whose rows follow the active column, with no ties on it, two clicks on that column restore both the sort state and the row order |
| SortableTable.LocalNumericClick | src/components/sortable-table/index.js:181-193 | on a locally sorted table, a click on a numeric column leaves the rows a permutation ordered by that column in the chosen direction |
| SortableTable.BodyExtendsDataKept | src/components/sortable-table/index.js:111-127 | the body always starts with the rows of the last full render, followed by the pages appended since: `renderRows` establishes this, and `update`, `sortOnServer`, both halves of a scroll and `sortLocally` keep it |
| SortableTable.OnePageWindowKept | src/components/sortable-table/index.js:163-164 | `sortOnServer` requests exactly one 30-row page, and the scroll steps keep every later window one page long |
| SortableTable.HeaderClickKeepsInvariants | src/components/sortable-table/index.js:181-193 | a header click keeps the body invariant and the one-page window |
| SortableTable.RenderEstablishesInvariants | src/components/sortable-table/index.js:99-109 | the first render of a constructed table satisfies the body invariant and requests one page |
| SortableTable.FirstPageThenScroll | src/components/sortable-table/index.js:153-179 | after the first page from the server, the next scroll to the bottom requests rows `[31, 61)`; its page lands behind the first page, `data` keeps the first page only, and `needToRead` records whether the page was non-empty |
| SortableTable.LocalNumericClicks | src/components/sortable-table/index.js:181-193 | on a locally sorted table, a first click on an inactive numeric column orders the rows ascending and a second click on it orders them descending |
| Calendar.Weekday | src/components/range-picker/index.js:21-22 | `getDay()`: a weekday from 0 (Sunday) to 6, with 1970-01-01 a Thursday (4) |
| Calendar.MonthLength | src/components/range-picker/index.js:26-28 | every month has 28 to 31 days, and February has 29 exactly in leap years |
| Calendar.CivilOf | src/components/range-picker/index.js:27 | the date normalisation a `Date` constructor performs: every day number maps to a valid calendar date with that day number |
| Calendar.CivilOfDayNumber | src/components/range-picker/index.js:27 | day numbers and valid calendar dates are in one-to-one correspondence (the normalisation is the inverse of the day count) |
| Calendar.NextMonth | src/components/range-picker/index.js:49 | the month after the cursor is one month index later; December rolls over to January of the next year |
| Calendar.PrevMonth | src/components/range-picker/index.js:121 | the month before the cursor is one month index earlier; January rolls back to December |
| Calendar.NextPrevInverse | src/components/range-picker/index.js:120-130 | a left arrow undoes a right arrow and vice versa |
| Calendar.FirstOfNextMonth | src/components/range-picker/index.js:49 | the first day of the following month is the day after the last day of this one |
| Calendar.MonthOf | src/components/range-picker/index.js:13 | the month shown first is the month whose days contain the `from` day |
| RangePicker.Create | src/components/range-picker/index.js:9-15 | the selection is the constructor's `from`/`to`, the overlay is closed, and the left calendar shows the month of `from` |
| RangePicker.CreateValid | src/components/range-picker/index.js:9-15 | the new picker is well formed exactly when `from <= to` |
| RangePicker.FirstDayOffset | src/components/range-picker/index.js:21-24 | the grid column of the first of the month is 1..7 (Sunday moved from 0 to 7) and agrees with its weekday modulo 7 |
| RangePicker.MonthDayCount | src/components/range-picker/index.js:26-28 | "day 0 of the next month" is the Gregorian length of the month |
| RangePicker.NextMonthOffset | src/components/range-picker/index.js:21-28 | the next month's first grid column is this month's first column advanced by its length, modulo 7 |
| RangePicker.PickerDays | src/components/range-picker/index.js:52-58 | one button per day of the month, numbered 1.., each holding its own day; only the first carries `--start-from`, with the first-day offset |
| RangePicker.Selector | src/components/range-picker/index.js:43-50 | two calendars: the cursor's month and the month after it (December followed by January of the next year), each with its month's day count |
| RangePicker.SelectorContiguous | src/components/range-picker/index.js:43-50 | the second calendar starts the day after the first calendar ends |
| RangePicker.Classify | src/components/range-picker/index.js:81-97 | a cell is `from` iff it is the from day, `to` iff it is the to day and not the from day, and `between` iff both endpoints are set, it is neither, and it lies within them |
| RangePicker.HighlightIsInterval | src/components/range-picker/index.js:81-97 | for an ordered selection, the marked cells are exactly the days of the interval, or only the from day while `to` is open |
| RangePicker.SelectDay | src/components/range-picker/index.js:132-143 | a complete selection restarts at the clicked day; with only `from` set, a later day becomes `to`, and an earlier or equal day becomes `from` while the old `from` moves to `to` |
| RangePicker.Click | src/components/range-picker/index.js:119-170 | the document click handler keeps the calendar cursor well formed; a click elsewhere in the selector or elsewhere inside the picker changes nothing and dispatches nothing |
| RangePicker.OpenCloseClicks | src/components/range-picker/index.js:156-170 | a click outside only closes the overlay; a click on the input toggles it, so two such clicks restore the picker |
| RangePicker.ArrowsMoveCursor | src/components/range-picker/index.js:120-130 | the arrows move the cursor one month back or forward and change nothing else |
| RangePicker.DateSelectExactlyOnCompletion | src/components/range-picker/index.js:132-153 | `date-select` is dispatched exactly on a day click that completes a half-open selection; its interval is ordered, becomes the selection and the input text, and closes the overlay |
| RangePicker.RestartClick | src/components/range-picker/index.js:134-135 | a day click on a complete selection starts over with `{from: day, to: null}` and dispatches nothing |
| RangePicker.ClickPreservesValid | src/components/range-picker/index.js:119-170 | every click keeps the selection and the shown interval ordered |
| RangePicker.ThreePicks | src/components/range-picker/index.js:132-153 | from a complete selection, picking `a` and then an earlier `b` gives `{from: b, to: a}` and dispatches it; a third pick starts over |
| NumberText.Digits | src/pages/dashboard/index.js:48 | `value.toString()` of a natural number is a non-empty run of digits without a leading zero |
| NumberText.DigitsRoundTrip | src/pages/dashboard/index.js:48 | the digits read back as the number |
| NumberText.ToDecimal | src/pages/dashboard/index.js:48 | `toString` of an integer: a minus sign before the digits of the magnitude for negatives |
| NumberText.Separate | src/pages/dashboard/index.js:48 | the regex replacement keeps the leading digit, only inserts characters, and leaves the empty text empty |
| NumberText.SeparateLength | src/pages/dashboard/index.js:48 | a run of `n` digits gets `(n - 1) / 3` commas |
| NumberText.SeparateIsGrouped | src/pages/dashboard/index.js:48 | the regex rule (a comma after each digit followed by a positive multiple of three digits) equals grouping in threes from the right |
| NumberText.StripSeparate | src/pages/dashboard/index.js:48 | deleting the inserted commas gives the digits back |
| NumberText.GroupedIsWellGrouped | src/pages/dashboard/index.js:48 | the grouped text is a 1-3 digit group followed by comma-led 3-digit groups |
| NumberText.FormatSales | src/pages/dashboard/index.js:48 | `formatNumber` starts with `$`, followed by a minus sign exactly when the value is negative |
| NumberText.SalesWithoutCommas | src/pages/dashboard/index.js:48 | the sales text without its commas is `$` followed by `value.toString()` |
| NumberText.SalesGrouping | src/pages/dashboard/index.js:48 | the digits of the sales text are well grouped: a lead of one to three digits, then comma-led groups of three |
| NumberText.SmallSalesHaveNoComma | src/pages/dashboard/index.js:48 | a value of magnitude under 1000 is formatted as `$` followed by its `toString()`, with no comma |
| NumberText.SalesExample | src/pages/dashboard/index.js:48 | `formatNumber(1234567)` is `$1,234,567` |
| ColumnChart.Values | src/components/column-chart/index.js:34-36 | the series values in key order |
| ColumnChart.Peak | src/components/column-chart/index.js:76-85 | `getMaxData` is non-negative, at least every value, and either 0 or one of the values |
| ColumnChart.PeakZeroMeansNoPositive | src/components/column-chart/index.js:76-85 | the maximum is 0 exactly when no value is positive |
| ColumnChart.Total | src/components/column-chart/index.js:87-94 | `getDataSum` of a series without negative values is non-negative and at least every single value |
| ColumnChart.TotalAppend | src/components/column-chart/index.js:87-94 | `getDataSum` splits over concatenation, so every value counts once |
| ColumnChart.TotalSingle | src/components/column-chart/index.js:87-94 | a one-entry series sums to its value |
| ColumnChart.BarHeightAsWritten | src/components/column-chart/index.js:35-36 | the height `Math.floor(v * (50 / max))` in the exact-arithmetic reading: a pixel count whenever the maximum is positive, and `NaN` for a zero value over a zero maximum |
| ColumnChart.ZeroSeriesBarIsNaN | src/components/column-chart/index.js:31-36 | every non-empty series without a positive value has maximum 0; as written, each zero bar is `NaN` and each negative bar `-Infinity`, while every corrected bar is 0 high |
| ColumnChart.BarHeight | src/components/column-chart/index.js:35-36 | the corrected height: for a positive maximum, the largest height whose share of 50 does not exceed the value's share of the maximum (`h * max <= v * 50 < (h + 1) * max`); 0 when the maximum is 0 |
| ColumnChart.BarHeightAgrees | src/components/column-chart/index.js:35-36 | in the exact-arithmetic reading of `Math.floor(v * (50 / max))`, wherever the scale is finite the corrected height is the source's |
| ColumnChart.BarHeightBounds | src/components/column-chart/index.js:35-36 | for the corrected height in exact arithmetic, a value from 0 up to the maximum gets a height from 0 to 50; the maximum gets the full 50 and 0 gets nothing |
| ColumnChart.BarHeightExample | src/components/column-chart/index.js:35-36 | with a maximum of 100, the value 50 is drawn 25 high |
| ColumnChart.BarHeightMonotone | src/components/column-chart/index.js:35-36 | a larger value never gets a shorter bar |
| ColumnChart.ColumnBody | src/components/column-chart/index.js:30-40 | one bar per entry in entry order, keyed by the entry, whose tooltip is the formatted value and whose height is scaled against the series maximum |
| ColumnChart.ColumnBodyAgreesWithSource | src/components/column-chart/index.js:30-40 | in the exact-arithmetic reading, when some value is positive every drawn height is the source's `Math.floor(v * (50 / max))` |
| ColumnChart.ColumnBodyShape | src/components/column-chart/index.js:30-40 | in the exact-arithmetic reading, for a non-negative series, bars stay within the chart height, follow the order of their values, and a largest positive value reaches the top |
| ColumnChart.Create | src/components/column-chart/index.js:10-24 | the chart keeps its interval and formatter; nothing is drawn or hovered yet |
| ColumnChart.LoadFromServer | src/components/column-chart/index.js:108-113 | a received series replaces the bars, and the header shows its formatted total; a rejected fetch leaves the chart as it was, with the loading class on; the interval and formatter never change |
| ColumnChart.HeaderShowsTotal | src/components/column-chart/index.js:108-113 | the header is the decimal text of the total under the default formatter, and that text behind `$` (commas aside) under the dollar formatter |
| ColumnChart.Update | src/components/column-chart/index.js:167-170 | the header text and the bars are replaced without a fetch; nothing else changes |
| ColumnChart.UpdateMatchesLoad | src/components/column-chart/index.js:108-113 | `update` with the formatted total as header draws the same chart as a successful `loadDateFromServer` of that series |
| ColumnChart.MouseOver | src/components/column-chart/index.js:125-139 | a mouseover takes the hover slot only when the slot is empty and the target is in the chart body |
| ColumnChart.MouseOut | src/components/column-chart/index.js:141-155 | a mouseout clears the slot only when it is set and the target is in the chart body |
| ColumnChart.HoverSlotIsExclusive | src/components/column-chart/index.js:125-155 | a second mouseover cannot replace the hovered bar until a mouseout inside the body clears it |
| Dashboard.InitComponents | src/pages/dashboard/index.js:16-63 | the page is built exactly when the best-sellers header has a sortable column; the table is locally sorted, filtered on the two dates, with window `[1, 21)`; the picker and all three charts get the same interval; only the sales chart formats in dollars |
| Dashboard.Requery | src/pages/dashboard/index.js:124-134 | a chart takes the event's interval and redraws from a received series, or keeps its bars and stays loading when the fetch is rejected |
| Dashboard.RequeryTable | src/pages/dashboard/index.js:120-122 | the table's `from`/`to` parameters take the event's ISO dates while every other parameter stays; it reloads its first page from the server even though it sorts locally |
| Dashboard.OnDateSelect | src/pages/dashboard/index.js:119-135 | `date-select` re-queries the table and points all three charts at the interval, each keeping its formatter and drawing its own series; the picker is not touched |
| Dashboard.OnDocumentClick | src/pages/dashboard/index.js:137-139 | a click goes to the picker; a dispatched `date-select` then runs the page's handler on the updated picker, and a click without one changes only the picker |
| Dashboard.PickerDrivesComponents | src/pages/dashboard/index.js:119-138 | completing an interval on the picker points all three charts at the same ordered interval and puts the table on its first page; any other click leaves the table and charts alone |

## Left out

- The server's ordering of a page. `loadData` sends `_order`, `_start` and `_end` but not
  the sort column's id, so a remote header click relabels the header and re-fetches the
  first page, but cannot ask for that column. The page's rows are whatever the `Response`
  holds, and the model promises nothing about their order.
- URLs, query strings and `fetchJson`. A fetch is an input `Response`, and a rejected one
  stands for the promise that never resolves. Concurrent fetches and their interleavings
  are not modelled: each handler runs its fetch to completion, except the scroll handler,
  which is split in two so that its re-entrancy flag matters.
- Templates, `innerHTML`, class lists, event listeners, `remove` and `destroy`. The DOM
  state they produce is kept as fields: body rows, header labels, the loading and empty
  flags, the open flag, and the hovered node.
- Locale-dependent text: `toLocaleString('ru')` for the input spans, the month names and
  the chart tooltips' dates. The collation of `localeCompare(…, 'ru')` is a function
  parameter, and so is the custom column's `customSorting`.
- Time zones, times of day and `toISOString`. Dates are whole day numbers, and an ISO
  string is symbolic. The picker's cells therefore match the selection day by day. In the
  source, each cell's value is its local date at hour `getUTCHours()` of its calendar's
  reference date (the shown `from` date for the left calendar, the local midnight of the
  first of the month for the right one), so the two calendars' cells can carry different
  hours, and a cell matches a selected instant only when the whole instant agrees.
- `SortableTable.SortData`: it requires text cells for a `string` column. There
  `localeCompare` of a non-string throws a `TypeError`, at a point that depends on the
  engine's sort algorithm. Mixed cells in a numeric column compare as equal, as a `NaN`
  difference does. Coercion of numeric strings by subtraction is not modelled.
- `Sorting.SortBy`: `Array.prototype.sort` is modelled by one particular stable sort.
  With an inconsistent comparator the source's order is implementation-defined; the model
  promises only a permutation.
- `Calendar.PrevMonth` and `Calendar.NextMonth`: `setMonth` on a day such as the 31st
  overflows into the following month. The model moves the (year, month) cursor exactly,
  and JavaScript's two-digit-year rule and the range limit of `Date` are not modelled.
- `Dashboard.InitComponents`: the dates come from the clock as parameters. The
  best-sellers header configuration (`bestsellers-header.js`) is not part of this model; it
  is a parameter.
- `ColumnChart.ColumnBody`: it draws the corrected height, 0, when no value is positive.
  The source writes `NaN` for zero values and `-Infinity` for negative ones there (see
  Findings and `ColumnChart.ZeroSeriesBarIsNaN`).
- `ColumnChart.BarHeight`: exact integer arithmetic stands in for floating-point
  `Math.floor(v * (50 / max))`. The double `50 / max` is rounded, and its product with
  `v` can fall just below a whole number: a maximum of 97 draws its own bar 49 high, not
  50, and a value of 97 under a maximum of 194 is drawn 24 high, not 25.
- `ColumnChart.BarHeightAsWritten`: it is the exact-arithmetic reading of the source's
  height. For a positive maximum it can exceed the floating-point result by one pixel
  (the series `[97]`).
- `ColumnChart.BarHeightAgrees`: it equates two exact expressions. The source's
  floating-point height can differ by one pixel from both, as at a maximum of 97.
- `ColumnChart.ColumnBodyAgreesWithSource`: it holds in the exact-arithmetic reading only.
  The source draws the series `[97]` 49 high, where the model draws 50.
- `NumberText.ToDecimal`: it is the decimal text of an exact integer. JavaScript prints
  numbers of magnitude 1e21 and above in exponent form, and `getDataSum` is exact only up
  to 2^53. Neither is modelled.
- `SortableTable.HeaderClickTwiceRestoresRows`: it is proved only when no two rows tie on
  the column. With ties the model's stable sort also restores the order, but that proof
  needs a statement of stability, which the model does not make.
- Chart formatters are limited to the two the dashboard passes: the identity and the
  sales formatter.
- Non-integer values. Chart values and numeric table cells are integers, and a table cell
  is either an integer or text. A JSON `null` cell (which `a - b` treats as 0), a boolean
  or a fractional price cannot be represented.
- `ColumnChart.ColumnBodyShape`: it holds in the exact-arithmetic reading only. In the
  source's floating-point height the largest value does not always reach 50: the series
  `[97]` is drawn 49 high, and so are the series `[161]`, `[167]` and `[193]`.
- The table's `getTableRow` cell templates and `render`'s listener registration are
  presentation only.

## Findings

| source | as written | input that shows it | evidently intended | confidence | as-written member | corrected member |
|---|---|---|---|---|---|---|
| src/components/column-chart/index.js:31-36 | `scale = 50 / maxValue` with `maxValue` from `getMaxData`, which is 0 when no value is positive | a non-empty series whose values are all 0 (a period without orders): `0 * (50 / 0)` is `NaN`, so every bar gets `--value:NaN` | bars of height 0 when the maximum is 0 | not executed | ColumnChart.ZeroSeriesBarIsNaN | ColumnChart.BarHeightBounds |
