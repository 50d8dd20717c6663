/** The date-range picker: a two-month calendar overlay whose day clicks build a
    `{from, to}` selection and announce it with a `date-select` event. Days are day
    numbers (see `Calendar`); the displayed month is a (year, month) cursor. */
module RangePicker {
  import opened Common
  import opened Calendar

  /** `selected`; an absent endpoint is `null`. */
  datatype Selection = Selection(from: Option<int>, to: Option<int>)

  /** A completed interval, as carried by `date-select` and shown in the input. */
  datatype Interval = Interval(from: int, to: int)

  datatype Picker = Picker(
    selected: Selection,
    /** `showDateFrom`, the month of the left calendar */
    cursor: YearMonth,
    /** the `rangepicker_open` class */
    open: bool,
    /** the interval written in the input's `from` and `to` spans */
    shown: Interval)

  /** Where a document click lands, as far as the picker can tell. */
  datatype Target =
    | Outside            // not inside the picker's element
    | InputArea          // inside `.rangepicker__input`
    | LeftArrow          // `.rangepicker__selector-control-left`
    | RightArrow         // `.rangepicker__selector-control-right`
    | DayCell(day: int)  // a `.rangepicker__cell`, with its day
    | SelectorOther      // anywhere else inside `.rangepicker__selector`
    | OtherInside        // anywhere else inside the picker

  /** The picker after a click, and the `date-select` detail if one was dispatched. */
  datatype ClickResult = ClickResult(picker: Picker, event: Option<Interval>)

  /** The selection class a day cell ends up with. */
  datatype Highlight = SelectedFrom | SelectedTo | SelectedBetween | Unmarked

  /** A day button: its number, its day, and the `--start-from` column if it has one. */
  datatype DayButton = DayButton(number: int, day: int, startFrom: Option<int>)

  /** One calendar of the selector. */
  datatype MonthView = MonthView(month: YearMonth, days: seq<DayButton>)

  /** The constructor: the left calendar shows the month of `from`; closed. */
  function Create(from: int, to: int): (r: Picker)
    ensures r.selected == Selection(Some(from), Some(to)) && !r.open
    ensures ValidMonth(r.cursor)
    ensures DayNumber(r.cursor.year, r.cursor.month, 1) <= from
    ensures from < DayNumber(r.cursor.year, r.cursor.month, 1) + MonthLength(r.cursor.year, r.cursor.month)
  {
    Picker(Selection(Some(from), Some(to)), MonthOf(from), false, Interval(from, to))
  }

  // ---------------------------------------------------------------------------
  // Calendar grid

  /** `getFirsDayOfMonthDay`: the weekday of the first of the month with Sunday moved
      from 0 to 7, so the grid column of the first day in a Monday-first week. */
  function FirstDayOffset(c: YearMonth): (r: int)
    requires ValidMonth(c)
    ensures 1 <= r <= 7
    ensures r % 7 == Weekday(DayNumber(c.year, c.month, 1))
  {
    var w := Weekday(DayNumber(c.year, c.month, 1));
    if w == 0 then 7 else w
  }

  /** `getMonthDayCount`: the day of the month of "day 0 of the next month", i.e. of
      the day before the first of the following month. */
  function MonthDayCount(c: YearMonth): (r: int)
    requires ValidMonth(c)
    ensures r == MonthLength(c.year, c.month)
    ensures 28 <= r <= 31
    ensures c.month == 1 ==> (r == 29 <==> IsLeap(c.year))
  {
    var nx := NextMonth(c);
    FirstOfNextMonth(c);
    CivilOfDayNumber(c.year, c.month, MonthLength(c.year, c.month));
    CivilOf(DayNumber(nx.year, nx.month, 1) - 1).day
  }

  /** The grid columns of consecutive months line up: the next month starts
      `MonthDayCount` weekdays later. */
  lemma ModAdd(a: int, b: int)
    ensures (a + b) % 7 == (a % 7 + b) % 7
  {
    var q := a / 7;
    assert a == 7 * q + a % 7;
    assert a + b == 7 * q + (a % 7 + b);
  }

  lemma WeekdayAdvance(n: int, len: int)
    ensures Weekday(n + len) == (Weekday(n) + len) % 7
  {
    ModAdd(n + EpochWeekday, len);
  }

  lemma {:induction false} NextMonthOffset(c: YearMonth)
    requires ValidMonth(c)
    ensures FirstDayOffset(NextMonth(c)) % 7 == (FirstDayOffset(c) + MonthLength(c.year, c.month)) % 7
  {
    var nx := NextMonth(c);
    var n := DayNumber(c.year, c.month, 1);
    var len := MonthLength(c.year, c.month);
    FirstOfNextMonth(c);
    assert DayNumber(nx.year, nx.month, 1) == n + len;
    WeekdayAdvance(n, len);
    assert FirstDayOffset(nx) % 7 == (Weekday(n) + len) % 7;
    ModAdd(FirstDayOffset(c), len);
    assert FirstDayOffset(c) % 7 == Weekday(n);
  }

  /** The button `renderPickerDays` emits for day `index`; only the first one emitted
      (while the accumulated markup is still empty) carries the start column. */
  function Button(c: YearMonth, index: int, first: bool): DayButton
    requires ValidMonth(c)
  {
    DayButton(index, DayNumber(c.year, c.month, index), if first then Some(FirstDayOffset(c)) else None)
  }

  /** The buttons a correct grid holds up to `k`: labels 1..k in order. */
  ghost predicate GridPrefix(c: YearMonth, buttons: seq<DayButton>, k: int)
    requires ValidMonth(c)
  {
    && |buttons| == k
    && forall i | 0 <= i < k ::
         && buttons[i].number == i + 1
         && buttons[i].day == DayNumber(c.year, c.month, i + 1)
         && (buttons[i].startFrom.Some? <==> i == 0)
         && (i == 0 ==> buttons[i].startFrom == Some(FirstDayOffset(c)))
  }

  /** The `reduce` over `','.repeat(n).split(',')`: its `n + 1` empty items seed the
      accumulator with the first and visit indices 1..n. */
  function AppendDays(c: YearMonth, acc: seq<DayButton>, index: int, n: int): (r: seq<DayButton>)
    requires ValidMonth(c)
    requires 1 <= index <= n + 1
    requires GridPrefix(c, acc, index - 1)
    ensures GridPrefix(c, r, n)
    decreases n + 1 - index
  {
    if index > n then acc
    else AppendDays(c, acc + [Button(c, index, acc == [])], index + 1, n)
  }

  /** `renderPickerDays`: one button per day of the month, labelled 1..n in order, each
      keyed by its day; only the first carries the start column. */
  function PickerDays(c: YearMonth): (r: seq<DayButton>)
    requires ValidMonth(c)
    ensures |r| == MonthDayCount(c)
    ensures forall i | 0 <= i < |r| :: r[i].number == i + 1 && r[i].day == DayNumber(c.year, c.month, i + 1)
    ensures r[0].startFrom == Some(FirstDayOffset(c))
    ensures forall i | 1 <= i < |r| :: r[i].startFrom == None
  {
    AppendDays(c, [], 1, MonthDayCount(c))
  }

  /** `renderSelector`: the cursor month and the month after it. */
  function Selector(p: Picker): (r: seq<MonthView>)
    requires ValidMonth(p.cursor)
    ensures |r| == 2
    ensures r[0].month == p.cursor && r[1].month == NextMonth(p.cursor)
    ensures MonthIndex(r[1].month) == MonthIndex(p.cursor) + 1
    ensures p.cursor.month == 11 ==> r[1].month == YearMonth(p.cursor.year + 1, 0)
    ensures |r[0].days| == MonthDayCount(r[0].month) && |r[1].days| == MonthDayCount(r[1].month)
  {
    var nx := NextMonth(p.cursor);
    [MonthView(p.cursor, PickerDays(p.cursor)), MonthView(nx, PickerDays(nx))]
  }

  /** The two calendars cover consecutive days: the second starts the day after the
      first ends. */
  lemma SelectorContiguous(p: Picker)
    requires ValidMonth(p.cursor)
    ensures var views := Selector(p);
            views[1].days[0].day == views[0].days[|views[0].days| - 1].day + 1
  {
    FirstOfNextMonth(p.cursor);
  }

  // ---------------------------------------------------------------------------
  // Highlighting

  /** The class `renderHighlight` gives a cell for day `v`: `from` wins over `to`, and
      `between` needs both endpoints with `v` inside them. */
  function Classify(sel: Selection, v: int): (r: Highlight)
    ensures r == SelectedFrom <==> sel.from == Some(v)
    ensures r == SelectedTo <==> sel.from != Some(v) && sel.to == Some(v)
    ensures r == SelectedBetween <==>
      sel.from != Some(v) && sel.to != Some(v) && sel.from.Some? && sel.to.Some?
      && sel.from.value <= v <= sel.to.value
  {
    if sel.from.Some? && sel.from.value == v then SelectedFrom
    else if sel.to.Some? && sel.to.value == v then SelectedTo
    else if sel.from.Some? && sel.to.Some? && sel.from.value <= v <= sel.to.value then SelectedBetween
    else Unmarked
  }

  /** The selection has its endpoints in order (`to` only ever follows `from`). */
  ghost predicate Ordered(sel: Selection)
  {
    sel.to.Some? ==> sel.from.Some? && sel.from.value <= sel.to.value
  }

  /** For an ordered selection the marked cells are exactly the days of the interval,
      or only the `from` day while `to` is still open. */
  lemma HighlightIsInterval(sel: Selection, v: int)
    requires Ordered(sel)
    ensures sel.to.Some? ==> (Classify(sel, v) != Unmarked <==> sel.from.value <= v <= sel.to.value)
    ensures sel.to.None? ==> (Classify(sel, v) != Unmarked <==> sel.from == Some(v))
  {
  }

  // ---------------------------------------------------------------------------
  // Clicks

  /** The selection after a click on day `d`: a complete interval is discarded for a new
      start; with only `from` set, a later day becomes `to` and an earlier or equal one
      becomes `from`, the old `from` moving to `to`. */
  function SelectDay(sel: Selection, d: int): (r: Selection)
    ensures sel.to.Some? ==> r == Selection(Some(d), None)
    ensures sel.to.None? && sel.from.Some? ==>
      && r.from.Some? && r.to.Some?
      && r.from.value <= r.to.value
      && r.from.value == (if d > sel.from.value then sel.from.value else d)
      && r.to.value == (if d > sel.from.value then d else sel.from.value)
    ensures sel.to.None? && sel.from.None? ==> r == sel
  {
    if sel.to.Some? then Selection(Some(d), None)
    else if sel.from.Some? then
      if d > sel.from.value then Selection(sel.from, Some(d)) else Selection(Some(d), sel.from)
    else sel
  }

  /** `onDocumentClick` and the handlers it dispatches to. */
  function Click(p: Picker, target: Target): (r: ClickResult)
    requires ValidMonth(p.cursor)
    ensures ValidMonth(r.picker.cursor)
    ensures target.SelectorOther? || target.OtherInside? ==> r == ClickResult(p, None)
  {
    match target
    case Outside => ClickResult(p.(open := false), None)
    case InputArea => ClickResult(p.(open := !p.open), None)
    case LeftArrow => ClickResult(p.(cursor := PrevMonth(p.cursor)), None)
    case RightArrow => ClickResult(p.(cursor := NextMonth(p.cursor)), None)
    case DayCell(d) =>
      var sel := SelectDay(p.selected, d);
      if sel.from.Some? && sel.to.Some? then
        var interval := Interval(sel.from.value, sel.to.value);
        ClickResult(p.(selected := sel, open := false, shown := interval), Some(interval))
      else ClickResult(p.(selected := sel), None)
    case SelectorOther => ClickResult(p, None)
    case OtherInside => ClickResult(p, None)
  }

  /** A click outside only ever closes the overlay; a click on the input toggles it.
      Neither touches the selection or the cursor. */
  lemma OpenCloseClicks(p: Picker)
    requires ValidMonth(p.cursor)
    ensures Click(p, Outside) == ClickResult(p.(open := false), None)
    ensures Click(p, InputArea) == ClickResult(p.(open := !p.open), None)
    ensures Click(Click(p, InputArea).picker, InputArea).picker == p
  {
  }

  /** The arrows move the cursor by exactly one month and undo each other; the
      selection and the overlay state stay as they are. */
  lemma ArrowsMoveCursor(p: Picker)
    requires ValidMonth(p.cursor)
    ensures var l := Click(p, LeftArrow);
            && l.event.None? && l.picker.selected == p.selected && l.picker.open == p.open
            && MonthIndex(l.picker.cursor) == MonthIndex(p.cursor) - 1
            && Click(l.picker, RightArrow).picker == p
    ensures var rt := Click(p, RightArrow);
            && rt.event.None? && rt.picker.selected == p.selected && rt.picker.open == p.open
            && MonthIndex(rt.picker.cursor) == MonthIndex(p.cursor) + 1
            && Click(rt.picker, LeftArrow).picker == p
  {
    NextPrevInverse(p.cursor);
  }

  /** A day click dispatches `date-select` exactly when it completes an interval, i.e.
      when only `from` was set; the event carries the ordered interval, which the input
      then shows, and the overlay closes. Any other click leaves the shown interval. */
  lemma {:induction false} DateSelectExactlyOnCompletion(p: Picker, target: Target)
    requires ValidMonth(p.cursor)
    ensures var r := Click(p, target);
            && (r.event.Some? <==> target.DayCell? && p.selected.to.None? && p.selected.from.Some?)
            && (r.event.Some? ==>
                  && r.event.value.from <= r.event.value.to
                  && r.picker.selected == Selection(Some(r.event.value.from), Some(r.event.value.to))
                  && r.picker.shown == r.event.value
                  && !r.picker.open)
            && (r.event.None? ==> r.picker.shown == p.shown)
  {
    match target
    case DayCell(d) =>
      var sel := SelectDay(p.selected, d);
      if p.selected.to.Some? {
        assert sel.to.None?;
      }
    case _ =>
  }

  /** A click on a day while the interval is complete starts a new one, and nothing is
      dispatched; the overlay stays as it was. */
  lemma RestartClick(p: Picker, d: int)
    requires ValidMonth(p.cursor)
    requires p.selected.to.Some?
    ensures var r := Click(p, DayCell(d));
            r == ClickResult(p.(selected := Selection(Some(d), None)), None)
  {
  }

  /** The picker's well-formedness: a valid cursor, an ordered selection and an ordered
      shown interval. */
  ghost predicate Valid(p: Picker)
  {
    ValidMonth(p.cursor) && Ordered(p.selected) && p.shown.from <= p.shown.to
  }

  lemma CreateValid(from: int, to: int)
    ensures Valid(Create(from, to)) <==> from <= to
  {
  }

  /** Every click keeps the picker well-formed; in particular `from <= to` whenever
      both endpoints are set. */
  lemma ClickPreservesValid(p: Picker, target: Target)
    requires Valid(p)
    ensures Valid(Click(p, target).picker)
  {
  }

  /** Picking day `a` and then an earlier day `b` from a complete interval stores
      `{from: b, to: a}`; a third pick `c` starts over with `{from: c, to: null}`. */
  lemma ThreePicks(p: Picker, a: int, b: int, c: int)
    requires ValidMonth(p.cursor)
    requires p.selected.to.Some?
    requires b < a
    ensures var p1 := Click(p, DayCell(a)).picker;
            var r2 := Click(p1, DayCell(b));
            && r2.picker.selected == Selection(Some(b), Some(a))
            && r2.event == Some(Interval(b, a))
            && Click(r2.picker, DayCell(c)).picker.selected == Selection(Some(c), None)
  {
  }
}
