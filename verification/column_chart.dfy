/** The column chart: a series of (date key, value) entries drawn as bars scaled to a
    fixed height, a header with the formatted total, and a single hover slot. */
module ColumnChart {
  import opened Common
  import NumberText

  const ChartHeight := 50

  /** One key of the fetched object, in iteration order, with its value. */
  datatype Entry = Entry(key: string, value: int)

  /** A bar: its `--value` height and its tooltip's key and formatted value. */
  datatype Bar = Bar(key: string, height: int, tooltip: string)

  /** The two `formatNumber`s the dashboard uses: the default identity (the number's own
      text) and the sales chart's dollar formatter. */
  datatype Formatter = Identity | Dollars

  /** What a pointer event's target is inside `.column-chart__chart`. */
  datatype BodyNode = BodyItself | BarNode(index: nat)

  datatype Pointer = OutsideBody | InsideBody(node: BodyNode)

  datatype Chart = Chart(
    title: string,
    link: string,
    from: int,
    to: int,
    format: Formatter,
    header: string,
    bars: seq<Bar>,
    /** `currentElem`, the hovered node */
    hovered: Option<BodyNode>,
    /** the `column-chart_loading` class */
    loading: bool)

  function Format(f: Formatter, v: int): string
  {
    match f
    case Identity => NumberText.ToDecimal(v)
    case Dollars => NumberText.FormatSales(v)
  }

  function Values(series: seq<Entry>): (r: seq<int>)
    ensures |r| == |series| && forall i | 0 <= i < |r| :: r[i] == series[i].value
  {
    seq(|series|, i requires 0 <= i < |series| => series[i].value)
  }

  /** `getMaxData`: a running maximum that starts at 0. */
  function Peak(values: seq<int>): (r: int)
    ensures r >= 0
    ensures forall i | 0 <= i < |values| :: values[i] <= r
    ensures r == 0 || exists i | 0 <= i < |values| :: values[i] == r
  {
    if |values| == 0 then 0
    else
      var m := Peak(values[..|values| - 1]);
      var last := values[|values| - 1];
      if last > m then last else m
  }

  /** `getDataSum`: a running sum that starts at 0. With no negative value the sum is
      non-negative and at least every single value. */
  function Total(values: seq<int>): (r: int)
    ensures (forall i | 0 <= i < |values| :: values[i] >= 0) ==> 0 <= r
    ensures (forall i | 0 <= i < |values| :: values[i] >= 0) ==> forall i | 0 <= i < |values| :: values[i] <= r
  {
    if |values| == 0 then 0 else Total(values[..|values| - 1]) + values[|values| - 1]
  }

  /** The sum splits over concatenation, so every value counts once. */
  lemma {:induction false} TotalAppend(a: seq<int>, b: seq<int>)
    ensures Total(a + b) == Total(a) + Total(b)
    decreases |b|
  {
    if |b| == 0 {
      assert a + b == a;
    } else {
      assert (a + b)[..|a + b| - 1] == a + b[..|b| - 1];
      TotalAppend(a, b[..|b| - 1]);
    }
  }

  /** A one-entry series sums to its value. */
  lemma TotalSingle(v: int)
    ensures Total([v]) == v
  {
    assert [v][..0] == [];
  }

  /** The series is empty or made of zeroes only, or its values are all below zero. */
  lemma PeakZeroMeansNoPositive(values: seq<int>)
    ensures Peak(values) == 0 <==> forall i | 0 <= i < |values| :: values[i] <= 0
  {
  }

  // ---------------------------------------------------------------------------
  // Bar heights

  /** A height as `Math.floor(v * (50 / max))` gives it, read in exact arithmetic: a
      zero maximum makes the scale infinite, and a positive one gives `floor(v * 50 / max)`.
      The source's floating-point scale can round below this (a maximum of 97 draws its
      own bar 49 high), which this reading does not model. */
  datatype Height = Pixels(n: int) | NotANumber | PlusInfinity | MinusInfinity

  function BarHeightAsWritten(v: int, max: int): (r: Height)
    requires max >= 0
    ensures max > 0 ==> r.Pixels?
    ensures max == 0 && v == 0 ==> r == NotANumber
  {
    if max > 0 then Pixels(v * ChartHeight / max)
    else if v == 0 then NotANumber
    else if v > 0 then PlusInfinity
    else MinusInfinity
  }

  /** The height with the degenerate scale avoided: the largest height whose share of
      the chart does not exceed the value's share of the maximum, and 0 when the maximum
      is 0. */
  function BarHeight(v: int, max: int): (r: int)
    requires max >= 0
    ensures max > 0 ==> r * max <= v * ChartHeight < (r + 1) * max
    ensures max == 0 ==> r == 0
  {
    if max > 0 then v * ChartHeight / max else 0
  }

  /** In the exact-arithmetic reading, wherever the scale is finite the two heights
      agree. */
  lemma BarHeightAgrees(v: int, max: int)
    requires max > 0
    ensures BarHeightAsWritten(v, max) == Pixels(BarHeight(v, max))
  {
  }

  /** A non-empty series without a positive value (a period without sales) has
      maximum 0: in the source every zero bar is then `NaN` and every negative one
      `-Infinity`; the corrected bars are all 0 high. */
  lemma ZeroSeriesBarIsNaN(series: seq<Entry>, f: Formatter)
    requires |series| > 0
    requires forall i | 0 <= i < |series| :: series[i].value <= 0
    ensures Peak(Values(series)) == 0
    ensures forall i | 0 <= i < |series| ::
              BarHeightAsWritten(series[i].value, Peak(Values(series)))
              == if series[i].value == 0 then NotANumber else MinusInfinity
    ensures forall i | 0 <= i < |series| :: ColumnBody(series, f)[i].height == 0
  {
    PeakZeroMeansNoPositive(Values(series));
  }

  /** A multiple of `d` below `d` is at most 0 times `d`; the step `DivMonotone` needs. */
  lemma MulBelowOne(d: int, x: int)
    requires d > 0 && d * x < d
    ensures x < 1
  {
    assert d * x == d + d * (x - 1);
  }

  /** Division by a positive number keeps order; `BarHeightBounds` and
      `BarHeightMonotone` rest on it. */
  lemma DivMonotone(a: int, b: int, d: int)
    requires a <= b && d > 0
    ensures a / d <= b / d
  {
    var qa, qb := a / d, b / d;
    assert d * (qa - qb) < d by {
      assert a == d * qa + a % d && b == d * qb + b % d;
      assert d * (qa - qb) == d * qa - d * qb;
    }
    MulBelowOne(d, qa - qb);
  }

  /** In exact arithmetic, a value between 0 and the maximum gets a height between 0 and
      50; the maximum itself gets the full 50, and 0 gets nothing. */
  lemma {:induction false} BarHeightBounds(v: int, max: int)
    requires 0 <= v <= max
    ensures 0 <= BarHeight(v, max) <= ChartHeight
    ensures v == 0 ==> BarHeight(v, max) == 0
    ensures v == max && max > 0 ==> BarHeight(v, max) == ChartHeight
  {
    if max > 0 {
      DivMonotone(0, v * ChartHeight, max);
      DivMonotone(v * ChartHeight, max * ChartHeight, max);
      assert max * ChartHeight / max == ChartHeight;
    }
  }

  /** With a maximum of 100 a value of 50 is drawn 25 high. */
  lemma BarHeightExample()
    ensures BarHeight(50, 100) == 25 && BarHeight(0, 100) == 0
  {
  }

  /** A larger value never gets a smaller bar. */
  lemma {:induction false} BarHeightMonotone(v: int, w: int, max: int)
    requires max >= 0 && v <= w
    ensures BarHeight(v, max) <= BarHeight(w, max)
  {
    if max > 0 {
      DivMonotone(v * ChartHeight, w * ChartHeight, max);
    }
  }

  /** `getColumnBody`: one bar per entry, in entry order, scaled against the maximum. */
  function ColumnBody(series: seq<Entry>, f: Formatter): (r: seq<Bar>)
    ensures |r| == |series|
    ensures forall i | 0 <= i < |r| :: r[i].key == series[i].key && r[i].tooltip == Format(f, series[i].value)
    ensures forall i | 0 <= i < |r| :: r[i].height == BarHeight(series[i].value, Peak(Values(series)))
  {
    var max := Peak(Values(series));
    seq(|series|, i requires 0 <= i < |series| =>
      Bar(series[i].key, BarHeight(series[i].value, max), Format(f, series[i].value)))
  }

  /** In the exact-arithmetic reading, for a series without negative values, bars lie
      within the chart height, keep the order of their values, and a largest value
      reaches the top when it is positive. */
  lemma {:induction false} ColumnBodyShape(series: seq<Entry>, f: Formatter)
    requires forall i | 0 <= i < |series| :: series[i].value >= 0
    ensures var bars := ColumnBody(series, f);
            && (forall i | 0 <= i < |bars| :: 0 <= bars[i].height <= ChartHeight)
            && (forall i, j | 0 <= i < |bars| && 0 <= j < |bars| && series[i].value <= series[j].value ::
                  bars[i].height <= bars[j].height)
            && (forall i | 0 <= i < |bars| && series[i].value == Peak(Values(series)) && series[i].value > 0 ::
                  bars[i].height == ChartHeight)
  {
    var bars := ColumnBody(series, f);
    var max := Peak(Values(series));
    forall i | 0 <= i < |bars|
      ensures 0 <= bars[i].height <= ChartHeight
      ensures series[i].value == max && max > 0 ==> bars[i].height == ChartHeight
    {
      assert Values(series)[i] == series[i].value;
      BarHeightBounds(series[i].value, max);
    }
    forall i, j | 0 <= i < |bars| && 0 <= j < |bars| && series[i].value <= series[j].value
      ensures bars[i].height <= bars[j].height
    {
      BarHeightMonotone(series[i].value, series[j].value, max);
    }
  }

  /** In the exact-arithmetic reading, where the series has a positive value the drawn
      heights are the source's. */
  lemma ColumnBodyAgreesWithSource(series: seq<Entry>, f: Formatter)
    requires exists i | 0 <= i < |series| :: series[i].value > 0
    ensures Peak(Values(series)) > 0
    ensures forall i | 0 <= i < |series| ::
              BarHeightAsWritten(series[i].value, Peak(Values(series))) == Pixels(ColumnBody(series, f)[i].height)
  {
    PeakZeroMeansNoPositive(Values(series));
  }

  // ---------------------------------------------------------------------------
  // Loading and updating

  /** The constructor: nothing drawn yet, nothing hovered. */
  function Create(title: string, link: string, from: int, to: int, f: Formatter): (r: Chart)
    ensures r.from == from && r.to == to && r.format == f
    ensures r.bars == [] && r.hovered.None? && !r.loading
  {
    Chart(title, link, from, to, f, "", [], None, false)
  }

  /** `loadDateFromServer`: the fetched series replaces the bars, and the header shows
      the formatted total. A rejected fetch leaves the chart drawn as it was, still
      marked as loading. */
  function LoadFromServer(c: Chart, resp: Response<seq<Entry>>): (r: Chart)
    ensures resp.Received? ==>
      && r.bars == ColumnBody(resp.body, c.format)
      && r.header == Format(c.format, Total(Values(resp.body)))
      && !r.loading
    ensures resp.Rejected? ==> r == c.(loading := true)
    ensures r.from == c.from && r.to == c.to && r.format == c.format && r.hovered == c.hovered
  {
    match resp
    case Received(series) =>
      c.(bars := ColumnBody(series, c.format), header := Format(c.format, Total(Values(series))), loading := false)
    case Rejected => c.(loading := true)
  }

  /** With the default formatter the header is the total's own text; with the dollar
      formatter it is that text behind `'$'`, with commas. */
  lemma HeaderShowsTotal(c: Chart, series: seq<Entry>)
    ensures var r := LoadFromServer(c, Received(series));
            && (c.format == Identity ==> r.header == NumberText.ToDecimal(Total(Values(series))))
            && (c.format == Dollars ==>
                  NumberText.StripCommas(r.header) == "$" + NumberText.ToDecimal(Total(Values(series))))
  {
    if c.format == Dollars {
      NumberText.SalesWithoutCommas(Total(Values(series)));
    }
  }

  /** `update`: the header text and the bars are replaced without a fetch. */
  function Update(c: Chart, headerData: string, bodyData: seq<Entry>): (r: Chart)
    ensures r.header == headerData && r.bars == ColumnBody(bodyData, c.format)
    ensures r == c.(header := headerData, bars := r.bars)
  {
    c.(header := headerData, bars := ColumnBody(bodyData, c.format))
  }

  // ---------------------------------------------------------------------------
  // Hover

  /** `onMouseOver`: ignored while something is hovered or outside the chart body;
      otherwise the target takes the slot. */
  function MouseOver(c: Chart, target: Pointer): (r: Chart)
    ensures c.hovered.Some? || target.OutsideBody? ==> r == c
    ensures c.hovered.None? && target.InsideBody? ==> r == c.(hovered := Some(target.node))
  {
    if c.hovered.Some? then c
    else match target
      case OutsideBody => c
      case InsideBody(node) => c.(hovered := Some(node))
  }

  /** `onMouseOut`: clears the slot when one is set and the target is inside the body. */
  function MouseOut(c: Chart, target: Pointer): (r: Chart)
    ensures c.hovered.None? || target.OutsideBody? ==> r == c
    ensures c.hovered.Some? && target.InsideBody? ==> r == c.(hovered := None)
  {
    if c.hovered.None? then c
    else match target
      case OutsideBody => c
      case InsideBody(_) => c.(hovered := None)
  }

  /** The slot holds one node at most: a second mouseover cannot replace the first
      until a mouseout inside the body has cleared it. */
  lemma HoverSlotIsExclusive(c: Chart, a: BodyNode, b: BodyNode, out: Pointer)
    requires c.hovered.None?
    ensures MouseOver(MouseOver(c, InsideBody(a)), InsideBody(b)).hovered == Some(a)
    ensures MouseOut(MouseOver(c, InsideBody(a)), out).hovered == (if out.InsideBody? then None else Some(a))
    ensures MouseOver(MouseOut(MouseOver(c, InsideBody(a)), InsideBody(a)), InsideBody(b)).hovered == Some(b)
  {
  }

  /** `update` given the formatted total as header text draws what a successful
      `loadDateFromServer` of the same series draws. */
  lemma UpdateMatchesLoad(c: Chart, series: seq<Entry>)
    ensures Update(c, Format(c.format, Total(Values(series))), series)
            == LoadFromServer(c, Received(series)).(loading := c.loading)
  {
  }
}
