/** The dashboard page: a range picker whose `date-select` event re-queries the three
    charts and the best-sellers table. */
module Dashboard {
  import opened Common
  import SortableTable
  import ColumnChart
  import RangePicker
  import Calendar

  datatype Page = Page(
    picker: RangePicker.Picker,
    table: SortableTable.Table,
    orders: ColumnChart.Chart,
    sales: ColumnChart.Chart,
    customers: ColumnChart.Chart)

  /** The fetch results the reloads of one `date-select` receive. */
  datatype Responses = Responses(
    table: Response<seq<SortableTable.Row>>,
    orders: Response<seq<ColumnChart.Entry>>,
    sales: Response<seq<ColumnChart.Entry>>,
    customers: Response<seq<ColumnChart.Entry>>)

  /** `initComponents` given its two dates and the best-sellers header configuration:
      a locally sorted table filtered on the dates, and three charts of which only the
      sales chart formats its numbers as dollars. Fails where the table constructor
      throws. */
  function InitComponents(header: seq<SortableTable.Column>, dateFrom: int, dateTo: int): (r: Option<Page>)
    ensures r.Some? <==> exists j | 0 <= j < |header| :: header[j].sortable
    ensures r.Some? ==>
      && r.value.table.isSortLocally
      && r.value.table.searchParameters == map["from" := SortableTable.IsoDate(dateFrom), "to" := SortableTable.IsoDate(dateTo)]
      && r.value.orders.format == ColumnChart.Identity
      && r.value.sales.format == ColumnChart.Dollars
      && r.value.customers.format == ColumnChart.Identity
      && r.value.table.start == 1 && r.value.table.end == 21
      && r.value.picker.selected == RangePicker.Selection(Some(dateFrom), Some(dateTo))
      && r.value.orders.from == r.value.sales.from == r.value.customers.from == dateFrom
      && r.value.orders.to == r.value.sales.to == r.value.customers.to == dateTo
  {
    match SortableTable.Create(header, TableOptions(dateFrom, dateTo))
    case ThrowsTypeError => None
    case Constructed(table) =>
      Some(Page(
        RangePicker.Create(dateFrom, dateTo),
        table,
        ColumnChart.Create("orders", "/sales", dateFrom, dateTo, ColumnChart.Identity),
        ColumnChart.Create("sales", "", dateFrom, dateTo, ColumnChart.Dollars),
        ColumnChart.Create("customers", "", dateFrom, dateTo, ColumnChart.Identity)))
  }

  function TableOptions(dateFrom: int, dateTo: int): SortableTable.Options
  {
    SortableTable.DefaultOptions.(
      searchParameters := map["from" := SortableTable.IsoDate(dateFrom), "to" := SortableTable.IsoDate(dateTo)],
      isSortLocally := true)
  }

  /** A chart re-pointed at the interval and reloaded. */
  function Requery(c: ColumnChart.Chart, e: RangePicker.Interval, resp: Response<seq<ColumnChart.Entry>>): (r: ColumnChart.Chart)
    ensures r.from == e.from && r.to == e.to && r.format == c.format
    ensures resp.Received? ==> r.bars == ColumnChart.ColumnBody(resp.body, c.format) && !r.loading
    ensures resp.Rejected? ==> r.bars == c.bars && r.loading
  {
    ColumnChart.LoadFromServer(c.(from := e.from, to := e.to), resp)
  }

  /** The table's half of the handler: the `from`/`to` search parameters take the
      interval's ISO dates and the first page is fetched again, even though the
      dashboard's table sorts locally. */
  function RequeryTable(t: SortableTable.Table, e: RangePicker.Interval, resp: Response<seq<SortableTable.Row>>): (r: SortableTable.Table)
    ensures r.searchParameters == t.searchParameters["from" := SortableTable.IsoDate(e.from)]["to" := SortableTable.IsoDate(e.to)]
    ensures forall k | k != "from" && k != "to" ::
      (k in r.searchParameters <==> k in t.searchParameters)
      && (k in t.searchParameters ==> r.searchParameters[k] == t.searchParameters[k])
    ensures r.start == 1 && r.end == 31
    ensures r.isSortLocally == t.isSortLocally && r.sorted == t.sorted && r.headers == t.headers
    ensures resp.Received? ==> r.data == resp.body && r.body == resp.body && !r.loading
    ensures resp.Rejected? ==> r.data == t.data && r.body == t.body && r.loading
  {
    var params := t.searchParameters["from" := SortableTable.IsoDate(e.from)]["to" := SortableTable.IsoDate(e.to)];
    SortableTable.SortOnServer(t.(searchParameters := params), resp)
  }

  /** `onRangePickerDateSelect`: the table and every chart are pointed at the
      interval and reloaded; the picker itself is not touched. */
  function OnDateSelect(p: Page, e: RangePicker.Interval, resp: Responses): (r: Page)
    ensures r.picker == p.picker
    ensures r.table == RequeryTable(p.table, e, resp.table)
    ensures r.orders.from == r.sales.from == r.customers.from == e.from
    ensures r.orders.to == r.sales.to == r.customers.to == e.to
    ensures r.orders.format == p.orders.format && r.sales.format == p.sales.format
            && r.customers.format == p.customers.format
    ensures resp.orders.Received? ==> r.orders.bars == ColumnChart.ColumnBody(resp.orders.body, p.orders.format)
    ensures resp.sales.Received? ==> r.sales.bars == ColumnChart.ColumnBody(resp.sales.body, p.sales.format)
    ensures resp.customers.Received? ==> r.customers.bars == ColumnChart.ColumnBody(resp.customers.body, p.customers.format)
  {
    p.(table := RequeryTable(p.table, e, resp.table),
       orders := Requery(p.orders, e, resp.orders),
       sales := Requery(p.sales, e, resp.sales),
       customers := Requery(p.customers, e, resp.customers))
  }

  /** A document click: the picker handles it, and a dispatched `date-select` reaches
      the page's handler. */
  function OnDocumentClick(p: Page, target: RangePicker.Target, resp: Responses): (r: Page)
    requires Calendar.ValidMonth(p.picker.cursor)
    ensures var clicked := RangePicker.Click(p.picker, target);
            && r.picker == clicked.picker
            && (clicked.event.Some? ==> r == OnDateSelect(p.(picker := clicked.picker), clicked.event.value, resp))
            && (clicked.event.None? ==> r == p.(picker := clicked.picker))
  {
    var clicked := RangePicker.Click(p.picker, target);
    var p1 := p.(picker := clicked.picker);
    match clicked.event
    case None => p1
    case Some(e) => OnDateSelect(p1, e, resp)
  }

  /** Completing an interval on the picker points every chart at it, ordered, and
      reloads the table from its first page; a click that does not complete one leaves
      the charts and the table alone. */
  lemma {:induction false} PickerDrivesComponents(p: Page, target: RangePicker.Target, resp: Responses)
    requires Calendar.ValidMonth(p.picker.cursor)
    ensures var clicked := RangePicker.Click(p.picker, target);
            var r := OnDocumentClick(p, target, resp);
            && (clicked.event.Some? ==>
                  && r.orders.from == r.sales.from == r.customers.from == clicked.event.value.from
                  && r.orders.to == r.sales.to == r.customers.to == clicked.event.value.to
                  && clicked.event.value.from <= clicked.event.value.to
                  && r.table.start == 1 && r.table.end == 31)
            && (clicked.event.None? ==>
                  r.table == p.table && r.orders == p.orders && r.sales == p.sales && r.customers == p.customers)
  {
    RangePicker.DateSelectExactlyOnCompletion(p.picker, target);
  }
}
