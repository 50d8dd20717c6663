/** The sortable, paginated table: column configuration, sort state, the pagination
    window, the loaded rows and the flags that gate loading. Fetches are inputs
    (`Response`s) to the transitions; rendering is reduced to the rows and header
    labels it displays. */
module SortableTable {
  import opened Common
  import Sorting

  /** A cell value of a loaded row. */
  datatype Value = Num(n: int) | Text(s: string)

  /** A row as parsed from JSON: column id to cell value; a missing key reads as `undefined`. */
  type Row = map<string, Value>

  /** `sortType` of a column; any other string falls back to numeric comparison. */
  datatype SortType = NumberSort | StringSort | CustomSort | OtherSort(name: string)

  /** One entry of the header configuration. `customSorting` of a custom column is
      passed to the sort as a separate comparator so that columns keep equality. */
  datatype Column = Column(id: string, title: string, sortable: bool, sortType: SortType)

  datatype Order = Asc | Desc

  /** The `sorted` field: the active column id and its direction. */
  datatype SortState = SortState(id: string, order: Order)

  /** A search parameter value: the ISO form of a day, or a literal string. */
  datatype Param = IsoDate(day: int) | Literal(text: string)

  /** The constructor's options object; `url` is left out. */
  datatype Options = Options(
    searchParameters: map<string, Param>,
    sorted: Option<SortState>,
    isSortLocally: bool,
    step: int,
    start: int,
    end: Option<int>)

  /** The defaults of the destructured options object. */
  const DefaultOptions := Options(map[], None, false, 20, 1, None)

  const StartPage := 0
  const PageSize := 30
  /** Distance from the bottom of the document, in pixels, below which a scroll loads more. */
  const ScrollThreshold := 50

  datatype Table = Table(
    headers: seq<Column>,
    searchParameters: map<string, Param>,
    sorted: SortState,
    isSortLocally: bool,
    start: int,
    end: int,
    needToRead: bool,
    /** the re-entrancy flag `inPorcess` */
    inProcess: bool,
    /** the `sortable-table_loading` class */
    loading: bool,
    /** the `sortable-table_empty` class */
    empty: bool,
    /** `this.data`: the rows of the last full render */
    data: seq<Row>,
    /** the rows shown in the body, including pages appended on scroll */
    body: seq<Row>,
    /** `data-order` of each rendered header cell; `None` is the empty string */
    headerOrders: seq<Option<Order>>)

  /** The constructor either builds a table or throws (reading `.id` of `undefined`). */
  datatype Construction = Constructed(table: Table) | ThrowsTypeError

  /** `headersConfig.find(item => item.sortable)`, as an index. */
  function FirstSortable(headers: seq<Column>): (r: Option<nat>)
    ensures r.Some? ==> r.value < |headers| && headers[r.value].sortable
    ensures r.Some? ==> forall j | 0 <= j < r.value :: !headers[j].sortable
    ensures r.None? <==> forall j | 0 <= j < |headers| :: !headers[j].sortable
  {
    if |headers| == 0 then None
    else if headers[0].sortable then Some(0)
    else match FirstSortable(headers[1..])
      case None => None
      case Some(k) => Some(k + 1)
  }

  /** `headersConfig.find(item => item.id === id)`, as an index. */
  function FindColumn(headers: seq<Column>, id: string): (r: Option<nat>)
    ensures r.Some? ==> r.value < |headers| && headers[r.value].id == id
    ensures r.Some? ==> forall j | 0 <= j < r.value :: headers[j].id != id
    ensures r.None? <==> forall j | 0 <= j < |headers| :: headers[j].id != id
  {
    if |headers| == 0 then None
    else if headers[0].id == id then Some(0)
    else match FindColumn(headers[1..], id)
      case None => None
      case Some(k) => Some(k + 1)
  }

  /** The constructor. An explicit `sorted` option wins; otherwise the first sortable
      column is sorted ascending, and with no sortable column the default throws. The
      window end is always `start + step`: an `end` option is ignored. */
  function Create(headers: seq<Column>, opts: Options): (r: Construction)
    ensures r.ThrowsTypeError? <==> opts.sorted.None? && forall j | 0 <= j < |headers| :: !headers[j].sortable
    ensures r.Constructed? && opts.sorted.Some? ==> r.table.sorted == opts.sorted.value
    ensures r.Constructed? && opts.sorted.None? ==>
      exists k | 0 <= k < |headers| ::
        && headers[k].sortable
        && (forall j | 0 <= j < k :: !headers[j].sortable)
        && r.table.sorted == SortState(headers[k].id, Asc)
    ensures r.Constructed? ==>
      && r.table.headers == headers
      && r.table.start == opts.start
      && r.table.end == opts.start + opts.step
      && r.table.isSortLocally == opts.isSortLocally
      && r.table.searchParameters == opts.searchParameters
      && r.table.needToRead && !r.table.inProcess
      && r.table.data == [] && r.table.body == []
  {
    var sorted :=
      if opts.sorted.Some? then Some(opts.sorted.value)
      else match FirstSortable(headers)
        case None => None
        case Some(k) => Some(SortState(headers[k].id, Asc));
    if sorted.None? then ThrowsTypeError
    else Constructed(Table(
      headers := headers,
      searchParameters := opts.searchParameters,
      sorted := sorted.value,
      isSortLocally := opts.isSortLocally,
      start := opts.start,
      end := opts.start + opts.step,
      needToRead := true,
      inProcess := false,
      loading := false,
      empty := false,
      data := [],
      body := [],
      headerOrders := []))
  }

  /** Passing `end` explicitly makes no difference to the constructed table. */
  lemma ExplicitEndIgnored(headers: seq<Column>, opts: Options, e: int)
    ensures Create(headers, opts.(end := Some(e))) == Create(headers, opts.(end := None))
  {
  }

  /** The value at `id`, or `None` for `undefined`. */
  function Cell(row: Row, id: string): Option<Value>
  {
    if id in row then Some(row[id]) else None
  }

  /** `a[id] - b[id]`; a NaN difference (a non-number operand) counts as equal, as
      `Array.prototype.sort` reads a NaN comparator result as +0. */
  function NumericDifference(x: Option<Value>, y: Option<Value>): int
  {
    if x.Some? && x.value.Num? && y.Some? && y.value.Num? then x.value.n - y.value.n else 0
  }

  /** The comparator of two cells for the column's `sortType`, before direction.
      `collate` stands for `localeCompare(…, 'ru')`, `custom` for the column's
      `customSorting`. The string case is only used on text cells (`TextCells`). */
  function KeyCompare(sortType: SortType, collate: (string, string) -> int,
                      custom: (Option<Value>, Option<Value>) -> int,
                      x: Option<Value>, y: Option<Value>): (r: int)
    ensures (sortType.NumberSort? || sortType.OtherSort?) && x.Some? && x.value.Num? && y.Some? && y.value.Num?
            ==> (r < 0 <==> x.value.n < y.value.n) && (r == 0 <==> x.value.n == y.value.n)
    ensures (sortType.NumberSort? || sortType.OtherSort?) && !(x.Some? && x.value.Num? && y.Some? && y.value.Num?)
            ==> r == 0
    ensures sortType.StringSort? && x.Some? && x.value.Text? && y.Some? && y.value.Text?
            ==> r == collate(x.value.s, y.value.s)
    ensures sortType.CustomSort? ==> r == custom(x, y)
  {
    match sortType
    case NumberSort => NumericDifference(x, y)
    case StringSort =>
      if x.Some? && x.value.Text? && y.Some? && y.value.Text? then collate(x.value.s, y.value.s) else 0
    case CustomSort => custom(x, y)
    case OtherSort(_) => NumericDifference(x, y)
  }

  function Direction(order: Order): int
  {
    if order == Asc then 1 else -1
  }

  /** The comparator handed to `Array.prototype.sort`. */
  function RowComparator(sortType: SortType, sorted: SortState, collate: (string, string) -> int,
                         custom: (Option<Value>, Option<Value>) -> int): (r: (Row, Row) -> int)
    ensures forall a: Row, b: Row :: sorted.order == Asc ==>
              r(a, b) == KeyCompare(sortType, collate, custom, Cell(a, sorted.id), Cell(b, sorted.id))
    ensures forall a: Row, b: Row :: sorted.order == Desc ==>
              r(a, b) == -KeyCompare(sortType, collate, custom, Cell(a, sorted.id), Cell(b, sorted.id))
  {
    (a: Row, b: Row) => Direction(sorted.order) * KeyCompare(sortType, collate, custom, Cell(a, sorted.id), Cell(b, sorted.id))
  }

  /** The descending comparator is the sign-negation of the ascending one. */
  lemma DescNegatesAsc(sortType: SortType, id: string, collate: (string, string) -> int,
                       custom: (Option<Value>, Option<Value>) -> int, a: Row, b: Row)
    ensures RowComparator(sortType, SortState(id, Desc), collate, custom)(a, b)
         == -RowComparator(sortType, SortState(id, Asc), collate, custom)(a, b)
  {
    var k := KeyCompare(sortType, collate, custom, Cell(a, id), Cell(b, id));
    assert Direction(Desc) * k == -k && Direction(Asc) * k == k;
  }

  /** Every row holds text at `id`; `localeCompare` throws on anything else. */
  ghost predicate TextCells(data: seq<Row>, id: string)
  {
    forall r: Row | r in data :: id in r && r[id].Text?
  }

  /** Every row holds a number at `id`. */
  ghost predicate NumberCells(data: seq<Row>, id: string)
  {
    forall r: Row | r in data :: id in r && r[id].Num?
  }

  /** What `sortData` needs to run to completion: the sorted column exists, and a
      string column holds only text. */
  ghost predicate Sortable(headers: seq<Column>, data: seq<Row>, id: string)
  {
    && FindColumn(headers, id).Some?
    && (headers[FindColumn(headers, id).value].sortType == StringSort ==> TextCells(data, id))
  }

  /** `sortData`: the rows ordered by the comparator of the active column. */
  function SortData(headers: seq<Column>, data: seq<Row>, sorted: SortState,
                    collate: (string, string) -> int,
                    custom: (Option<Value>, Option<Value>) -> int): (r: seq<Row>)
    requires Sortable(headers, data, sorted.id)
    ensures multiset(r) == multiset(data)
  {
    var column := headers[FindColumn(headers, sorted.id).value];
    Sorting.SortBy(data, RowComparator(column.sortType, sorted, collate, custom))
  }

  /** The comparator of a column's cells is consistent over the keys the rows hold. */
  ghost predicate KeysConsistent(sortType: SortType, collate: (string, string) -> int,
                                 custom: (Option<Value>, Option<Value>) -> int,
                                 data: seq<Row>, id: string)
  {
    && (forall a, b | a in data && b in data ::
          KeyCompare(sortType, collate, custom, Cell(a, id), Cell(b, id)) < 0
          <==> KeyCompare(sortType, collate, custom, Cell(b, id), Cell(a, id)) > 0)
    && (forall a, b, c | a in data && b in data && c in data ::
          KeyCompare(sortType, collate, custom, Cell(a, id), Cell(b, id)) <= 0
          && KeyCompare(sortType, collate, custom, Cell(b, id), Cell(c, id)) <= 0
          ==> KeyCompare(sortType, collate, custom, Cell(a, id), Cell(c, id)) <= 0)
  }

  lemma DirectedComparatorConsistent(sortType: SortType, sorted: SortState, collate: (string, string) -> int,
                                     custom: (Option<Value>, Option<Value>) -> int, data: seq<Row>)
    requires KeysConsistent(sortType, collate, custom, data, sorted.id)
    ensures Sorting.ConsistentOn(RowComparator(sortType, sorted, collate, custom), data)
  {
    var cmp := RowComparator(sortType, sorted, collate, custom);
    forall a, b, c | a in data && b in data && c in data && cmp(a, b) <= 0 && cmp(b, c) <= 0
      ensures cmp(a, c) <= 0
    {
      var ab := KeyCompare(sortType, collate, custom, Cell(a, sorted.id), Cell(b, sorted.id));
      var bc := KeyCompare(sortType, collate, custom, Cell(b, sorted.id), Cell(c, sorted.id));
      var ba := KeyCompare(sortType, collate, custom, Cell(b, sorted.id), Cell(a, sorted.id));
      var cb := KeyCompare(sortType, collate, custom, Cell(c, sorted.id), Cell(b, sorted.id));
      var ca := KeyCompare(sortType, collate, custom, Cell(c, sorted.id), Cell(a, sorted.id));
      if sorted.order == Desc {
        assert ab >= 0 && bc >= 0;
        assert cb <= 0 && ba <= 0;
        assert ca <= 0;
      }
    }
  }

  /** Whatever the column type, an ascending sort leaves the rows' keys in the
      comparator's order and a descending sort in the reverse order, as long as the
      comparator is consistent over the keys. */
  lemma SortDataFollowsComparator(headers: seq<Column>, data: seq<Row>, sorted: SortState,
                                  collate: (string, string) -> int,
                                  custom: (Option<Value>, Option<Value>) -> int)
    requires Sortable(headers, data, sorted.id)
    requires KeysConsistent(headers[FindColumn(headers, sorted.id).value].sortType, collate, custom, data, sorted.id)
    ensures var out := SortData(headers, data, sorted, collate, custom);
            var t := headers[FindColumn(headers, sorted.id).value].sortType;
            forall i, j | 0 <= i < j < |out| ::
              var k := KeyCompare(t, collate, custom, Cell(out[i], sorted.id), Cell(out[j], sorted.id));
              if sorted.order == Asc then k <= 0 else k >= 0
  {
    var t := headers[FindColumn(headers, sorted.id).value].sortType;
    DirectedComparatorConsistent(t, sorted, collate, custom, data);
    Sorting.SortByIsSorted(data, RowComparator(t, sorted, collate, custom));
  }

  function NumberAt(row: Row, id: string): int
    requires id in row && row[id].Num?
  {
    row[id].n
  }

  /** A numeric column (and an unrecognised `sortType`, which uses the same subtraction)
      sorts ascending into non-decreasing numbers and descending into non-increasing ones. */
  lemma NumberSortOrdersValues(headers: seq<Column>, data: seq<Row>, sorted: SortState,
                               collate: (string, string) -> int,
                               custom: (Option<Value>, Option<Value>) -> int)
    requires FindColumn(headers, sorted.id).Some?
    requires headers[FindColumn(headers, sorted.id).value].sortType != StringSort
    requires headers[FindColumn(headers, sorted.id).value].sortType != CustomSort
    requires NumberCells(data, sorted.id)
    ensures var out := SortData(headers, data, sorted, collate, custom);
            && multiset(out) == multiset(data)
            && forall i, j | 0 <= i < j < |out| ::
                 && out[i] in data && out[j] in data
                 && (sorted.order == Asc ==> NumberAt(out[i], sorted.id) <= NumberAt(out[j], sorted.id))
                 && (sorted.order == Desc ==> NumberAt(out[i], sorted.id) >= NumberAt(out[j], sorted.id))
  {
    var ty := headers[FindColumn(headers, sorted.id).value].sortType;
    NumberKeysConsistent(ty, collate, custom, data, sorted.id);
    SortDataFollowsComparator(headers, data, sorted, collate, custom);
    SortDataMembers(headers, data, sorted, collate, custom);
    var out: seq<Row> := SortData(headers, data, sorted, collate, custom);
    forall i, j | 0 <= i < j < |out|
      ensures && (sorted.order == Asc ==> NumberAt(out[i], sorted.id) <= NumberAt(out[j], sorted.id))
              && (sorted.order == Desc ==> NumberAt(out[i], sorted.id) >= NumberAt(out[j], sorted.id))
    {
      NumberCellCompare(ty, collate, custom, out[i], out[j], sorted.id);
    }
  }

  lemma NumberCellCompare(sortType: SortType, collate: (string, string) -> int,
                          custom: (Option<Value>, Option<Value>) -> int,
                          a: Row, b: Row, id: string)
    requires sortType != StringSort && sortType != CustomSort
    requires id in a && a[id].Num? && id in b && b[id].Num?
    ensures KeyCompare(sortType, collate, custom, Cell(a, id), Cell(b, id)) == a[id].n - b[id].n
  {
  }

  /** On number cells the subtraction comparator is consistent. */
  lemma NumberKeysConsistent(sortType: SortType, collate: (string, string) -> int,
                             custom: (Option<Value>, Option<Value>) -> int,
                             data: seq<Row>, id: string)
    requires sortType != StringSort && sortType != CustomSort
    requires NumberCells(data, id)
    ensures KeysConsistent(sortType, collate, custom, data, id)
  {
    forall a: Row, b: Row | a in data && b in data
      ensures KeyCompare(sortType, collate, custom, Cell(a, id), Cell(b, id)) == a[id].n - b[id].n
    {
      NumberCellCompare(sortType, collate, custom, a, b, id);
    }
  }

  /** On text cells the string comparator is the collation of the two texts. */
  lemma StringKeysConsistent(collate: (string, string) -> int,
                             custom: (Option<Value>, Option<Value>) -> int,
                             data: seq<Row>, id: string)
    requires TextCells(data, id)
    requires forall x: string, y: string :: collate(x, y) < 0 <==> collate(y, x) > 0
    requires forall x: string, y: string, z: string :: collate(x, y) <= 0 && collate(y, z) <= 0 ==> collate(x, z) <= 0
    ensures KeysConsistent(StringSort, collate, custom, data, id)
  {
    forall a: Row, b: Row | a in data && b in data
      ensures KeyCompare(StringSort, collate, custom, Cell(a, id), Cell(b, id)) == collate(a[id].s, b[id].s)
    {
    }
  }

  /** A string column sorted ascending is in collation order; descending, in reverse. */
  lemma StringSortFollowsCollation(headers: seq<Column>, data: seq<Row>, sorted: SortState,
                                   collate: (string, string) -> int,
                                   custom: (Option<Value>, Option<Value>) -> int)
    requires FindColumn(headers, sorted.id).Some?
    requires headers[FindColumn(headers, sorted.id).value].sortType == StringSort
    requires TextCells(data, sorted.id)
    requires forall x: string, y: string :: collate(x, y) < 0 <==> collate(y, x) > 0
    requires forall x: string, y: string, z: string :: collate(x, y) <= 0 && collate(y, z) <= 0 ==> collate(x, z) <= 0
    ensures var out := SortData(headers, data, sorted, collate, custom);
            forall i, j | 0 <= i < j < |out| ::
              && out[i] in data && out[j] in data
              && (sorted.order == Asc ==> collate(out[i][sorted.id].s, out[j][sorted.id].s) <= 0)
              && (sorted.order == Desc ==> collate(out[i][sorted.id].s, out[j][sorted.id].s) >= 0)
  {
    StringKeysConsistent(collate, custom, data, sorted.id);
    SortDataFollowsComparator(headers, data, sorted, collate, custom);
    var out: seq<Row> := SortData(headers, data, sorted, collate, custom);
    SortDataMembers(headers, data, sorted, collate, custom);
    forall i, j | 0 <= i < j < |out|
      ensures && (sorted.order == Asc ==> collate(out[i][sorted.id].s, out[j][sorted.id].s) <= 0)
              && (sorted.order == Desc ==> collate(out[i][sorted.id].s, out[j][sorted.id].s) >= 0)
    {
      TextCellCompare(collate, custom, out[i], out[j], sorted.id);
    }
  }

  /** Every sorted row is one of the input rows. */
  lemma SortDataMembers(headers: seq<Column>, data: seq<Row>, sorted: SortState,
                        collate: (string, string) -> int,
                        custom: (Option<Value>, Option<Value>) -> int)
    requires Sortable(headers, data, sorted.id)
    ensures var out := SortData(headers, data, sorted, collate, custom);
            forall i | 0 <= i < |out| :: out[i] in data
  {
    var out := SortData(headers, data, sorted, collate, custom);
    forall i | 0 <= i < |out|
      ensures out[i] in data
    {
      assert out[i] in multiset(out);
    }
  }

  lemma TextCellCompare(collate: (string, string) -> int,
                        custom: (Option<Value>, Option<Value>) -> int,
                        a: Row, b: Row, id: string)
    requires id in a && a[id].Text? && id in b && b[id].Text?
    ensures KeyCompare(StringSort, collate, custom, Cell(a, id), Cell(b, id)) == collate(a[id].s, b[id].s)
  {
  }

  /** A custom column is ordered by the caller's `customSorting`, reversed for `'desc'`. */
  lemma CustomSortFollowsComparator(headers: seq<Column>, data: seq<Row>, sorted: SortState,
                                    collate: (string, string) -> int,
                                    custom: (Option<Value>, Option<Value>) -> int)
    requires FindColumn(headers, sorted.id).Some?
    requires headers[FindColumn(headers, sorted.id).value].sortType == CustomSort
    requires forall x, y :: custom(x, y) < 0 <==> custom(y, x) > 0
    requires forall x, y, z :: custom(x, y) <= 0 && custom(y, z) <= 0 ==> custom(x, z) <= 0
    ensures var out := SortData(headers, data, sorted, collate, custom);
            forall i, j | 0 <= i < j < |out| ::
              && (sorted.order == Asc ==> custom(Cell(out[i], sorted.id), Cell(out[j], sorted.id)) <= 0)
              && (sorted.order == Desc ==> custom(Cell(out[i], sorted.id), Cell(out[j], sorted.id)) >= 0)
  {
    SortDataFollowsComparator(headers, data, sorted, collate, custom);
  }

  /** Sorting the rows again by the same column and direction changes nothing. */
  lemma SortDataIdempotent(headers: seq<Column>, data: seq<Row>, sorted: SortState,
                           collate: (string, string) -> int,
                           custom: (Option<Value>, Option<Value>) -> int)
    requires Sortable(headers, data, sorted.id)
    requires KeysConsistent(headers[FindColumn(headers, sorted.id).value].sortType, collate, custom, data, sorted.id)
    ensures Sortable(headers, SortData(headers, data, sorted, collate, custom), sorted.id)
    ensures var once := SortData(headers, data, sorted, collate, custom);
            SortData(headers, once, sorted, collate, custom) == once
  {
    var t := headers[FindColumn(headers, sorted.id).value].sortType;
    var cmp := RowComparator(t, sorted, collate, custom);
    var once := SortData(headers, data, sorted, collate, custom);
    forall r | r in once
      ensures r in data
    {
      assert r in multiset(once);
    }
    DirectedComparatorConsistent(t, sorted, collate, custom, data);
    Sorting.SortIsIdempotent(data, cmp);
  }

  // ---------------------------------------------------------------------------
  // Header labels

  /** The `data-order` label of every header cell: the active column shows the
      direction, every other cell the empty string. */
  function HeaderOrders(headers: seq<Column>, sorted: SortState): (r: seq<Option<Order>>)
    ensures |r| == |headers|
    ensures forall i | 0 <= i < |headers| :: r[i].Some? <==> headers[i].id == sorted.id
    ensures forall i | 0 <= i < |headers| && r[i].Some? :: r[i].value == sorted.order
  {
    seq(|headers|, i requires 0 <= i < |headers| => if headers[i].id == sorted.id then Some(sorted.order) else None)
  }

  /** The rendered header labels agree with the sort state. */
  ghost predicate HeaderInSync(t: Table)
  {
    t.headerOrders == HeaderOrders(t.headers, t.sorted)
  }

  ghost predicate UniqueIds(headers: seq<Column>)
  {
    forall i, j | 0 <= i < j < |headers| :: headers[i].id != headers[j].id
  }

  /** With distinct column ids and a known active column, exactly one header cell
      carries a direction: the active column's cell, showing the active direction. */
  lemma ExactlyOneHeaderLabelled(t: Table)
    requires HeaderInSync(t)
    requires UniqueIds(t.headers)
    requires FindColumn(t.headers, t.sorted.id).Some?
    ensures var k := FindColumn(t.headers, t.sorted.id).value;
            && t.headerOrders[k] == Some(t.sorted.order)
            && forall i | 0 <= i < |t.headerOrders| && t.headerOrders[i].Some? :: i == k
  {
    var k := FindColumn(t.headers, t.sorted.id).value;
    forall i | 0 <= i < |t.headerOrders| && t.headerOrders[i].Some?
      ensures i == k
    {
      assert t.headers[i].id == t.sorted.id;
    }
  }

  // ---------------------------------------------------------------------------
  // Loading and rendering rows

  /** `renderRows`: the rows replace `data` and the body; the empty flag tells whether
      there are none. */
  function RenderRows(t: Table, rows: seq<Row>): (r: Table)
    ensures r.data == rows && r.body == rows
    ensures r.empty <==> |rows| == 0
    ensures r == t.(data := rows, body := rows, empty := r.empty)
  {
    t.(data := rows, body := rows, empty := |rows| == 0)
  }

  /** `update`: a page loaded on scroll is appended to the body, in order; `data` is
      left alone, and further loading stays enabled only if the page was not empty. */
  function Update(t: Table, batch: seq<Row>): (r: Table)
    ensures |r.body| == |t.body| + |batch|
    ensures r.body[..|t.body|] == t.body && r.body[|t.body|..] == batch
    ensures r.needToRead <==> |batch| > 0
    ensures r == t.(body := r.body, needToRead := r.needToRead)
  {
    t.(needToRead := |batch| > 0, body := t.body + batch)
  }

  /** `sortOnServer`: the window is reset to the first page and the response replaces
      the rows. A rejected fetch leaves the rows as they were and the loading flag on. */
  function SortOnServer(t: Table, resp: Response<seq<Row>>): (r: Table)
    ensures r.start == StartPage * PageSize + 1 == 1
    ensures r.end == r.start + PageSize == 31
    ensures resp.Received? ==> r == RenderRows(t, resp.body).(start := 1, end := 31, loading := false)
    ensures resp.Rejected? ==> r == t.(start := 1, end := 31, loading := true)
  {
    var first := StartPage * PageSize + 1;
    var t1 := t.(start := first, end := first + PageSize, loading := true);
    match resp
    case Received(rows) => RenderRows(t1.(loading := false), rows)
    case Rejected => t1
  }

  /** `render`: the header is drawn from the sort state, the body starts empty, and the
      first page is requested from the server. */
  function Render(t: Table, resp: Response<seq<Row>>): (r: Table)
    ensures HeaderInSync(r)
    ensures r.start == 1 && r.end == 31
    ensures resp.Received? ==> r.data == resp.body && r.body == resp.body
    ensures resp.Rejected? ==> r.body == [] && r.data == t.data
  {
    SortOnServer(t.(headerOrders := HeaderOrders(t.headers, t.sorted), body := []), resp)
  }

  /** `sortLocally`: the rows are sorted in memory and rendered without a fetch. */
  function SortLocally(t: Table, collate: (string, string) -> int,
                       custom: (Option<Value>, Option<Value>) -> int): (r: Table)
    requires Sortable(t.headers, t.data, t.sorted.id)
    ensures multiset(r.data) == multiset(t.data) && r.body == r.data
    ensures r.empty <==> |t.data| == 0
    ensures r.start == t.start && r.end == t.end && r.sorted == t.sorted
  {
    RenderRows(t, SortData(t.headers, t.data, t.sorted, collate, custom))
  }

  // ---------------------------------------------------------------------------
  // Scroll-triggered pagination

  /** The document's bottom edge is within the threshold of the viewport. */
  predicate NearBottom(bottom: int, clientHeight: int): (r: bool)
    ensures r <==> bottom - clientHeight < ScrollThreshold
    ensures bottom <= clientHeight ==> r
  {
    bottom < clientHeight + ScrollThreshold
  }

  /** The synchronous part of `onScrollFunction`. While a load is in flight the call
      returns at once. Otherwise, when sorting remotely, near the bottom and with more
      rows to read, the window advances by one page and a load starts; in every other
      case the flag is raised and lowered again and nothing changes. */
  function ScrollStart(t: Table, bottom: int, clientHeight: int): (r: Table)
    ensures t.inProcess ==> r == t
    ensures !t.inProcess && !t.isSortLocally && bottom < clientHeight + ScrollThreshold && t.needToRead ==>
      r == t.(inProcess := true, start := t.end, end := t.end + PageSize, loading := true)
    ensures !t.inProcess && !(!t.isSortLocally && bottom < clientHeight + ScrollThreshold && t.needToRead) ==> r == t
  {
    if t.inProcess then t
    else if !t.isSortLocally && NearBottom(bottom, clientHeight) && t.needToRead then
      t.(inProcess := true, start := t.end, end := t.end + PageSize, loading := true)
    else t
  }

  /** The continuation of `onScrollFunction` once its fetch settles. On success the
      page is appended and the flag lowered; a rejected fetch aborts the handler, so the
      flag (and the loading class) stay set. */
  function ScrollFinish(t: Table, resp: Response<seq<Row>>): (r: Table)
    requires t.inProcess
    ensures resp.Received? ==> r == Update(t, resp.body).(inProcess := false, loading := false)
    ensures resp.Rejected? ==> r == t
  {
    match resp
    case Received(batch) => Update(t.(loading := false), batch).(inProcess := false)
    case Rejected => t
  }

  /** After a scroll load is rejected the table never loads on scroll again. */
  lemma RejectedScrollBlocksLoading(t: Table, bottom: int, clientHeight: int, laterBottom: int, laterHeight: int)
    requires !t.isSortLocally && NearBottom(bottom, clientHeight) && t.needToRead && !t.inProcess
    ensures var stuck := ScrollFinish(ScrollStart(t, bottom, clientHeight), Rejected);
            stuck.inProcess && ScrollStart(stuck, laterBottom, laterHeight) == stuck
  {
  }

  /** One scroll to the very end of the document (its bottom edge level with the
      bottom of a viewport of height `viewport`), followed by a successful fetch of
      `batch`. */
  function ScrollCycle(t: Table, viewport: int, batch: seq<Row>): Table
  {
    var s := ScrollStart(t, viewport, viewport);
    if s.inProcess then ScrollFinish(s, Received(batch)) else s
  }

  function ScrollCycles(t: Table, viewport: int, batches: seq<seq<Row>>): Table
    decreases |batches|
  {
    if |batches| == 0 then t
    else ScrollCycles(ScrollCycle(t, viewport, batches[0]), viewport, batches[1..])
  }

  function Flatten(batches: seq<seq<Row>>): seq<Row>
  {
    if |batches| == 0 then [] else batches[0] + Flatten(batches[1..])
  }

  /** Successive scroll loads request contiguous pages `[end, end + 30)`,
      `[end + 30, end + 60)`, …; every returned row is appended once, in order,
      and `data` is untouched. */
  lemma {:induction false} ScrollPagesAppend(t: Table, viewport: int, batches: seq<seq<Row>>)
    decreases |batches|
    requires !t.isSortLocally && !t.inProcess && t.needToRead
    requires forall i | 0 <= i < |batches| - 1 :: |batches[i]| > 0
    ensures var r := ScrollCycles(t, viewport, batches);
            && r.body == t.body + Flatten(batches)
            && |r.body| == |t.body| + |Flatten(batches)|
            && r.data == t.data
            && r.end == t.end + PageSize * |batches|
            && (|batches| > 0 ==> r.start == r.end - PageSize)
            && !r.inProcess
            && (|batches| > 0 ==> (r.needToRead <==> |batches[|batches| - 1]| > 0))
  {
    if |batches| > 0 {
      var s := ScrollCycle(t, viewport, batches[0]);
      ScrollCycleStep(t, viewport, batches[0]);
      assert Flatten(batches) == batches[0] + Flatten(batches[1..]);
      if |batches| > 1 {
        forall i | 0 <= i < |batches[1..]| - 1
          ensures |batches[1..][i]| > 0
        {
          assert batches[1..][i] == batches[i + 1];
        }
        ScrollPagesAppend(s, viewport, batches[1..]);
        assert batches[1..][|batches[1..]| - 1] == batches[|batches| - 1];
      } else {
        assert batches[1..] == [];
      }
      assert t.body + Flatten(batches) == s.body + Flatten(batches[1..]);
    }
  }

  /** One scroll cycle from a table ready to load. */
  lemma ScrollCycleStep(t: Table, viewport: int, batch: seq<Row>)
    requires !t.isSortLocally && !t.inProcess && t.needToRead
    ensures var s := ScrollCycle(t, viewport, batch);
            && s.body == t.body + batch && s.data == t.data
            && s.start == t.end && s.end == t.end + PageSize
            && !s.inProcess && !s.isSortLocally && (s.needToRead <==> |batch| > 0)
  {
    var s := ScrollCycle(t, viewport, batch);
    assert s.body == s.body[..|t.body|] + s.body[|t.body|..];
  }

  // ---------------------------------------------------------------------------
  // Header clicks

  /** The table clicked on header cell `cell` may be sorted: for a local sort on a
      string column, the rows hold text there. */
  ghost predicate ClickSortable(t: Table, cell: Option<nat>): (r: bool)
    ensures !t.isSortLocally ==> r
    ensures cell.None? ==> r
  {
    (cell.Some? && cell.value < |t.headers| && cell.value < |t.headerOrders|
       && t.headers[cell.value].sortable && t.isSortLocally)
    ==> Sortable(t.headers, t.data, t.headers[cell.value].id)
  }

  /** The sort state a click on header cell `i` selects: that column, descending if
      the cell showed ascending and ascending otherwise. */
  function ClickedSort(t: Table, i: nat): (r: SortState)
    requires i < |t.headers| && i < |t.headerOrders|
    ensures r.id == t.headers[i].id
    ensures r.order == Desc <==> t.headerOrders[i] == Some(Asc)
  {
    SortState(t.headers[i].id, if t.headerOrders[i] == Some(Asc) then Desc else Asc)
  }

  /** `onTableHeaderClick`. `cell` is the header cell the click landed in, if any. A
      click outside a sortable cell changes nothing; otherwise the sort state and all
      header labels are updated, then the rows are sorted in memory or reloaded. */
  function HeaderClick(t: Table, cell: Option<nat>, collate: (string, string) -> int,
                       custom: (Option<Value>, Option<Value>) -> int,
                       resp: Response<seq<Row>>): (r: Table)
    requires ClickSortable(t, cell)
    ensures !(cell.Some? && cell.value < |t.headers| && cell.value < |t.headerOrders| && t.headers[cell.value].sortable)
            ==> r == t
    ensures cell.Some? && cell.value < |t.headers| && cell.value < |t.headerOrders| && t.headers[cell.value].sortable
            ==> && r.sorted == ClickedSort(t, cell.value)
                && r.sorted.id == t.headers[cell.value].id
                && (r.sorted.order == Desc <==> t.headerOrders[cell.value] == Some(Asc))
                && HeaderInSync(r)
                && r.isSortLocally == t.isSortLocally && r.headers == t.headers
                && (t.isSortLocally ==> r.data == SortData(t.headers, t.data, r.sorted, collate, custom))
                && (t.isSortLocally ==> multiset(r.data) == multiset(t.data) && r.start == t.start && r.end == t.end)
                && (!t.isSortLocally ==> r.start == 1 && r.end == 31)
    ensures cell.Some? && cell.value < |t.headers| && cell.value < |t.headerOrders| && t.headers[cell.value].sortable
            ==> var s := ClickedSort(t, cell.value);
                var relabelled := t.(sorted := s, headerOrders := HeaderOrders(t.headers, s));
                && (t.isSortLocally ==> r == SortLocally(relabelled, collate, custom))
                && (!t.isSortLocally ==> r == SortOnServer(relabelled, resp))
  {
    if cell.Some? && cell.value < |t.headers| && cell.value < |t.headerOrders| && t.headers[cell.value].sortable then
      var s := ClickedSort(t, cell.value);
      var t1 := t.(sorted := s, headerOrders := HeaderOrders(t.headers, s));
      if t.isSortLocally then SortLocally(t1, collate, custom) else SortOnServer(t1, resp)
    else t
  }

  /** With the labels in sync, a click on the active column flips its direction and
      a click on another sortable column selects it ascending. */
  lemma HeaderClickToggles(t: Table, i: nat, collate: (string, string) -> int,
                           custom: (Option<Value>, Option<Value>) -> int,
                           resp: Response<seq<Row>>)
    requires HeaderInSync(t)
    requires i < |t.headers| && t.headers[i].sortable
    requires ClickSortable(t, Some(i))
    ensures var once := HeaderClick(t, Some(i), collate, custom, resp);
            && (t.headers[i].id == t.sorted.id ==> once.sorted == SortState(t.sorted.id, if t.sorted.order == Asc then Desc else Asc))
            && (t.headers[i].id != t.sorted.id ==> once.sorted == SortState(t.headers[i].id, Asc))
  {
    var once := HeaderClick(t, Some(i), collate, custom, resp);
    assert once.sorted == ClickedSort(t, i);
    assert t.headerOrders[i] == (if t.headers[i].id == t.sorted.id then Some(t.sorted.order) else None);
  }

  /** Two clicks on the same sortable header cell restore the sort state. */
  lemma HeaderClickTwiceRestores(t: Table, i: nat, collate: (string, string) -> int,
                                 custom: (Option<Value>, Option<Value>) -> int,
                                 resp1: Response<seq<Row>>, resp2: Response<seq<Row>>)
    requires HeaderInSync(t)
    requires i < |t.headers| && t.headers[i].sortable && t.headers[i].id == t.sorted.id
    requires ClickSortable(t, Some(i))
    requires ClickSortable(HeaderClick(t, Some(i), collate, custom, resp1), Some(i))
    ensures HeaderClick(HeaderClick(t, Some(i), collate, custom, resp1), Some(i), collate, custom, resp2).sorted == t.sorted
  {
    var once := HeaderClick(t, Some(i), collate, custom, resp1);
    HeaderClickToggles(t, i, collate, custom, resp1);
    assert once.headers == t.headers;
    HeaderClickToggles(once, i, collate, custom, resp2);
  }

  /** A click on a sortable numeric column of a locally sorted table orders the rows
      by that column in the direction the click selects. */
  lemma LocalNumericClick(t: Table, i: nat, collate: (string, string) -> int,
                          custom: (Option<Value>, Option<Value>) -> int, resp: Response<seq<Row>>)
    requires t.isSortLocally
    requires i < |t.headers| && i < |t.headerOrders| && t.headers[i].sortable
    requires FindColumn(t.headers, t.headers[i].id) == Some(i)
    requires t.headers[i].sortType == NumberSort
    requires NumberCells(t.data, t.headers[i].id)
    ensures ClickSortable(t, Some(i))
    ensures var id := t.headers[i].id;
            var once := HeaderClick(t, Some(i), collate, custom, resp);
            && once.isSortLocally && once.headers == t.headers && |once.headerOrders| == |t.headers|
            && NumberCells(once.data, id)
            && (once.sorted.order == Asc ==> forall a, b | 0 <= a < b < |once.data| :: NumberAt(once.data[a], id) <= NumberAt(once.data[b], id))
            && (once.sorted.order == Desc ==> forall a, b | 0 <= a < b < |once.data| :: NumberAt(once.data[a], id) >= NumberAt(once.data[b], id))
  {
    var id := t.headers[i].id;
    var once := HeaderClick(t, Some(i), collate, custom, resp);
    var s := ClickedSort(t, i);
    assert once.sorted == s;
    assert once.data == SortData(t.headers, t.data, s, collate, custom);
    NumberSortOrdersValues(t.headers, t.data, s, collate, custom);
    forall r: Row | r in once.data
      ensures id in r && r[id].Num?
    {
      assert r in multiset(once.data);
    }
  }

  /** On a locally sorted numeric table, a click on a sortable column that is not the
      active one orders the rows ascending; a second click orders them descending. */
  lemma LocalNumericClicks(t: Table, i: nat, collate: (string, string) -> int,
                           custom: (Option<Value>, Option<Value>) -> int, resp: Response<seq<Row>>)
    requires HeaderInSync(t) && t.isSortLocally
    requires i < |t.headers| && t.headers[i].sortable && t.headers[i].id != t.sorted.id
    requires FindColumn(t.headers, t.headers[i].id) == Some(i)
    requires t.headers[i].sortType == NumberSort
    requires NumberCells(t.data, t.headers[i].id)
    ensures ClickSortable(t, Some(i))
    ensures var id := t.headers[i].id;
            var once := HeaderClick(t, Some(i), collate, custom, resp);
            && ClickSortable(once, Some(i))
            && NumberCells(once.data, id)
            && (forall a, b | 0 <= a < b < |once.data| :: NumberAt(once.data[a], id) <= NumberAt(once.data[b], id))
            && var twice := HeaderClick(once, Some(i), collate, custom, resp);
               NumberCells(twice.data, id) &&
               forall a, b | 0 <= a < b < |twice.data| :: NumberAt(twice.data[a], id) >= NumberAt(twice.data[b], id)
  {
    LocalNumericClick(t, i, collate, custom, resp);
    HeaderClickToggles(t, i, collate, custom, resp);
    var once := HeaderClick(t, Some(i), collate, custom, resp);
    LocalNumericClick(once, i, collate, custom, resp);
    HeaderClickToggles(once, i, collate, custom, resp);
  }

  // ---------------------------------------------------------------------------
  // What every transition keeps

  /** The body shows the rows of the last full render first, followed by the pages
      appended on scroll since. */
  ghost predicate BodyExtendsData(t: Table)
  {
    |t.data| <= |t.body| && t.body[..|t.data|] == t.data
  }

  /** The requested window is one page long, as every load after the first sets it. */
  ghost predicate OnePageWindow(t: Table)
  {
    t.end == t.start + PageSize
  }

  /** Rendering rows establishes the body invariant; appending a page, a server
      reload, either half of a scroll and a local sort keep it. */
  lemma BodyExtendsDataKept(t: Table, rows: seq<Row>, batch: seq<Row>, resp: Response<seq<Row>>,
                            bottom: int, clientHeight: int,
                            collate: (string, string) -> int,
                            custom: (Option<Value>, Option<Value>) -> int)
    ensures BodyExtendsData(RenderRows(t, rows))
    ensures BodyExtendsData(t) ==> BodyExtendsData(Update(t, batch))
    ensures BodyExtendsData(t) ==> BodyExtendsData(SortOnServer(t, resp))
    ensures BodyExtendsData(t) ==> BodyExtendsData(ScrollStart(t, bottom, clientHeight))
    ensures BodyExtendsData(t) && t.inProcess ==> BodyExtendsData(ScrollFinish(t, resp))
    ensures Sortable(t.headers, t.data, t.sorted.id) ==> BodyExtendsData(SortLocally(t, collate, custom))
  {
    if BodyExtendsData(t) {
      var u := Update(t, batch);
      assert u.body[..|t.data|] == u.body[..|t.body|][..|t.data|];
      if t.inProcess && resp.Received? {
        var f := ScrollFinish(t, resp);
        assert f.body[..|t.data|] == f.body[..|t.body|][..|t.data|];
      }
    }
  }

  /** Every load after the constructor's requests exactly one page, and the scroll
      steps keep it that way. */
  lemma OnePageWindowKept(t: Table, resp: Response<seq<Row>>, bottom: int, clientHeight: int)
    ensures OnePageWindow(SortOnServer(t, resp))
    ensures OnePageWindow(t) ==> OnePageWindow(ScrollStart(t, bottom, clientHeight))
    ensures OnePageWindow(t) && t.inProcess ==> OnePageWindow(ScrollFinish(t, resp))
  {
  }

  /** A header click keeps both invariants. */
  lemma HeaderClickKeepsInvariants(t: Table, cell: Option<nat>, collate: (string, string) -> int,
                                   custom: (Option<Value>, Option<Value>) -> int,
                                   resp: Response<seq<Row>>)
    requires ClickSortable(t, cell)
    ensures BodyExtendsData(t) ==> BodyExtendsData(HeaderClick(t, cell, collate, custom, resp))
    ensures OnePageWindow(t) ==> OnePageWindow(HeaderClick(t, cell, collate, custom, resp))
  {
    if cell.Some? && cell.value < |t.headers| && cell.value < |t.headerOrders| && t.headers[cell.value].sortable {
      var c := ClickedSort(t, cell.value);
      var relabelled := t.(sorted := c, headerOrders := HeaderOrders(t.headers, c));
      BodyExtendsDataKept(relabelled, [], [], resp, 0, 0, collate, custom);
    }
  }

  /** The first render of a constructed table satisfies the body invariant and
      requests one page. */
  lemma RenderEstablishesInvariants(headers: seq<Column>, opts: Options, resp: Response<seq<Row>>)
    requires Create(headers, opts).Constructed?
    ensures BodyExtendsData(Render(Create(headers, opts).table, resp))
    ensures OnePageWindow(Render(Create(headers, opts).table, resp))
  {
  }

  /** After the first page of rows the next scroll to the bottom requests rows
      `[31, 61)`, and its page lands behind the first one while `data` keeps the
      first page only. */
  lemma FirstPageThenScroll(t: Table, rows: seq<Row>, batch: seq<Row>, bottom: int, clientHeight: int)
    requires !t.isSortLocally && !t.inProcess && t.needToRead && NearBottom(bottom, clientHeight)
    ensures var first := SortOnServer(t, Received(rows));
            var started := ScrollStart(first, bottom, clientHeight);
            && started.inProcess && started.start == 31 && started.end == 61
            && var next := ScrollFinish(started, Received(batch));
               && next.data == rows && next.body == rows + batch
               && (next.needToRead <==> |batch| > 0) && !next.inProcess
  {
    var first := SortOnServer(t, Received(rows));
    var started := ScrollStart(first, bottom, clientHeight);
    var next := ScrollFinish(started, Received(batch));
    assert next.body == next.body[..|rows|] + next.body[|rows|..];
  }

  // ---------------------------------------------------------------------------
  // Toggling back

  /** No two distinct rows hold equal keys in column `id`. */
  ghost predicate NoTies(sortType: SortType, collate: (string, string) -> int,
                         custom: (Option<Value>, Option<Value>) -> int,
                         data: seq<Row>, id: string)
  {
    forall a, b | a in data && b in data && KeyCompare(sortType, collate, custom, Cell(a, id), Cell(b, id)) == 0 :: a == b
  }

  /** Rows in the order of a column, without ties on it, come back to that order when
      they are re-sorted by the column, whatever order they were sorted into meanwhile. */
  lemma ResortRestores(headers: seq<Column>, data: seq<Row>, sorted: SortState, other: SortState,
                       collate: (string, string) -> int,
                       custom: (Option<Value>, Option<Value>) -> int)
    requires Sortable(headers, data, sorted.id) && other.id == sorted.id
    requires KeysConsistent(headers[FindColumn(headers, sorted.id).value].sortType, collate, custom, data, sorted.id)
    requires NoTies(headers[FindColumn(headers, sorted.id).value].sortType, collate, custom, data, sorted.id)
    requires Sorting.Sorted(RowComparator(headers[FindColumn(headers, sorted.id).value].sortType, sorted, collate, custom), data)
    ensures Sortable(headers, SortData(headers, data, other, collate, custom), sorted.id)
    ensures SortData(headers, SortData(headers, data, other, collate, custom), sorted, collate, custom) == data
  {
    var id := sorted.id;
    var ty := headers[FindColumn(headers, id).value].sortType;
    var once := SortData(headers, data, other, collate, custom);
    SortDataMembers(headers, data, other, collate, custom);
    forall r: Row | r in once
      ensures r in data
    {
      var k :| 0 <= k < |once| && once[k] == r;
    }
    var cmp := RowComparator(ty, sorted, collate, custom);
    DirectedComparatorConsistent(ty, sorted, collate, custom, data);
    Sorting.ConsistentOnSubset(cmp, data, once);
    Sorting.SortByIsSorted(once, cmp);
    assert Sorting.NoTies(cmp, data) by {
      forall a: Row, b: Row | a in data && b in data && cmp(a, b) == 0
        ensures a == b
      {
        assert KeyCompare(ty, collate, custom, Cell(a, id), Cell(b, id)) == 0;
      }
    }
    Sorting.SortedUnique(cmp, data, Sorting.SortBy(once, cmp));
  }

  /** On a locally sorted table whose rows are in the order of the active column (as
      any click on it leaves them), two more clicks on that column bring the rows back
      to that same order, provided no two rows tie on it. */
  lemma HeaderClickTwiceRestoresRows(t: Table, i: nat, collate: (string, string) -> int,
                                     custom: (Option<Value>, Option<Value>) -> int,
                                     resp1: Response<seq<Row>>, resp2: Response<seq<Row>>)
    requires HeaderInSync(t) && t.isSortLocally
    requires i < |t.headers| && t.headers[i].sortable && t.headers[i].id == t.sorted.id
    requires Sortable(t.headers, t.data, t.sorted.id)
    requires KeysConsistent(ActiveSortType(t), collate, custom, t.data, t.sorted.id)
    requires NoTies(ActiveSortType(t), collate, custom, t.data, t.sorted.id)
    requires Sorting.Sorted(RowComparator(ActiveSortType(t), t.sorted, collate, custom), t.data)
    ensures ClickSortable(t, Some(i))
    ensures ClickSortable(HeaderClick(t, Some(i), collate, custom, resp1), Some(i))
    ensures var twice := HeaderClick(HeaderClick(t, Some(i), collate, custom, resp1), Some(i), collate, custom, resp2);
            twice.data == t.data && twice.sorted == t.sorted
  {
    var once := HeaderClick(t, Some(i), collate, custom, resp1);
    HeaderClickToggles(t, i, collate, custom, resp1);
    ResortRestores(t.headers, t.data, t.sorted, once.sorted, collate, custom);
    assert once.data == SortData(t.headers, t.data, once.sorted, collate, custom);
    HeaderClickTwiceRestores(t, i, collate, custom, resp1, resp2);
  }

  /** The sort type of the active column. */
  function ActiveSortType(t: Table): SortType
    requires FindColumn(t.headers, t.sorted.id).Some?
  {
    t.headers[FindColumn(t.headers, t.sorted.id).value].sortType
  }
}
