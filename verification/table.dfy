/** The rows every command produces and the steps they share on the way to
    CSV: a row is a dict from column id to a text or integer value; the
    `--county` filter keeps rows whose county contains the filter text,
    ignoring case; `--sort` picks a column by its label (or takes the text
    as a column id) and sorts descending by the column's number, stably;
    the writer emits a header line and one line per row, or nothing at all
    when no row is left. Merging rows by county (`setdefault(...).update`)
    is here too. */
module Table {
  import opened Results
  import opened Seqs
  import opened Text
  import opened Numbers
  import opened Sorting
  import opened Dicts

  /** A cell as the program stores it: text, or a Python `int` (the
      counts of the hospital and shortage tables). */
  datatype Value = Str(s: string) | Int(i: int)

  type Row = map<string, Value>

  /** A source record as decoded from JSON: field name to text. */
  type Record = map<string, string>

  /** `rec.get(f, "")` */
  function Field(rec: Record, f: string): (r: string)
    ensures f !in rec ==> r == ""
  {
    if f in rec then rec[f] else ""
  }

  /** The text `csv.writer` writes for a cell. */
  function Show(v: Value): string {
    match v
    case Str(s) => s
    case Int(i) => IntToString(i)
  }

  /** `row.get(f, "")`, as written to the CSV. */
  function Get(row: Row, f: string): (r: string)
    ensures f !in row ==> r == ""
    ensures f in row && row[f].Str? ==> r == row[f].s
  {
    if f in row then Show(row[f]) else ""
  }

  // ---------------------------------------------------------------------
  // The `--county` filter

  /** `filt.lower() in row.get(field, "").lower()` */
  predicate Matches(row: Row, field: string, filt: string) {
    Contains(Lower(Get(row, field)), Lower(filt))
  }

  /** Whether the filter keeps `row`: a missing or empty filter keeps every
      row. */
  predicate Keeps(filter: Option<string>, field: string, row: Row) {
    match filter
    case None => true
    case Some(f) => f == "" || Matches(row, field, f)
  }

  function FilterRows(rows: seq<Row>, field: string, filter: Option<string>): (r: seq<Row>)
    ensures |r| <= |rows|
    ensures forall i :: 0 <= i < |r| ==> Keeps(filter, field, r[i])
  {
    match filter
    case None => rows
    case Some(f) => if f == "" then rows else Filter(rows, (row: Row) => Matches(row, field, f))
  }

  /** The filter keeps exactly the rows it matches, each as often as it
      occurs, in input order. */
  lemma FilterRowsSpec(rows: seq<Row>, field: string, filter: Option<string>)
    ensures forall x ::
      multiset(FilterRows(rows, field, filter))[x] == (if Keeps(filter, field, x) then multiset(rows)[x] else 0)
    ensures forall x :: x in FilterRows(rows, field, filter) <==> x in rows && Keeps(filter, field, x)
  {
    if filter.Some? && filter.value != "" {
      var f := filter.value;
      var p := (row: Row) => Matches(row, field, f);
      FilterMultiset(rows, p);
      forall x ensures x in FilterRows(rows, field, filter) <==> x in rows && Keeps(filter, field, x) {
        FilterMember(rows, p, x);
      }
    }
  }

  lemma LowerUpper(s: string)
    ensures Lower(Upper(s)) == Lower(s)
  {
    assert forall i :: 0 <= i < |s| ==> LowerChar(UpperChar(s[i])) == LowerChar(s[i]);
  }

  /** The filter ignores the case of the filter text. */
  lemma FilterIgnoresCase(rows: seq<Row>, field: string, f: string)
    ensures FilterRows(rows, field, Some(Upper(f))) == FilterRows(rows, field, Some(f))
  {
    LowerUpper(f);
    if f != "" {
      FilterExt(rows, (row: Row) => Matches(row, field, Upper(f)), (row: Row) => Matches(row, field, f));
    }
  }

  // ---------------------------------------------------------------------
  // The `--sort` column

  /** A measure column: the row key it reads and the label it shows. */
  datatype Column = Column(id: string, heading: string)

  /** The position of the first column whose label equals `s` ignoring
      case, or -1. */
  function FirstHeading(cols: seq<Column>, s: string): (k: int)
    ensures -1 <= k < |cols|
    ensures k >= 0 ==> Lower(cols[k].heading) == Lower(s)
    ensures forall j :: 0 <= j < |cols| && (k < 0 || j < k) ==> Lower(cols[j].heading) != Lower(s)
  {
    if |cols| == 0 then -1
    else if Lower(cols[0].heading) == Lower(s) then 0
    else
      var k := FirstHeading(cols[1..], s);
      assert forall j :: 1 <= j < |cols| ==> cols[1..][j - 1] == cols[j];
      if k < 0 then -1 else k + 1
  }

  predicate FirstMatch(cols: seq<Column>, s: string, k: int) {
    && 0 <= k < |cols|
    && Lower(cols[k].heading) == Lower(s)
    && (forall j :: 0 <= j < k ==> Lower(cols[j].heading) != Lower(s))
  }

  /** The loop `for m in measures: if m.label.lower() == sort.lower():
      target = m.id; break`, falling back to the sort text itself. */
  function SortColumn(cols: seq<Column>, s: string): (id: string)
    ensures (forall j :: 0 <= j < |cols| ==> Lower(cols[j].heading) != Lower(s)) ==> id == s
    ensures forall k :: FirstMatch(cols, s, k) ==> id == cols[k].id
  {
    var k := FirstHeading(cols, s);
    if k < 0 then s else cols[k].id
  }

  // ---------------------------------------------------------------------
  // The descending numeric sort

  /** `float(row.get(id, 0) or 0)`: a missing cell, an empty text and the
      integer 0 count as 0; other text must read as a number, or Python
      raises `ValueError`. */
  function SortKey(row: Row, id: string): (r: Result<real>)
    ensures r.Err? ==>
      id in row && row[id].Str? && r.error == NotNumeric(row[id].s) && ParseNumber(row[id].s).None?
  {
    if id !in row then Ok(0.0)
    else
      match row[id]
      case Int(i) => Ok(i as real)
      case Str(t) =>
        if t == "" then Ok(0.0)
        else
          match ParseNumber(t)
          case None => Err(NotNumeric(t))
          case Some(x) => Ok(x)
  }

  /** A number stored as an integer sorts where its decimal text does. */
  lemma SortKeyIntText(row: Row, id: string, i: int)
    ensures SortKey(row[id := Int(i)], id) == SortKey(row[id := Str(IntToString(i))], id)
  {
    IntToStringIsNumber(i);
  }

  function KeyOf(row: Row, id: string): real {
    match SortKey(row, id)
    case Ok(x) => x
    case Err(_) => 0.0
  }

  /** "Comes no later than" for `reverse=True`: a larger key first. */
  function Desc(id: string): (Row, Row) -> bool {
    (a: Row, b: Row) => KeyOf(a, id) >= KeyOf(b, id)
  }

  lemma DescTotal(id: string)
    ensures TotalPreorder(Desc(id))
  {
  }

  /** The position of the first row whose key does not read, or -1. */
  function FirstBadKey(rows: seq<Row>, id: string): (k: int)
    ensures -1 <= k < |rows|
    ensures k >= 0 ==> SortKey(rows[k], id).Err?
    ensures forall j :: 0 <= j < |rows| && (k < 0 || j < k) ==> SortKey(rows[j], id).Ok?
  {
    if |rows| == 0 then -1
    else if SortKey(rows[0], id).Err? then 0
    else
      var k := FirstBadKey(rows[1..], id);
      assert forall j :: 1 <= j < |rows| ==> rows[1..][j - 1] == rows[j];
      if k < 0 then -1 else k + 1
  }

  predicate FirstBad(rows: seq<Row>, id: string, i: int) {
    && 0 <= i < |rows|
    && SortKey(rows[i], id).Err?
    && (forall j :: 0 <= j < i ==> SortKey(rows[j], id).Ok?)
  }

  /** Every key reads, and no key is larger than one before it. */
  predicate KeysDescending(s: seq<Row>, id: string) {
    && (forall i :: 0 <= i < |s| ==> SortKey(s[i], id).Ok?)
    && (forall i, j :: 0 <= i < j < |s| ==> SortKey(s[i], id).value >= SortKey(s[j], id).value)
  }

  lemma SortedKeys(rows: seq<Row>, id: string)
    requires forall i :: 0 <= i < |rows| ==> SortKey(rows[i], id).Ok?
    ensures KeysDescending(SortBy(rows, Desc(id)), id)
  {
    var s := SortBy(rows, Desc(id));
    DescTotal(id);
    SortBySorted(rows, Desc(id));
    KeysReadAfterSort(rows, s, id);
    DescValues(s, id);
  }

  /** Sorting keeps the rows, so every key still reads. */
  lemma KeysReadAfterSort(rows: seq<Row>, s: seq<Row>, id: string)
    requires multiset(s) == multiset(rows)
    requires forall i :: 0 <= i < |rows| ==> SortKey(rows[i], id).Ok?
    ensures forall i :: 0 <= i < |s| ==> SortKey(s[i], id).Ok?
  {
    forall i | 0 <= i < |s| ensures SortKey(s[i], id).Ok? {
      assert s[i] in multiset(rows);
    }
  }

  /** Sorted by `Desc` with every key read: the keys descend. */
  lemma DescValues(s: seq<Row>, id: string)
    requires SortedBy(s, Desc(id))
    requires forall i :: 0 <= i < |s| ==> SortKey(s[i], id).Ok?
    ensures KeysDescending(s, id)
  {
    forall i, j | 0 <= i < j < |s| ensures SortKey(s[i], id).value >= SortKey(s[j], id).value {
      assert Desc(id)(s[i], s[j]);
    }
  }

  /** `rows.sort(key=lambda r: float(r.get(id, 0) or 0), reverse=True)`.
      Python computes every key first, so the first row whose key does not
      read decides the error; otherwise the result holds the same rows with
      their keys in descending order. */
  function SortDesc(rows: seq<Row>, id: string): (r: Result<seq<Row>>)
    ensures r.Err? <==> exists i :: 0 <= i < |rows| && SortKey(rows[i], id).Err?
    ensures r.Err? ==> exists i :: FirstBad(rows, id, i) && r.error == SortKey(rows[i], id).error
    ensures r.Ok? ==> |r.value| == |rows| && multiset(r.value) == multiset(rows)
    ensures r.Ok? ==> KeysDescending(r.value, id)
  {
    var k := FirstBadKey(rows, id);
    if k >= 0 then Err(SortKey(rows[k], id).error)
    else
      SortedKeys(rows, id);
      Ok(SortBy(rows, Desc(id)))
  }

  /** The sort is stable: rows with equal keys keep their input order. */
  lemma SortDescStable(rows: seq<Row>, id: string, z: Row)
    requires SortDesc(rows, id).Ok?
    ensures Filter(SortDesc(rows, id).value, EquivTo(Desc(id), z)) == Filter(rows, EquivTo(Desc(id), z))
  {
    DescTotal(id);
    SortByStable(rows, Desc(id), z);
  }

  // ---------------------------------------------------------------------
  // The writer

  /** The lines written and the row count returned. */
  datatype Output = Output(lines: seq<seq<string>>, count: nat)

  function Headings(cols: seq<Column>): (r: seq<string>)
    ensures |r| == |cols|
    ensures forall j :: 0 <= j < |cols| ==> r[j] == cols[j].heading
  {
    Map(cols, (c: Column) => c.heading)
  }

  /** `["County"] + [m.label for m in measures]` */
  function Header(cols: seq<Column>): (r: seq<string>)
    ensures |r| == |cols| + 1
    ensures r[0] == "County"
    ensures forall j :: 0 <= j < |cols| ==> r[j + 1] == cols[j].heading
  {
    ["County"] + Headings(cols)
  }

  /** One CSV line: the row's county, then each column's cell, `""` where
      the row lacks it. */
  function Line(row: Row, keyField: string, cols: seq<Column>): (r: seq<string>)
    ensures |r| == |cols| + 1
    ensures r[0] == Get(row, keyField)
    ensures forall j :: 0 <= j < |cols| ==> r[j + 1] == Get(row, cols[j].id)
  {
    [Get(row, keyField)] + Map(cols, (c: Column) => Get(row, c.id))
  }

  function Lines(rows: seq<Row>, keyField: string, cols: seq<Column>): (r: seq<seq<string>>)
    ensures |r| == |rows|
    ensures forall i :: 0 <= i < |rows| ==> r[i] == Line(rows[i], keyField, cols)
  {
    seq(|rows|, i requires 0 <= i < |rows| => Line(rows[i], keyField, cols))
  }

  /** The lines of a table: the header line when asked, then the body. */
  function Emit(head: seq<string>, body: seq<seq<string>>, header: bool): (o: Output)
    ensures o.count == |body|
    ensures |o.lines| == |body| + (if header then 1 else 0)
    ensures header ==> o.lines[0] == head
    ensures DataLines(o, header) == body
    ensures forall i :: 0 <= i < |o.lines| ==> o.lines[i] == head || o.lines[i] in body
  {
    var o := Output((if header then [head] else []) + body, |body|);
    assert header ==> o.lines[1..] == body;
    o
  }

  /** Whether `--sort` was given (an empty text counts as not given). */
  predicate SortRequested(sort: Option<string>) {
    sort.Some? && sort.value != ""
  }

  /** Filter, sort when asked, then write: the shape of
      `write_access_csv`, `write_shortage_csv` and `write_places_csv`, and
      of `_write_rows` in the access command (which always writes its
      header). */
  function WriteTable(rows: seq<Row>, keyField: string, cols: seq<Column>, filter: Option<string>,
                      sort: Option<string>, header: bool): (r: Result<Output>)
    ensures r.Err? ==> SortRequested(sort) && |FilterRows(rows, keyField, filter)| > 0
    ensures r.Ok? ==> r.value.count == |FilterRows(rows, keyField, filter)|
    ensures r.Ok? && r.value.count == 0 ==> r.value.lines == []
    ensures r.Ok? && r.value.count > 0 ==>
      |r.value.lines| == r.value.count + (if header then 1 else 0) &&
      (header ==> r.value.lines[0] == Header(cols))
    ensures r.Ok? ==> forall i :: 0 <= i < |r.value.lines| ==> |r.value.lines[i]| == |cols| + 1
  {
    var kept := FilterRows(rows, keyField, filter);
    if |kept| == 0 then Ok(Output([], 0))
    else
      var sorted := if SortRequested(sort) then SortDesc(kept, SortColumn(cols, sort.value)) else Ok(kept);
      match sorted
      case Err(e) => Err(e)
      case Ok(s) => Ok(Emit(Header(cols), Lines(s, keyField, cols), header))
  }

  /** The data lines of a written table (after the header, if any). */
  function DataLines(out: Output, header: bool): seq<seq<string>> {
    if header && |out.lines| > 0 then out.lines[1..] else out.lines
  }

  /** The data lines are the kept rows, each written once: in input order
      without `--sort`, and as a reordering of them with it. */
  lemma WriteTableRows(rows: seq<Row>, keyField: string, cols: seq<Column>, filter: Option<string>,
                       sort: Option<string>, header: bool)
    requires WriteTable(rows, keyField, cols, filter, sort, header).Ok?
    ensures var out := WriteTable(rows, keyField, cols, filter, sort, header).value;
      var kept := FilterRows(rows, keyField, filter);
      && multiset(DataLines(out, header)) == multiset(Lines(kept, keyField, cols))
      && (!SortRequested(sort) ==> DataLines(out, header) == Lines(kept, keyField, cols))
  {
    var kept := FilterRows(rows, keyField, filter);
    var out := WriteTable(rows, keyField, cols, filter, sort, header).value;
    if |kept| > 0 {
      var s := if SortRequested(sort) then SortDesc(kept, SortColumn(cols, sort.value)).value else kept;
      LinesPerm(kept, s, keyField, cols);
    }
  }

  lemma LinesPerm(a: seq<Row>, b: seq<Row>, keyField: string, cols: seq<Column>)
    requires multiset(a) == multiset(b)
    ensures multiset(Lines(a, keyField, cols)) == multiset(Lines(b, keyField, cols))
  {
    var f := (row: Row) => Line(row, keyField, cols);
    MapPerm(a, b, f);
    assert Lines(a, keyField, cols) == Map(a, f);
    assert Lines(b, keyField, cols) == Map(b, f);
  }

  // ---------------------------------------------------------------------
  // Merging rows by a key column

  function FieldKey(field: string): Row -> Option<string> {
    (row: Row) => Some(Get(row, field))
  }

  /** The row a new key starts from: `{field: key}`. */
  function Base(field: string): string -> Row {
    (k: string) => map[field := Str(k)]
  }

  function Second<V>(k: string, v: V): V {
    v
  }

  function RowKey(field: string): Row -> string {
    (row: Row) => Get(row, field)
  }

  /** The dict the merge loop builds, keys in first-seen order. */
  function Merged(rows: seq<Row>, field: string): (d: Dict<Row>)
    ensures Valid(d)
  {
    GroupFold(rows, FieldKey(field), Base(field), Join)
  }

  /** `for row in rows: by_key.setdefault(row[field], {field: row[field]}).update(row)`
      followed by `sorted(by_key.values(), key=lambda r: r[field])`. */
  function MergeBy(rows: seq<Row>, field: string): (r: seq<Row>)
    ensures StrictlyAscending(r, RowKey(field))
    ensures forall k :: k in Map(r, RowKey(field)) <==> k in Map(rows, RowKey(field))
  {
    MergedEntries(rows, field);
    SortedItemsKeys(Merged(rows, field), Second, field);
    KeysOfRows(rows, field);
    SortedItems(Merged(rows, field), Second, field)
  }

  /** When `p` says which rows there are, a key is among the rows' keys
      exactly when some row `p` admits has it. */
  lemma KeysOfMembers(rows: seq<Row>, field: string, p: Row -> bool)
    requires forall x :: x in rows <==> p(x)
    ensures forall k :: k in Map(rows, RowKey(field)) <==> exists x :: p(x) && Get(x, field) == k
  {
    KeysOfRows(rows, field);
    forall k ensures k in Map(rows, RowKey(field)) <==> exists x :: p(x) && Get(x, field) == k {
      if exists i :: 0 <= i < |rows| && Get(rows[i], field) == k {
        var i :| 0 <= i < |rows| && Get(rows[i], field) == k;
        assert rows[i] in rows;
      }
      if exists x :: p(x) && Get(x, field) == k {
        var x :| p(x) && Get(x, field) == k;
        var j :| 0 <= j < |rows| && rows[j] == x;
      }
    }
  }

  /** A key is among the rows' keys exactly when some row has it. */
  lemma KeysOfRows(rows: seq<Row>, field: string)
    ensures forall k :: k in Map(rows, RowKey(field)) <==> exists i :: 0 <= i < |rows| && Get(rows[i], field) == k
  {
    forall k ensures k in Map(rows, RowKey(field)) <==> exists i :: 0 <= i < |rows| && Get(rows[i], field) == k {
      if k in Map(rows, RowKey(field)) {
        var i :| 0 <= i < |rows| && Map(rows, RowKey(field))[i] == k;
      }
      if exists i :: 0 <= i < |rows| && Get(rows[i], field) == k {
        var i :| 0 <= i < |rows| && Get(rows[i], field) == k;
        assert Map(rows, RowKey(field))[i] == k;
      }
    }
  }

  /** The merged row for `k`: the union of `{field: k}` and every row with
      key `k`, a later row's value winning. */
  function MergedRow(rows: seq<Row>, field: string, k: string): Row {
    Overlay([Base(field)(k)] + Group(rows, FieldKey(field), k))
  }

  /** A merged row still carries its key. */
  lemma MergedRowKey(rows: seq<Row>, field: string, k: string)
    ensures Get(MergedRow(rows, field, k), field) == k
  {
    var g := Group(rows, FieldKey(field), k);
    var ms := [Base(field)(k)] + g;
    var j := LastWith(ms, field);
    if j > 0 {
      assert ms[j] == g[j - 1];
      assert FieldKey(field)(g[j - 1]) == Some(k);
    }
  }

  /** Merging two runs of rows: the second run's fields win over the
      first's for the same key. */
  lemma MergedRowConcat(a: seq<Row>, b: seq<Row>, field: string, k: string)
    ensures MergedRow(a + b, field, k) ==
      MergedRow(a, field, k) + Overlay(Group(b, FieldKey(field), k))
  {
    var ga, gb := Group(a, FieldKey(field), k), Group(b, FieldKey(field), k);
    FilterConcat(a, b, InGroup(FieldKey(field), k));
    OverlayAfterFirst(Base(field)(k), ga, gb);
  }

  /** Before sorting: the dict holds one entry per key seen, the entry of
      `k` is `MergedRow(rows, field, k)`, and it carries `k`. */
  lemma MergedEntries(rows: seq<Row>, field: string)
    ensures forall k :: k in Merged(rows, field).entries <==> exists i :: 0 <= i < |rows| && Get(rows[i], field) == k
    ensures forall k :: k in Merged(rows, field).entries ==> Merged(rows, field).entries[k] == MergedRow(rows, field, k)
    ensures KeyedBy(Merged(rows, field), Second, field)
  {
    var d := Merged(rows, field);
    forall k
      ensures k in d.entries <==> exists i :: 0 <= i < |rows| && Get(rows[i], field) == k
      ensures k in d.entries ==> d.entries[k] == MergedRow(rows, field, k)
    {
      GroupFoldAt(rows, FieldKey(field), Base(field), Join, k);
      KeyPresent(rows, field, k);
      if k in d.entries {
        UnionEntry(rows, FieldKey(field), Base(field), k);
      }
    }
    var items := Items(d, Second);
    forall j | 0 <= j < |items|
      ensures Map(items, RowKey(field))[j] == d.keys[j]
    {
      MergedRowKey(rows, field, d.keys[j]);
    }
  }

  /** Each key of the input gives exactly one output row, the keys come out
      strictly ascending, and each row is the union of that key's rows,
      later rows winning. */
  lemma MergeBySpec(rows: seq<Row>, field: string)
    ensures StrictlyAscending(MergeBy(rows, field), RowKey(field))
    ensures forall k :: k in Map(MergeBy(rows, field), RowKey(field)) <==>
      exists i :: 0 <= i < |rows| && Get(rows[i], field) == k
    ensures forall i :: 0 <= i < |MergeBy(rows, field)| ==>
      MergeBy(rows, field)[i] == MergedRow(rows, field, Get(MergeBy(rows, field)[i], field))
  {
    var d := Merged(rows, field);
    MergedEntries(rows, field);
    SortedItemsSpec(d, Second, field);
  }

  /** `MergeBySpec` with the keys stated as the input's keys. */
  lemma MergeByKeys(rows: seq<Row>, field: string)
    ensures StrictlyAscending(MergeBy(rows, field), RowKey(field))
    ensures forall k :: k in Map(MergeBy(rows, field), RowKey(field)) <==> k in Map(rows, RowKey(field))
    ensures forall i :: 0 <= i < |MergeBy(rows, field)| ==>
      MergeBy(rows, field)[i] == MergedRow(rows, field, Get(MergeBy(rows, field)[i], field))
  {
    MergeBySpec(rows, field);
  }

  /** Some row has key `k` exactly when `k`'s group is not empty. */
  lemma KeyPresent(rows: seq<Row>, field: string, k: string)
    ensures |Group(rows, FieldKey(field), k)| > 0 <==> exists i :: 0 <= i < |rows| && Get(rows[i], field) == k
  {
    GroupNonEmpty(rows, FieldKey(field), k);
  }

  // ---------------------------------------------------------------------
  // A dict of per-county entries, turned into rows sorted by county

  /** `sorted([f(k, d[k]) for k in d], key=lambda r: r[field])` */
  function SortedItems<V>(d: Dict<V>, f: (string, V) -> Row, field: string): (r: seq<Row>)
    requires Valid(d)
    ensures |r| == |d.keys|
    ensures multiset(r) == multiset(Items(d, f))
    ensures SortedBy(r, ByKey(RowKey(field)))
    ensures KeyedBy(d, f, field) ==> StrictlyAscending(r, RowKey(field))
  {
    SortedItemsOrder(d, f, field);
    SortBy(Items(d, f), ByKey(RowKey(field)))
  }

  /** Sorting by a field puts the rows in ascending order of it, strictly
      so when every entry's row carries its own key. */
  lemma SortedItemsOrder<V>(d: Dict<V>, f: (string, V) -> Row, field: string)
    requires Valid(d)
    ensures SortedBy(SortBy(Items(d, f), ByKey(RowKey(field))), ByKey(RowKey(field)))
    ensures KeyedBy(d, f, field) ==> StrictlyAscending(SortBy(Items(d, f), ByKey(RowKey(field))), RowKey(field))
  {
    ByKeyTotal(RowKey(field));
    SortBySorted(Items(d, f), ByKey(RowKey(field)));
    if KeyedBy(d, f, field) {
      SortByKeyStrict(Items(d, f), RowKey(field));
    }
  }

  /** Each entry's row carries the entry's key in `field`. */
  ghost predicate KeyedBy<V>(d: Dict<V>, f: (string, V) -> Row, field: string)
    requires Valid(d)
  {
    Map(Items(d, f), RowKey(field)) == d.keys
  }

  /** When every row carries its key, the sorted rows have strictly
      ascending keys, exactly the dict's keys, and each is the row of its
      key's entry. */
  lemma SortedItemsSpec<V>(d: Dict<V>, f: (string, V) -> Row, field: string)
    requires Valid(d) && KeyedBy(d, f, field)
    ensures StrictlyAscending(SortedItems(d, f, field), RowKey(field))
    ensures forall k :: k in Map(SortedItems(d, f, field), RowKey(field)) <==> k in d.keys
    ensures forall i :: 0 <= i < |SortedItems(d, f, field)| ==> IsEntryRow(d, f, field, SortedItems(d, f, field)[i])
  {
    SortByKeyStrict(Items(d, f), RowKey(field));
    SortedItemsKeys(d, f, field);
    SortedItemsRows(d, f, field);
  }

  ghost predicate IsEntryRow<V>(d: Dict<V>, f: (string, V) -> Row, field: string, x: Row) {
    Get(x, field) in d.entries && x == f(Get(x, field), d.entries[Get(x, field)])
  }

  lemma SortedItemsKeys<V>(d: Dict<V>, f: (string, V) -> Row, field: string)
    requires Valid(d) && KeyedBy(d, f, field)
    ensures forall k :: k in Map(SortedItems(d, f, field), RowKey(field)) <==> k in d.keys
  {
    var items := Items(d, f);
    var out := SortedItems(d, f, field);
    MapPerm(items, out, RowKey(field));
    forall k
      ensures k in Map(out, RowKey(field)) <==> k in d.keys
    {
      assert k in Map(out, RowKey(field)) <==> k in multiset(Map(out, RowKey(field)));
      assert k in d.keys <==> k in multiset(d.keys);
    }
  }

  lemma SortedItemsRows<V>(d: Dict<V>, f: (string, V) -> Row, field: string)
    requires Valid(d) && KeyedBy(d, f, field)
    ensures forall i :: 0 <= i < |SortedItems(d, f, field)| ==> IsEntryRow(d, f, field, SortedItems(d, f, field)[i])
  {
    var items := Items(d, f);
    var out := SortedItems(d, f, field);
    forall i | 0 <= i < |out|
      ensures IsEntryRow(d, f, field, out[i])
    {
      assert out[i] in multiset(items);
      var j :| 0 <= j < |items| && items[j] == out[i];
      assert Map(items, RowKey(field))[j] == Get(items[j], field);
    }
  }
}
