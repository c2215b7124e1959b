/** One report file as a queryable table (the `Report` class).

    A report value holds what the object keeps (file name, metadata,
    headers, storage columns, table name, index registry); the rows live in
    the shared `Store`, so every query takes the store as a parameter and
    construction returns the updated store next to the report.
 */
module Reports {
  import opened Wrappers
  import opened Strings
  import opened Schema
  import opened Tables
  import opened Slicing

  /** The exceptions that end a single call. */
  datatype Error =
    | UnknownColumn    // IndexError from `_column`: no header matches the key
    | NoSuchTable      // sqlite3.OperationalError: the report's table is not in the store
    | NoSuchColumn     // sqlite3.OperationalError: the table has no column of that name
    | IndexOutOfRange  // IndexError from `fetchall()[0]`: no row has the ROWID
    | EmptySelect      // sqlite3.OperationalError: `sums([])` builds a select list with no column
    | NoSuchAttribute  // AttributeError from `Reports.__getattr__` on a `__` name

  /** A report file once tokenised: the metadata record, the header record
      and the body records, in file order. */
  datatype CsvFile = CsvFile(info: seq<string>, headers: seq<string>, body: seq<Row>)

  datatype ReportData = ReportData(
    path: string,
    info: seq<string>,
    asof: Option<string>,
    fp: Option<string>,
    vendor: Option<string>,
    headers: seq<string>,
    columns: seq<string>,
    table: string,
    indexes: seq<string>)

  /** A report's storage columns are always derived from its headers. */
  type Report = r: ReportData | r.columns == Columns(r.headers)
    witness ReportData("", [], None, None, None, [], [], "", [])

  /** `CREATE TABLE` succeeds: no table of that name (in any case) exists
      and the column names do not clash. Any other outcome is the
      `OperationalError` the constructor swallows. */
  predicate Creates(store: Store, table: string, columns: seq<string>) {
    Key(table) !in store && DistinctCaseless(columns)
  }

  /** The bulk insert accepts the body: there is a column to insert into,
      no storage column is empty (an empty name leaves a dangling comma in
      the `INSERT` column list), and every body record binds exactly one
      value per header. */
  predicate Insertable(file: CsvFile) {
    && |file.headers| > 0
    && "" !in Columns(file.headers)
    && forall x :: x in file.body ==> |x| == |file.headers|
  }

  /** Construction does not raise: a table name is available, and if the
      table is created the body can be inserted. */
  predicate Constructible(file: CsvFile, table: Option<string>, store: Store) {
    && (Explicit(table) || Info(file.info, "Report").Some?)
    && (Creates(store, TableName(file.info, table), Columns(file.headers)) ==> Insertable(file))
  }

  /** Construct a report from a resolved file (`Report.__init__` and
      `_load_csv`): read the metadata, derive table name and columns, and
      create and fill the table only if creation succeeds. */
  function Open(path: string, file: CsvFile, table: Option<string>, store: Store): (res: (Report, Store))
    requires Constructible(file, table, store)
    ensures res.0.path == path && res.0.info == file.info && res.0.headers == file.headers
    ensures res.0.table == TableName(file.info, table) && res.0.indexes == []
    ensures res.0.asof == Info(file.info, "asof") && res.0.fp == Info(file.info, "fp")
    ensures res.0.vendor == Info(file.info, "vendor")
    ensures Key(res.0.table) in store ==> res.1 == store
    ensures Creates(store, res.0.table, res.0.columns) ==>
      Key(res.0.table) in res.1 && res.1[Key(res.0.table)] == Table(res.0.columns, file.body)
    ensures !Creates(store, res.0.table, res.0.columns) ==> res.1 == store
    ensures forall k :: k != Key(res.0.table) ==> (k in res.1 <==> k in store)
    ensures forall k :: k != Key(res.0.table) && k in store ==> res.1[k] == store[k]
  {
    var name := TableName(file.info, table);
    var columns := Columns(file.headers);
    var report := ReportData(path, file.info, Info(file.info, "asof"), Info(file.info, "fp"),
                             Info(file.info, "vendor"), file.headers, columns, name, []);
    if Creates(store, name, columns) then
      var t := Table(columns, file.body);
      assert t.WellFormed();
      (report, store[Key(name) := t])
    else
      (report, store)
  }

  /** Number of rows in the report's table (`__len__`). */
  function Len(r: Report, store: Store): (res: Result<nat, Error>)
    ensures res.Success? <==> Key(r.table) in store
    ensures res.Failure? ==> res.error == NoSuchTable
  {
    if Key(r.table) in store then Success(|store[Key(r.table)].rows|) else Failure(NoSuchTable)
  }

  /** The row with ROWID `i + 1` (`self[i]`). */
  function Item(r: Report, store: Store, i: int): (res: Result<Row, Error>)
    ensures res.Success? <==> Key(r.table) in store && 0 <= i < |store[Key(r.table)].rows|
    ensures res.Success? ==> res.value == store[Key(r.table)].rows[i]
    ensures Key(r.table) in store && res.Failure? ==> res.error == IndexOutOfRange
  {
    if Key(r.table) !in store then Failure(NoSuchTable)
    else
      var hits := WithRowid(store[Key(r.table)].rows, i + 1);
      if |hits| == 0 then Failure(IndexOutOfRange) else Success(hits[0])
  }

  /** `self[start:stop:step]`. An omitted start is 0; an omitted stop is
      `len(self) - start`; without a step every ROWID in range is kept. */
  function Slice(r: Report, store: Store, start: Option<int>, stop: Option<int>, step: Option<int>)
    : (res: Result<seq<Row>, Error>)
    requires start.Some? || stop.Some?
    requires step != Some(0)
    ensures res.Success? <==> Key(r.table) in store
    ensures res.Success? ==>
      var rows := store[Key(r.table)].rows;
      |res.value| <= |rows| && forall x :: x in res.value ==> x in rows
  {
    if Key(r.table) !in store then Failure(NoSuchTable)
    else
      var rows := store[Key(r.table)].rows;
      var lo := start.GetOr(0);
      var hi := if stop.None? then |rows| - start.value else stop.value;
      SliceRowsMembers(rows, lo, hi, step);
      Success(SliceRows(rows, lo, hi, step))
  }

  /** The storage column for a header name (`_column`). */
  function ColumnOf(r: Report, key: string): Option<string> {
    Column(r.headers, r.columns, key)
  }

  predicate Known(r: Report, keys: set<string>) {
    forall k :: k in keys ==> ColumnOf(r, k).Some?
  }

  /** Where the store finds the column a header name resolves to. */
  function Position(r: Report, t: Table, key: string): Option<nat>
    requires ColumnOf(r, key).Some?
  {
    FirstCaseless(t.columns, ColumnOf(r, key).value)
  }

  predicate Located(r: Report, t: Table, keys: set<string>)
    requires Known(r, keys)
  {
    forall k :: k in keys ==> Position(r, t, k).Some?
  }

  /** The `WHERE` clause of a filter map, as equality conditions. */
  function Conditions(r: Report, t: Table, f: map<string, string>): set<Condition>
    requires Known(r, f.Keys) && Located(r, t, f.Keys)
  {
    set k | k in f :: (Position(r, t, k).value, f[k])
  }

  /** A row satisfies the conditions of `f` exactly when, for every key,
      its value in the resolved column equals the filter value. */
  lemma MatchesConditions(r: Report, t: Table, f: map<string, string>, x: Row)
    requires Known(r, f.Keys) && Located(r, t, f.Keys)
    requires |x| == |t.columns|
    ensures Matches(x, Conditions(r, t, f)) <==> forall k :: k in f ==> x[Position(r, t, k).value] == f[k]
  {
    var conds := Conditions(r, t, f);
    if Matches(x, conds) {
      forall k | k in f
        ensures x[Position(r, t, k).value] == f[k]
      {
        assert (Position(r, t, k).value, f[k]) in conds;
      }
    }
  }

  /** Rows matching every `(header, value)` pair of `f` (`gets`). */
  function Gets(r: Report, store: Store, f: map<string, string>): (res: Result<seq<Row>, Error>)
    ensures res.Success? <==>
      Known(r, f.Keys) && Key(r.table) in store && Located(r, store[Key(r.table)], f.Keys)
    ensures !Known(r, f.Keys) ==> res == Failure(UnknownColumn)
    ensures res.Success? ==>
      var t := store[Key(r.table)];
      forall x :: x in res.value <==> x in t.rows && forall k :: k in f ==> x[Position(r, t, k).value] == f[k]
    ensures res.Success? ==>
      var t := store[Key(r.table)];
      res.value == Filter(t.rows, Conditions(r, t, f))
  {
    if !Known(r, f.Keys) then Failure(UnknownColumn)
    else if Key(r.table) !in store then Failure(NoSuchTable)
    else
      var t := store[Key(r.table)];
      if !Located(r, t, f.Keys) then Failure(NoSuchColumn)
      else
        var res := Filter(t.rows, Conditions(r, t, f));
        assert forall x :: x in t.rows ==>
          (Matches(x, Conditions(r, t, f)) <==> forall k :: k in f ==> x[Position(r, t, k).value] == f[k]) by {
          forall x | x in t.rows
            ensures Matches(x, Conditions(r, t, f)) <==> forall k :: k in f ==> x[Position(r, t, k).value] == f[k]
          {
            MatchesConditions(r, t, f, x);
          }
        }
        Success(res)
  }

  /** Rows whose value in one column equals `value` (`get`). */
  function Get(r: Report, store: Store, column: string, value: string): (res: Result<seq<Row>, Error>)
    ensures ColumnOf(r, column).None? ==> res == Failure(UnknownColumn)
    ensures res.Success? ==>
      && Key(r.table) in store
      && var t := store[Key(r.table)];
      && Position(r, t, column).Some?
      && (forall x :: x in res.value <==> x in t.rows && x[Position(r, t, column).value] == value)
      && res.value == Filter(t.rows, {(Position(r, t, column).value, value)})
  {
    match ColumnOf(r, column)
    case None => Failure(UnknownColumn)
    case Some(c) =>
      if Key(r.table) !in store then Failure(NoSuchTable)
      else
        var t := store[Key(r.table)];
        match FirstCaseless(t.columns, c)
        case None => Failure(NoSuchColumn)
        case Some(j) => Success(Filter(t.rows, {(j, value)}))
  }

  /** `get(c, v)` is `gets({c: v})`. */
  lemma GetIsGets(r: Report, store: Store, column: string, value: string)
    ensures Get(r, store, column, value) == Gets(r, store, map[column := value])
  {
    var f := map[column := value];
    assert f.Keys == {column};
    if ColumnOf(r, column).Some? && Key(r.table) in store {
      var t := store[Key(r.table)];
      if Position(r, t, column).Some? {
        assert Conditions(r, t, f) == {(Position(r, t, column).value, value)};
      }
    }
  }

  /** `gets({})` returns the whole table, in table order. */
  lemma GetsNoFilter(r: Report, store: Store)
    requires Key(r.table) in store
    ensures Gets(r, store, map[]) == Success(store[Key(r.table)].rows)
  {
    var t := store[Key(r.table)];
    assert Conditions(r, t, map[]) == {};
    NoConditionKeepsAll(t.rows);
  }

  /** `len(self)` counts exactly the rows an unfiltered `gets` returns. */
  lemma LenCountsAllRows(r: Report, store: Store)
    requires Key(r.table) in store
    ensures Gets(r, store, map[]).Success? && Len(r, store) == Success(|Gets(r, store, map[]).value|)
  {
    GetsNoFilter(r, store);
  }

  /** The values in column `j` of `rows`. */
  function ColumnValues(rows: seq<Row>, j: nat): (v: seq<string>)
    requires forall x :: x in rows ==> j < |x|
    ensures |v| == |rows|
  {
    seq(|rows|, i requires 0 <= i < |rows| => rows[i][j])
  }

  /** One entry of `sums`: `SUM(COALESCE(col, 0))` is SQL NULL over no rows
      and `isfloat(None)` is false, so that gives 0; otherwise the engine's
      numeric total, or 0 when `isfloat` rejects it. */
  function Total(rows: seq<Row>, j: nat, total: seq<string> -> Option<real>): (s: real)
    requires forall x :: x in rows ==> j < |x|
    ensures |rows| == 0 ==> s == 0.0
    ensures |rows| > 0 && total(ColumnValues(rows, j)).None? ==> s == 0.0
  {
    if |rows| == 0 then 0.0 else total(ColumnValues(rows, j)).GetOr(0.0)
  }

  predicate AllKnown(r: Report, cols: seq<string>) {
    forall i :: 0 <= i < |cols| ==> ColumnOf(r, cols[i]).Some?
  }

  predicate AllLocated(r: Report, t: Table, cols: seq<string>)
    requires AllKnown(r, cols)
  {
    forall i :: 0 <= i < |cols| ==> Position(r, t, cols[i]).Some?
  }

  /** One total per requested column, in order, over the rows `gets(f)`
      returns (`sums`). `total` stands for the engine's numeric sum of a
      column's text values together with `isfloat`; `None` when the result
      is not a number. */
  function Sums(r: Report, store: Store, cols: seq<string>, f: map<string, string>,
                total: seq<string> -> Option<real>): (res: Result<seq<real>, Error>)
    ensures res.Success? <==>
      Gets(r, store, f).Success? && AllKnown(r, cols) && |cols| > 0 && AllLocated(r, store[Key(r.table)], cols)
    ensures Known(r, f.Keys) && AllKnown(r, cols) && |cols| == 0 ==> res == Failure(EmptySelect)
    ensures !Known(r, f.Keys) || !AllKnown(r, cols) ==> res == Failure(UnknownColumn)
    ensures res.Success? ==> |res.value| == |cols|
    ensures res.Success? && Gets(r, store, f).value == [] ==>
      forall i :: 0 <= i < |cols| ==> res.value[i] == 0.0
    ensures res.Success? ==>
      var t := store[Key(r.table)];
      forall i :: 0 <= i < |cols| ==> res.value[i] == Total(Gets(r, store, f).value, Position(r, t, cols[i]).value, total)
  {
    if !Known(r, f.Keys) || !AllKnown(r, cols) then Failure(UnknownColumn)
    else if |cols| == 0 then Failure(EmptySelect)
    else if Key(r.table) !in store then Failure(NoSuchTable)
    else
      var t := store[Key(r.table)];
      if !Located(r, t, f.Keys) || !AllLocated(r, t, cols) then Failure(NoSuchColumn)
      else
        var matched := Filter(t.rows, Conditions(r, t, f));
        assert matched == Gets(r, store, f).value;
        assert forall x :: x in matched ==> |x| == |t.columns|;
        Success(seq(|cols|, i requires 0 <= i < |cols| => Total(matched, Position(r, t, cols[i]).value, total)))
  }

  /** `sum(c, f)` is the only entry of `sums([c], f)`. */
  function Sum(r: Report, store: Store, column: string, f: map<string, string>,
               total: seq<string> -> Option<real>): (res: Result<real, Error>)
    ensures res.Success? <==> Sums(r, store, [column], f, total).Success?
    ensures res.Success? ==> [res.value] == Sums(r, store, [column], f, total).value
    ensures res.Success? && Gets(r, store, f).value == [] ==> res.value == 0.0
  {
    match Sums(r, store, [column], f, total)
    case Failure(e) => Failure(e)
    case Success(v) => Success(v[0])
  }

  predicate NoDuplicates(s: seq<string>) {
    forall i, j :: 0 <= i < j < |s| ==> s[i] != s[j]
  }

  /** Register an index on a header's storage column (`create_index`): the
      name `'i' + column` is recorded once. */
  function CreateIndex(r: Report, column: string): (res: Result<Report, Error>)
    ensures res.Failure? <==> forall i :: 0 <= i < |r.headers| ==> Lower(r.headers[i]) != Lower(column)
    ensures res.Failure? ==> res.error == UnknownColumn
    ensures res.Success? ==> res.value == r.(indexes := res.value.indexes)
    ensures res.Success? ==> "i" + ColumnOf(r, column).value in res.value.indexes
    ensures res.Success? ==> |r.indexes| <= |res.value.indexes| <= |r.indexes| + 1
    ensures res.Success? ==> res.value.indexes[..|r.indexes|] == r.indexes
    ensures res.Success? && NoDuplicates(r.indexes) ==> NoDuplicates(res.value.indexes)
  {
    match ColumnOf(r, column)
    case None => Failure(UnknownColumn)
    case Some(c) =>
      var name := "i" + c;
      if name in r.indexes then Success(r)
      else Success(r.(indexes := r.indexes + [name]))
  }

  /** A repeated `create_index` leaves the registry as it is. */
  lemma CreateIndexIdempotent(r: Report, column: string)
    requires CreateIndex(r, column).Success?
    ensures CreateIndex(CreateIndex(r, column).value, column) == CreateIndex(r, column)
  {
  }

  /** The header may be named in any case. */
  lemma CreateIndexCaseInsensitive(r: Report, a: string, b: string)
    requires Lower(a) == Lower(b)
    ensures CreateIndex(r, a) == CreateIndex(r, b)
  {
    ColumnCaseInsensitive(r.headers, r.columns, a, b);
  }

  /** A freshly created table holds the body records in file order, so
      `len` is the number of body records and `self[i]` is record `i`. */
  lemma OpenFreshTable(path: string, file: CsvFile, table: Option<string>, store: Store)
    requires Constructible(file, table, store)
    requires Creates(store, TableName(file.info, table), Columns(file.headers))
    ensures var (r, s) := Open(path, file, table, store);
      && Len(r, s) == Success(|file.body|)
      && (forall i :: 0 <= i < |file.body| ==> Item(r, s, i) == Success(file.body[i]))
      && s[Key(r.table)].columns == r.columns
  {
  }

  /** An existing table is reused as it is: nothing is inserted, and the new
      report sees the rows already there. */
  lemma OpenExistingTable(path: string, file: CsvFile, table: Option<string>, store: Store)
    requires Constructible(file, table, store)
    requires Key(TableName(file.info, table)) in store
    ensures var (r, s) := Open(path, file, table, store);
      s == store && Len(r, s) == Success(|store[Key(TableName(file.info, table))].rows|)
  {
  }

  /** Loading the same table name twice against one store does not
      duplicate rows: the second report sees what the first one loaded. */
  lemma OpenTwice(path: string, file: CsvFile, path2: string, file2: CsvFile, name: string, store: Store)
    requires name != ""
    requires Constructible(file, Some(name), store)
    requires Key(name) in store || DistinctCaseless(Columns(file.headers))
    ensures var (r1, s1) := Open(path, file, Some(name), store);
      Constructible(file2, Some(name), s1)
      && var (r2, s2) := Open(path2, file2, Some(name), s1);
      s2 == s1 && Len(r2, s2) == Len(r1, s1)
  {
  }

  /** The slice law on a report: for `0 <= start` and `step > 0`,
      `self[start:stop:step]` is `self[start], self[start + step], ...`,
      `ceil((min(stop, len) - start) / step)` rows. */
  lemma SliceLaw(r: Report, store: Store, start: nat, stop: int, step: nat)
    requires Key(r.table) in store && step > 0
    ensures var res := Slice(r, store, Some(start), Some(stop), Some(step));
      var n := |store[Key(r.table)].rows|;
      && res.Success?
      && |res.value| == StrideCount(start, Min(stop, n), step)
      && forall k :: 0 <= k < |res.value| ==> Item(r, store, start + k * step) == Success(res.value[k])
  {
    var rows := store[Key(r.table)].rows;
    var c := StrideCount(start, Min(stop, |rows|), step);
    SliceIsStrided(rows, start, stop, step);
    forall k | 0 <= k < c
      ensures Item(r, store, start + k * step) == Success(Strided(rows, start, step, c)[k])
    {
      StridedAt(rows, start, step, c, k);
    }
  }

  /** A negative start with a positive step reads like the first
      non-negative start in its class: `self[start % step]`,
      `self[start % step + step]`, ... */
  lemma SliceLawNegativeStart(r: Report, store: Store, start: int, stop: int, step: nat)
    requires Key(r.table) in store && start < 0 < step
    ensures var res := Slice(r, store, Some(start), Some(stop), Some(step));
      var n := |store[Key(r.table)].rows|;
      && res.Success?
      && |res.value| == StrideCount(start % step, Min(stop, n), step)
      && forall k :: 0 <= k < |res.value| ==> Item(r, store, start % step + k * step) == Success(res.value[k])
  {
    var rows := store[Key(r.table)].rows;
    NegativeStartSameRows(rows, start, stop, step);
    assert Slice(r, store, Some(start), Some(stop), Some(step))
        == Slice(r, store, Some(start % step), Some(stop), Some(step));
    SliceLaw(r, store, start % step, stop, step);
  }

  /** `self[i]` succeeds exactly when the one-row slice `self[i:i+1]` holds a
      row, and then they agree. */
  lemma ItemIsOneRowSlice(r: Report, store: Store, i: int)
    requires Key(r.table) in store
    ensures var s := Slice(r, store, Some(i), Some(i + 1), None).value;
      && (Item(r, store, i).Success? <==> |s| == 1)
      && (Item(r, store, i).Success? ==> s == [Item(r, store, i).value])
      && (Item(r, store, i).Failure? ==> s == [])
  {
    SliceWithoutStep(store[Key(r.table)].rows, i, i + 1);
  }

  /** An omitted stop is `len - start`, relative to `start`: without a step,
      `self[s:]` returns the rows at positions `s .. len - s - 1`, and
      nothing once `2 * s >= len`. */
  lemma SliceOpenEnd(r: Report, store: Store, start: nat)
    requires Key(r.table) in store
    ensures var rows := store[Key(r.table)].rows;
      Slice(r, store, Some(start), None, None)
        == Success(if 2 * start < |rows| then rows[start..|rows| - start] else [])
  {
    var rows := store[Key(r.table)].rows;
    SliceWithoutStep(rows, start, |rows| - start);
  }

  /** The strides the report's own tests check, on a table of at least 200 rows. */
  lemma SliceTestCases(r: Report, store: Store)
    requires Key(r.table) in store && |store[Key(r.table)].rows| >= 200
    ensures var a := Slice(r, store, Some(0), Some(100), Some(10)).value;
      |a| == 10 && Item(r, store, 90) == Success(a[9])
    ensures var b := Slice(r, store, Some(3), Some(100), Some(7)).value;
      |b| == 14 && Item(r, store, 10) == Success(b[1]) && Item(r, store, 94) == Success(b[13])
    ensures var c := Slice(r, store, Some(103), Some(200), Some(7)).value;
      |c| == 14 && Item(r, store, 110) == Success(c[1]) && Item(r, store, 194) == Success(c[13])
  {
    SliceLaw(r, store, 0, 100, 10);
    SliceLaw(r, store, 3, 100, 7);
    SliceLaw(r, store, 103, 200, 7);
    assert StrideCount(0, 100, 10) == 10;
    assert StrideCount(3, 100, 7) == 14;
    assert StrideCount(103, 200, 7) == 14;
  }

  /** Writing a slice out with the report's metadata and headers and loading
      it into a fresh table gives a report of exactly that many rows. */
  lemma SliceReload(r: Report, store: Store, start: nat, stop: int, step: nat, path: string, name: string)
    requires Key(r.table) in store && step > 0
    requires store[Key(r.table)].columns == r.columns && |r.headers| > 0 && "" !in r.columns
    requires name != "" && Key(name) !in store && DistinctCaseless(r.columns)
    ensures var rows := Slice(r, store, Some(start), Some(stop), Some(step)).value;
      var file := CsvFile(r.info, r.headers, rows);
      && Constructible(file, Some(name), store)
      && var (t, s) := Open(path, file, Some(name), store);
      Len(t, s) == Success(|rows|)
  {
    var rows := Slice(r, store, Some(start), Some(stop), Some(step)).value;
    assert forall x :: x in rows ==> x in store[Key(r.table)].rows;
  }

  /** Filtering a report on one header, when the report created its own
      table, constrains the value at that header's position in each row. */
  lemma GetsByHeaderPosition(r: Report, store: Store, key: string, value: string, i: nat)
    requires Key(r.table) in store && store[Key(r.table)].columns == r.columns
    requires DistinctCaseless(r.columns)
    requires i < |r.headers| && Lower(r.headers[i]) == Lower(key)
    requires forall h :: 0 <= h < i ==> Lower(r.headers[h]) != Lower(key)
    ensures Gets(r, store, map[key := value]).Success?
    ensures forall x :: x in Gets(r, store, map[key := value]).value ==> x[i] == value
  {
    var t := store[Key(r.table)];
    assert ColumnOf(r, key) == Some(r.columns[i]);
    FirstCaselessOfDistinct(r.columns, i);
    assert Position(r, t, key) == Some(i);
  }
}
