# CSVReports in Dafny

A model of the core of CSVReports (`Reports.py`). The library loads report
files into tables of a shared SQLite database. Each file is a CSV file whose
first record is metadata, whose second record is the header row, and whose
remaining records are data. The library then answers positional, filtered
and aggregate queries against those tables.

The model replaces the database by an abstract store. The store maps a
table name, lower-cased because SQLite ignores the case of identifiers, to
that table's column names and rows. A table is filled once, by a single bulk
insert into a fresh table, so the row at 0-based position `i` has ROWID
`i + 1` (a header named like the row id is the exception noted under
"Left out"). Every query is a pure function of a report and the store. Loading a
report returns the updated store next to the report.

Modules, one per file:

- `Wrappers` (`wrappers.dfy`): `Option` and `Result`.
- `Strings` (`strings.dfy`): ASCII word characters, lower-casing,
  `str.replace` of one character, `''.join`, and the decimal rendering `str(n)`.
- `Schema` (`schema.dfy`): metadata lookup (`_info`), the table-name rule,
  column coding, and case-insensitive header lookup (`_column`).
- `Tables` (`tables.dfy`): tables, the store, and equality filtering
  (`WHERE col = 'value' AND ...`).
- `Slicing` (`slicing.dfy`): ROWID arithmetic for `__getitem__`. It has
  Python's flooring `%` and SQLite's truncating `%`. It also proves the slice
  law: ROWID selection equals Python's strided reading.
- `Reports` (`reports.dfy`): the `Report` class. This covers construction
  with load-once table creation, `__len__`, `__getitem__`, `get`, `gets`,
  `sum`, `sums` and `create_index`.
- `Registry` (`registry.dfy`): the `Reports` collection. This covers
  `__len__`, `find_report`, `load` and the `__getattr__` dispatch.

Each Python exception that ends a call is a `Failure` value:

- `UnknownColumn` is `IndexError` from `_column`.
- `NoSuchTable` and `NoSuchColumn` are SQLite's `OperationalError`.
- `IndexOutOfRange` is `IndexError` from `fetchall()[0]`.
- `EmptySelect` is the syntax error of `sums([])`.
- `NoSuchAttribute` is `AttributeError`.

The paths below that crash are preconditions instead of values:

- A report without an explicit table name whose metadata has no `Report`
  value. `None.replace` raises.
- A slice with both bounds omitted. The code computes `len - None`.
- A slice step of 0. Python raises `ZeroDivisionError`.
- A bulk insert into a newly created table whose body records do not all
  have the header width, whose header row is empty, or whose verbatim
  headers include an empty one. An empty column name leaves a dangling comma
  in the `INSERT` column list, and that syntax error is not caught.

Points where the code's behaviour is easy to misread, which the model keeps as written:

- Coded column names are `c0, c1, ...`, as `Reports.py:100` writes them.
- `\W` counts `_` as a word character.
- An empty table name `''` counts as "no table name", because
  `if not self.table` treats it like `None`.
- When `stop` is omitted it defaults to `len - start`. That value is relative
  to `start`, so `self[s:]` returns the rows at positions `s .. len - s - 1`.
  `SliceOpenEnd` states this.
- A negative slice step does not crash the code. It selects the ROWIDs in
  range whose SQLite remainder equals Python's remainder of `start + 1`, and
  the model keeps that.

## Model

| member | source | states |
|---|---|---|
| Schema.IndexOf | Reports.py:120 | `list.index`: the result holds `x` and no earlier position does |
| Schema.Info | Reports.py:119-121 | `_info(k)` is present exactly when `k` occurs before the last element. It is then the element after the first occurrence of `k` |
| Schema.TableName | Reports.py:95-96 | an explicit non-empty name is kept. Otherwise the name is the metadata `Report` value with every `.` and `-` replaced by `_`, character by character, so none remains |
| Schema.Columns | Reports.py:98-102 | there is one column per header and every column is made of word characters. When some header has a non-word character the columns are `"c" + str(i)`. Otherwise they are the headers verbatim |
| Schema.ColumnsIdempotent | Reports.py:98-102 | normalising already-normalised columns changes nothing |
| Schema.CodedDistinct | Reports.py:100 | the coded names `c0 .. c(n-1)` are pairwise distinct, ignoring case |
| Schema.CodedColumnsDistinct | Reports.py:99-100 | coded columns never make `CREATE TABLE` fail for a duplicate column |
| Schema.FirstCaseless | Reports.py:124-126 | the first position whose name equals the key ignoring ASCII case, or none exactly when no name matches |
| Schema.Column | Reports.py:123-126 | `_column(k)` succeeds exactly when some header equals `k` ignoring case. It is then the column at the first such header |
| Schema.FirstCaselessOfDistinct | Reports.py:126 | among pairwise-distinct names, looking a name up finds its own position |
| Schema.ColumnCaseInsensitive | Reports.py:124-126 | `_column` depends only on the lower-cased key |
| Schema.FirstCaselessCaseInsensitive | Reports.py:124-126 | the first caseless match depends only on the lower-cased key |
| Strings.AllWordJoin | Reports.py:99 | `''.join(headers)` has no `\W` character exactly when no header has one |
| Strings.Decimal | Reports.py:100 | `str(n)` is a non-empty string of digits with no leading zero |
| Strings.DecimalRoundTrip | Reports.py:100 | reading the digits of `str(n)` gives back `n` |
| Strings.DecimalInjective | Reports.py:100 | distinct indices give distinct `str(i)` |
| Tables.Filter | Reports.py:177 | `WHERE` keeps exactly the rows that satisfy every condition, and no more rows than the table has |
| Tables.FilterAppend | Reports.py:177 | filtering distributes over concatenation, so it keeps table order |
| Tables.FilterAll | Reports.py:192-195 | when every row satisfies the conditions, the table comes back as it is |
| Tables.NoConditionKeepsAll | Reports.py:194 | with no condition every row is returned |
| Slicing.PyMod | Reports.py:145 | Python's `%`: the remainder has the sign of the divisor, is smaller in size, and differs from `a` by a multiple of `b` |
| Slicing.SqlRem | Reports.py:145 | SQLite's `%`: the remainder has the sign of the dividend, is smaller in size than the divisor, and differs from `a` by a multiple of `b` |
| Slicing.SliceRows | Reports.py:146-147 | the slice query returns at most the table's rows. Which rows it returns is stated by `SliceRowsMembers`, and their order by `SliceIsStrided`, `SliceNegativeStart` and `SliceWithoutStep` |
| Slicing.SliceRowsMembers | Reports.py:141-147 | the slice query returns exactly the rows whose ROWID `p` has `start < p <= stop` and, with a step, `p % step == (start + 1) % step` |
| Slicing.WithRowid | Reports.py:149 | `WHERE ROWID = p` returns the single row at position `p - 1` when there is one, and nothing otherwise |
| Slicing.Strided | Reports.py:138-147 | Python's reading of a slice yields `count` rows |
| Slicing.StridedAt | Reports.py:138-147 | the `k`-th strided row is the row at position `start + k * step` |
| Slicing.StrideCount | Reports.py:141-147 | the number of strided rows below `hi` stays in range, and is positive when `start < hi` |
| Slicing.SliceIsStrided | Reports.py:141-147 | for `step > 0` the ROWID selection equals the strided reading `self[start], self[start + step], ...` with `ceil((min(stop, len) - start) / step)` rows |
| Slicing.SliceRowsSameSelection | Reports.py:146-147 | two slices that select the same ROWIDs among the rows return the same rows |
| Slicing.NegativeStartSelection | Reports.py:141-147 | for a negative start and a positive step, a ROWID `p >= 1` is selected exactly when it is selected from `start % step` |
| Slicing.NegativeStartSameRows | Reports.py:141-147 | a negative start with a positive step returns the same rows as the start `start % step` |
| Slicing.SliceNegativeStart | Reports.py:141-147 | for a negative start and a positive step the ROWID selection equals the strided reading from `start % step`, in ascending order |
| Slicing.SliceWithoutStep | Reports.py:141-147 | without a step the selection is the contiguous run from `max(start, 0)` to `min(stop, len)` |
| Reports.Open | Reports.py:80-117 | builds the report's metadata, headers, columns and table name. If the table is absent and creatable, it is created with the body rows in file order. If it exists, the store is unchanged. No other table changes |
| Reports.OpenFreshTable | Reports.py:106-116 | after creating a fresh table, `len` is the number of body records and `self[i]` is body record `i` |
| Reports.OpenExistingTable | Reports.py:106-109 | an existing table is reused untouched, and `len` is its existing row count |
| Reports.OpenTwice | Reports.py:106-117 | loading a second file into the same table name inserts nothing and leaves `len` as it was |
| Reports.Len | Reports.py:162-166 | `len` succeeds exactly when the table exists |
| Reports.Item | Reports.py:138-151 | `self[i]` is the row at ROWID `i + 1`. It fails with `IndexError` for `i < 0` or `i >= len` |
| Reports.Slice | Reports.py:138-151 | a slice succeeds exactly when the table exists, and returns only table rows |
| Reports.SliceLaw | Reports.py:138-151 | `self[start:stop:step]` with `step > 0` has `ceil((min(stop, len) - start) / step)` rows, and its `k`-th row is `self[start + k * step]` |
| Reports.SliceLawNegativeStart | Reports.py:138-151 | `self[start:stop:step]` with `start < 0 < step` has `ceil((min(stop, len) - start % step) / step)` rows, and its `k`-th row is `self[start % step + k * step]` |
| Reports.ItemIsOneRowSlice | Reports.py:138-151 | `self[i]` succeeds exactly when `self[i:i+1]` holds one row, and then they agree |
| Reports.SliceOpenEnd | Reports.py:141-142 | with `stop` omitted, `self[s:]` is the rows at positions `s .. len - s - 1`, or nothing once `2 * s >= len` |
| Reports.SliceTestCases | test/test_reports.py:61-96 | `[0:100:10]` gives 10 rows, and `[3:100:7]` and `[103:200:7]` give 14 rows each, matching the positions the tests compare |
| Reports.SliceReload | test/test_reports.py:61-64 | a slice written out with the report's metadata and reloaded into a fresh table has `len` equal to the slice's size |
| Reports.MatchesConditions | Reports.py:190-195 | a row satisfies the `WHERE` clause exactly when each filter value sits in its header's column |
| Reports.Gets | Reports.py:181-197 | `gets(f)` fails with `IndexError` for an unknown header. On success it returns exactly the table rows where every `(k, v)` of `f` has `v` in `_column(k)`. The result is the table filtered in table order, with every matching row kept, so `FilterAppend` gives its order |
| Reports.Get | Reports.py:168-179 | `get(c, v)` fails with `IndexError` for an unknown header. On success it returns exactly the table rows whose value in `_column(c)` is `v`, in table order |
| Reports.GetIsGets | Reports.py:168-197 | `get(c, v) == gets({c: v})`, including every error case |
| Reports.GetsNoFilter | Reports.py:192-195 | `gets({})` returns the whole table in table order |
| Reports.LenCountsAllRows | Reports.py:162-166 | `len` is the number of rows `gets({})` returns |
| Reports.GetsByHeaderPosition | test/test_reports.py:103-116 | filtering on a header constrains the value at that header's position in each returned row, for coded columns too |
| Reports.Total | Reports.py:219-225 | one `sums` entry is 0 over no rows, and 0 when the engine's total is not numeric |
| Reports.Sums | Reports.py:211-225 | one value per requested column, in order: each is the total over the rows `gets(f)` returns, and 0 for all when no row matches. An unknown header is `IndexError`, and an empty column list is a syntax error |
| Reports.Sum | Reports.py:199-209 | `sum(c, f)` is the only entry of `sums([c], f)`, and 0 when no row matches |
| Reports.CreateIndex | Reports.py:128-136 | fails exactly when no header matches. Otherwise it records `'i' + column` once, changes nothing but the index list, keeps the existing entries as a prefix, and keeps the list free of duplicates |
| Reports.CreateIndexIdempotent | Reports.py:131 | a repeated `create_index` leaves the report unchanged |
| Reports.CreateIndexCaseInsensitive | Reports.py:129 | the index column may be named in any case |
| Registry.Empty | Reports.py:265-273 | a new collection has length 0 |
| Registry.Count | Reports.py:272-273 | `len(reports)` is 0 exactly when no report is cached |
| Registry.JoinPath | Reports.py:314 | `os.path.join(a, b)` ends with `b` |
| Registry.Pattern | Reports.py:297 | the search pattern ends with the name, each `_` replaced by `?`, followed by `.*csv` |
| Registry.FindReport | Reports.py:312-320 | a path exactly when one file matches, and that path is one of the matches |
| Registry.Load | Reports.py:294-304 | no match gives `None` and no change. A cached name returns its cached entry and changes nothing. A new name adds exactly that entry and leaves the others alone; the entry is `Report(path, table=name)` built on the shared store, which becomes that construction's store. The returned report is the cached one, and without an index the call never fails. With an index, `create_index` is applied to the new report: on success the indexed report is cached and returned, on failure the call fails with its error and the report stays cached as constructed |
| Registry.LoadNew | Reports.py:300-304 | a new name caches `Report(path, table=name)` built on the shared store, changing no other entry; the store becomes that construction's store; without an index the call succeeds, and with one the outcome is that of `create_index` on the constructed report |
| Registry.Cache | Reports.py:300-304 | a new report is cached on the shared store. It is indexed only when an index column is given, and then the cached report and the outcome are those of `create_index`: the indexed report on success, the report as constructed and the same error on failure |
| Registry.LoadCount | Reports.py:272-273 | `len(reports)` grows by one exactly when a new name resolves to one file |
| Registry.LoadTwice | Reports.py:300-304 | a second `load` of a name returns the cached report and changes nothing, and no second index is applied |
| Registry.LoadFreshLength | Reports.py:297-304 | loading a new name whose table is fresh gives a report whose `len` is the file's number of body records |
| Registry.Attr | Reports.py:289-292 | names starting with `__` raise `AttributeError`. Any other name is `load(name)` and never fails: it gives `None` and no change when nothing matches, and otherwise the cached report, with only that name added to the cache |

## Left out

- The SQL text itself is not modelled: string-built queries, quoting, and injection through filter values or names. Queries are modelled by what they select.
- SQLite's identifier grammar is not modelled: keywords, names that start with a digit, and quoting. `CREATE TABLE` fails in the model only when the table exists or two columns clash ignoring case.
- `csv.reader` tokenising, null-byte stripping and file opening are left out as library and I/O work. A file arrives already split into metadata, header and body records.
- A file with fewer than two records is not modelled. `reader.next()` raises `StopIteration` there.
- `glob`, `os.stat` and the filesystem are parameters. `glob` maps a pattern to its matches and `read` maps a path to its records.
- Reports.Open takes the path `find_report` already resolved. `Report.__init__` runs that path through `glob` once more (Reports.py:65). A path containing `[`, `*` or `?` may then fail to match itself, and `open(None)` raises. That second lookup is not modelled.
- Reports.Open: a header row made of word characters that holds one empty header next to a header named `text` (in any case) is excluded by the precondition. In SQLite the empty header becomes a column named `TEXT`, so that `CREATE TABLE` fails and the table is reused, but the model sees no clash and demands an insertable body.
- Reports.SliceReload: writing the slice out and reading it back is taken as the identity. `write_csv` (Reports.py:25) wraps each value in `"` without escaping quotes inside it, so a value that holds `"` does not come back unchanged.
- Reports.Total: the engine's numeric total and `isfloat`/`Decimal` conversion are an abstract parameter `total` returning an optional real, because SQLite's text-to-number coercion and `float()` are floating point.
- Reports.CreateIndex: the `CREATE INDEX IF NOT EXISTS` statement is not modelled. Its own failure for a missing table or column is left out, and the name is always recorded.
- Index-name collisions between reports that share a table are not modelled. Index names are recorded per report.
- `__iter__`/`next` (stateful cursor iteration) is not modelled.
- Reports.Item: a header named `rowid`, `oid` or `_rowid_` (in any case) stays a verbatim column, and SQLite then resolves `ROWID` in the queries of Reports.py:146-149 to that text column. `self[i]` and slices on such a table filter on that field's value; the model keeps positional ROWIDs and does not cover these headers. The same holds for Reports.Slice.
- Registry.Attr: Python calls `__getattr__` only for names that are not the object's own attributes, so `db`, `reports`, `reportdir`, `load`, `csv` and `find_report` never reach it. The model has no attribute table and treats every name it is given as reaching `__getattr__`.
- `write_csv`, both `csv` export methods and logging configuration are not modelled. Their output is only files and logs.
- SQLite integers are 64-bit. ROWIDs and slice bounds are unbounded here.
- `text_factory` and connection handling are not modelled. There is one store, passed explicitly.
