/** The `Reports` collection: reports found by name in one directory,
    loaded lazily into one shared store and cached by name.

    The filesystem is a parameter: `glob` gives the paths a pattern matches
    and `read` gives the tokenised contents of a path.
 */
module Registry {
  import opened Wrappers
  import opened Strings
  import opened Schema
  import opened Tables
  import opened Reports

  datatype Registry = Registry(dir: string, reports: map<string, Report>, store: Store)

  /** A registry before any report is loaded. */
  function Empty(dir: string): (reg: Registry)
    ensures Count(reg) == 0
  {
    Registry(dir, map[], map[])
  }

  /** `len(reports)`: the number of cached reports. */
  function Count(reg: Registry): (n: nat)
    ensures n == 0 <==> reg.reports == map[]
  {
    |reg.reports|
  }

  /** `os.path.join(a, b)` on POSIX paths. */
  function JoinPath(a: string, b: string): (p: string)
    ensures |b| <= |p| && p[|p| - |b|..] == b
  {
    if |b| > 0 && b[0] == '/' then b
    else if a == "" || a[|a| - 1] == '/' then a + b
    else a + "/" + b
  }

  /** The glob pattern for a report name: each `_` matches any one character
      and any extension ending in `csv` follows. */
  function Pattern(dir: string, name: string): (p: string)
    ensures |p| >= |name| + 5
    ensures p[|p| - |name| - 5..] == ReplaceChar(name, '_', '?') + ".*csv"
  {
    JoinPath(dir, ReplaceChar(name, '_', '?') + ".*csv")
  }

  /** `find_report`: the path when exactly one file matches, nothing for no
      match or an ambiguous one. */
  function FindReport(matches: seq<string>): (r: Option<string>)
    ensures r.Some? <==> |matches| == 1
    ensures r.Some? ==> r.value in matches
  {
    if |matches| == 1 then Some(matches[0]) else None
  }

  /** The file `load(name)` resolves to. */
  function Resolve(reg: Registry, name: string, glob: string -> seq<string>): Option<string> {
    FindReport(glob(Pattern(reg.dir, name)))
  }

  /** `load` does not raise while constructing a new report. */
  predicate Loadable(reg: Registry, name: string, glob: string -> seq<string>, read: string -> CsvFile) {
    match Resolve(reg, name, glob)
    case None => true
    case Some(p) => name in reg.reports || Constructible(read(p), Some(name), reg.store)
  }

  /** The `if index:` test: an index column was given and is not empty. */
  predicate Wanted(index: Option<string>) {
    index.Some? && index.value != ""
  }

  /** `load(name, index)`: resolve the name to one file; return the cached
      report for that name, or construct it on the shared store, cache it
      and optionally index it. Returns the registry after the call and the
      call's outcome; a failing `create_index` happens after caching, so the
      new entry stays cached. */
  function Load(reg: Registry, name: string, index: Option<string>,
                glob: string -> seq<string>, read: string -> CsvFile)
    : (res: (Registry, Result<Option<Report>, Error>))
    requires Loadable(reg, name, glob, read)
    ensures res.0.dir == reg.dir
    ensures Resolve(reg, name, glob).None? ==> res == (reg, Success(None))
    ensures Resolve(reg, name, glob).Some? && name in reg.reports ==>
      res == (reg, Success(Some(reg.reports[name])))
    ensures res.0.reports.Keys == reg.reports.Keys + (if Resolve(reg, name, glob).Some? then {name} else {})
    ensures forall n :: n in reg.reports ==> res.0.reports[n] == reg.reports[n]
    ensures res.1.Success? && res.1.value.Some? ==> res.0.reports[name] == res.1.value.value
    ensures res.1.Failure? ==> res.1.error == UnknownColumn
    ensures !Wanted(index) ==> res.1.Success?
    ensures Resolve(reg, name, glob).Some? && name !in reg.reports ==>
      var p := Resolve(reg, name, glob).value;
      var built := Open(p, read(p), Some(name), reg.store);
      && res.0.store == built.1
      && res.0.reports[name] == built.0.(indexes := res.0.reports[name].indexes)
    ensures Resolve(reg, name, glob).Some? && name !in reg.reports && Wanted(index) ==>
      var p := Resolve(reg, name, glob).value;
      var built := Open(p, read(p), Some(name), reg.store);
      Indexes(res, name, CreateIndex(built.0, index.value), built.0)
    ensures Resolve(reg, name, glob).None? || name in reg.reports ==> res.0.store == reg.store
  {
    match Resolve(reg, name, glob)
    case None => (reg, Success(None))
    case Some(p) =>
      if name in reg.reports then (reg, Success(Some(reg.reports[name])))
      else
        var res := LoadNew(reg, name, index, p, read(p));
        UpdateKeeps(reg.reports, name, res.0.reports[name]);
        res
  }

  /** The outcome of `load` carries the outcome `c` of `create_index` on the
      new report: on success the cache holds the indexed report and the call
      returns it, on failure the call fails with the same error and the
      report stays cached as constructed. */
  predicate Indexes(res: (Registry, Result<Option<Report>, Error>), name: string,
                    c: Result<Report, Error>, report: Report) {
    && name in res.0.reports
    && (c.Success? ==> res.0.reports[name] == c.value && res.1 == Success(Some(c.value)))
    && (c.Failure? ==> res.0.reports[name] == report && res.1 == Failure(c.error))
  }

  /** Caching under a new name adds that name and keeps every other entry. */
  lemma UpdateKeeps(m: map<string, Report>, k: string, v: Report)
    requires k !in m
    ensures m[k := v].Keys == m.Keys + {k}
    ensures forall n :: n in m ==> m[k := v][n] == m[n]
  {
  }

  /** `load` of a name not cached yet, once it resolved to `path`:
      `Report(path, table=name)` on the shared store, then `Cache`. */
  function LoadNew(reg: Registry, name: string, index: Option<string>, path: string, file: CsvFile)
    : (res: (Registry, Result<Option<Report>, Error>))
    requires name !in reg.reports && Constructible(file, Some(name), reg.store)
    ensures name in res.0.reports
    ensures var built := Open(path, file, Some(name), reg.store);
      && res.0 == Registry(reg.dir, reg.reports[name := res.0.reports[name]], built.1)
      && res.0.reports[name] == built.0.(indexes := res.0.reports[name].indexes)
    ensures !Wanted(index) ==> res.1.Success?
    ensures res.1.Success? ==> res.1.value == Some(res.0.reports[name])
    ensures res.1.Failure? ==> res.1.error == UnknownColumn
    ensures Wanted(index) ==>
      var built := Open(path, file, Some(name), reg.store);
      Indexes(res, name, CreateIndex(built.0, index.value), built.0)
  {
    var built := Open(path, file, Some(name), reg.store);
    Cache(reg, name, index, built.0, built.1)
  }

  /** The part of `load` after a new report is constructed: cache it, then
      index it if an index column was asked for. A failing index leaves the
      report cached as constructed. */
  function Cache(reg: Registry, name: string, index: Option<string>, report: Report, store: Store)
    : (res: (Registry, Result<Option<Report>, Error>))
    requires name !in reg.reports
    ensures name in res.0.reports
    ensures res.0 == Registry(reg.dir, reg.reports[name := res.0.reports[name]], store)
    ensures res.0.reports[name] == report.(indexes := res.0.reports[name].indexes)
    ensures !Wanted(index) ==> res == (res.0, Success(Some(report)))
    ensures res.1.Success? ==> res.1.value == Some(res.0.reports[name])
    ensures res.1.Failure? ==> res.1.error == UnknownColumn && res.0.reports[name] == report
    ensures Wanted(index) ==> Indexes(res, name, CreateIndex(report, index.value), report)
  {
    var indexed := if Wanted(index) then CreateIndex(report, index.value) else Success(report);
    match indexed
    case Success(r) => (Registry(reg.dir, reg.reports[name := r], store), Success(Some(r)))
    case Failure(e) => (Registry(reg.dir, reg.reports[name := report], store), Failure(e))
  }

  /** The cache grows by one exactly when a new name resolves to one file;
      a failed lookup leaves it as it is. */
  lemma LoadCount(reg: Registry, name: string, index: Option<string>,
                  glob: string -> seq<string>, read: string -> CsvFile)
    requires Loadable(reg, name, glob, read)
    ensures Count(Load(reg, name, index, glob, read).0)
         == Count(reg) + (if Resolve(reg, name, glob).Some? && name !in reg.reports then 1 else 0)
  {
    var reg' := Load(reg, name, index, glob, read).0;
    if Resolve(reg, name, glob).Some? && name !in reg.reports {
      assert reg'.reports.Keys == reg.reports.Keys + {name};
    } else {
      assert reg'.reports.Keys == reg.reports.Keys;
    }
  }

  /** A second `load` of the same name returns the cached report and changes
      nothing: no new table, no second index. */
  lemma LoadTwice(reg: Registry, name: string, index: Option<string>, index2: Option<string>,
                  glob: string -> seq<string>, read: string -> CsvFile)
    requires Loadable(reg, name, glob, read)
    requires Resolve(reg, name, glob).Some?
    ensures var reg' := Load(reg, name, index, glob, read).0;
      && Loadable(reg', name, glob, read)
      && Load(reg', name, index2, glob, read) == (reg', Success(Some(reg'.reports[name])))
  {
  }

  /** Loading a new name whose file creates a fresh table gives a report
      whose length is the file's number of body records. */
  lemma LoadFreshLength(reg: Registry, name: string, index: Option<string>,
                        glob: string -> seq<string>, read: string -> CsvFile)
    requires Loadable(reg, name, glob, read)
    requires Resolve(reg, name, glob).Some? && name !in reg.reports
    requires var file := read(Resolve(reg, name, glob).value);
      Creates(reg.store, TableName(file.info, Some(name)), Columns(file.headers))
    ensures var (reg', res) := Load(reg, name, index, glob, read);
      Len(reg'.reports[name], reg'.store) == Success(|read(Resolve(reg, name, glob).value).body|)
  {
    var p := Resolve(reg, name, glob).value;
    var file := read(p);
    OpenFreshTable(p, file, Some(name), reg.store);
    var built := Open(p, file, Some(name), reg.store);
    var res := Cache(reg, name, index, built.0, built.1);
    assert Load(reg, name, index, glob, read) == res;
    assert res.0.reports[name].table == built.0.table;
    assert Len(res.0.reports[name], res.0.store) == Len(built.0, built.1);
  }

  /** `__getattr__`, which Python reaches only for names that are not the
      object's own attributes: names starting with `__` are not reports;
      any other name is `load(name)`. */
  function Attr(reg: Registry, name: string, glob: string -> seq<string>, read: string -> CsvFile)
    : (res: (Registry, Result<Option<Report>, Error>))
    requires !(|name| >= 2 && name[..2] == "__") ==> Loadable(reg, name, glob, read)
    ensures |name| >= 2 && name[..2] == "__" ==> res == (reg, Failure(NoSuchAttribute))
    ensures !(|name| >= 2 && name[..2] == "__") ==> res == Load(reg, name, None, glob, read)
    ensures !(|name| >= 2 && name[..2] == "__") ==> res.1.Success?
    ensures !(|name| >= 2 && name[..2] == "__") && Resolve(reg, name, glob).Some? ==>
      && res.1 == Success(Some(res.0.reports[name]))
      && res.0.reports.Keys == reg.reports.Keys + {name}
    ensures !(|name| >= 2 && name[..2] == "__") && Resolve(reg, name, glob).None? ==> res == (reg, Success(None))
  {
    if |name| >= 2 && name[..2] == "__" then (reg, Failure(NoSuchAttribute))
    else Load(reg, name, None, glob, read)
  }
}
