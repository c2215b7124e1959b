/** The relational store behind reports, reduced to what the reports use.

    A table is its column names plus its rows in insertion order. Tables
    are filled once, by one bulk insert into a fresh table, so the row at
    0-based position `i` has ROWID `i + 1`. The store maps table names to
    tables; like SQLite it ignores ASCII case in table names, so it is keyed
    by the lower-cased name.
 */
module Tables {
  import opened Strings

  type Row = seq<string>

  datatype Table = Table(columns: seq<string>, rows: seq<Row>) {

    /** Every row has one value per column, as an SQL table guarantees. */
    predicate WellFormed() {
      forall x :: x in rows ==> |x| == |columns|
    }
  }

  predicate WellFormedStore(m: map<string, Table>) {
    forall k :: k in m ==> m[k].WellFormed()
  }

  type Store = m: map<string, Table> | WellFormedStore(m) witness map[]

  /** The store key of a table name. */
  function Key(name: string): string {
    Lower(name)
  }

  /** An equality condition: the value at column position `.0` is `.1`. */
  type Condition = (nat, string)

  /** `row` satisfies every condition (the `AND` of `col = 'value'` terms). */
  predicate Matches(row: Row, conds: set<Condition>) {
    forall c :: c in conds ==> c.0 < |row| && row[c.0] == c.1
  }

  /** The rows satisfying `conds`, in table order (`SELECT * ... WHERE ...`). */
  function Filter(rows: seq<Row>, conds: set<Condition>): (r: seq<Row>)
    ensures |r| <= |rows|
    ensures forall x :: x in r <==> x in rows && Matches(x, conds)
  {
    if |rows| == 0 then []
    else
      assert forall x :: x in rows <==> x == rows[0] || x in rows[1..];
      (if Matches(rows[0], conds) then [rows[0]] else []) + Filter(rows[1..], conds)
  }

  /** Filtering keeps table order: it distributes over concatenation. */
  lemma {:induction false} FilterAppend(a: seq<Row>, b: seq<Row>, conds: set<Condition>)
    ensures Filter(a + b, conds) == Filter(a, conds) + Filter(b, conds)
  {
    if |a| == 0 {
      assert a + b == b;
    } else {
      var head := if Matches(a[0], conds) then [a[0]] else [];
      assert (a + b)[0] == a[0];
      assert (a + b)[1..] == a[1..] + b;
      calc {
        Filter(a + b, conds);
        head + Filter(a[1..] + b, conds);
        { FilterAppend(a[1..], b, conds); }
        head + (Filter(a[1..], conds) + Filter(b, conds));
        (head + Filter(a[1..], conds)) + Filter(b, conds);
        Filter(a, conds) + Filter(b, conds);
      }
    }
  }

  /** When every row satisfies the conditions, filtering returns the table as is. */
  lemma {:induction false} FilterAll(rows: seq<Row>, conds: set<Condition>)
    requires forall i :: 0 <= i < |rows| ==> Matches(rows[i], conds)
    ensures Filter(rows, conds) == rows
  {
    if |rows| > 0 {
      FilterAll(rows[1..], conds);
    }
  }

  /** With no condition at all every row is returned. */
  lemma NoConditionKeepsAll(rows: seq<Row>)
    ensures Filter(rows, {}) == rows
  {
    FilterAll(rows, {});
  }

}
