/** Metadata lookup, table naming and column normalisation of a report
    file (`Report._info`, the naming part of `Report._load_csv`,
    `Report._column`).
 */
module Schema {
  import opened Wrappers
  import opened Strings

  /** Position of the first occurrence of `x` in `s`, as `list.index`. */
  function IndexOf(s: seq<string>, x: string): (i: nat)
    requires x in s
    ensures i < |s| && s[i] == x
    ensures forall j :: 0 <= j < i ==> s[j] != x
  {
    if s[0] == x then 0
    else
      var j := IndexOf(s[1..], x);
      assert forall k :: 1 <= k <= j ==> s[k] == s[1..][k - 1];
      j + 1
  }

  /** The metadata value that follows the first occurrence of `key`, or
      nothing when `key` is absent or that occurrence is the last element. */
  function Info(info: seq<string>, key: string): (r: Option<string>)
    ensures r.Some? <==> exists j :: 0 <= j < |info| - 1 && info[j] == key
    ensures r.Some? ==> exists j :: 0 <= j < |info| - 1 && info[j] == key && key !in info[..j] && r.value == info[j + 1]
  {
    if key in info && |info| > IndexOf(info, key) + 1 then
      Some(info[IndexOf(info, key) + 1])
    else
      None
  }

  /** A table name was supplied and is not empty (Python's `if not self.table`
      treats `None` and `''` alike). */
  predicate Explicit(table: Option<string>) {
    table.Some? && table.value != ""
  }

  /** The table a report file is stored in: the supplied name, or else the
      metadata `Report` value with every `.` and then every `-` replaced by `_`. */
  function TableName(info: seq<string>, table: Option<string>): (r: string)
    requires Explicit(table) || Info(info, "Report").Some?
    ensures Explicit(table) ==> r == table.value
    ensures !Explicit(table) ==>
      var v := Info(info, "Report").value;
      && |r| == |v|
      && forall i :: 0 <= i < |v| ==> r[i] == (if v[i] == '.' || v[i] == '-' then '_' else v[i])
    ensures !Explicit(table) ==> '.' !in r && '-' !in r
  {
    if Explicit(table) then table.value
    else ReplaceChar(ReplaceChar(Info(info, "Report").value, '.', '_'), '-', '_')
  }

  /** The positional storage names `c0 .. c(n-1)`. */
  function Coded(n: nat): (r: seq<string>)
    ensures |r| == n
  {
    seq(n, i requires 0 <= i < n => "c" + Decimal(i))
  }

  /** Headers with some character outside `[A-Za-z0-9_]`. */
  predicate HasNonWord(headers: seq<string>) {
    exists i, j :: 0 <= i < |headers| && 0 <= j < |headers[i]| && !IsWordChar(headers[i][j])
  }

  /** Storage column names for a header row: the headers themselves when
      their concatenation has no `\W` character, positional names otherwise. */
  function Columns(headers: seq<string>): (r: seq<string>)
    ensures |r| == |headers|
    ensures forall i :: 0 <= i < |r| ==> AllWord(r[i])
    ensures HasNonWord(headers) ==> forall i :: 0 <= i < |r| ==> r[i] == "c" + Decimal(i)
    ensures !HasNonWord(headers) ==> r == headers
  {
    AllWordJoin(headers);
    if AllWord(Join(headers)) then headers
    else
      var r := Coded(|headers|);
      assert forall i :: 0 <= i < |r| ==> AllWord(r[i]) by {
        forall i | 0 <= i < |r|
          ensures AllWord(r[i])
        {
          var d := Decimal(i);
          assert r[i] == "c" + d;
          assert forall k :: 0 <= k < |d| ==> IsWordChar(d[k]);
        }
      }
      r
  }

  /** Normalising already-normalised columns changes nothing. */
  lemma ColumnsIdempotent(headers: seq<string>)
    ensures Columns(Columns(headers)) == Columns(headers)
  {
    var c := Columns(headers);
    assert forall i, j :: 0 <= i < |c| && 0 <= j < |c[i]| ==> IsWordChar(c[i][j]);
  }

  /** No two names are equal once ASCII case is ignored, which is the
      condition under which the store accepts them as one table's columns. */
  predicate DistinctCaseless(names: seq<string>) {
    forall i, j :: 0 <= i < j < |names| ==> Lower(names[i]) != Lower(names[j])
  }

  /** The positional names never clash, whatever their number. */
  lemma CodedDistinct(n: nat)
    ensures DistinctCaseless(Coded(n))
  {
    var c := Coded(n);
    forall i, j | 0 <= i < j < n
      ensures Lower(c[i]) != Lower(c[j])
    {
      LowerOfCoded(i);
      LowerOfCoded(j);
      if c[i] == c[j] {
        assert Decimal(i) == c[i][1..] == c[j][1..] == Decimal(j);
        DecimalInjective(i, j);
      }
    }
  }

  lemma LowerOfCoded(i: nat)
    ensures Lower("c" + Decimal(i)) == "c" + Decimal(i)
  {
    var s := "c" + Decimal(i);
    forall k | 0 <= k < |s|
      ensures LowerChar(s[k]) == s[k]
    {
      if k > 0 {
        assert s[k] == Decimal(i)[k - 1];
      }
    }
  }

  /** So the store can only refuse verbatim headers for clashing names. */
  lemma CodedColumnsDistinct(headers: seq<string>)
    requires HasNonWord(headers)
    ensures DistinctCaseless(Columns(headers))
  {
    CodedDistinct(|headers|);
    assert Columns(headers) == Coded(|headers|);
  }

  /** Position of the first name equal to `key` ignoring ASCII case. Used
      both for a report's headers and for the store's column lookup. */
  function FirstCaseless(names: seq<string>, key: string): (r: Option<nat>)
    ensures r.Some? ==> r.value < |names| && Lower(names[r.value]) == Lower(key)
    ensures r.Some? ==> forall i :: 0 <= i < r.value ==> Lower(names[i]) != Lower(key)
    ensures r.None? <==> forall i :: 0 <= i < |names| ==> Lower(names[i]) != Lower(key)
  {
    if |names| == 0 then None
    else if Lower(names[0]) == Lower(key) then Some(0)
    else
      match FirstCaseless(names[1..], key)
      case None =>
        assert forall i :: 1 <= i < |names| ==> names[i] == names[1..][i - 1];
        None
      case Some(j) =>
        assert forall i :: 1 <= i <= j ==> names[i] == names[1..][i - 1];
        Some(j + 1)
  }

  /** Storage column for a header name given in any case (`_column`);
      nothing when no header matches. */
  function Column(headers: seq<string>, columns: seq<string>, key: string): (r: Option<string>)
    requires |columns| == |headers|
    ensures r.Some? <==> exists i :: 0 <= i < |headers| && Lower(headers[i]) == Lower(key)
    ensures r.Some? ==>
      exists i :: 0 <= i < |headers| && Lower(headers[i]) == Lower(key)
        && (forall h :: 0 <= h < i ==> Lower(headers[h]) != Lower(key))
        && r.value == columns[i]
  {
    match FirstCaseless(headers, key)
    case None => None
    case Some(i) => Some(columns[i])
  }

  /** When names are pairwise distinct, looking up a name finds its own position. */
  lemma FirstCaselessOfDistinct(names: seq<string>, i: nat)
    requires DistinctCaseless(names) && i < |names|
    ensures FirstCaseless(names, names[i]) == Some(i)
  {
  }

  /** Header lookup only depends on the key's lower-cased form. */
  lemma ColumnCaseInsensitive(headers: seq<string>, columns: seq<string>, a: string, b: string)
    requires |columns| == |headers| && Lower(a) == Lower(b)
    ensures Column(headers, columns, a) == Column(headers, columns, b)
  {
    FirstCaselessCaseInsensitive(headers, a, b);
  }

  lemma {:induction false} FirstCaselessCaseInsensitive(names: seq<string>, a: string, b: string)
    requires Lower(a) == Lower(b)
    ensures FirstCaseless(names, a) == FirstCaseless(names, b)
  {
    if |names| > 0 {
      FirstCaselessCaseInsensitive(names[1..], a, b);
    }
  }
}
