/** Character-level helpers over `string` (a `seq<char>`).

    The program runs on Python 2 byte strings, so case folding and the
    regular-expression word class are the ASCII ones.
 */
module Strings {

  /** `c` belongs to the `\w` class of a non-Unicode Python regular
      expression: `[A-Za-z0-9_]`. */
  predicate IsWordChar(c: char) {
    ('a' <= c <= 'z') || ('A' <= c <= 'Z') || ('0' <= c <= '9') || c == '_'
  }

  /** No character of `s` would match `\W`. */
  predicate AllWord(s: string) {
    forall i :: 0 <= i < |s| ==> IsWordChar(s[i])
  }

  /** ASCII lower-casing of one character, as `str.lower()` does on bytes. */
  function LowerChar(c: char): char {
    if 'A' <= c <= 'Z' then (c as int - 'A' as int + 'a' as int) as char else c
  }

  function Lower(s: string): string {
    seq(|s|, i requires 0 <= i < |s| => LowerChar(s[i]))
  }

  /** `s.replace(a, b)` for one-character `a` and `b`. */
  function ReplaceChar(s: string, a: char, b: char): string {
    seq(|s|, i requires 0 <= i < |s| => if s[i] == a then b else s[i])
  }

  /** `''.join(parts)`. */
  function Join(parts: seq<string>): string {
    if |parts| == 0 then "" else parts[0] + Join(parts[1..])
  }

  /** The concatenation has no non-word character exactly when no part has one. */
  lemma {:induction false} AllWordJoin(parts: seq<string>)
    ensures AllWord(Join(parts)) <==> forall i :: 0 <= i < |parts| ==> AllWord(parts[i])
  {
    if |parts| > 0 {
      AllWordJoin(parts[1..]);
      var rest := Join(parts[1..]);
      assert Join(parts) == parts[0] + rest;
      if AllWord(Join(parts)) {
        assert forall j :: 0 <= j < |parts[0]| ==> Join(parts)[j] == parts[0][j];
        assert forall j :: 0 <= j < |rest| ==> Join(parts)[|parts[0]| + j] == rest[j];
        assert AllWord(rest);
        forall i | 0 <= i < |parts|
          ensures AllWord(parts[i])
        {
          if i > 0 {
            assert parts[i] == parts[1..][i - 1];
          }
        }
      }
      if forall i :: 0 <= i < |parts| ==> AllWord(parts[i]) {
        assert AllWord(parts[0]);
        assert forall i :: 0 <= i < |parts[1..]| ==> AllWord(parts[1..][i]) by {
          forall i | 0 <= i < |parts[1..]|
            ensures AllWord(parts[1..][i])
          {
            assert parts[1..][i] == parts[i + 1];
          }
        }
      }
    }
  }

  predicate IsDigit(c: char) {
    '0' as int <= c as int <= '9' as int
  }

  function Digit(d: nat): (c: char)
    requires d < 10
    ensures IsDigit(c) && (c as int) - ('0' as int) == d
  {
    (d + '0' as int) as char
  }

  /** `str(n)` for a natural number: decimal digits, no leading zero. */
  function Decimal(n: nat): (s: string)
    ensures |s| > 0
    ensures forall i :: 0 <= i < |s| ==> IsDigit(s[i])
    ensures s[0] == '0' ==> n == 0
  {
    if n < 10 then [Digit(n)] else Decimal(n / 10) + [Digit(n % 10)]
  }

  /** The value of a string of decimal digits. */
  function ParseDecimal(s: string): nat
    requires forall i :: 0 <= i < |s| ==> IsDigit(s[i])
  {
    if |s| == 0 then 0
    else
      assert IsDigit(s[|s| - 1]);
      ParseDecimal(s[..|s| - 1]) * 10 + ((s[|s| - 1] as int) - ('0' as int))
  }

  /** Reading back the decimal text of `n` gives `n`. */
  lemma {:induction false} DecimalRoundTrip(n: nat)
    ensures ParseDecimal(Decimal(n)) == n
  {
    var s := Decimal(n);
    if n >= 10 {
      DecimalRoundTrip(n / 10);
      assert s[..|s| - 1] == Decimal(n / 10);
    }
  }

  /** Different numbers have different decimal texts. */
  lemma DecimalInjective(m: nat, n: nat)
    requires Decimal(m) == Decimal(n)
    ensures m == n
  {
    DecimalRoundTrip(m);
    DecimalRoundTrip(n);
  }
}
