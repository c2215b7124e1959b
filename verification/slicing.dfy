/** Positional selection by ROWID arithmetic (`Report.__getitem__` with a
    slice).

    The row at 0-based position `i` has ROWID `p = i + 1`. A slice keeps the
    rows with `start < p <= stop` and, when a step is given,
    `p % step == (start + 1) % step`, where the left `%` is SQLite's
    (truncating) and the right one is Python's (flooring).
 */
module Slicing {
  import opened Wrappers

  /** Python's `a % b`: the remainder has the sign of the divisor. */
  function PyMod(a: int, b: int): (r: int)
    requires b != 0
    ensures b > 0 ==> 0 <= r < b
    ensures b < 0 ==> b < r <= 0
    ensures (a - r) % Abs(b) == 0
  {
    var m := Abs(b);
    if b > 0 then
      var q := a / m;
      MultipleMod(q, m);
      assert a - a % m == q * m;
      a % m
    else
      var q := (-a) / m;
      MultipleMod(-q, m);
      assert a + (-a) % m == (-q) * m;
      -((-a) % m)
  }

  /** SQLite's `a % b` on integers: the remainder has the sign of the dividend. */
  function SqlRem(a: int, b: int): (r: int)
    requires b != 0
    ensures a >= 0 ==> 0 <= r < Abs(b)
    ensures a < 0 ==> -Abs(b) < r <= 0
    ensures (a - r) % Abs(b) == 0
  {
    var m := Abs(b);
    if a >= 0 then
      var q := a / m;
      MultipleMod(q, m);
      assert a - a % m == q * m;
      a % m
    else
      var q := (-a) / m;
      MultipleMod(-q, m);
      assert a + (-a) % m == (-q) * m;
      -((-a) % m)
  }

  function Abs(b: int): int {
    if b < 0 then -b else b
  }

  /** A multiple of `m` leaves no remainder. */
  lemma MultipleMod(q: int, m: int)
    requires m > 0
    ensures (q * m) % m == 0
  {
    DivModUnique(q * m, m, q, 0);
  }

  /** ROWID `p` is selected by the slice `start:stop:step`. */
  predicate InSlice(p: int, start: int, stop: int, step: Option<int>)
    requires step != Some(0)
  {
    && start < p <= stop
    && (step.None? || SqlRem(p, step.value) == PyMod(start + 1, step.value))
  }

  /** The rows whose ROWIDs the slice selects, in ascending ROWID order. */
  function SliceRows<T>(rows: seq<T>, start: int, stop: int, step: Option<int>): (r: seq<T>)
    requires step != Some(0)
    ensures |r| <= |rows|
    decreases |rows|
  {
    if |rows| == 0 then []
    else
      var chosen := SliceRows(rows[..|rows| - 1], start, stop, step);
      if InSlice(|rows|, start, stop, step) then chosen + [rows[|rows| - 1]] else chosen
  }

  /** The slice holds exactly the rows whose ROWIDs it selects. */
  lemma {:induction false} SliceRowsMembers<T>(rows: seq<T>, start: int, stop: int, step: Option<int>)
    requires step != Some(0)
    ensures forall i :: 0 <= i < |rows| && InSlice(i + 1, start, stop, step) ==> rows[i] in SliceRows(rows, start, stop, step)
    ensures forall x :: x in SliceRows(rows, start, stop, step) ==>
      exists i :: 0 <= i < |rows| && InSlice(i + 1, start, stop, step) && rows[i] == x
  {
    if |rows| > 0 {
      var prefix := rows[..|rows| - 1];
      SliceRowsMembers(prefix, start, stop, step);
      assert forall i :: 0 <= i < |prefix| ==> prefix[i] == rows[i];
    }
  }

  /** The rows whose ROWID is `p` (`WHERE ROWID = p`): the single row at
      position `p - 1`, or none when no row has that ROWID. */
  function WithRowid<T>(rows: seq<T>, p: int): (r: seq<T>)
    ensures 1 <= p <= |rows| ==> r == [rows[p - 1]]
    ensures !(1 <= p <= |rows|) ==> r == []
    decreases |rows|
  {
    if |rows| == 0 then []
    else
      var prefix := rows[..|rows| - 1];
      assert 1 <= p <= |prefix| ==> prefix[p - 1] == rows[p - 1];
      WithRowid(prefix, p) + (if p == |rows| then [rows[|rows| - 1]] else [])
  }

  function Min(a: int, b: int): int {
    if a <= b then a else b
  }

  /** Python's reading of a slice: `count` rows taken every `step` positions
      from position `start`. */
  function Strided<T>(rows: seq<T>, start: nat, step: nat, count: nat): (r: seq<T>)
    requires step > 0
    requires count == 0 || start + (count - 1) * step < |rows|
    ensures |r| == count
  {
    if count == 0 then []
    else
      assert count - 1 == 0 || start + (count - 2) * step < |rows| by {
        assert (count - 2) * step == (count - 1) * step - step;
      }
      Strided(rows, start, step, count - 1) + [rows[start + (count - 1) * step]]
  }

  /** The `k`-th strided row is the row at position `start + k * step`. */
  lemma {:induction false} StridedAt<T>(rows: seq<T>, start: nat, step: nat, count: nat, k: nat)
    requires step > 0
    requires count == 0 || start + (count - 1) * step < |rows|
    requires k < count
    ensures start + k * step < |rows|
    ensures Strided(rows, start, step, count)[k] == rows[start + k * step]
  {
    if k < count - 1 {
      assert (count - 2) * step == (count - 1) * step - step;
      StridedAt(rows, start, step, count - 1, k);
    }
  }

  /** Only the rows up to the last strided position matter. */
  lemma {:induction false} StridedPrefix<T>(rows: seq<T>, n: nat, start: nat, step: nat, count: nat)
    requires step > 0 && n <= |rows|
    requires count == 0 || start + (count - 1) * step < n
    ensures Strided(rows[..n], start, step, count) == Strided(rows, start, step, count)
  {
    if count > 0 {
      assert (count - 2) * step == (count - 1) * step - step;
      StridedPrefix(rows, n, start, step, count - 1);
    }
  }

  /** `ceil(d / s)` for `d >= 0`. */
  function CeilDiv(d: nat, s: nat): nat
    requires s > 0
  {
    (d + s - 1) / s
  }

  /** Division is determined by any quotient/remainder pair. */
  lemma DivModUnique(a: int, b: int, q: int, r: int)
    requires b > 0 && a == q * b + r && 0 <= r < b
    ensures a / b == q && a % b == r
  {
    var q0, r0 := a / b, a % b;
    assert a == q0 * b + r0;
    var k := q - q0;
    assert k * b == r0 - r by {
      assert k * b == q * b - q0 * b;
    }
    if k >= 1 {
      MulAtLeast(k, b);
      assert false;
    } else if k <= -1 {
      assert (-k) * b == -(k * b);
      MulAtLeast(-k, b);
      assert false;
    }
  }

  lemma {:induction false} MulAtLeast(k: int, b: int)
    requires k >= 1 && b > 0
    ensures k * b >= b
  {
    if k > 1 {
      MulAtLeast(k - 1, b);
      assert k * b == (k - 1) * b + b;
    }
  }

  /** Growing the distance by one adds one strided row exactly when the
      distance is a multiple of the step. */
  lemma CeilDivStep(d: nat, s: nat)
    requires s > 0
    ensures CeilDiv(d + 1, s) == CeilDiv(d, s) + (if d % s == 0 then 1 else 0)
    ensures d % s == 0 ==> CeilDiv(d, s) * s == d
  {
    var q, r := d / s, d % s;
    assert d == q * s + r;
    DivModUnique(d + 1 + s - 1, s, q + 1, r);
    if r == 0 {
      DivModUnique(d + s - 1, s, q, s - 1);
    } else {
      DivModUnique(d + s - 1, s, q + 1, r - 1);
    }
  }

  /** ROWID `d + a` is aligned with `a` modulo `s` exactly when `s` divides `d`. */
  lemma AlignedIffMultiple(d: nat, a: nat, s: nat)
    requires s > 0
    ensures (d + a) % s == a % s <==> d % s == 0
  {
    var qa, ra := a / s, a % s;
    var qd, rd := d / s, d % s;
    assert a == qa * s + ra;
    assert d == qd * s + rd;
    assert d + a == (qa + qd) * s + (ra + rd);
    if ra + rd < s {
      DivModUnique(d + a, s, qa + qd, ra + rd);
    } else {
      DivModUnique(d + a, s, qa + qd + 1, ra + rd - s);
    }
  }

  /** How many rows `start:hi:step` selects among positions below `hi`. */
  function StrideCount(start: nat, hi: int, step: nat): (c: nat)
    requires step > 0
    ensures c == 0 || start + (c - 1) * step < hi
    ensures start < hi ==> c > 0
  {
    if hi <= start then 0
    else
      var d := hi - start;
      var c := CeilDiv(d, step);
      var q, r := (d + step - 1) / step, (d + step - 1) % step;
      assert d + step - 1 == q * step + r;
      assert (c - 1) * step == c * step - step;
      c
  }

  /** One more row at the end is selected exactly when its ROWID is. */
  lemma SliceRowsLast<T>(rows: seq<T>, start: int, stop: int, step: Option<int>)
    requires step != Some(0) && |rows| > 0
    ensures SliceRows(rows, start, stop, step)
         == SliceRows(rows[..|rows| - 1], start, stop, step)
          + (if InSlice(|rows|, start, stop, step) then [rows[|rows| - 1]] else [])
  {
  }

  /** The slice law: for a positive step and a non-negative start, the
      ROWID selection returns the rows at `start, start + step, ...`, which
      is `ceil((min(stop, len) - start) / step)` rows. */
  lemma {:induction false} SliceIsStrided<T>(rows: seq<T>, start: nat, stop: int, step: nat)
    requires step > 0
    ensures SliceRows(rows, start, stop, Some(step))
         == Strided(rows, start, step, StrideCount(start, Min(stop, |rows|), step))
  {
    var m := |rows|;
    if m > 0 {
      var prefix := rows[..m - 1];
      SliceIsStrided(prefix, start, stop, step);
      SliceRowsLast(rows, start, stop, Some(step));
      var c' := StrideCount(start, Min(stop, m - 1), step);
      var c := StrideCount(start, Min(stop, m), step);
      if stop <= m - 1 {
        assert c == c';
        StridedPrefix(rows, m - 1, start, step, c);
      } else if start >= m {
        assert c == 0 && c' == 0;
      } else {
        StrideGrows(rows, start, stop, step);
      }
    }
  }

  /** The step case of the slice law where the last row lies inside
      `start < p <= stop`: it is added exactly when it is aligned. */
  lemma StrideGrows<T>(rows: seq<T>, start: nat, stop: int, step: nat)
    requires step > 0 && start < |rows| <= stop
    ensures var m := |rows|;
      var c' := StrideCount(start, Min(stop, m - 1), step);
      Strided(rows[..m - 1], start, step, c')
        + (if InSlice(m, start, stop, Some(step)) then [rows[m - 1]] else [])
      == Strided(rows, start, step, StrideCount(start, Min(stop, m), step))
  {
    var m := |rows|;
    var d := m - 1 - start;
    var c' := StrideCount(start, Min(stop, m - 1), step);
    var c := StrideCount(start, Min(stop, m), step);
    CeilDivStep(d, step);
    AlignedIffMultiple(d, start + 1, step);
    assert c' == CeilDiv(d, step) && c == CeilDiv(d + 1, step);
    StridedPrefix(rows, m - 1, start, step, c');
    if d % step == 0 {
      assert start + c' * step == m - 1;
      assert InSlice(m, start, stop, Some(step));
      assert c == c' + 1;
    } else {
      assert !InSlice(m, start, stop, Some(step));
      assert c == c';
    }
  }

  /** The first position a slice can select: a negative start admits every
      ROWID from 1. */
  function Floor0(start: int): nat {
    if start < 0 then 0 else start
  }

  /** The contiguous run `lo .. hi` of `rows`, empty when `hi <= lo`. */
  function Run<T>(rows: seq<T>, lo: nat, hi: int): seq<T> {
    if lo < Min(hi, |rows|) then rows[lo..Min(hi, |rows|)] else []
  }

  /** Without a step the ROWID selection is the contiguous run of rows
      from `max(start, 0)` up to `min(stop, len)`. */
  lemma {:induction false} SliceWithoutStep<T>(rows: seq<T>, start: int, stop: int)
    ensures SliceRows(rows, start, stop, None) == Run(rows, Floor0(start), stop)
  {
    if |rows| > 0 {
      SliceWithoutStep(rows[..|rows| - 1], start, stop);
      SliceRowsLast(rows, start, stop, None);
      RunLast(rows, start, stop);
    }
  }

  /** The run over one more row gains that row exactly when its ROWID is in
      range. */
  lemma RunLast<T>(rows: seq<T>, start: int, stop: int)
    requires |rows| > 0
    ensures Run(rows, Floor0(start), stop)
         == Run(rows[..|rows| - 1], Floor0(start), stop)
          + (if InSlice(|rows|, start, stop, None) then [rows[|rows| - 1]] else [])
  {
    var m := |rows|;
    var lo := Floor0(start);
    var prefix := rows[..m - 1];
    if lo < Min(stop, m) && stop >= m {
      if lo < m - 1 {
        assert rows[lo..m] == prefix[lo..m - 1] + [rows[m - 1]];
      } else {
        assert rows[lo..m] == [rows[m - 1]];
      }
    } else if lo < Min(stop, m) {
      assert prefix[lo..stop] == rows[lo..stop];
    }
  }

  /** Two slices that select the same ROWIDs among the rows return the same rows. */
  lemma {:induction false} SliceRowsSameSelection<T>(rows: seq<T>, a: int, b: int, stop: int, step: Option<int>)
    requires step != Some(0)
    requires forall p :: 1 <= p <= |rows| ==> (InSlice(p, a, stop, step) <==> InSlice(p, b, stop, step))
    ensures SliceRows(rows, a, stop, step) == SliceRows(rows, b, stop, step)
  {
    if |rows| > 0 {
      SliceRowsSameSelection(rows[..|rows| - 1], a, b, stop, step);
    }
  }

  /** A negative start selects the same ROWIDs as the first non-negative
      start in its class modulo the step. */
  lemma NegativeStartSelection(p: int, start: int, stop: int, step: int)
    requires start < 0 < step && p >= 1
    ensures InSlice(p, start, stop, Some(step)) <==> InSlice(p, start % step, stop, Some(step))
  {
    var s := start % step;
    var q := start / step;
    assert start == q * step + s;
    assert start + 1 == q * step + (s + 1);
    if s + 1 < step {
      DivModUnique(start + 1, step, q, s + 1);
      DivModUnique(s + 1, step, 0, s + 1);
    } else {
      DivModUnique(start + 1, step, q + 1, 0);
      DivModUnique(s + 1, step, 1, 0);
    }
    assert PyMod(start + 1, step) == PyMod(s + 1, step);
    if SqlRem(p, step) == PyMod(s + 1, step) && p <= s {
      DivModUnique(p, step, 0, p);
    }
  }

  /** A negative start and `start % step` select the same rows. */
  lemma NegativeStartSameRows<T>(rows: seq<T>, start: int, stop: int, step: nat)
    requires start < 0 < step
    ensures SliceRows(rows, start, stop, Some(step)) == SliceRows(rows, start % step, stop, Some(step))
  {
    forall p | 1 <= p <= |rows|
      ensures InSlice(p, start, stop, Some(step)) <==> InSlice(p, start % step, stop, Some(step))
    {
      NegativeStartSelection(p, start, stop, step);
    }
    SliceRowsSameSelection(rows, start, start % step, stop, Some(step));
  }

  /** The slice law for a negative start and a positive step: the selection
      is the strided reading from `start % step`, the first position whose
      ROWID the step's remainder admits. */
  lemma SliceNegativeStart<T>(rows: seq<T>, start: int, stop: int, step: nat)
    requires start < 0 < step
    ensures SliceRows(rows, start, stop, Some(step))
         == Strided(rows, start % step, step, StrideCount(start % step, Min(stop, |rows|), step))
  {
    NegativeStartSameRows(rows, start, stop, step);
    SliceIsStrided(rows, start % step, stop, step);
  }
}
