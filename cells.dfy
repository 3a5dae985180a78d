/** Numeric cells with an explicit missing value, and the NaN-skipping
    aggregates (count, sum, mean, standard deviation) that the pipeline uses. */
module Cells {

  datatype Option<+T> = None | Some(value: T)

  /** One cell of a table: a number, or missing (NaN in the source). */
  type Cell = Option<real>

  function Sq(x: real): real { x * x }

  /** The square-root function the standard deviation is built on. Only the
      property the pipeline relies on is assumed of it. */
  ghost predicate IsSqrt(sqrt: real -> real) {
    forall x: real :: 0.0 <= x ==> 0.0 <= sqrt(x) && Sq(sqrt(x)) == x
  }

  /** `a + b` with NaN propagation: a missing operand makes the sum missing. */
  function Add(a: Cell, b: Cell): Cell {
    if a.Some? && b.Some? then Some(a.value + b.value) else None
  }

  /** `w * a` with NaN propagation (NaN * 0 is still NaN). */
  function Scale(w: real, a: Cell): Cell {
    if a.Some? then Some(w * a.value) else None
  }

  /** Unary minus of a cell. */
  function Negate(a: Cell): Cell {
    if a.Some? then Some(-a.value) else None
  }

  /** Number of present (non-missing) cells (pandas `count`). */
  function Count(s: seq<Cell>): nat {
    if s == [] then 0 else (if s[0].Some? then 1 else 0) + Count(s[1..])
  }

  /** At most every cell is present; none is exactly when all are missing,
      and all are exactly when none is missing. */
  lemma {:induction false} CountBounds(s: seq<Cell>)
    ensures Count(s) <= |s|
    ensures Count(s) == 0 <==> forall i :: 0 <= i < |s| ==> s[i].None?
    ensures Count(s) == |s| <==> forall i :: 0 <= i < |s| ==> s[i].Some?
  {
    if s != [] {
      CountBounds(s[1..]);
      assert forall i :: 1 <= i < |s| ==> s[i] == s[1..][i - 1];
    }
  }

  /** Sum of the present cells; missing cells are skipped (pandas `sum`). */
  function Sum(s: seq<Cell>): real {
    if s == [] then 0.0
    else (if s[0].Some? then s[0].value else 0.0) + Sum(s[1..])
  }

  /** Sum of squared deviations from `m` over the present cells. */
  function SumSqDev(s: seq<Cell>, m: real): real {
    if s == [] then 0.0
    else (if s[0].Some? then Sq(s[0].value - m) else 0.0) + SumSqDev(s[1..], m)
  }

  /** Mean over the present cells (pandas `mean`, which skips NaN). */
  function Mean(s: seq<Cell>): real
    requires Count(s) > 0
  {
    Sum(s) / (Count(s) as real)
  }

  /** True when all present values are equal (including when there are none). */
  ghost predicate ZeroSpread(s: seq<Cell>) {
    forall i, k :: 0 <= i < |s| && 0 <= k < |s| && s[i].Some? && s[k].Some? ==> s[i].value == s[k].value
  }

  /** pandas `std(ddof=...)`: the square root of the sum of squared deviations
      divided by `n - ddof`, over the `n` present values; missing when
      `n <= ddof`. */
  function Std(s: seq<Cell>, ddof: nat, sqrt: real -> real): (r: Cell)
    requires IsSqrt(sqrt)
    ensures r.Some? <==> Count(s) > ddof
    ensures r.Some? ==> 0.0 <= r.value
    ensures r.Some? ==> Sq(r.value) * ((Count(s) - ddof) as real) == SumSqDev(s, Mean(s))
    ensures r.Some? ==> (r.value == 0.0 <==> ZeroSpread(s))
  {
    if Count(s) <= ddof then None
    else
      var q := SumSqDev(s, Mean(s));
      var n := (Count(s) - ddof) as real;
      var v := q / n;
      SumSqDevNonNegative(s, Mean(s));
      ZeroSpreadIffNoDeviation(s);
      QuotientTimesDivisor(q, n);
      SqZero(sqrt(v));
      Some(sqrt(v))
  }

  // Nonlinear facts, each over independent variables so that the solver
  // proves them once and callers reuse them as plain equalities.

  lemma ProductZero(a: real, b: real)
    requires a * b == 0.0
    ensures a == 0.0 || b == 0.0
  {
  }

  lemma SqNonNegative(x: real)
    ensures 0.0 <= Sq(x)
  {
  }

  lemma SqZero(x: real)
    ensures Sq(x) == 0.0 ==> x == 0.0
  {
    if Sq(x) == 0.0 {
      ProductZero(x, x);
    }
  }

  lemma QuotientTimesDivisor(a: real, d: real)
    requires d != 0.0
    ensures (a / d) * d == a
  {
  }

  lemma QuotientOfMultiple(a: real, c: real, n: real)
    requires n != 0.0 && a == c * n
    ensures a / n == c
  {
  }

  lemma {:induction false} SumSqDevNonNegative(s: seq<Cell>, m: real)
    ensures 0.0 <= SumSqDev(s, m)
  {
    if s != [] {
      SumSqDevNonNegative(s[1..], m);
      if s[0].Some? {
        SqNonNegative(s[0].value - m);
      }
    }
  }

  /** The squared deviations vanish exactly when every present value is `m`. */
  lemma {:induction false} NoDeviationIffAllAt(s: seq<Cell>, m: real)
    ensures SumSqDev(s, m) == 0.0 <==> forall i :: 0 <= i < |s| && s[i].Some? ==> s[i].value == m
  {
    if s != [] {
      var t := s[1..];
      NoDeviationIffAllAt(t, m);
      SumSqDevNonNegative(t, m);
      if s[0].Some? {
        SqNonNegative(s[0].value - m);
        SqZero(s[0].value - m);
      }
      assert forall i :: 0 <= i < |t| ==> t[i] == s[i + 1];
      if (s[0].Some? ==> s[0].value == m) && forall i :: 0 <= i < |t| && t[i].Some? ==> t[i].value == m {
        forall i | 0 <= i < |s| && s[i].Some? ensures s[i].value == m {
          if i > 0 { assert s[i] == t[i - 1]; }
        }
      }
    }
  }

  /** If every present value is `c`, the sum is `Count(s) * c`. */
  lemma {:induction false} SumOfConstant(s: seq<Cell>, c: real)
    requires forall i :: 0 <= i < |s| && s[i].Some? ==> s[i].value == c
    ensures Sum(s) == c * (Count(s) as real)
  {
    if s != [] {
      var t := s[1..];
      assert forall i :: 0 <= i < |t| && t[i].Some? ==> t[i].value == c by {
        forall i | 0 <= i < |t| && t[i].Some? ensures t[i].value == c {
          assert t[i] == s[i + 1];
        }
      }
      SumOfConstant(t, c);
      if s[0].Some? {
        OneMore(c, Count(t) as real);
      }
    }
  }

  lemma OneMore(c: real, k: real)
    ensures c + c * k == c * (k + 1.0)
  {
  }

  /** The mean of values that all equal `c` is `c`. */
  lemma MeanOfConstant(s: seq<Cell>, c: real)
    requires Count(s) > 0
    requires forall i :: 0 <= i < |s| && s[i].Some? ==> s[i].value == c
    ensures Mean(s) == c
  {
    SumOfConstant(s, c);
    QuotientOfMultiple(Sum(s), c, Count(s) as real);
  }

  /** The values have zero spread exactly when their squared deviations
      from the mean vanish. */
  lemma ZeroSpreadIffNoDeviation(s: seq<Cell>)
    requires Count(s) > 0
    ensures ZeroSpread(s) <==> SumSqDev(s, Mean(s)) == 0.0
  {
    NoDeviationIffAllAt(s, Mean(s));
    if ZeroSpread(s) {
      CountBounds(s);
      var i :| 0 <= i < |s| && s[i].Some?;
      MeanOfConstant(s, s[i].value);
    }
  }
}
