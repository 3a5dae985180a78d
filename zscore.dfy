/** `zscore(series)`: `(series - series.mean()) / series.std(ddof=0)`, with
    pandas' NaN handling: the mean and the population standard deviation are
    taken over the present values only, a missing value stays missing, and
    a zero standard deviation (0 / 0 in floating point) makes every value
    missing. */
module ZScores {
  import opened Cells

  /** `(x - m) / d` for each present `x`. */
  function Standardize(s: seq<Cell>, m: real, d: real): (z: seq<Cell>)
    requires d != 0.0
    ensures |z| == |s|
  {
    if s == [] then []
    else [if s[0].Some? then Some((s[0].value - m) / d) else None] + Standardize(s[1..], m, d)
  }

  /** A column of `n` missing cells. */
  function AllMissing(n: nat): (z: seq<Cell>)
    ensures |z| == n && Count(z) == 0
  {
    if n == 0 then [] else [None] + AllMissing(n - 1)
  }

  function ZScore(col: seq<Cell>, sqrt: real -> real): (z: seq<Cell>)
    requires IsSqrt(sqrt)
    ensures |z| == |col|
  {
    var sd := Std(col, 0, sqrt);
    if sd.None? || sd.value == 0.0 then AllMissing(|col|)
    else Standardize(col, Mean(col), sd.value)
  }

  /** A missing input stays missing; the output is all missing exactly when
      the present inputs have zero spread; otherwise it is present exactly
      where the input is. */
  lemma ZScorePresence(col: seq<Cell>, sqrt: real -> real)
    requires IsSqrt(sqrt)
    ensures var z := ZScore(col, sqrt);
      && (forall i :: 0 <= i < |col| && col[i].None? ==> z[i].None?)
      && ((forall i :: 0 <= i < |z| ==> z[i].None?) <==> ZeroSpread(col))
      && (!ZeroSpread(col) ==> forall i :: 0 <= i < |col| ==> (z[i].Some? <==> col[i].Some?))
  {
    var sd := Std(col, 0, sqrt);
    CountBounds(col);
    if sd.None? || sd.value == 0.0 {
      CountBounds(AllMissing(|col|));
    } else {
      StandardizeAt(col, Mean(col), sd.value);
    }
  }

  lemma {:induction false} StandardizeAt(s: seq<Cell>, m: real, d: real)
    requires d != 0.0
    ensures forall i :: 0 <= i < |s| ==> (Standardize(s, m, d)[i].Some? <==> s[i].Some?)
    ensures forall i :: 0 <= i < |s| && s[i].Some? ==> Standardize(s, m, d)[i] == Some((s[i].value - m) / d)
  {
    if s != [] {
      StandardizeAt(s[1..], m, d);
      assert forall i :: 1 <= i < |s| ==> Standardize(s, m, d)[i] == Standardize(s[1..], m, d)[i - 1];
    }
  }

  /** A nonzero spread needs present values and gives a present, nonzero
      population standard deviation; the z-scores are then the values
      standardized by their mean and that standard deviation. */
  lemma ZScoreStandardizes(col: seq<Cell>, sqrt: real -> real)
    requires IsSqrt(sqrt) && !ZeroSpread(col)
    ensures Count(col) > 0 && Std(col, 0, sqrt).Some? && Std(col, 0, sqrt).value != 0.0
    ensures ZScore(col, sqrt) == Standardize(col, Mean(col), Std(col, 0, sqrt).value)
  {
    CountBounds(col);
  }

  /** Where the spread is not zero, each present value `x` becomes
      `(x - mean) / std`, with the mean and the population standard
      deviation of the present values. */
  lemma ZScoreValue(col: seq<Cell>, sqrt: real -> real, i: nat)
    requires IsSqrt(sqrt) && !ZeroSpread(col)
    requires i < |col| && col[i].Some?
    ensures Count(col) > 0 && Std(col, 0, sqrt).Some? && Std(col, 0, sqrt).value != 0.0
    ensures ZScore(col, sqrt)[i] == Some((col[i].value - Mean(col)) / Std(col, 0, sqrt).value)
  {
    ZScoreStandardizes(col, sqrt);
    StandardizeAt(col, Mean(col), Std(col, 0, sqrt).value);
  }

  /** Where the spread is zero, every z-score is missing. */
  lemma ZScoreZeroSpread(col: seq<Cell>, sqrt: real -> real)
    requires IsSqrt(sqrt) && ZeroSpread(col)
    ensures ZScore(col, sqrt) == AllMissing(|col|)
  {
  }

  /** Values standardized around their own mean sum to zero. */
  lemma CenteredSum(s: seq<Cell>, d: real)
    requires Count(s) > 0 && d != 0.0
    ensures Sum(Standardize(s, Mean(s), d)) == 0.0
  {
    var m, n := Mean(s), Count(s) as real;
    SumDevIdentity(s, m);
    DeviationFromMean(Sum(s), n, SumDev(s, m));
    StandardizedSum(s, m, d);
  }

  lemma DeviationFromMean(sum: real, n: real, dev: real)
    requires n != 0.0 && dev == sum - (sum / n) * n
    ensures dev == 0.0
  {
    QuotientTimesDivisor(sum, n);
  }

  /** The present z-scores sum to zero, in every case. */
  lemma ZScoreSumZero(col: seq<Cell>, sqrt: real -> real)
    requires IsSqrt(sqrt)
    ensures Sum(ZScore(col, sqrt)) == 0.0
  {
    if ZeroSpread(col) {
      ZScoreZeroSpread(col, sqrt);
      SumOfNoneIsZero(AllMissing(|col|));
    } else {
      ZScoreStandardizes(col, sqrt);
      CenteredSum(col, Std(col, 0, sqrt).value);
    }
  }

  /** Where the spread is not zero, the z-scores are present exactly where
      the input is, their mean is 0 and their population variance is 1. */
  lemma ZScoreMoments(col: seq<Cell>, sqrt: real -> real)
    requires IsSqrt(sqrt) && !ZeroSpread(col)
    ensures var z := ZScore(col, sqrt);
      && Count(z) == Count(col) > 0
      && Mean(z) == 0.0
      && SumSqDev(z, Mean(z)) == Count(z) as real
  {
    ZScoreStandardizes(col, sqrt);
    var sd := Std(col, 0, sqrt).value;
    var m := Mean(col);
    StandardizedCount(col, m, sd);
    CenteredSum(col, sd);
    StandardizedSumSq(col, m, sd);
    QuotientOfVariance(SumSqDev(col, m), sd, Count(col) as real);
  }

  lemma {:induction false} StandardizedCount(s: seq<Cell>, m: real, d: real)
    requires d != 0.0
    ensures Count(Standardize(s, m, d)) == Count(s)
  {
    if s != [] {
      StandardizedCount(s[1..], m, d);
    }
  }

  lemma {:induction false} SumOfNoneIsZero(s: seq<Cell>)
    requires Count(s) == 0
    ensures Sum(s) == 0.0
  {
    if s != [] {
      SumOfNoneIsZero(s[1..]);
    }
  }

  /** Sum of the deviations `x - m` over the present cells. */
  function SumDev(s: seq<Cell>, m: real): real {
    if s == [] then 0.0 else (if s[0].Some? then s[0].value - m else 0.0) + SumDev(s[1..], m)
  }

  lemma {:induction false} SumDevIdentity(s: seq<Cell>, m: real)
    ensures SumDev(s, m) == Sum(s) - m * (Count(s) as real)
  {
    if s != [] {
      var t := s[1..];
      SumDevIdentity(t, m);
      if s[0].Some? {
        OneMore(m, Count(t) as real);
      }
    }
  }

  /** Summing standardized values: `sum((x - m) / d) == sum(x - m) / d`. */
  lemma {:induction false} StandardizedSum(s: seq<Cell>, m: real, d: real)
    requires d != 0.0
    ensures Sum(Standardize(s, m, d)) == SumDev(s, m) / d
  {
    if s != [] {
      var t := s[1..];
      StandardizedSum(t, m, d);
      if s[0].Some? {
        SumOfQuotients(s[0].value - m, SumDev(t, m), d);
      }
    }
  }

  /** `sum(((x - m) / d)^2) == sum((x - m)^2) / d^2`. */
  lemma {:induction false} StandardizedSumSq(s: seq<Cell>, m: real, d: real)
    requires d != 0.0
    ensures SumSqDev(Standardize(s, m, d), 0.0) == SumSqDev(s, m) / d / d
  {
    if s != [] {
      var t := s[1..];
      StandardizedSumSq(t, m, d);
      if s[0].Some? {
        SqOfQuotient(s[0].value - m, d);
        SumOfQuotients(Sq(s[0].value - m) / d, SumSqDev(t, m) / d, d);
        SumOfQuotients(Sq(s[0].value - m), SumSqDev(t, m), d);
      }
    }
  }

  lemma SumOfQuotients(a: real, b: real, d: real)
    requires d != 0.0
    ensures a / d + b / d == (a + b) / d
  {
  }

  lemma SqOfQuotient(a: real, d: real)
    requires d != 0.0
    ensures Sq(a / d) == Sq(a) / d / d
  {
    var q := a / d;
    QuotientTimesDivisor(a, d);
    SquareOfProduct(q, d);
    QuotientOfMultiple(Sq(a), Sq(q) * d, d);
    QuotientOfMultiple(Sq(a) / d, Sq(q), d);
  }

  lemma SquareOfProduct(q: real, d: real)
    ensures Sq(q * d) == (Sq(q) * d) * d
  {
  }

  lemma QuotientOfVariance(q: real, sd: real, n: real)
    requires sd != 0.0 && Sq(sd) * n == q
    ensures q / sd / sd == n
  {
    QuotientOfMultiple(q, n * sd, sd);
    QuotientOfMultiple(q / sd, n, sd);
  }
}
