/**
  The statistics the duplicate-parts view computes over the difference
  values of one group: sum, mean, population variance, minimum, maximum,
  range, the coefficient of variation (kept as its square, so that no
  square root is needed) and the colour and percentage each row of the
  count matrix shows for its distance from the mean.
*/
module Dispersion {

  /** `values.reduce((sum, val) => sum + val, 0)` */
  function Sum(v: seq<real>): real
  {
    if v == [] then 0.0 else v[0] + Sum(v[1..])
  }

  /** `sum / values.length` */
  function Mean(v: seq<real>): real
    requires |v| > 0
  {
    Sum(v) / |v| as real
  }

  function Product(a: real, b: real): (r: real)
    ensures a > 0.0 && b > 0.0 ==> r > 0.0
    ensures a < 0.0 && b < 0.0 ==> r > 0.0
  {
    a * b
  }

  /** `Math.pow(x, 2)`: never negative, and positive unless `x` is 0. */
  function Sq(x: real): (r: real)
    ensures r >= 0.0
    ensures x != 0.0 ==> r > 0.0
  {
    Product(x, x)
  }

  /** `values.reduce((sum, val) => sum + Math.pow(val - m, 2), 0)` */
  function SumSquares(v: seq<real>, m: real): real
  {
    if v == [] then 0.0 else Sq(v[0] - m) + SumSquares(v[1..], m)
  }

  /** Population variance: the squared deviations divided by n. */
  function Variance(v: seq<real>): real
    requires |v| > 0
  {
    SumSquares(v, Mean(v)) / |v| as real
  }

  /** `Math.min(...values)` */
  function Min(v: seq<real>): real
    requires |v| > 0
  {
    if |v| == 1 then v[0]
    else
      var m := Min(v[1..]);
      if v[0] <= m then v[0] else m
  }

  /** `Math.max(...values)` */
  function Max(v: seq<real>): real
    requires |v| > 0
  {
    if |v| == 1 then v[0]
    else
      var m := Max(v[1..]);
      if v[0] >= m then v[0] else m
  }

  /** The square of `coefficientOfVariation`: `(sqrt(variance) / |mean| * 100)^2`,
      or 0 when the mean is 0 and the division is skipped. */
  function CvSquared(mean: real, variance: real): real
  {
    if mean != 0.0 then variance / (mean * mean) * 10000.0 else 0.0
  }

  /** The statistics of one duplicate group. */
  datatype Stats = Stats(mean: real, variance: real, cvSquared: real, min: real, max: real, range: real)

  /** The statistics record of a non-empty list of values, with the
      relations between its fields that hold for every input. */
  function Describe(v: seq<real>): (s: Stats)
    requires |v| > 0
    ensures s.variance >= 0.0 && s.cvSquared >= 0.0
    ensures s.min <= s.mean <= s.max
    ensures s.range == s.max - s.min && s.range >= 0.0
    ensures s.min in v && s.max in v
    ensures s.mean == 0.0 ==> s.cvSquared == 0.0
    ensures s == Stats(Mean(v), Variance(v), CvSquared(Mean(v), Variance(v)), Min(v), Max(v), Max(v) - Min(v))
  {
    VarianceNonNegative(v);
    MeanBetween(v);
    MinIsMember(v);
    MaxIsMember(v);
    var mean := Mean(v);
    var variance := Variance(v);
    CvNonNegative(mean, variance);
    Stats(mean, variance, CvSquared(mean, variance), Min(v), Max(v), Max(v) - Min(v))
  }

  // ---------------------------------------------------------------------
  // Facts about the building blocks

  lemma {:induction false} SumSquaresNonNegative(v: seq<real>, m: real)
    ensures SumSquares(v, m) >= 0.0
  {
    if v != [] {
      SumSquaresNonNegative(v[1..], m);
    }
  }

  lemma VarianceNonNegative(v: seq<real>)
    requires |v| > 0
    ensures Variance(v) >= 0.0
  {
    SumSquaresNonNegative(v, Mean(v));
  }

  lemma CvNonNegative(mean: real, variance: real)
    requires variance >= 0.0
    ensures CvSquared(mean, variance) >= 0.0
    ensures CvSquared(mean, variance) == 0.0 <==> mean == 0.0 || variance == 0.0
  {
    if mean != 0.0 {
      var q := variance / (mean * mean);
      assert q * (mean * mean) == variance;
      if variance != 0.0 {
        assert q != 0.0;
      }
    }
  }

  /** No value is below the minimum. */
  lemma {:induction false} MinIsLowest(v: seq<real>, i: nat)
    requires i < |v|
    ensures Min(v) <= v[i]
  {
    if |v| > 1 && i > 0 {
      MinIsLowest(v[1..], i - 1);
    }
  }

  lemma {:induction false} MinIsMember(v: seq<real>)
    requires |v| > 0
    ensures Min(v) in v
  {
    if |v| > 1 {
      MinIsMember(v[1..]);
    }
  }

  /** No value is above the maximum. */
  lemma {:induction false} MaxIsHighest(v: seq<real>, i: nat)
    requires i < |v|
    ensures v[i] <= Max(v)
  {
    if |v| > 1 && i > 0 {
      MaxIsHighest(v[1..], i - 1);
    }
  }

  lemma {:induction false} MaxIsMember(v: seq<real>)
    requires |v| > 0
    ensures Max(v) in v
  {
    if |v| > 1 {
      MaxIsMember(v[1..]);
    }
  }

  /** Values that are all at least `lo` sum to at least `n*lo`. */
  lemma {:induction false} SumAtLeast(v: seq<real>, lo: real)
    requires forall i :: 0 <= i < |v| ==> lo <= v[i]
    ensures |v| as real * lo <= Sum(v)
  {
    if v != [] {
      SumAtLeast(v[1..], lo);
    }
  }

  /** Values that are all at most `hi` sum to at most `n*hi`. */
  lemma {:induction false} SumAtMost(v: seq<real>, hi: real)
    requires forall i :: 0 <= i < |v| ==> v[i] <= hi
    ensures Sum(v) <= |v| as real * hi
  {
    if v != [] {
      SumAtMost(v[1..], hi);
    }
  }

  /** Values at least `lo`, one of them above it, sum to more than `n*lo`. */
  lemma {:induction false} SumAbove(v: seq<real>, lo: real, k: nat)
    requires forall i :: 0 <= i < |v| ==> lo <= v[i]
    requires k < |v| && v[k] > lo
    ensures Sum(v) > |v| as real * lo
  {
    var t := v[1..];
    var n := |t| as real;
    assert forall i :: 0 <= i < |t| ==> lo <= t[i] by {
      forall i | 0 <= i < |t|
        ensures lo <= t[i]
      {
        assert t[i] == v[i + 1];
      }
    }
    if k == 0 {
      SumAtLeast(t, lo);
    } else {
      assert t[k - 1] == v[k];
      SumAbove(t, lo, k - 1);
    }
    assert Sum(v) == v[0] + Sum(t);
    assert |v| as real * lo == n * lo + lo;
  }

  /** Dividing by a positive count keeps a bound: `n*lo <= x` gives `lo <= x/n`. */
  lemma DivideBounds(x: real, n: real, lo: real, hi: real)
    requires n > 0.0 && n * lo <= x <= n * hi
    ensures lo <= x / n <= hi
  {
    var q := x / n;
    assert x == q * n;
  }

  /** The mean lies between the minimum and the maximum. */
  lemma MeanBetween(v: seq<real>)
    requires |v| > 0
    ensures Min(v) <= Mean(v) <= Max(v)
  {
    forall i | 0 <= i < |v|
      ensures Min(v) <= v[i] <= Max(v)
    {
      MinIsLowest(v, i);
      MaxIsHighest(v, i);
    }
    SumAtLeast(v, Min(v));
    SumAtMost(v, Max(v));
    DivideBounds(Sum(v), |v| as real, Min(v), Max(v));
  }

  /** One value away from `m` makes the sum of squared deviations positive. */
  lemma {:induction false} SumSquaresPositive(v: seq<real>, m: real, i: nat)
    requires i < |v| && v[i] != m
    ensures SumSquares(v, m) > 0.0
  {
    SumSquaresNonNegative(v[1..], m);
    if i > 0 {
      SumSquaresPositive(v[1..], m, i - 1);
    }
  }

  lemma {:induction false} SumSquaresOfConstant(v: seq<real>, m: real)
    requires forall i :: 0 <= i < |v| ==> v[i] == m
    ensures SumSquares(v, m) == 0.0
  {
    if v != [] {
      SumSquaresOfConstant(v[1..], m);
    }
  }

  /** All values equal exactly when the minimum is the maximum. */
  lemma ConstantIffNoRange(v: seq<real>)
    requires |v| > 0
    ensures Min(v) == Max(v) <==> forall i :: 0 <= i < |v| ==> v[i] == v[0]
  {
    if Min(v) == Max(v) {
      forall i | 0 <= i < |v|
        ensures v[i] == v[0]
      {
        MinIsLowest(v, i);
        MaxIsHighest(v, i);
        MinIsLowest(v, 0);
        MaxIsHighest(v, 0);
      }
    } else {
      MinIsMember(v);
      MaxIsMember(v);
    }
  }

  /** The variance is zero exactly when the range is zero, that is when the
      group's difference values all agree. */
  lemma VarianceZeroIff(v: seq<real>)
    requires |v| > 0
    ensures Variance(v) == 0.0 <==> Max(v) - Min(v) == 0.0
  {
    var n := |v| as real;
    var m := Mean(v);
    ConstantIffNoRange(v);
    if Variance(v) == 0.0 {
      assert SumSquares(v, m) == Variance(v) * n;
      MinIsMember(v);
      MaxIsMember(v);
      var i :| 0 <= i < |v| && v[i] == Min(v);
      var j :| 0 <= j < |v| && v[j] == Max(v);
      if v[i] != m {
        SumSquaresPositive(v, m, i);
        assert false;
      }
      if v[j] != m {
        SumSquaresPositive(v, m, j);
        assert false;
      }
    }
    if Max(v) - Min(v) == 0.0 {
      var c := v[0];
      SumAtLeast(v, c);
      SumAtMost(v, c);
      DivideBounds(Sum(v), n, c, c);
      SumSquaresOfConstant(v, m);
    }
  }

  // ---------------------------------------------------------------------
  // The per-row deviation shown in the count matrix

  /** The colour of a row's variance cell. */
  datatype Tone = Green | Red | Black

  /** `countVariance > 0 ? 'green' : countVariance < 0 ? 'red' : 'black'` */
  function DeviationTone(count: real, mean: real): (t: Tone)
    ensures t == Green <==> count > mean
    ensures t == Red <==> count < mean
  {
    var d := count - mean;
    if d > 0.0 then Green else if d < 0.0 then Red else Black
  }

  function Abs(x: real): real
  {
    if x < 0.0 then -x else x
  }

  /** The shown percentage before `toFixed(2)`: the deviation relative to
      `|mean|`, or 0 when the mean is 0 and the division is skipped. */
  function DeviationPercent(count: real, mean: real): (p: real)
    ensures mean == 0.0 ==> p == 0.0
    ensures mean != 0.0 ==> (p > 0.0 <==> count > mean) && (p < 0.0 <==> count < mean)
  {
    if mean != 0.0 then
      assert Abs(mean) > 0.0;
      (count - mean) / Abs(mean) * 100.0
    else 0.0
  }

  /** Deviations from the mean balance out: when one row of a group shows
      green, another row shows red. */
  lemma GreenHasRed(v: seq<real>, i: nat)
    requires i < |v| && DeviationTone(v[i], Mean(v)) == Green
    ensures exists j :: 0 <= j < |v| && DeviationTone(v[j], Mean(v)) == Red
  {
    var m := Mean(v);
    var n := |v| as real;
    assert Sum(v) == m * n;
    if forall j :: 0 <= j < |v| ==> m <= v[j] {
      SumAbove(v, m, i);
      assert false;
    }
    var j :| 0 <= j < |v| && v[j] < m;
    assert DeviationTone(v[j], m) == Red;
  }
}
