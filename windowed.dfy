/** The trailing-window statistics of src/main.rs: `ts_mean`, `ts_std_dev`
    and `ts_diff`. Each fills a zero-initialised buffer of the input's length
    index by index, with a cold-start rule for indices below `interval`.
    Past it, `ts_mean` and `ts_std_dev` work over the half-open window
    `v[i - interval .. i]`, which leaves out the current sample, and
    `ts_diff` subtracts `v[i - interval]` from the current sample. */
module Windowed {
  import opened Series

  /** `r` is `ts_mean(v, interval)`: the sample itself during cold start,
      the average of the `interval` samples before `i` otherwise. */
  ghost predicate IsTrailingMean(v: seq<real>, interval: nat, r: seq<real>)
  {
    && interval >= 1
    && |r| == |v|
    && (forall i :: 0 <= i < |v| && i < interval ==> r[i] == v[i])
    && (forall i :: interval <= i < |v| ==> r[i] == Average(v[i - interval..i]))
  }

  method TsMean(v: seq<real>, interval: nat) returns (r: seq<real>)
    requires interval >= 1
    ensures IsTrailingMean(v, interval, r)
  {
    var result := new real[|v|](_ => 0.0);
    for i := 0 to |v|
      invariant forall k :: 0 <= k < i && k < interval ==> result[k] == v[k]
      invariant forall k :: interval <= k < i ==> result[k] == Average(v[k - interval..k])
    {
      if i < interval {
        result[i] := v[i];
      } else {
        var window := v[i - interval..i];
        assert |window| == interval;
        result[i] := Sum(window) / interval as real;
        assert result[i] == Average(window);
      }
    }
    r := result[..];
  }

  /** A constant sequence is its own trailing mean. */
  lemma TrailingMeanOfConstant(v: seq<real>, interval: nat, r: seq<real>, c: real)
    requires IsTrailingMean(v, interval, r)
    requires forall k :: 0 <= k < |v| ==> v[k] == c
    ensures r == v
  {
    forall i | interval <= i < |v|
      ensures r[i] == c
    {
      AverageOfConstant(v[i - interval..i], c);
    }
  }

  /** Sum of squared deviations of the samples from `m`, left to right. */
  function SumSq(w: seq<real>, m: real): real
  {
    if |w| == 0 then 0.0
    else SumSq(w[..|w| - 1], m) + (w[|w| - 1] - m) * (w[|w| - 1] - m)
  }

  /** Population variance (divided by the count, not the count minus one)
      about the run's own mean. */
  function PopVariance(w: seq<real>): real
    requires |w| > 0
  {
    SumSq(w, Average(w)) / |w| as real
  }

  lemma {:induction false} SumSqNonNegative(w: seq<real>, m: real)
    ensures SumSq(w, m) >= 0.0
  {
    if |w| > 0 {
      SumSqNonNegative(w[..|w| - 1], m);
      var d := w[|w| - 1] - m;
      assert d * d >= 0.0 by {
        if d < 0.0 {
          assert d * d == (-d) * (-d);
        }
      }
    }
  }

  lemma {:induction false} SumSqAboutConstant(w: seq<real>, c: real)
    requires forall k :: 0 <= k < |w| ==> w[k] == c
    ensures SumSq(w, c) == 0.0
  {
    if |w| > 0 {
      SumSqAboutConstant(w[..|w| - 1], c);
    }
  }

  /** The variance is never negative and is zero on a constant run. */
  lemma PopVarianceFacts(w: seq<real>)
    requires |w| > 0
    ensures PopVariance(w) >= 0.0
    ensures (forall k :: 0 <= k < |w| ==> w[k] == w[0]) ==> PopVariance(w) == 0.0
  {
    SumSqNonNegative(w, Average(w));
    if forall k :: 0 <= k < |w| ==> w[k] == w[0] {
      AverageOfConstant(w, w[0]);
      SumSqAboutConstant(w, w[0]);
    }
  }

  /** `r` is `ts_std_dev(v, interval)`: zero during cold start, the square
      root of the window's population variance otherwise. */
  ghost predicate IsTrailingStdDev(v: seq<real>, interval: nat, sqrt: real -> real, r: seq<real>)
  {
    && interval >= 1
    && |r| == |v|
    && (forall i :: 0 <= i < |v| && i < interval ==> r[i] == 0.0)
    && (forall i :: interval <= i < |v| ==> r[i] == sqrt(PopVariance(v[i - interval..i])))
  }

  /** Squared deviations of `v[lo..hi]` from `mean`, accumulated as the
      inner loop of `ts_std_dev` does. */
  method WindowSumSq(v: seq<real>, lo: nat, hi: nat, mean: real) returns (sum: real)
    requires lo <= hi <= |v|
    ensures sum == SumSq(v[lo..hi], mean)
  {
    sum := 0.0;
    for j := lo to hi
      invariant sum == SumSq(v[lo..j], mean)
    {
      assert v[lo..j + 1][..j - lo] == v[lo..j];
      sum := sum + (v[j] - mean) * (v[j] - mean);
    }
  }

  method TsStdDev(v: seq<real>, interval: nat, sqrt: real -> real) returns (r: seq<real>)
    requires interval >= 1
    ensures IsTrailingStdDev(v, interval, sqrt, r)
  {
    var result := new real[|v|](_ => 0.0);
    for i := 0 to |v|
      invariant forall k :: 0 <= k < i && k < interval ==> result[k] == 0.0
      invariant forall k :: interval <= k < i ==> result[k] == sqrt(PopVariance(v[k - interval..k]))
    {
      if i < interval {
        result[i] := 0.0;
      } else {
        var mean := Sum(v[i - interval..i]) / interval as real;
        var sum := WindowSumSq(v, i - interval, i, mean);
        result[i] := sqrt(sum / interval as real);
      }
    }
    r := result[..];
  }

  /** Outside cold start the deviation squared is the window's population
      variance; every entry is non-negative. */
  lemma StdDevSquaredIsVariance(v: seq<real>, interval: nat, sqrt: real -> real, r: seq<real>)
    requires IsSqrt(sqrt)
    requires IsTrailingStdDev(v, interval, sqrt, r)
    ensures forall i :: 0 <= i < |v| ==> r[i] >= 0.0
    ensures forall i :: interval <= i < |v| ==> r[i] * r[i] == PopVariance(v[i - interval..i])
  {
    forall i | interval <= i < |v|
      ensures r[i] >= 0.0 && r[i] * r[i] == PopVariance(v[i - interval..i])
    {
      PopVarianceFacts(v[i - interval..i]);
    }
  }

  /** A window of equal samples has deviation zero. */
  lemma StdDevOfConstantWindow(v: seq<real>, interval: nat, sqrt: real -> real, r: seq<real>, i: nat)
    requires IsSqrt(sqrt)
    requires IsTrailingStdDev(v, interval, sqrt, r)
    requires interval <= i < |v|
    requires forall k :: i - interval <= k < i ==> v[k] == v[i - interval]
    ensures r[i] == 0.0
  {
    var w := v[i - interval..i];
    assert forall k :: 0 <= k < |w| ==> w[k] == v[i - interval + k];
    PopVarianceFacts(w);
  }

  /** `r` is `ts_diff(v, interval)`: zero during cold start, the change over
      `interval` samples otherwise. */
  ghost predicate IsTrailingDiff(v: seq<real>, interval: nat, r: seq<real>)
  {
    && interval >= 1
    && |r| == |v|
    && (forall i :: 0 <= i < |v| && i < interval ==> r[i] == 0.0)
    && (forall i :: interval <= i < |v| ==> r[i] == v[i] - v[i - interval])
  }

  method TsDiff(v: seq<real>, interval: nat) returns (r: seq<real>)
    requires interval >= 1
    ensures IsTrailingDiff(v, interval, r)
  {
    var result := new real[|v|](_ => 0.0);
    for i := 0 to |v|
      invariant forall k :: 0 <= k < i && k < interval ==> result[k] == 0.0
      invariant forall k :: interval <= k < i ==> result[k] == v[k] - v[k - interval]
    {
      if i < interval {
        result[i] := 0.0;
      } else {
        result[i] := v[i] - v[i - interval];
      }
    }
    r := result[..];
  }

  /** The trailing difference of a sequence that is constant on a prefix
      vanishes on that prefix. */
  lemma TrailingDiffOfConstantPrefix(v: seq<real>, interval: nat, r: seq<real>, n: nat, c: real)
    requires IsTrailingDiff(v, interval, r)
    requires n <= |v|
    requires forall k :: 0 <= k < n ==> v[k] == c
    ensures forall k :: 0 <= k < n ==> r[k] == 0.0
  {
    forall k | interval <= k < n
      ensures r[k] == 0.0
    {
      assert v[k] == c && v[k - interval] == c;
    }
  }
}
