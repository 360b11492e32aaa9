/** The signal pipeline of `main` in src/main.rs (lines 13-28): trailing
    mean and deviation of the close price, the normalised and sign-flipped
    deviation ("alpha"), its running sum, detrending of that sum against its
    own 20-sample trailing mean, a first difference and a Gaussian smooth
    with bandwidth 5. */
module AlphaPipeline {
  import opened Series
  import opened Windowed
  import opened Smoothing
  import opened Crossings

  /** The trading window `T` of src/main.rs. */
  const T: nat := 5
  /** Window of the trailing mean the cumulative alpha is detrended against. */
  const TrendWindow: nat := 20
  /** Lag of the first difference. */
  const GradLag: nat := 1
  /** Bandwidth of the final Gaussian smooth. */
  const SmoothBandwidth: nat := 5
  /** Guard added to the standard deviation before dividing, 1e-6. */
  const Epsilon: real := 0.000001

  /** Element-wise difference of two equally long series (`sub_v`). */
  function SubV(a: seq<real>, b: seq<real>): (r: seq<real>)
    requires |a| == |b|
    ensures |r| == |a|
  {
    seq(|a|, k requires 0 <= k < |a| => a[k] - b[k])
  }

  /** The alpha closure `-x / (y + 1e-6)` applied pairwise to deviation and
      standard deviation: a mean-reversion signal, positive exactly where the
      price is below its trailing mean and zero exactly where it is on it. */
  function Alpha(dev: seq<real>, stdDev: seq<real>): (r: seq<real>)
    requires |dev| == |stdDev|
    requires forall k :: 0 <= k < |stdDev| ==> stdDev[k] >= 0.0
    ensures |r| == |dev|
    ensures forall k :: 0 <= k < |dev| ==> r[k] * (stdDev[k] + Epsilon) == -dev[k]
    ensures forall k :: 0 <= k < |dev| ==> (r[k] > 0.0 <==> dev[k] < 0.0)
    ensures forall k :: 0 <= k < |dev| ==> (r[k] == 0.0 <==> dev[k] == 0.0)
  {
    seq(|dev|, k requires 0 <= k < |dev| => -dev[k] / (stdDev[k] + Epsilon))
  }

  /** Every series `main` derives from the close price, in order. The
      cumulative alpha is later shadowed by its smoothed gradient, which is
      the `calpha` column `main` writes out. */
  datatype Columns = Columns(
    mean: seq<real>,
    stdDev: seq<real>,
    dev: seq<real>,
    alpha: seq<real>,
    cumAlpha: seq<real>,
    cumAlphaMean: seq<real>,
    cumAlphaDiff: seq<real>,
    cumAlphaGrad: seq<real>,
    calpha: seq<real>)

  /** `c` holds exactly what lines 13-28 of `main` compute from `close`. */
  ghost predicate IsPipeline(close: seq<real>, sqrt: real -> real, exp: real -> real, c: Columns)
  {
    && IsTrailingMean(close, T, c.mean)
    && IsTrailingStdDev(close, T, sqrt, c.stdDev)
    && (forall k :: 0 <= k < |c.stdDev| ==> c.stdDev[k] >= 0.0)
    && c.dev == SubV(close, c.mean)
    && c.alpha == Alpha(c.dev, c.stdDev)
    && c.cumAlpha == PrefixSums(c.alpha)
    && IsTrailingMean(c.cumAlpha, TrendWindow, c.cumAlphaMean)
    && c.cumAlphaDiff == SubV(c.cumAlpha, c.cumAlphaMean)
    && IsTrailingDiff(c.cumAlphaDiff, GradLag, c.cumAlphaGrad)
    && IsGaussianSmooth(c.cumAlphaGrad, SmoothBandwidth, exp, c.calpha)
  }

  /** All columns are aligned index for index with the close series. */
  ghost predicate Aligned(n: nat, c: Columns)
  {
    && |c.mean| == n && |c.stdDev| == n && |c.dev| == n && |c.alpha| == n
    && |c.cumAlpha| == n && |c.cumAlphaMean| == n && |c.cumAlphaDiff| == n
    && |c.cumAlphaGrad| == n && |c.calpha| == n
  }

  method ComputeAlpha(close: seq<real>, sqrt: real -> real, exp: real -> real) returns (c: Columns)
    requires IsSqrt(sqrt) && IsExp(exp)
    ensures IsPipeline(close, sqrt, exp, c)
    ensures Aligned(|close|, c)
  {
    var mean := TsMean(close, T);
    var stdDev := TsStdDev(close, T, sqrt);
    StdDevSquaredIsVariance(close, T, sqrt, stdDev);
    var dev := SubV(close, mean);
    var alpha := Alpha(dev, stdDev);
    var cumAlpha := PrefixSums(alpha);
    var cumAlphaMean := TsMean(cumAlpha, TrendWindow);
    var cumAlphaDiff := SubV(cumAlpha, cumAlphaMean);
    var cumAlphaGrad := TsDiff(cumAlphaDiff, GradLag);
    var calpha := TsGaussianSmoothing(cumAlphaGrad, SmoothBandwidth, exp);
    c := Columns(mean, stdDev, dev, alpha, cumAlpha, cumAlphaMean, cumAlphaDiff, cumAlphaGrad, calpha);
  }

  /** During cold start the trailing mean is the price itself and the
      deviation is zero, so alpha is exactly zero (not a large value) and so
      is its running sum. */
  lemma ColdStartAlphaIsZero(close: seq<real>, sqrt: real -> real, exp: real -> real, c: Columns)
    requires IsPipeline(close, sqrt, exp, c)
    ensures forall i :: 0 <= i < |close| && i < T ==>
      c.mean[i] == close[i] && c.stdDev[i] == 0.0 && c.dev[i] == 0.0 && c.alpha[i] == 0.0
    ensures forall i :: 0 <= i < |close| && i < T ==> c.cumAlpha[i] == 0.0
  {
    forall i | 0 <= i < |close| && i < T
      ensures c.cumAlpha[i] == 0.0
    {
      PrefixSumsAt(c.alpha, i);
      SumConstant(c.alpha[..i + 1], 0.0);
    }
  }

  /** The detrended cumulative alpha, and hence its gradient, is zero for
      the first 20 samples, where the trend mean is still in cold start. */
  lemma EarlyGradientIsZero(close: seq<real>, sqrt: real -> real, exp: real -> real, c: Columns)
    requires IsPipeline(close, sqrt, exp, c)
    ensures forall i :: 0 <= i < |close| && i < TrendWindow ==>
      c.cumAlphaDiff[i] == 0.0 && c.cumAlphaGrad[i] == 0.0
  {
    var n := if |close| < TrendWindow then |close| else TrendWindow;
    TrailingDiffOfConstantPrefix(c.cumAlphaDiff, GradLag, c.cumAlphaGrad, n, 0.0);
  }

  /** The smoothed signal `calpha` is exactly zero for the first `T`
      samples: the smoothing radius is 3 * 5 = 15 samples and the gradient
      is zero below 20 = 15 + T. So the exact zeros of `calpha` that the
      crossing lemmas allow for, a leading run, are at least `T` long. */
  lemma ColdStartSignalIsZero(close: seq<real>, sqrt: real -> real, exp: real -> real, c: Columns)
    requires IsPipeline(close, sqrt, exp, c)
    ensures forall i :: 0 <= i < |close| && i < T ==> c.calpha[i] == 0.0
    ensures forall m: nat :: ZeroRunThenNonZero(c.calpha, m) ==> T <= m
  {
    EarlyGradientIsZero(close, sqrt, exp, c);
    forall i | 0 <= i < |close| && i < T
      ensures c.calpha[i] == 0.0
    {
      SmoothAtOfZeroSupport(c.cumAlphaGrad, SmoothBandwidth, exp, i);
    }
    forall m: nat | ZeroRunThenNonZero(c.calpha, m)
      ensures T <= m
    {
      assert c.calpha[m] != 0.0;
    }
  }

  /** A flat price produces no signal: every deviation, alpha, cumulative
      alpha and smoothed gradient is zero. */
  lemma FlatPriceGivesZeroSignal(close: seq<real>, sqrt: real -> real, exp: real -> real, c: Columns, p: real)
    requires IsSqrt(sqrt)
    requires IsPipeline(close, sqrt, exp, c)
    requires forall k :: 0 <= k < |close| ==> close[k] == p
    ensures forall i :: 0 <= i < |close| ==>
      c.stdDev[i] == 0.0 && c.dev[i] == 0.0 && c.alpha[i] == 0.0
    ensures forall i :: 0 <= i < |close| ==> c.cumAlpha[i] == 0.0 && c.calpha[i] == 0.0
  {
    var n := |close|;
    TrailingMeanOfConstant(close, T, c.mean, p);
    forall i | T <= i < n
      ensures c.stdDev[i] == 0.0
    {
      StdDevOfConstantWindow(close, T, sqrt, c.stdDev, i);
    }
    assert forall i :: 0 <= i < n ==> c.dev[i] == 0.0;
    forall i | 0 <= i < n
      ensures c.cumAlpha[i] == 0.0
    {
      PrefixSumsAt(c.alpha, i);
      SumConstant(c.alpha[..i + 1], 0.0);
    }
    TrailingMeanOfConstant(c.cumAlpha, TrendWindow, c.cumAlphaMean, 0.0);
    TrailingDiffOfConstantPrefix(c.cumAlphaDiff, GradLag, c.cumAlphaGrad, n, 0.0);
    SmoothingOfConstant(c.cumAlphaGrad, SmoothBandwidth, exp, c.calpha, 0.0);
  }
}
