/** `ts_gaussian_smoothing` of src/main.rs: for each output index a
    Gaussian-weighted average of the samples within three bandwidths of it,
    divided by the sum of the same weights (there is no epsilon in the
    division). */
module Smoothing {
  import opened Series

  /** The kernel closure: exp(-(x - y)^2 / (2 bw^2)) on sample indices. */
  function Kernel(exp: real -> real, bw: nat, x: int, y: int): real
    requires bw >= 1
  {
    exp(-(((x - y) * (x - y)) as real) / (2.0 * (bw as real) * (bw as real)))
  }

  /** The `continue` guard of the inner loop: `j` is farther than three
      bandwidths from `i`. */
  predicate Skipped(i: int, j: int, bw: nat)
  {
    i > j + 3 * bw || j > i + 3 * bw
  }

  /** What sample `j` adds to the weight total of output `i`: its kernel
      weight, or nothing when the loop skips it. */
  function Weight(exp: real -> real, bw: nat, i: int, j: int): real
    requires bw >= 1
  {
    if Skipped(i, j, bw) then 0.0 else Kernel(exp, bw, i, j)
  }

  /** The weights of every sample for output `i`. */
  function Row(exp: real -> real, bw: nat, i: int): nat -> real
    requires bw >= 1
  {
    (j: nat) => Weight(exp, bw, i, j)
  }

  /** Sum of `v[j] * w(j)` over samples 0 .. hi-1, accumulated left to right. */
  function WeightedSum(v: seq<real>, w: nat -> real, hi: nat): real
    requires hi <= |v|
  {
    if hi == 0 then 0.0 else WeightedSum(v, w, hi - 1) + v[hi - 1] * w(hi - 1)
  }

  /** Sum of `w(j)` over samples 0 .. hi-1, accumulated left to right. */
  function TotalWeight(w: nat -> real, hi: nat): real
  {
    if hi == 0 then 0.0 else TotalWeight(w, hi - 1) + w(hi - 1)
  }

  /** Non-negative weights have a non-negative total, and a weight of at
      least one among them makes the total at least one. */
  lemma {:induction false} TotalWeightBounds(w: nat -> real, hi: nat, d: nat)
    requires forall j: nat :: w(j) >= 0.0
    ensures TotalWeight(w, hi) >= 0.0
    ensures d < hi && w(d) >= 1.0 ==> TotalWeight(w, hi) >= 1.0
  {
    if hi > 0 {
      TotalWeightBounds(w, hi - 1, d);
    }
  }

  /** On a constant sequence the weighted sum is that constant times the
      total weight. */
  lemma {:induction false} WeightedSumOfConstant(v: seq<real>, w: nat -> real, hi: nat, c: real)
    requires hi <= |v|
    requires forall k :: 0 <= k < |v| ==> v[k] == c
    ensures WeightedSum(v, w, hi) == c * TotalWeight(w, hi)
  {
    if hi > 0 {
      WeightedSumOfConstant(v, w, hi - 1, c);
      MulAdd(c, TotalWeight(w, hi - 1), w(hi - 1));
    }
  }

  /** A weighted sum in which every term has a zero sample or a zero
      weight is zero. */
  lemma {:induction false} WeightedSumVanishes(v: seq<real>, w: nat -> real, hi: nat)
    requires hi <= |v|
    requires forall j :: 0 <= j < hi ==> v[j] == 0.0 || w(j) == 0.0
    ensures WeightedSum(v, w, hi) == 0.0
  {
    if hi > 0 {
      WeightedSumVanishes(v, w, hi - 1);
    }
  }

  /** Replacing sample `j` by `x` moves the weighted sum by exactly
      (x - v[j]) times its weight once `j` is summed. */
  lemma {:induction false} WeightedSumUpdate(v: seq<real>, w: nat -> real, hi: nat, j: nat, x: real)
    requires hi <= |v| && j < |v|
    ensures WeightedSum(v[j := x], w, hi)
         == WeightedSum(v, w, hi) + (if j < hi then (x - v[j]) * w(j) else 0.0)
  {
    if hi > 0 {
      WeightedSumUpdate(v, w, hi - 1, j, x);
      var k := hi - 1;
      var v' := v[j := x];
      assert WeightedSum(v', w, hi) == WeightedSum(v', w, k) + v'[k] * w(k);
      assert WeightedSum(v, w, hi) == WeightedSum(v, w, k) + v[k] * w(k);
      if k == j {
        Distrib(x, v[j], w(j));
      } else {
        assert v'[k] == v[k];
      }
    }
  }

  /** Every kernel weight is positive, equal to one on the diagonal,
      symmetric in its two indices and unchanged by shifting both indices. */
  lemma KernelFacts(exp: real -> real, bw: nat, i: int, j: int, t: int)
    requires IsExp(exp) && bw >= 1
    ensures Kernel(exp, bw, i, j) > 0.0
    ensures Kernel(exp, bw, i, i) == 1.0
    ensures Kernel(exp, bw, i, j) == Kernel(exp, bw, j, i)
    ensures Kernel(exp, bw, i + t, j + t) == Kernel(exp, bw, i, j)
  {
    assert (i - j) * (i - j) == (j - i) * (j - i);
    assert i + t - (j + t) == i - j;
  }

  /** A sample's weight is positive exactly when the loop does not skip it
      and zero otherwise; the diagonal sample always has weight one. */
  lemma WeightFacts(exp: real -> real, bw: nat, i: int, j: int)
    requires IsExp(exp) && bw >= 1
    ensures Weight(exp, bw, i, j) >= 0.0
    ensures Weight(exp, bw, i, j) > 0.0 <==> !Skipped(i, j, bw)
    ensures Weight(exp, bw, i, i) == 1.0
  {
    KernelFacts(exp, bw, i, j, 0);
  }

  /** The weight total of a row is never negative, and it is at least one
      once the diagonal sample is included, so the division needs no
      epsilon. */
  lemma RowTotalAtLeastOne(exp: real -> real, bw: nat, i: int, hi: nat)
    requires IsExp(exp) && bw >= 1
    ensures TotalWeight(Row(exp, bw, i), hi) >= 0.0
    ensures 0 <= i < hi ==> TotalWeight(Row(exp, bw, i), hi) >= 1.0
  {
    var w := Row(exp, bw, i);
    forall j: nat
      ensures w(j) >= 0.0
    {
      WeightFacts(exp, bw, i, j);
    }
    if 0 <= i {
      WeightFacts(exp, bw, i, i);
      TotalWeightBounds(w, hi, i);
    } else {
      TotalWeightBounds(w, hi, 0);
    }
  }

  /** Output sample `i` of the smoother. */
  function SmoothAt(v: seq<real>, bw: nat, exp: real -> real, i: nat): real
    requires IsExp(exp) && bw >= 1 && i < |v|
  {
    RowTotalAtLeastOne(exp, bw, i, |v|);
    WeightedSum(v, Row(exp, bw, i), |v|) / TotalWeight(Row(exp, bw, i), |v|)
  }

  /** `r` is `ts_gaussian_smoothing(v, bw)`. */
  ghost predicate IsGaussianSmooth(v: seq<real>, bw: nat, exp: real -> real, r: seq<real>)
  {
    && IsExp(exp)
    && bw >= 1
    && |r| == |v|
    && forall i :: 0 <= i < |v| ==> r[i] == SmoothAt(v, bw, exp, i)
  }

  /** The inner loop of `ts_gaussian_smoothing` for output index `i`: the
      weighted sum and the total weight over the samples not skipped. */
  method KernelSums(v: seq<real>, bw: nat, exp: real -> real, i: nat) returns (numerator: real, denominator: real)
    requires bw >= 1
    ensures numerator == WeightedSum(v, Row(exp, bw, i), |v|)
    ensures denominator == TotalWeight(Row(exp, bw, i), |v|)
  {
    numerator, denominator := 0.0, 0.0;
    for j := 0 to |v|
      invariant numerator == WeightedSum(v, Row(exp, bw, i), j)
      invariant denominator == TotalWeight(Row(exp, bw, i), j)
    {
      if Skipped(i, j, bw) {
        continue;
      }
      var weight := Kernel(exp, bw, i, j);
      numerator := numerator + v[j] * weight;
      denominator := denominator + weight;
    }
  }

  method TsGaussianSmoothing(v: seq<real>, bw: nat, exp: real -> real) returns (r: seq<real>)
    requires IsExp(exp) && bw >= 1
    ensures IsGaussianSmooth(v, bw, exp, r)
  {
    var result := new real[|v|](_ => 0.0);
    for i := 0 to |v|
      invariant forall k :: 0 <= k < i ==> result[k] == SmoothAt(v, bw, exp, k)
    {
      var numerator, denominator := KernelSums(v, bw, exp, i);
      RowTotalAtLeastOne(exp, bw, i, |v|);
      result[i] := numerator / denominator;
    }
    r := result[..];
  }

  /** Every output of the smoother on a constant sequence is that constant. */
  lemma SmoothAtOfConstant(v: seq<real>, bw: nat, exp: real -> real, i: nat, c: real)
    requires IsExp(exp) && bw >= 1 && i < |v|
    requires forall k :: 0 <= k < |v| ==> v[k] == c
    ensures SmoothAt(v, bw, exp, i) == c
  {
    var w := Row(exp, bw, i);
    var num, den := WeightedSum(v, w, |v|), TotalWeight(w, |v|);
    WeightedSumOfConstant(v, w, |v|, c);
    RowTotalAtLeastOne(exp, bw, i, |v|);
    DivCancel(num, c, den);
  }

  /** An output whose whole truncated support holds zero samples is zero. */
  lemma SmoothAtOfZeroSupport(v: seq<real>, bw: nat, exp: real -> real, i: nat)
    requires IsExp(exp) && bw >= 1 && i < |v|
    requires forall j :: 0 <= j < |v| && !Skipped(i, j, bw) ==> v[j] == 0.0
    ensures SmoothAt(v, bw, exp, i) == 0.0
  {
    var w := Row(exp, bw, i);
    WeightedSumVanishes(v, w, |v|);
    RowTotalAtLeastOne(exp, bw, i, |v|);
  }

  /** A constant sequence is smoothed to itself. */
  lemma SmoothingOfConstant(v: seq<real>, bw: nat, exp: real -> real, r: seq<real>, c: real)
    requires IsGaussianSmooth(v, bw, exp, r)
    requires forall k :: 0 <= k < |v| ==> v[k] == c
    ensures r == v
  {
    forall i | 0 <= i < |v|
      ensures r[i] == v[i]
    {
      SmoothAtOfConstant(v, bw, exp, i, c);
    }
  }

  /** Sample `j` contributes to output `i` exactly when it lies within three
      bandwidths of `i` (inclusive): changing it changes output `i` if and
      only if |i - j| <= 3 bw. */
  lemma SampleContributesIff(v: seq<real>, bw: nat, exp: real -> real, i: nat, j: nat, x: real)
    requires IsExp(exp) && bw >= 1 && i < |v| && j < |v|
    requires x != v[j]
    ensures SmoothAt(v[j := x], bw, exp, i) != SmoothAt(v, bw, exp, i)
        <==> -3 * bw <= i - j <= 3 * bw
  {
    var w := Row(exp, bw, i);
    WeightedSumUpdate(v, w, |v|, j, x);
    RowTotalAtLeastOne(exp, bw, i, |v|);
    WeightFacts(exp, bw, i, j);
    var delta := (x - v[j]) * w(j);
    if Skipped(i, j, bw) {
      assert w(j) == 0.0;
      assert delta == 0.0;
    } else {
      MulNonZero(x - v[j], w(j));
    }
    DivShift(WeightedSum(v, w, |v|), delta, TotalWeight(w, |v|));
  }
}
