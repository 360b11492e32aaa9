/** Sequence primitives shared by the windowed transforms and the plotting
    scripts: the left-to-right sum of a run of samples, the running-sum scan,
    the index selection of a boolean mask, and the two transcendental
    functions (square root and exponential), which are taken as parameters
    and described only by the facts the model relies on. */
module Series {

  datatype Option<T> = None | Some(value: T)

  /** Outcome of a script loop that indexes arrays: the values it produced,
      or the loop iteration at which an index was out of range. */
  datatype Outcome = Ok(values: seq<real>) | IndexError(at: nat)

  /** What the model knows of `f64::sqrt`: on non-negative arguments it
      returns the non-negative square root, and the root of zero is zero. */
  ghost predicate IsSqrt(sqrt: real -> real)
  {
    && sqrt(0.0) == 0.0
    && forall x :: 0.0 <= x ==> 0.0 <= sqrt(x) && sqrt(x) * sqrt(x) == x
  }

  /** What the model knows of `f64::exp`: exp(0) = 1 and it is positive. */
  ghost predicate IsExp(exp: real -> real)
  {
    exp(0.0) == 1.0 && forall x :: exp(x) > 0.0
  }

  /** Sum of the samples, accumulated left to right as an iterator sum does. */
  function Sum(s: seq<real>): real
  {
    if |s| == 0 then 0.0 else Sum(s[..|s| - 1]) + s[|s| - 1]
  }

  lemma {:induction false} SumConcat(a: seq<real>, b: seq<real>)
    ensures Sum(a + b) == Sum(a) + Sum(b)
  {
    if |b| == 0 {
      assert a + b == a;
    } else {
      assert (a + b)[..|a + b| - 1] == a + b[..|b| - 1];
      SumConcat(a, b[..|b| - 1]);
    }
  }

  /** Extending a prefix by one sample adds that sample to the sum. */
  lemma SumSnoc(s: seq<real>, k: nat)
    requires k < |s|
    ensures Sum(s[..k + 1]) == Sum(s[..k]) + s[k]
  {
    assert s[..k + 1][..k] == s[..k];
  }

  lemma {:induction false} SumConstant(s: seq<real>, c: real)
    requires forall k :: 0 <= k < |s| ==> s[k] == c
    ensures Sum(s) == |s| as real * c
  {
    if |s| > 0 {
      SumConstant(s[..|s| - 1], c);
    }
  }

  /** Arithmetic mean of a non-empty run, the sum divided by the count. */
  function Average(w: seq<real>): real
    requires |w| > 0
  {
    Sum(w) / |w| as real
  }

  lemma AverageOfConstant(w: seq<real>, c: real)
    requires |w| > 0
    requires forall k :: 0 <= k < |w| ==> w[k] == c
    ensures Average(w) == c
  {
    SumConstant(w, c);
  }

  /** The running-accumulator scan started at `acc` (`iter().scan(acc, ..)`). */
  function ScanFrom(acc: real, s: seq<real>): (r: seq<real>)
    ensures |r| == |s|
    decreases |s|
  {
    if |s| == 0 then [] else [acc + s[0]] + ScanFrom(acc + s[0], s[1..])
  }

  /** Running cumulative sum started from zero. */
  function PrefixSums(s: seq<real>): (r: seq<real>)
    ensures |r| == |s|
  {
    ScanFrom(0.0, s)
  }

  lemma {:induction false} ScanFromAt(acc: real, s: seq<real>, k: nat)
    requires k < |s|
    ensures ScanFrom(acc, s)[k] == acc + Sum(s[..k + 1])
    decreases k
  {
    SumConcat([s[0]], s[1..k + 1]);
    assert [s[0]] + s[1..k + 1] == s[..k + 1];
    assert Sum([s[0]]) == s[0] by {
      assert [s[0]][..0] == [];
    }
    if k > 0 {
      ScanFromAt(acc + s[0], s[1..], k - 1);
      assert s[1..][..k] == s[1..k + 1];
    } else {
      assert s[1..1] == [];
    }
  }

  /** Element k of the running sum is the sum of samples 0 through k. */
  lemma PrefixSumsAt(s: seq<real>, k: nat)
    requires k < |s|
    ensures PrefixSums(s)[k] == Sum(s[..k + 1])
  {
    ScanFromAt(0.0, s, k);
  }

  /** The running sum starts at the first sample and grows by each sample. */
  lemma PrefixSumsStep(s: seq<real>)
    ensures |s| > 0 ==> PrefixSums(s)[0] == s[0]
    ensures forall k :: 1 <= k < |s| ==> PrefixSums(s)[k] - PrefixSums(s)[k - 1] == s[k]
  {
    if |s| > 0 {
      PrefixSumsAt(s, 0);
      assert s[..1] == [] + [s[0]];
      assert Sum(s[..1]) == s[0] by {
        assert s[..1][..0] == [];
      }
    }
    forall k | 1 <= k < |s|
      ensures PrefixSums(s)[k] - PrefixSums(s)[k - 1] == s[k]
    {
      PrefixSumsAt(s, k);
      PrefixSumsAt(s, k - 1);
      SumSnoc(s, k);
    }
  }

  /** Positions of the true entries of a mask, in ascending order
      (numpy's `where(mask)[0]`). */
  function Where(mask: seq<bool>): (r: seq<nat>)
    ensures forall p :: 0 <= p < |r| ==> r[p] < |mask| && mask[r[p]]
    ensures forall k :: 0 <= k < |mask| && mask[k] ==> k in r
    ensures forall p, q :: 0 <= p < q < |r| ==> r[p] < r[q]
  {
    if |mask| == 0 then []
    else Where(mask[..|mask| - 1]) + (if mask[|mask| - 1] then [|mask| - 1] else [])
  }

  /** Membership in `Where(mask)` at one position. */
  lemma WhereAt(mask: seq<bool>, k: nat)
    ensures k in Where(mask) <==> k < |mask| && mask[k]
  {
  }

  /** A mask with no true entry selects nothing. */
  lemma {:induction false} WhereOfAllFalse(mask: seq<bool>)
    requires forall k :: 0 <= k < |mask| ==> !mask[k]
    ensures Where(mask) == []
  {
    if |mask| > 0 {
      WhereOfAllFalse(mask[..|mask| - 1]);
    }
  }

  /** Appending one mask entry appends at most its own position. */
  lemma WhereSnoc(mask: seq<bool>, b: bool)
    ensures Where(mask + [b]) == Where(mask) + (if b then [|mask|] else [])
  {
    assert (mask + [b])[..|mask|] == mask;
  }

  // Small facts of real arithmetic, each stated in a context of its own so
  // that the solver's nonlinear reasoning stays local.

  lemma MulNonZero(a: real, b: real)
    requires a != 0.0 && b > 0.0
    ensures a * b != 0.0
  {
  }

  lemma DivShift(n: real, d: real, den: real)
    requires den > 0.0
    ensures (n + d) / den == n / den <==> d == 0.0
  {
  }

  lemma DivCancel(num: real, c: real, den: real)
    requires den > 0.0 && num == c * den
    ensures num / den == c
  {
  }

  lemma MulAdd(c: real, a: real, b: real)
    ensures c * (a + b) == c * a + c * b
  {
  }

  lemma Distrib(x: real, y: real, k: real)
    ensures x * k - y * k == (x - y) * k
  {
  }
}
