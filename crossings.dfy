/** Buy/sell detection and per-trade profit of pq_plot.py (lines 19-29).
    A buy is reported at `k` when the sign of `calpha` drops by two from
    `k` to `k + 1` (positive to negative), a sell when it rises by two; the
    i-th sell is then paired with the i-th buy. */
module Crossings {
  import opened Series

  /** numpy's `sign` on a real sample. */
  function Sign(x: real): int
  {
    if x > 0.0 then 1 else if x < 0.0 then -1 else 0
  }

  /** `np.diff(np.sign(c))`: one entry per pair of neighbouring samples. */
  function SignDiff(c: seq<real>): (d: seq<int>)
    ensures |d| == if |c| == 0 then 0 else |c| - 1
  {
    if |c| == 0 then []
    else seq(|c| - 1, k requires 0 <= k < |c| - 1 => Sign(c[k + 1]) - Sign(c[k]))
  }

  /** `np.where(np.diff(np.sign(c)) == jump)[0]`. */
  function Detect(c: seq<real>, jump: int): seq<nat>
  {
    var d := SignDiff(c);
    Where(seq(|d|, k requires 0 <= k < |d| => d[k] == jump))
  }

  /** `idx_buy` (line 21). */
  function BuyIndices(c: seq<real>): seq<nat>
  {
    Detect(c, -2)
  }

  /** `idx_sell` (line 23). */
  function SellIndices(c: seq<real>): seq<nat>
  {
    Detect(c, 2)
  }

  /** `k` is the last positive sample before a negative one. */
  ghost predicate IsBuyAt(c: seq<real>, k: nat)
  {
    k + 1 < |c| && c[k] > 0.0 && c[k + 1] < 0.0
  }

  /** `k` is the last negative sample before a positive one. */
  ghost predicate IsSellAt(c: seq<real>, k: nat)
  {
    k + 1 < |c| && c[k] < 0.0 && c[k + 1] > 0.0
  }

  /** A sign drops by two exactly from positive to negative, and rises by
      two exactly from negative to positive. */
  lemma SignJump(x: real, y: real)
    ensures Sign(y) - Sign(x) == -2 <==> x > 0.0 && y < 0.0
    ensures Sign(y) - Sign(x) == 2 <==> x < 0.0 && y > 0.0
  {
  }

  /** Membership of one index in `Detect(c, jump)`. */
  lemma DetectAt(c: seq<real>, jump: int, k: nat)
    ensures k in Detect(c, jump) <==> k + 1 < |c| && Sign(c[k + 1]) - Sign(c[k]) == jump
  {
    var d := SignDiff(c);
    WhereAt(seq(|d|, k requires 0 <= k < |d| => d[k] == jump), k);
  }

  lemma BuyAt(c: seq<real>, k: nat)
    ensures k in BuyIndices(c) <==> IsBuyAt(c, k)
  {
    DetectAt(c, -2, k);
    if k + 1 < |c| {
      SignJump(c[k], c[k + 1]);
    }
  }

  lemma SellAt(c: seq<real>, k: nat)
    ensures k in SellIndices(c) <==> IsSellAt(c, k)
  {
    DetectAt(c, 2, k);
    if k + 1 < |c| {
      SignJump(c[k], c[k + 1]);
    }
  }

  /** The buy indices are exactly the positive-to-negative crossings, listed
      in strictly increasing order, each below len(calpha) - 1. */
  lemma BuyIndicesExact(c: seq<real>)
    ensures forall k: nat :: k in BuyIndices(c) <==> IsBuyAt(c, k)
    ensures forall p, q :: 0 <= p < q < |BuyIndices(c)| ==> BuyIndices(c)[p] < BuyIndices(c)[q]
    ensures forall p :: 0 <= p < |BuyIndices(c)| ==> BuyIndices(c)[p] + 1 < |c|
  {
    forall k: nat
      ensures k in BuyIndices(c) <==> IsBuyAt(c, k)
    {
      BuyAt(c, k);
    }
  }

  /** The sell indices are exactly the negative-to-positive crossings, listed
      in strictly increasing order, each below len(calpha) - 1. */
  lemma SellIndicesExact(c: seq<real>)
    ensures forall k: nat :: k in SellIndices(c) <==> IsSellAt(c, k)
    ensures forall p, q :: 0 <= p < q < |SellIndices(c)| ==> SellIndices(c)[p] < SellIndices(c)[q]
    ensures forall p :: 0 <= p < |SellIndices(c)| ==> SellIndices(c)[p] + 1 < |c|
  {
    forall k: nat
      ensures k in SellIndices(c) <==> IsSellAt(c, k)
    {
      SellAt(c, k);
    }
  }

  /** No index is both a buy and a sell. */
  lemma CrossingsDisjoint(c: seq<real>)
    ensures forall k: nat :: !(k in BuyIndices(c) && k in SellIndices(c))
  {
    forall k: nat
      ensures !(k in BuyIndices(c) && k in SellIndices(c))
    {
      BuyAt(c, k);
      SellAt(c, k);
    }
  }

  /** A sample that is exactly zero blocks both crossings next to it: a run
      such as +, 0, - produces neither a buy nor a sell. */
  lemma ZeroBlocksCrossing(c: seq<real>, z: nat)
    requires z < |c| && c[z] == 0.0
    ensures z !in BuyIndices(c) && z !in SellIndices(c)
    ensures z > 0 ==> z - 1 !in BuyIndices(c) && z - 1 !in SellIndices(c)
  {
    BuyAt(c, z);
    SellAt(c, z);
    if z > 0 {
      BuyAt(c, z - 1);
      SellAt(c, z - 1);
    }
  }

  /** `c` is exactly zero on its first `m` samples and non-zero from `m` on.
      The smoothed signal `main` writes out has this shape: its cold start
      is a run of exact zeros. */
  ghost predicate ZeroRunThenNonZero(c: seq<real>, m: nat)
  {
    && m < |c|
    && (forall k :: 0 <= k < m ==> c[k] == 0.0)
    && (forall k :: m <= k < |c| ==> c[k] != 0.0)
  }

  /** Between a negative sample and a later positive one, with no zero in
      between, there is a sell. */
  lemma {:induction false} SellBetween(c: seq<real>, lo: nat, hi: nat) returns (s: nat)
    requires lo < hi < |c| && c[lo] < 0.0 && c[hi] > 0.0
    requires forall k :: lo <= k <= hi ==> c[k] != 0.0
    ensures lo <= s < hi && IsSellAt(c, s)
    decreases hi - lo
  {
    if c[lo + 1] > 0.0 {
      s := lo;
    } else {
      s := SellBetween(c, lo + 1, hi);
    }
  }

  /** Between a positive sample and a later negative one, with no zero in
      between, there is a buy. */
  lemma {:induction false} BuyBetween(c: seq<real>, lo: nat, hi: nat) returns (b: nat)
    requires lo < hi < |c| && c[lo] > 0.0 && c[hi] < 0.0
    requires forall k :: lo <= k <= hi ==> c[k] != 0.0
    ensures lo <= b < hi && IsBuyAt(c, b)
    decreases hi - lo
  {
    if c[lo + 1] < 0.0 {
      b := lo;
    } else {
      b := BuyBetween(c, lo + 1, hi);
    }
  }

  /** Past the leading zero run, a sell lies strictly between two
      positive-to-negative crossings. */
  lemma SellBetweenCrossings(c: seq<real>, m: nat, b1: nat, b2: nat) returns (s: nat)
    requires ZeroRunThenNonZero(c, m)
    requires IsBuyAt(c, b1) && IsBuyAt(c, b2) && b1 < b2
    ensures b1 < s < b2 && IsSellAt(c, s)
  {
    assert m <= b1;
    s := SellBetween(c, b1 + 1, b2);
  }

  /** Past the leading zero run, a buy lies strictly between two
      negative-to-positive crossings. */
  lemma BuyBetweenCrossings(c: seq<real>, m: nat, s1: nat, s2: nat) returns (b: nat)
    requires ZeroRunThenNonZero(c, m)
    requires IsSellAt(c, s1) && IsSellAt(c, s2) && s1 < s2
    ensures s1 < b < s2 && IsBuyAt(c, b)
  {
    assert m <= s1;
    b := BuyBetween(c, s1 + 1, s2);
  }

  /** Between two buys there is a sell when the only exact zeros form a
      leading run. */
  lemma SellBetweenBuys(c: seq<real>, m: nat, b1: nat, b2: nat)
    requires ZeroRunThenNonZero(c, m)
    requires b1 in BuyIndices(c) && b2 in BuyIndices(c) && b1 < b2
    ensures exists s: nat :: s in SellIndices(c) && b1 < s < b2
  {
    BuyAt(c, b1);
    BuyAt(c, b2);
    var s := SellBetweenCrossings(c, m, b1, b2);
    SellAt(c, s);
  }

  /** Between two sells there is a buy when the only exact zeros form a
      leading run. */
  lemma BuyBetweenSells(c: seq<real>, m: nat, s1: nat, s2: nat)
    requires ZeroRunThenNonZero(c, m)
    requires s1 in SellIndices(c) && s2 in SellIndices(c) && s1 < s2
    ensures exists b: nat :: b in BuyIndices(c) && s1 < b < s2
  {
    SellAt(c, s1);
    SellAt(c, s2);
    var b := BuyBetweenCrossings(c, m, s1, s2);
    BuyAt(c, b);
  }

  /** When the only exact zeros form a leading run, buys and sells
      alternate in index order: between two buys there is a sell and
      between two sells there is a buy. */
  lemma CrossingsAlternate(c: seq<real>, m: nat)
    requires ZeroRunThenNonZero(c, m)
    ensures forall b1: nat, b2: nat :: b1 in BuyIndices(c) && b2 in BuyIndices(c) && b1 < b2 ==>
      exists s: nat :: s in SellIndices(c) && b1 < s < b2
    ensures forall s1: nat, s2: nat :: s1 in SellIndices(c) && s2 in SellIndices(c) && s1 < s2 ==>
      exists b: nat :: b in BuyIndices(c) && s1 < b < s2
  {
    forall b1: nat, b2: nat | b1 in BuyIndices(c) && b2 in BuyIndices(c) && b1 < b2
      ensures exists s: nat :: s in SellIndices(c) && b1 < s < b2
    {
      SellBetweenBuys(c, m, b1, b2);
    }
    forall s1: nat, s2: nat | s1 in SellIndices(c) && s2 in SellIndices(c) && s1 < s2
      ensures exists b: nat :: b in BuyIndices(c) && s1 < b < s2
    {
      BuyBetweenSells(c, m, s1, s2);
    }
  }

  /** Appending a sample appends at most the crossing it completes. */
  lemma DetectSnoc(c: seq<real>, x: real, jump: int)
    requires |c| >= 1
    ensures Detect(c + [x], jump)
         == Detect(c, jump) + (if Sign(x) - Sign(c[|c| - 1]) == jump then [|c| - 1] else [])
  {
    var d := SignDiff(c);
    var d' := SignDiff(c + [x]);
    var m := seq(|d|, k requires 0 <= k < |d| => d[k] == jump);
    var m' := seq(|d'|, k requires 0 <= k < |d'| => d'[k] == jump);
    assert m' == m + [Sign(x) - Sign(c[|c| - 1]) == jump];
    WhereSnoc(m, Sign(x) - Sign(c[|c| - 1]) == jump);
  }

  /** A signal that is zero everywhere except possibly at its last sample
      has no buys and no sells. */
  lemma ZeroRunHasNoCrossings(c: seq<real>)
    requires |c| > 0
    requires forall k :: 0 <= k < |c| - 1 ==> c[k] == 0.0
    ensures BuyIndices(c) == [] && SellIndices(c) == []
  {
    var d := SignDiff(c);
    WhereOfAllFalse(seq(|d|, k requires 0 <= k < |d| => d[k] == -2));
    WhereOfAllFalse(seq(|d|, k requires 0 <= k < |d| => d[k] == 2));
  }

  /** When the only exact zeros form a leading run ending at `m`, the buy
      count minus the sell count is fixed by the signs of the first non-zero
      sample and the last sample. */
  lemma {:induction false} CrossingBalance(c: seq<real>, m: nat)
    requires ZeroRunThenNonZero(c, m)
    ensures |BuyIndices(c)| - |SellIndices(c)|
         == (if c[m] > 0.0 then 1 else 0) - (if c[|c| - 1] > 0.0 then 1 else 0)
    decreases |c|
  {
    if |c| == m + 1 {
      ZeroRunHasNoCrossings(c);
    } else {
      var init := c[..|c| - 1];
      var x := c[|c| - 1];
      assert c == init + [x];
      CrossingBalance(init, m);
      DetectSnoc(init, x, -2);
      DetectSnoc(init, x, 2);
    }
  }

  /** Whether iteration `i` of the profit loop indexes within range. */
  predicate PairInRange(close: seq<real>, idxBuy: seq<nat>, idxSell: seq<nat>, i: nat)
    requires i < |idxSell|
  {
    idxSell[i] < |close| && i < |idxBuy| && idxBuy[i] < |close|
  }

  /** Lines 27-29: fill a zeroed buffer with `close[idx_sell[i]] -
      close[idx_buy[i]]`; the first iteration that indexes out of range
      raises. */
  method PairProfits(close: seq<real>, idxBuy: seq<nat>, idxSell: seq<nat>) returns (r: Outcome)
    ensures r.Ok? <==> forall i :: 0 <= i < |idxSell| ==> PairInRange(close, idxBuy, idxSell, i)
    ensures r.Ok? ==> |r.values| == |idxSell|
    ensures r.Ok? ==> forall i :: 0 <= i < |idxSell| ==>
      PairInRange(close, idxBuy, idxSell, i) && r.values[i] == close[idxSell[i]] - close[idxBuy[i]]
    ensures r.IndexError? ==> r.at < |idxSell| && !PairInRange(close, idxBuy, idxSell, r.at)
    ensures r.IndexError? ==> forall i :: 0 <= i < r.at ==> PairInRange(close, idxBuy, idxSell, i)
  {
    var profit := new real[|idxSell|](_ => 0.0);
    for i := 0 to |idxSell|
      invariant forall k :: 0 <= k < i ==>
        PairInRange(close, idxBuy, idxSell, k) && profit[k] == close[idxSell[k]] - close[idxBuy[k]]
    {
      if !PairInRange(close, idxBuy, idxSell, i) {
        return IndexError(i);
      }
      profit[i] := close[idxSell[i]] - close[idxBuy[i]];
    }
    return Ok(profit[..]);
  }

  /** With `close` and `calpha` columns of one frame, the profit loop runs
      to completion exactly when there are at least as many buys as sells. */
  lemma ProfitDefinedIff(close: seq<real>, c: seq<real>)
    requires |close| == |c|
    ensures (forall i :: 0 <= i < |SellIndices(c)| ==> PairInRange(close, BuyIndices(c), SellIndices(c), i))
        <==> |BuyIndices(c)| >= |SellIndices(c)|
  {
    BuyIndicesExact(c);
    SellIndicesExact(c);
    var b, s := BuyIndices(c), SellIndices(c);
    if |b| < |s| {
      assert !PairInRange(close, b, s, |b|);
    }
  }

  /** When the only exact zeros form a leading run ending at `m`: a signal
      whose first non-zero sample is positive never has more sells than
      buys, so the profit loop completes; one whose first non-zero sample is
      negative and whose last is positive has one sell more than it has
      buys, so the profit loop raises; one that is negative at both ends has
      as many sells as buys, so the loop completes. */
  lemma ProfitDefinedBySigns(close: seq<real>, c: seq<real>, m: nat)
    requires |close| == |c| && ZeroRunThenNonZero(c, m)
    ensures c[m] > 0.0 ==> forall i :: 0 <= i < |SellIndices(c)| ==>
      PairInRange(close, BuyIndices(c), SellIndices(c), i)
    ensures c[m] < 0.0 && c[|c| - 1] > 0.0 ==>
      && |SellIndices(c)| == |BuyIndices(c)| + 1
      && !(forall i :: 0 <= i < |SellIndices(c)| ==> PairInRange(close, BuyIndices(c), SellIndices(c), i))
    ensures c[m] < 0.0 && c[|c| - 1] < 0.0 ==>
      && |SellIndices(c)| == |BuyIndices(c)|
      && (forall i :: 0 <= i < |SellIndices(c)| ==> PairInRange(close, BuyIndices(c), SellIndices(c), i))
  {
    CrossingBalance(c, m);
    ProfitDefinedIff(close, c);
  }
}
