/** The decision logic of script/plot.py: the display window of the last
    365 days (lines 42-43), buy and sell positions read from the `buy_sell`
    column (lines 55-56), a full-length profit column that is zero except at
    sell rows (lines 60-62), and its running sum rebased to zero at the
    first row of the display window (lines 66-67). */
module ProfitPlot {
  import opened Series

  /** Length of the display window in days. */
  const WindowDays: int := 365

  /** `idx` (line 43): rows whose date, a day number, lies in the closed
      interval [today - 365, today]. `today` is the wall-clock date. */
  function DisplayWindow(date: seq<int>, today: int): seq<nat>
  {
    Where(seq(|date|, k requires 0 <= k < |date| => today - WindowDays <= date[k] && date[k] <= today))
  }

  /** The display window is exactly the ascending rows dated within the
      last 365 days up to and including today. */
  lemma DisplayWindowExact(date: seq<int>, today: int)
    ensures forall k: nat :: k in DisplayWindow(date, today) <==>
      k < |date| && today - WindowDays <= date[k] <= today
    ensures forall p, q :: 0 <= p < q < |DisplayWindow(date, today)| ==>
      DisplayWindow(date, today)[p] < DisplayWindow(date, today)[q]
  {
  }

  /** `np.where(buy_sell == code)[0]`. */
  function EventIndices(buySell: seq<int>, code: int): seq<nat>
  {
    Where(seq(|buySell|, k requires 0 <= k < |buySell| => buySell[k] == code))
  }

  /** `idx_buy` (line 55). */
  function BuyRows(buySell: seq<int>): seq<nat>
  {
    EventIndices(buySell, 1)
  }

  /** `idx_sell` (line 56). */
  function SellRows(buySell: seq<int>): seq<nat>
  {
    EventIndices(buySell, -1)
  }

  /** The buy rows are exactly the ascending rows marked 1, the sell rows
      exactly those marked -1, and no row is both. */
  lemma EventRowsExact(buySell: seq<int>)
    ensures forall k: nat :: k in BuyRows(buySell) <==> k < |buySell| && buySell[k] == 1
    ensures forall k: nat :: k in SellRows(buySell) <==> k < |buySell| && buySell[k] == -1
    ensures forall p, q :: 0 <= p < q < |BuyRows(buySell)| ==> BuyRows(buySell)[p] < BuyRows(buySell)[q]
    ensures forall p, q :: 0 <= p < q < |SellRows(buySell)| ==> SellRows(buySell)[p] < SellRows(buySell)[q]
    ensures forall k: nat :: !(k in BuyRows(buySell) && k in SellRows(buySell))
  {
  }

  /** `p` is the profit column of lines 60-62: as long as the frame, zero
      at every row that is not a sell row, and at the i-th sell row the
      close there minus the close at the i-th buy row. */
  ghost predicate IsSparseProfit(close: seq<real>, buySell: seq<int>, p: seq<real>)
    requires |buySell| == |close|
  {
    var buys, sells := BuyRows(buySell), SellRows(buySell);
    && |buys| >= |sells|
    && |p| == |close|
    && (forall k :: 0 <= k < |close| && k !in sells ==> p[k] == 0.0)
    && (forall i :: 0 <= i < |sells| ==> p[sells[i]] == close[sells[i]] - close[buys[i]])
  }

  /** Lines 55-62. `close` and `buy_sell` are columns of one frame, so they
      have the frame's row count, which is also `len(date)`. The loop raises
      at iteration `len(idx_buy)` when there are more sells than buys. */
  method SparseProfit(close: seq<real>, buySell: seq<int>) returns (r: Outcome)
    requires |buySell| == |close|
    ensures r.Ok? <==> |BuyRows(buySell)| >= |SellRows(buySell)|
    ensures r.Ok? ==> IsSparseProfit(close, buySell, r.values)
    ensures r.IndexError? ==> r.at == |BuyRows(buySell)|
  {
    var buys := BuyRows(buySell);
    var sells := SellRows(buySell);
    var profit := new real[|close|](_ => 0.0);
    for i := 0 to |sells|
      invariant i <= |buys|
      invariant forall k :: 0 <= k < |close| && k !in sells[..i] ==> profit[k] == 0.0
      invariant forall q :: 0 <= q < i ==> profit[sells[q]] == close[sells[q]] - close[buys[q]]
    {
      if i >= |buys| {
        return IndexError(i);
      }
      profit[sells[i]] := close[sells[i]] - close[buys[i]];
      assert sells[..i + 1] == sells[..i] + [sells[i]];
    }
    assert sells[..|sells|] == sells;
    return Ok(profit[..]);
  }

  /** Lines 66-67: the running sum of the profit column minus its value at
      `idx[0]`; absent when the display window is empty (indexing `idx[0]`
      raises) or starts past the column. */
  function RebasedCumProfit(profit: seq<real>, idx: seq<nat>): (r: Option<seq<real>>)
    ensures r.Some? <==> |idx| > 0 && idx[0] < |profit|
    ensures r.Some? ==> |r.value| == |profit|
  {
    if |idx| == 0 || idx[0] >= |profit| then None
    else
      var cum := PrefixSums(profit);
      Some(seq(|cum|, k requires 0 <= k < |cum| => cum[k] - cum[idx[0]]))
  }

  /** The rebased cumulative profit is zero at the first displayed row; after
      it, it is the profit realised since that row, and before it, minus
      the profit realised from the next row up to that row. */
  lemma RebasedCumProfitSums(profit: seq<real>, idx: seq<nat>)
    requires |idx| > 0 && idx[0] < |profit|
    ensures RebasedCumProfit(profit, idx).Some?
    ensures RebasedCumProfit(profit, idx).value[idx[0]] == 0.0
    ensures forall k :: idx[0] < k < |profit| ==>
      RebasedCumProfit(profit, idx).value[k] == Sum(profit[idx[0] + 1..k + 1])
    ensures forall k :: 0 <= k < idx[0] ==>
      RebasedCumProfit(profit, idx).value[k] == -Sum(profit[k + 1..idx[0] + 1])
  {
    var o := idx[0];
    var cp := RebasedCumProfit(profit, idx).value;
    PrefixSumsAt(profit, o);
    forall k | o < k < |profit|
      ensures cp[k] == Sum(profit[o + 1..k + 1])
    {
      PrefixSumsAt(profit, k);
      assert profit[..k + 1] == profit[..o + 1] + profit[o + 1..k + 1];
      SumConcat(profit[..o + 1], profit[o + 1..k + 1]);
    }
    forall k | 0 <= k < o
      ensures cp[k] == -Sum(profit[k + 1..o + 1])
    {
      PrefixSumsAt(profit, k);
      assert profit[..o + 1] == profit[..k + 1] + profit[k + 1..o + 1];
      SumConcat(profit[..k + 1], profit[k + 1..o + 1]);
    }
  }
}
