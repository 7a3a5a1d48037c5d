/**
 * `profit` of DSA/bestTimeToBuyAndSellStock.py: one pass that keeps the
 * cheapest price so far and the best gain of selling today after buying at it.
 */
module StockProfit {
  import opened Outcomes
  import opened Seqs

  /**
   * `p` is the best gain of one buy on day `i` followed by one sell on a day
   * `j >= i` (buying and selling the same day gains 0); no days gain 0.
   */
  ghost predicate IsMaxProfit(prices: seq<int>, p: int)
  {
    (forall i, j :: 0 <= i <= j < |prices| ==> prices[j] - prices[i] <= p) &&
    (if prices == [] then p == 0
     else exists i, j :: 0 <= i <= j < |prices| && prices[j] - prices[i] == p)
  }

  /**
   * `profit`: the running minimum starts as `float('inf')`, written `None`
   * here, which every price is below.
   */
  method Profit(prices: seq<int>) returns (maxPrice: int)
    ensures maxPrice >= 0
    ensures IsMaxProfit(prices, maxPrice)
  {
    var minPrice: Option<int> := None;
    maxPrice := 0;
    ghost var lo, buy, sell := 0, 0, 0;
    for d := 0 to |prices|
      invariant minPrice.None? <==> d == 0
      invariant d > 0 ==> 0 <= lo < d && minPrice == Some(prices[lo])
      invariant forall i :: 0 <= i < d ==> minPrice.Some? && minPrice.value <= prices[i]
      invariant maxPrice >= 0
      invariant forall i, j :: 0 <= i <= j < d ==> prices[j] - prices[i] <= maxPrice
      invariant d == 0 ==> maxPrice == 0
      invariant d > 0 ==> 0 <= buy <= sell < d && prices[sell] - prices[buy] == maxPrice
    {
      var price := prices[d];
      if minPrice.None? || price < minPrice.value {
        minPrice := Some(price);
        lo := d;
      }
      if price - minPrice.value > maxPrice {
        buy, sell := lo, d;
      } else if d == 0 {
        buy, sell := 0, 0;
      }
      maxPrice := Max(maxPrice, price - minPrice.value);
    }
    if prices != [] {
      assert 0 <= buy <= sell < |prices| && prices[sell] - prices[buy] == maxPrice;
    }
  }

  /** The best gain is determined by the prices. */
  lemma MaxProfitUnique(prices: seq<int>, p: int, q: int)
    requires IsMaxProfit(prices, p) && IsMaxProfit(prices, q)
    ensures p == q
  {
    if prices != [] {
      var i, j :| 0 <= i <= j < |prices| && prices[j] - prices[i] == p;
      var i', j' :| 0 <= i' <= j' < |prices| && prices[j'] - prices[i'] == q;
      assert prices[j] - prices[i] <= q && prices[j'] - prices[i'] <= p;
    }
  }

  /** Prices that never rise from one day to the next leave nothing to gain. */
  lemma NonIncreasingGainsNothing(prices: seq<int>, p: int)
    requires forall k :: 0 < k < |prices| ==> prices[k] <= prices[k - 1]
    requires IsMaxProfit(prices, p)
    ensures p == 0
  {
    if prices != [] {
      var i, j :| 0 <= i <= j < |prices| && prices[j] - prices[i] == p;
      NeverRises(prices, i, j);
      assert prices[0] - prices[0] <= p;
    }
  }

  lemma {:induction false} NeverRises(prices: seq<int>, i: int, j: int)
    requires forall k :: 0 < k < |prices| ==> prices[k] <= prices[k - 1]
    requires 0 <= i <= j < |prices|
    ensures prices[j] <= prices[i]
    decreases j - i
  {
    if i < j {
      NeverRises(prices, i, j - 1);
    }
  }

  /** The module's own call: buy at 1 on day 1, sell at 6 on day 4. */
  lemma ModuleExample(p: int)
    requires IsMaxProfit([7, 1, 5, 3, 6, 4], p)
    ensures p == 5
  {
    var s := [7, 1, 5, 3, 6, 4];
    assert s[4] - s[1] == 5;
    var i, j :| 0 <= i <= j < |s| && s[j] - s[i] == p;
    ExamplePrice(s, i);
    ExamplePrice(s, j);
  }

  /** The first price is 7; every later one lies between 1 and 6. */
  lemma ExamplePrice(s: seq<int>, k: int)
    requires s == [7, 1, 5, 3, 6, 4] && 0 <= k < 6
    ensures if k == 0 then s[k] == 7 else 1 <= s[k] <= 6
  {
    if k == 0 {
    } else if k == 1 {
    } else if k == 2 {
    } else if k == 3 {
    } else if k == 4 {
    } else {
    }
  }
}
