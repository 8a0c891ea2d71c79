/**
 The stock-trading routines of data_structure/408/program.cpp: one trade (`max_profit_1`)
 and any number of non-overlapping trades (`max_profit_2`).
 */
module Trading {

  datatype Trade = Trade(buy: nat, sell: nat)

  /** Trades in time order, each bought before it is sold and only after the previous one is sold. */
  ghost predicate Plan(s: seq<int>, p: seq<Trade>) {
    && (forall i :: 0 <= i < |p| ==> p[i].buy < p[i].sell < |s|)
    && (forall i, j :: 0 <= i < j < |p| ==> p[i].sell <= p[j].buy)
  }

  ghost function Profit(s: seq<int>, p: seq<Trade>): int
    requires Plan(s, p)
  {
    if p == [] then 0
    else var last := p[|p| - 1]; Profit(s, p[..|p| - 1]) + s[last.sell] - s[last.buy]
  }

  /** `best` is what the most profitable plan earns. */
  ghost predicate BestPlanProfit(s: seq<int>, best: int) {
    && (forall p :: Plan(s, p) ==> Profit(s, p) <= best)
    && (exists p :: Plan(s, p) && Profit(s, p) == best)
  }

  /** `best` is what the most profitable single trade earns, or 0 when no trade earns anything. */
  ghost predicate BestSingleProfit(s: seq<int>, best: int) {
    && best >= 0
    && (forall b, e :: 0 <= b < e < |s| ==> s[e] - s[b] <= best)
    && (best == 0 || exists b, e :: 0 <= b < e < |s| && s[e] - s[b] == best)
  }

  /** The sum of all daily rises up to and including day `d`. */
  ghost function Climb(s: seq<int>, d: nat): int
    requires d < |s|
  {
    if d == 0 then 0 else Climb(s, d - 1) + (if s[d] > s[d - 1] then s[d] - s[d - 1] else 0)
  }

  lemma {:induction false} ClimbCoversDifference(s: seq<int>, b: nat, e: nat)
    requires b <= e < |s|
    ensures s[e] - s[b] <= Climb(s, e) - Climb(s, b)
    ensures Climb(s, b) <= Climb(s, e)
    decreases e - b
  {
    if b < e {
      ClimbCoversDifference(s, b, e - 1);
    }
  }

  lemma {:induction false} PlanEarnsAtMostClimb(s: seq<int>, p: seq<Trade>, d: nat)
    requires Plan(s, p) && d < |s|
    requires p != [] ==> p[|p| - 1].sell <= d
    ensures Profit(s, p) <= Climb(s, d)
    decreases |p|
  {
    if p == [] {
      ClimbCoversDifference(s, 0, d);
    } else {
      var last := p[|p| - 1];
      PlanEarnsAtMostClimb(s, p[..|p| - 1], last.buy);
      ClimbCoversDifference(s, last.buy, last.sell);
      ClimbCoversDifference(s, last.sell, d);
    }
  }

  lemma PlanSnoc(s: seq<int>, q: seq<Trade>, t: Trade) returns (p: seq<Trade>)
    requires Plan(s, q) && t.buy < t.sell < |s|
    requires q != [] ==> q[|q| - 1].sell <= t.buy
    ensures p == q + [t] && Plan(s, p) && Profit(s, p) == Profit(s, q) + s[t.sell] - s[t.buy]
  {
    p := q + [t];
    forall i | 0 <= i < |q| ensures p[i].sell <= t.buy {
      assert i < |q| - 1 ==> q[i].sell <= q[|q| - 1].buy;
    }
    assert p[..|p| - 1] == q;
  }

  /** Holding over exactly the rising days is a plan that earns the whole climb. */
  lemma {:induction false} ClimbIsEarned(s: seq<int>, d: nat) returns (p: seq<Trade>)
    requires d < |s|
    ensures Plan(s, p) && Profit(s, p) == Climb(s, d)
    ensures p != [] ==> p[|p| - 1].sell <= d
  {
    if d == 0 {
      p := [];
    } else {
      var q := ClimbIsEarned(s, d - 1);
      if s[d] > s[d - 1] {
        p := PlanSnoc(s, q, Trade(d - 1, d));
      } else {
        p := q;
      }
    }
  }

  lemma ClimbIsBest(s: seq<int>)
    requires |s| > 0
    ensures BestPlanProfit(s, Climb(s, |s| - 1))
  {
    forall p | Plan(s, p) ensures Profit(s, p) <= Climb(s, |s| - 1) {
      PlanEarnsAtMostClimb(s, p, |s| - 1);
    }
    var p := ClimbIsEarned(s, |s| - 1);
  }

  /** Trading once never beats trading freely. */
  lemma SingleNeverBeatsPlan(s: seq<int>, single: int, best: int)
    requires BestSingleProfit(s, single) && BestPlanProfit(s, best)
    ensures single <= best
  {
    if single == 0 {
      assert Plan(s, []) && Profit(s, []) == 0;
    } else {
      var b, e :| 0 <= b < e < |s| && s[e] - s[b] == single;
      var p := [Trade(b, e)];
      assert p[..0] == [];
      assert Plan(s, p) && Profit(s, p) == single;
    }
  }

  /** `max_profit_1` (lines 136-150). */
  method MaxProfit1(prices: seq<int>) returns (maxProfit: int)
    ensures BestSingleProfit(prices, maxProfit)
  {
    if prices == [] {
      return 0;
    }
    var minPrice := prices[0];
    maxProfit := 0;
    var i := 1;
    while i < |prices|
      invariant 1 <= i <= |prices|
      invariant minPrice in prices[..i] && forall b :: 0 <= b < i ==> minPrice <= prices[b]
      invariant maxProfit >= 0
      invariant forall b, e :: 0 <= b < e < i ==> prices[e] - prices[b] <= maxProfit
      invariant maxProfit == 0 || exists b, e :: 0 <= b < e < i && prices[e] - prices[b] == maxProfit
    {
      if prices[i] - minPrice > maxProfit {
        maxProfit := prices[i] - minPrice;
        ghost var b :| 0 <= b < i && prices[b] == minPrice;
        assert prices[i] - prices[b] == maxProfit;
      }
      if prices[i] < minPrice {
        minPrice := prices[i];
      }
      i := i + 1;
    }
  }

  /** `max_profit_2` (lines 152-160). */
  method MaxProfit2(s: seq<int>) returns (maxProfit: int)
    ensures BestPlanProfit(s, maxProfit)
  {
    maxProfit := 0;
    var i := 1;
    while i < |s|
      invariant 1 <= i && (|s| > 0 ==> i <= |s|)
      invariant maxProfit == if |s| > 0 then Climb(s, i - 1) else 0
    {
      if s[i] - s[i - 1] > 0 {
        maxProfit := maxProfit + s[i] - s[i - 1];
      }
      i := i + 1;
    }
    if |s| > 0 {
      ClimbIsBest(s);
    } else {
      assert Plan(s, []) && Profit(s, []) == 0;
      assert forall p: seq<Trade> :: Plan(s, p) && p != [] ==> p[0].sell < |s|;
    }
  }
}
