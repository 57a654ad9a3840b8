/** The clearing price of a call auction: feasibility, maximal volume, imbalance tie-break. */
module AuctionClearing {
  import opened PriceLevels

  // The four cumulative quantities of the auction at a price.
  function BidsAtOrAbove(bids: seq<Order>, p: int): nat { QuantityUpTo(false, bids, p) }
  function BidsAbove(bids: seq<Order>, p: int): nat { QuantityBefore(false, bids, p) }
  function AsksAtOrBelow(asks: seq<Order>, p: int): nat { QuantityUpTo(true, asks, p) }
  function AsksBelow(asks: seq<Order>, p: int): nat { QuantityBefore(true, asks, p) }

  function Min(a: int, b: int): int { if a <= b then a else b }
  function Abs(a: int): nat { if a < 0 then -a else a }

  /** What can trade at price `p`. */
  function Volume(bids: seq<Order>, asks: seq<Order>, p: int): nat {
    Min(BidsAtOrAbove(bids, p), AsksAtOrBelow(asks, p))
  }

  /** Every bid better than `p` and every ask better than `p` can be filled at `p`. */
  predicate Feasible(bids: seq<Order>, asks: seq<Order>, p: int) {
    BidsAbove(bids, p) <= AsksAtOrBelow(asks, p) && AsksBelow(asks, p) <= BidsAtOrAbove(bids, p)
  }

  /** The tie-break measure. */
  function Imbalance(bids: seq<Order>, asks: seq<Order>, p: int): nat {
    Abs(BidsAbove(bids, p) - AsksBelow(asks, p))
  }

  datatype OptimPriceInfo = OptimPriceInfo(
    dealPrice: int,
    expectedDealQuantity: int,
    buyAboveQuantity: int,
    askBelowQuantity: int,
    buyDealPriceLeftQuantity: int,
    askDealPriceRightQuantity: int)
  {
    /** operator> */
    predicate Beats(other: OptimPriceInfo) {
      var quantityDiff := Abs(buyAboveQuantity - askBelowQuantity);
      var otherQuantityDiff := Abs(other.buyAboveQuantity - other.askBelowQuantity);
      expectedDealQuantity > other.expectedDealQuantity ||
      (expectedDealQuantity == other.expectedDealQuantity && quantityDiff < otherQuantityDiff)
    }
  }

  /** The branches that set `ok` for one scanned level. */
  predicate CanDeal(buyAbove: nat, currBuy: nat, askBelow: nat, currSell: nat) {
    if buyAbove + currBuy > askBelow + currSell then !(buyAbove > askBelow + currSell)
    else if buyAbove + currBuy < askBelow + currSell then !(askBelow > buyAbove + currBuy)
    else true
  }

  /** One iteration of either scan: keep the better of the running optimum and this level. */
  function Consider(best: OptimPriceInfo, price: int, buyAbove: nat, currBuy: nat, askBelow: nat, currSell: nat)
    : OptimPriceInfo
  {
    if !CanDeal(buyAbove, currBuy, askBelow, currSell) then best
    else
      var expected := Min(buyAbove + currBuy, askBelow + currSell);
      var current := OptimPriceInfo(price, expected, buyAbove, askBelow,
                                    currBuy + buyAbove - expected, currSell + askBelow - expected);
      if current.Beats(best) then current else best
  }

  /** The record holds the true curve values at its own deal price. */
  predicate Describes(info: OptimPriceInfo, bids: seq<Order>, asks: seq<Order>) {
    var p := info.dealPrice;
    && info.expectedDealQuantity == Volume(bids, asks, p)
    && info.buyAboveQuantity == BidsAbove(bids, p)
    && info.askBelowQuantity == AsksBelow(asks, p)
    && info.buyDealPriceLeftQuantity == BidsAtOrAbove(bids, p) - Volume(bids, asks, p)
    && info.askDealPriceRightQuantity == AsksAtOrBelow(asks, p) - Volume(bids, asks, p)
  }

  /** `p` is the first price in `seen` of least imbalance among the feasible ones. */
  ghost predicate ChosenFrom(bids: seq<Order>, asks: seq<Order>, seen: seq<int>, p: int) {
    exists k :: ChosenAt(bids, asks, seen, p, k)
  }

  ghost predicate ChosenAt(bids: seq<Order>, asks: seq<Order>, seen: seq<int>, p: int, k: int) {
    && 0 <= k < |seen| && seen[k] == p && Feasible(bids, asks, p)
    && (forall j :: 0 <= j < k && Feasible(bids, asks, seen[j]) ==>
          Imbalance(bids, asks, p) < Imbalance(bids, asks, seen[j]))
    && (forall j :: 0 <= j < |seen| && Feasible(bids, asks, seen[j]) ==>
          Imbalance(bids, asks, p) <= Imbalance(bids, asks, seen[j]))
  }

  /** The running optimum after the prices `seen` have been scanned. */
  ghost predicate BestOf(best: OptimPriceInfo, bids: seq<Order>, asks: seq<Order>, seen: seq<int>) {
    if best.expectedDealQuantity == -1 then
      forall k :: 0 <= k < |seen| ==> !Feasible(bids, asks, seen[k])
    else
      best.expectedDealQuantity >= 0 && Describes(best, bids, asks) && ChosenFrom(bids, asks, seen, best.dealPrice)
  }

  predicate Crossed(bidLevels: seq<PriceLevel>, askLevels: seq<PriceLevel>) {
    bidLevels != [] && askLevels != [] && bidLevels[0].price >= askLevels[0].price
  }

  predicate IsBookPrice(bidLevels: seq<PriceLevel>, askLevels: seq<PriceLevel>, p: int) {
    HasLevel(bidLevels, p) || HasLevel(askLevels, p)
  }

  function Prices(levels: seq<PriceLevel>): seq<int> {
    seq(|levels|, k requires 0 <= k < |levels| => levels[k].price)
  }

  /** How many levels of a side reach the other side's best price. */
  function CrossingLevels(ascending: bool, levels: seq<PriceLevel>, limit: int): (n: nat)
    ensures n <= |levels|
  {
    LowerBound(ascending, levels, NextPrice(ascending, limit))
  }

  /** The prices the two scans visit, in order: bids downwards, then asks upwards. */
  function ScanOrder(bidLevels: seq<PriceLevel>, askLevels: seq<PriceLevel>): seq<int>
    requires Crossed(bidLevels, askLevels)
  {
    Prices(bidLevels[..CrossingLevels(false, bidLevels, askLevels[0].price)])
    + Prices(askLevels[..CrossingLevels(true, askLevels, bidLevels[0].price)])
  }

  // ---- the curves cross -----------------------------------------------------

  /** Between neighbouring integer prices the strict and weak curves hand over. */
  lemma CurvesStep(bids: seq<Order>, asks: seq<Order>, p: int)
    ensures BidsAtOrAbove(bids, p + 1) == BidsAbove(bids, p) <= BidsAtOrAbove(bids, p)
    ensures AsksBelow(asks, p + 1) == AsksAtOrBelow(asks, p) >= AsksBelow(asks, p)
  {
    QuantityBeforeMonotone(false, bids, p, p - 1);
    QuantityBeforeMonotone(true, asks, p, p + 1);
  }

  lemma FeasibleWithin(bids: seq<Order>, asks: seq<Order>, p: int)
    ensures Feasible(bids, asks, p) <==>
              BidsAbove(bids, p) <= Volume(bids, asks, p) && AsksBelow(asks, p) <= Volume(bids, asks, p)
  {
    CurvesStep(bids, asks, p);
  }

  /** Every feasible price attains the same, globally maximal volume. */
  lemma FeasibleIsMaximal(bids: seq<Order>, asks: seq<Order>, p: int)
    requires Feasible(bids, asks, p)
    ensures forall q: int :: Volume(bids, asks, q) <= Volume(bids, asks, p)
  {
    FeasibleWithin(bids, asks, p);
    forall q: int ensures Volume(bids, asks, q) <= Volume(bids, asks, p) {
      if q > p {
        QuantityBeforeMonotone(false, bids, q - 1, p);
      } else if q < p {
        QuantityBeforeMonotone(true, asks, q + 1, p);
      }
    }
  }

  /** The source's two-branch test is exactly feasibility. */
  lemma CanDealIsFeasible(bids: seq<Order>, asks: seq<Order>, p: int, currBuy: nat, currSell: nat)
    requires BidsAbove(bids, p) + currBuy == BidsAtOrAbove(bids, p)
    requires AsksBelow(asks, p) + currSell == AsksAtOrBelow(asks, p)
    ensures CanDeal(BidsAbove(bids, p), currBuy, AsksBelow(asks, p), currSell) <==> Feasible(bids, asks, p)
  {
  }

  lemma ChosenExtends(bids: seq<Order>, asks: seq<Order>, seen: seq<int>, p: int, q: int)
    requires ChosenFrom(bids, asks, seen, p)
    requires Feasible(bids, asks, q) ==> Imbalance(bids, asks, p) <= Imbalance(bids, asks, q)
    ensures ChosenFrom(bids, asks, seen + [q], p)
  {
    var k :| ChosenAt(bids, asks, seen, p, k);
    assert ChosenAt(bids, asks, seen + [q], p, k);
  }

  lemma ChosenReplaced(best: OptimPriceInfo, bids: seq<Order>, asks: seq<Order>, seen: seq<int>, q: int)
    requires BestOf(best, bids, asks, seen) && Feasible(bids, asks, q)
    requires best.expectedDealQuantity != -1 ==>
               Imbalance(bids, asks, q) < Imbalance(bids, asks, best.dealPrice)
    ensures ChosenFrom(bids, asks, seen + [q], q)
  {
    if best.expectedDealQuantity != -1 {
      var k :| ChosenAt(bids, asks, seen, best.dealPrice, k);
    }
    assert ChosenAt(bids, asks, seen + [q], q, |seen|);
  }

  lemma ConsiderKeepsBest(best: OptimPriceInfo, bids: seq<Order>, asks: seq<Order>, seen: seq<int>, p: int,
                          currBuy: nat, currSell: nat)
    requires BestOf(best, bids, asks, seen)
    requires BidsAbove(bids, p) + currBuy == BidsAtOrAbove(bids, p)
    requires AsksBelow(asks, p) + currSell == AsksAtOrBelow(asks, p)
    ensures BestOf(Consider(best, p, BidsAbove(bids, p), currBuy, AsksBelow(asks, p), currSell),
                   bids, asks, seen + [p])
  {
    hide QuantityBefore;
    CanDealIsFeasible(bids, asks, p, currBuy, currSell);
    if best.expectedDealQuantity == -1 {
      if Feasible(bids, asks, p) {
        ChosenReplaced(best, bids, asks, seen, p);
      }
    } else {
      if Feasible(bids, asks, p) {
        FeasibleIsMaximal(bids, asks, p);
        FeasibleIsMaximal(bids, asks, best.dealPrice);
        assert Volume(bids, asks, p) == Volume(bids, asks, best.dealPrice);
      }
      if Feasible(bids, asks, p) && Imbalance(bids, asks, p) < Imbalance(bids, asks, best.dealPrice) {
        ChosenReplaced(best, bids, asks, seen, p);
      } else {
        ChosenExtends(bids, asks, seen, best.dealPrice, p);
      }
    }
  }

  lemma NotBookPrice(ascending: bool, levels: seq<PriceLevel>, p: int)
    requires SideOk(ascending, levels) && !HasLevel(levels, p)
    ensures QuantityUpTo(ascending, Flatten(levels), p) == QuantityBefore(ascending, Flatten(levels), p)
  {
    forall k | 0 <= k < |Flatten(levels)| ensures Flatten(levels)[k].price != p {
      var i := FlattenPrices(levels, k);
    }
    NoLevelMeasures(ascending, Flatten(levels), p);
  }

  /** Off the book prices, feasible means that both sides balance exactly. */
  lemma OffBookFeasible(bidLevels: seq<PriceLevel>, askLevels: seq<PriceLevel>, p: int)
    requires SideOk(false, bidLevels) && SideOk(true, askLevels) && !IsBookPrice(bidLevels, askLevels, p)
    ensures var bids, asks := Flatten(bidLevels), Flatten(askLevels);
            && (Feasible(bids, asks, p) <==> BidsAtOrAbove(bids, p) == AsksAtOrBelow(asks, p))
            && (Feasible(bids, asks, p) ==> Imbalance(bids, asks, p) == 0)
            && BidsAbove(bids, p) == BidsAtOrAbove(bids, p) && AsksBelow(asks, p) == AsksAtOrBelow(asks, p)
  {
    NotBookPrice(false, bidLevels, p);
    NotBookPrice(true, askLevels, p);
  }

  lemma BestBid(levels: seq<PriceLevel>)
    requires SideOk(false, levels) && levels != []
    ensures BidsAbove(Flatten(levels), levels[0].price) == 0
    ensures BidsAtOrAbove(Flatten(levels), levels[0].price) > 0
    ensures forall k :: 0 <= k < |levels| ==> levels[k].price <= levels[0].price
  {
    LevelMeasures(false, levels, 0);
    OrdersTotalPositive(levels[0].orders);
  }

  lemma BestAsk(levels: seq<PriceLevel>)
    requires SideOk(true, levels) && levels != []
    ensures AsksBelow(Flatten(levels), levels[0].price) == 0
    ensures AsksAtOrBelow(Flatten(levels), levels[0].price) > 0
    ensures forall k :: 0 <= k < |levels| ==> levels[0].price <= levels[k].price
  {
    LevelMeasures(true, levels, 0);
    OrdersTotalPositive(levels[0].orders);
  }

  /** Walking up from `p`, some book price no higher than the best bid is feasible. */
  lemma {:induction false} FeasibleFrom(bidLevels: seq<PriceLevel>, askLevels: seq<PriceLevel>, p: int)
      returns (q: int)
    requires SideOk(false, bidLevels) && SideOk(true, askLevels) && Crossed(bidLevels, askLevels)
    requires p <= bidLevels[0].price
    requires AsksBelow(Flatten(askLevels), p) <= BidsAtOrAbove(Flatten(bidLevels), p)
    ensures p <= q <= bidLevels[0].price
    ensures IsBookPrice(bidLevels, askLevels, q) && Feasible(Flatten(bidLevels), Flatten(askLevels), q)
    decreases bidLevels[0].price - p
  {
    var bids, asks := Flatten(bidLevels), Flatten(askLevels);
    BestBid(bidLevels);
    if Feasible(bids, asks, p) && IsBookPrice(bidLevels, askLevels, p) {
      q := p;
    } else {
      if Feasible(bids, asks, p) {
        OffBookFeasible(bidLevels, askLevels, p);
      }
      CurvesStep(bids, asks, p);
      q := FeasibleFrom(bidLevels, askLevels, p + 1);
    }
  }

  /** A crossed book always has a feasible book price inside the crossing range. */
  lemma FeasibleBookPriceExists(bidLevels: seq<PriceLevel>, askLevels: seq<PriceLevel>) returns (q: int)
    requires SideOk(false, bidLevels) && SideOk(true, askLevels) && Crossed(bidLevels, askLevels)
    ensures askLevels[0].price <= q <= bidLevels[0].price
    ensures IsBookPrice(bidLevels, askLevels, q) && Feasible(Flatten(bidLevels), Flatten(askLevels), q)
  {
    BestAsk(askLevels);
    q := FeasibleFrom(bidLevels, askLevels, askLevels[0].price);
  }

  lemma FeasibleBetween(bids: seq<Order>, asks: seq<Order>, best: int, least: int, p: int)
    requires least <= best && Feasible(bids, asks, p)
    requires BidsAbove(bids, best) == 0 < BidsAtOrAbove(bids, best)
    requires AsksBelow(asks, least) == 0 < AsksAtOrBelow(asks, least)
    ensures least <= p <= best && Volume(bids, asks, p) > 0
  {
    QuantityBeforeMonotone(true, asks, least + 1, best + 1);
    FeasibleIsMaximal(bids, asks, p);
    assert Volume(bids, asks, best) > 0;
    if p > best {
      QuantityBeforeMonotone(false, bids, p - 1, best);
    }
    if p < least {
      QuantityBeforeMonotone(true, asks, p + 1, least);
    }
  }

  /** Feasible prices of a crossed book all lie in the crossing range. */
  lemma FeasibleInRange(bidLevels: seq<PriceLevel>, askLevels: seq<PriceLevel>, p: int)
    requires SideOk(false, bidLevels) && SideOk(true, askLevels) && Crossed(bidLevels, askLevels)
    requires Feasible(Flatten(bidLevels), Flatten(askLevels), p)
    ensures askLevels[0].price <= p <= bidLevels[0].price
    ensures Volume(Flatten(bidLevels), Flatten(askLevels), p) > 0
  {
    BestAsk(askLevels);
    BestBid(bidLevels);
    FeasibleBetween(Flatten(bidLevels), Flatten(askLevels), bidLevels[0].price, askLevels[0].price, p);
  }

  lemma ReachesIsScanned(ascending: bool, levels: seq<PriceLevel>, limit: int, k: nat)
    requires SideOk(ascending, levels) && k < |levels| && !Precedes(ascending, limit, levels[k].price)
    ensures k < CrossingLevels(ascending, levels, limit)
    ensures Prices(levels[..CrossingLevels(ascending, levels, limit)])[k] == levels[k].price
  {
  }

  lemma ScannedIsLevel(levels: seq<PriceLevel>, n: nat, k: nat)
    requires k < n <= |levels|
    ensures HasLevel(levels, Prices(levels[..n])[k])
  {
    assert levels[k].price == Prices(levels[..n])[k];
  }

  /** The scans visit every feasible book price, so the first least one is the least of them all. */
  lemma ChosenIsLeast(bidLevels: seq<PriceLevel>, askLevels: seq<PriceLevel>, p: int)
    requires SideOk(false, bidLevels) && SideOk(true, askLevels) && Crossed(bidLevels, askLevels)
    requires ChosenFrom(Flatten(bidLevels), Flatten(askLevels), ScanOrder(bidLevels, askLevels), p)
    ensures LeastImbalanceBookPrice(bidLevels, askLevels, p)
  {
    hide QuantityBefore, Flatten, SideOk, Imbalance, Feasible;
    var bids, asks := Flatten(bidLevels), Flatten(askLevels);
    var order := ScanOrder(bidLevels, askLevels);
    var nb := CrossingLevels(false, bidLevels, askLevels[0].price);
    var na := CrossingLevels(true, askLevels, bidLevels[0].price);
    var k :| ChosenAt(bids, asks, order, p, k);
    if k < nb {
      ScannedIsLevel(bidLevels, nb, k);
    } else {
      ScannedIsLevel(askLevels, na, k - nb);
    }
    forall m: nat | m < |bidLevels| && Feasible(bids, asks, bidLevels[m].price)
      ensures Imbalance(bids, asks, p) <= Imbalance(bids, asks, bidLevels[m].price)
    {
      FeasibleInRange(bidLevels, askLevels, bidLevels[m].price);
      ReachesIsScanned(false, bidLevels, askLevels[0].price, m);
      assert order[m] == bidLevels[m].price;
    }
    forall m: nat | m < |askLevels| && Feasible(bids, asks, askLevels[m].price)
      ensures Imbalance(bids, asks, p) <= Imbalance(bids, asks, askLevels[m].price)
    {
      FeasibleInRange(bidLevels, askLevels, askLevels[m].price);
      ReachesIsScanned(true, askLevels, bidLevels[0].price, m);
      assert order[nb + m] == askLevels[m].price;
    }
  }

  /** A feasible price that ties with `p`. */
  predicate TiesWith(bidLevels: seq<PriceLevel>, askLevels: seq<PriceLevel>, p: int, q: int) {
    var bids, asks := Flatten(bidLevels), Flatten(askLevels);
    Feasible(bids, asks, q) && Imbalance(bids, asks, q) == Imbalance(bids, asks, p)
  }

  /** Among equally good quoted prices the highest bid price wins, and without one the lowest ask. */
  lemma TiesGoToHighestBid(bidLevels: seq<PriceLevel>, askLevels: seq<PriceLevel>, p: int)
    requires SideOk(false, bidLevels) && SideOk(true, askLevels) && Crossed(bidLevels, askLevels)
    requires ChosenFrom(Flatten(bidLevels), Flatten(askLevels), ScanOrder(bidLevels, askLevels), p)
    ensures if exists m :: 0 <= m < |bidLevels| && TiesWith(bidLevels, askLevels, p, bidLevels[m].price) then
              && HasLevel(bidLevels, p)
              && forall m :: 0 <= m < |bidLevels| && TiesWith(bidLevels, askLevels, p, bidLevels[m].price) ==>
                   bidLevels[m].price <= p
            else
              && HasLevel(askLevels, p)
              && forall m :: 0 <= m < |askLevels| && TiesWith(bidLevels, askLevels, p, askLevels[m].price) ==>
                   p <= askLevels[m].price
  {
    var bids, asks := Flatten(bidLevels), Flatten(askLevels);
    var order := ScanOrder(bidLevels, askLevels);
    var nb := CrossingLevels(false, bidLevels, askLevels[0].price);
    var na := CrossingLevels(true, askLevels, bidLevels[0].price);
    LevelsOrdered(false, bidLevels);
    LevelsOrdered(true, askLevels);
    hide QuantityBefore, Flatten, SideOk, Imbalance, Feasible;
    var k :| ChosenAt(bids, asks, order, p, k);
    forall m: nat | m < |bidLevels| && TiesWith(bidLevels, askLevels, p, bidLevels[m].price) ensures k <= m < nb {
      FeasibleInRange(bidLevels, askLevels, bidLevels[m].price);
      ReachesIsScanned(false, bidLevels, askLevels[0].price, m);
      assert order[m] == bidLevels[m].price;
    }
    forall m: nat | m < |askLevels| && TiesWith(bidLevels, askLevels, p, askLevels[m].price) ensures k <= nb + m {
      FeasibleInRange(bidLevels, askLevels, askLevels[m].price);
      ReachesIsScanned(true, askLevels, bidLevels[0].price, m);
      assert order[nb + m] == askLevels[m].price;
    }
    if k < nb {
      assert order[k] == bidLevels[k].price == p;
      assert TiesWith(bidLevels, askLevels, p, bidLevels[k].price);
    } else {
      assert order[k] == askLevels[k - nb].price == p;
    }
  }

  lemma LevelsOrdered(ascending: bool, levels: seq<PriceLevel>)
    requires SideOk(ascending, levels)
    ensures forall j, k :: 0 <= j <= k < |levels| ==>
              if ascending then levels[j].price <= levels[k].price else levels[j].price >= levels[k].price
  {
    assert forall j, k :: 0 <= j < k < |levels| ==> Precedes(ascending, levels[j].price, levels[k].price);
  }

  /** The scans of a crossed book cannot come out without a deal price. */
  lemma ScanFinds(best: OptimPriceInfo, bidLevels: seq<PriceLevel>, askLevels: seq<PriceLevel>)
    requires SideOk(false, bidLevels) && SideOk(true, askLevels) && Crossed(bidLevels, askLevels)
    requires BestOf(best, Flatten(bidLevels), Flatten(askLevels), ScanOrder(bidLevels, askLevels))
    ensures best.expectedDealQuantity != -1
  {
    hide QuantityBefore, Flatten, SideOk, Imbalance, Feasible;
    var q := FeasibleBookPriceExists(bidLevels, askLevels);
    var nb := CrossingLevels(false, bidLevels, askLevels[0].price);
    if HasLevel(bidLevels, q) {
      var k :| 0 <= k < |bidLevels| && bidLevels[k].price == q;
      ReachesIsScanned(false, bidLevels, askLevels[0].price, k);
      assert ScanOrder(bidLevels, askLevels)[k] == q;
    } else {
      var k :| 0 <= k < |askLevels| && askLevels[k].price == q;
      ReachesIsScanned(true, askLevels, bidLevels[0].price, k);
      assert ScanOrder(bidLevels, askLevels)[nb + k] == q;
    }
  }

  // ---- the tie-break over all integer prices --------------------------------

  /** A feasible book price of least imbalance among the book prices. */
  predicate LeastImbalanceBookPrice(bidLevels: seq<PriceLevel>, askLevels: seq<PriceLevel>, p: int) {
    var bids, asks := Flatten(bidLevels), Flatten(askLevels);
    && IsBookPrice(bidLevels, askLevels, p) && Feasible(bids, asks, p)
    && (forall k :: 0 <= k < |bidLevels| && Feasible(bids, asks, bidLevels[k].price) ==>
          Imbalance(bids, asks, p) <= Imbalance(bids, asks, bidLevels[k].price))
    && (forall k :: 0 <= k < |askLevels| && Feasible(bids, asks, askLevels[k].price) ==>
          Imbalance(bids, asks, p) <= Imbalance(bids, asks, askLevels[k].price))
  }

  /** Least imbalance among ALL feasible integer prices; stronger than the tie-break gives. */
  ghost predicate LeastImbalanceAnywhere(bidLevels: seq<PriceLevel>, askLevels: seq<PriceLevel>, p: int) {
    var bids, asks := Flatten(bidLevels), Flatten(askLevels);
    forall q: int :: Feasible(bids, asks, q) ==> Imbalance(bids, asks, p) <= Imbalance(bids, asks, q)
  }

  /** The two sides balance exactly at some price the book does not quote. */
  ghost predicate BalancesOffBook(bidLevels: seq<PriceLevel>, askLevels: seq<PriceLevel>) {
    exists q: int :: !IsBookPrice(bidLevels, askLevels, q) &&
                     BidsAtOrAbove(Flatten(bidLevels), q) == AsksAtOrBelow(Flatten(askLevels), q)
  }

  /** Some quoted price has as much bid strictly above it as ask strictly below it. */
  ghost predicate BalancedBookPrice(bidLevels: seq<PriceLevel>, askLevels: seq<PriceLevel>) {
    exists q: int :: IsBookPrice(bidLevels, askLevels, q) &&
                     BidsAbove(Flatten(bidLevels), q) == AsksBelow(Flatten(askLevels), q)
  }

  /** Exactly when the chosen price is of least imbalance among all integer prices. */
  lemma LeastImbalanceAnywhereIff(bidLevels: seq<PriceLevel>, askLevels: seq<PriceLevel>, p: int)
    requires SideOk(false, bidLevels) && SideOk(true, askLevels)
    requires LeastImbalanceBookPrice(bidLevels, askLevels, p)
    ensures LeastImbalanceAnywhere(bidLevels, askLevels, p) <==>
              BalancedBookPrice(bidLevels, askLevels) || !BalancesOffBook(bidLevels, askLevels)
  {
    var bids, asks := Flatten(bidLevels), Flatten(askLevels);
    if BalancedBookPrice(bidLevels, askLevels) {
      var q :| IsBookPrice(bidLevels, askLevels, q) && BidsAbove(bids, q) == AsksBelow(asks, q);
      CurvesStep(bids, asks, q);
      assert Feasible(bids, asks, q) && Imbalance(bids, asks, q) == 0;
      assert Imbalance(bids, asks, p) == 0;
    } else if BalancesOffBook(bidLevels, askLevels) {
      var q :| !IsBookPrice(bidLevels, askLevels, q) && BidsAtOrAbove(bids, q) == AsksAtOrBelow(asks, q);
      OffBookFeasible(bidLevels, askLevels, q);
      assert Imbalance(bids, asks, p) != 0;
    } else {
      forall q: int | Feasible(bids, asks, q) ensures Imbalance(bids, asks, p) <= Imbalance(bids, asks, q) {
        if !IsBookPrice(bidLevels, askLevels, q) {
          OffBookFeasible(bidLevels, askLevels, q);
        }
      }
    }
  }

  /** A book on which the stronger claim fails: ten to buy at 10, ten to sell at 5. */
  function LopsidedBids(): seq<PriceLevel> { [PriceLevel(10, 10, [Order(1, 10, 10, 1)])] }
  function LopsidedAsks(): seq<PriceLevel> { [PriceLevel(5, 10, [Order(2, 5, 10, 2)])] }

  lemma SingleOrder(ascending: bool, order: Order, p: int)
    ensures QuantityBefore(ascending, [order], p) == if Precedes(ascending, order.price, p) then order.quantity else 0
  {
    assert QuantityBefore(ascending, [order][..0], p) == 0;
  }

  lemma LopsidedCurves(p: int)
    ensures BidsAbove(Flatten(LopsidedBids()), p) == if p < 10 then 10 else 0
    ensures BidsAtOrAbove(Flatten(LopsidedBids()), p) == if p <= 10 then 10 else 0
    ensures AsksBelow(Flatten(LopsidedAsks()), p) == if p > 5 then 10 else 0
    ensures AsksAtOrBelow(Flatten(LopsidedAsks()), p) == if p >= 5 then 10 else 0
  {
    var bid, ask := Order(1, 10, 10, 1), Order(2, 5, 10, 2);
    FlattenInsert([], PriceLevel(10, 10, [bid]), []);
    FlattenInsert([], PriceLevel(5, 10, [ask]), []);
    assert [] + LopsidedBids() + [] == LopsidedBids() && [] + LopsidedAsks() + [] == LopsidedAsks();
    assert [] + [bid] + [] == [bid] && [] + [ask] + [] == [ask];
    SingleOrder(false, bid, p);
    SingleOrder(false, bid, p - 1);
    SingleOrder(true, ask, p);
    SingleOrder(true, ask, p + 1);
  }

  lemma LeastImbalanceAnywhereFails()
    ensures SideOk(false, LopsidedBids()) && SideOk(true, LopsidedAsks()) && Crossed(LopsidedBids(), LopsidedAsks())
    ensures LeastImbalanceBookPrice(LopsidedBids(), LopsidedAsks(), 10)
    ensures !LeastImbalanceAnywhere(LopsidedBids(), LopsidedAsks(), 10)
  {
    LopsidedCurves(5);
    LopsidedCurves(7);
    LopsidedCurves(10);
    assert OrdersTotal([Order(1, 10, 10, 1)]) == 10 && OrdersTotal([Order(2, 5, 10, 2)]) == 10;
    assert LopsidedBids()[0].price == 10;
    assert Feasible(Flatten(LopsidedBids()), Flatten(LopsidedAsks()), 7);
  }
}
