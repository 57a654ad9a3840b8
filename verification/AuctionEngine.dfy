/** The order book object: insertion, price scan, matching and displayed depth. */
module AuctionEngine {
  import opened PriceLevels
  import opened AuctionClearing
  import opened AuctionMatching
  import opened AuctionDepth

  /** Assignment of a 64-bit value to a 32-bit int. */
  function ToInt32(x: int): (r: int)
    ensures -0x8000_0000 <= x < 0x8000_0000 ==> r == x
    ensures -0x8000_0000 <= r < 0x8000_0000 && (x - r) % 0x1_0000_0000 == 0
  {
    (x + 0x8000_0000) % 0x1_0000_0000 - 0x8000_0000
  }

  datatype OrderBookStatus = OrderBookStatus(
    nts: nat, cvl: int, cto: int, lpr: int,
    bp: seq<int>, ap: seq<int>, bs: seq<int>, asz: seq<int>)

  const EMPTY_STATUS := OrderBookStatus(0, 0, 0, 0, [0, 0, 0, 0, 0], [0, 0, 0, 0, 0], [0, 0, 0, 0, 0], [0, 0, 0, 0, 0])

  /** Bids are shown best last (index 4 downwards), asks best first; unused cells stay zero. */
  predicate ShowsDepth(prices: seq<int>, sizes: seq<int>, depth: seq<Quote>, bestLast: bool) {
    && |prices| == 5 && |sizes| == 5
    && forall cell :: 0 <= cell < 5 ==>
         var n := if bestLast then 4 - cell else cell;
         && prices[cell] == (if n < |depth| then ToInt32(depth[n].price) else 0)
         && sizes[cell] == (if n < |depth| then ToInt32(depth[n].size) else 0)
  }

  predicate DepthPositive(depth: seq<Quote>) {
    forall n :: 0 <= n < |depth| ==> depth[n].size > 0
  }

  /** What a status of a crossed book has to report. */
  ghost predicate Reports(status: OrderBookStatus, bidLevels: seq<PriceLevel>, askLevels: seq<PriceLevel>)
    requires Crossed(bidLevels, askLevels)
  {
    var bids, asks := Flatten(bidLevels), Flatten(askLevels);
    && ChosenFrom(bids, asks, ScanOrder(bidLevels, askLevels), status.lpr)
    && LeastImbalanceBookPrice(bidLevels, askLevels, status.lpr)
    && status.cvl == Volume(bids, asks, status.lpr) > 0
    && (forall q: int :: Volume(bids, asks, q) <= status.cvl)
    && status.cto == status.cvl * status.lpr / 10000
    && status.nts == |TradePoints(bids, asks, status.cvl)|
    && 1 <= status.nts <= |bids| + |asks| - 1
    && ReportsDepth(status, DepthAfter(bidLevels, status.cvl), DepthAfter(askLevels, status.cvl))
  }

  ghost predicate ReportsDepth(status: OrderBookStatus, bidDepth: seq<Quote>, askDepth: seq<Quote>) {
    && ShowsDepth(status.bp, status.bs, bidDepth, true)
    && ShowsDepth(status.ap, status.asz, askDepth, false)
    && DepthPositive(bidDepth) && DepthPositive(askDepth)
    && (bidDepth != [] && askDepth != [] ==> bidDepth[0].price < askDepth[0].price)
  }

  // ---- prefix sums ----------------------------------------------------------

  datatype PrefixSum = PrefixSum(price: int, sum: nat)

  /** Entry `k` holds what stands before level `k`; the sentinel entry holds the side's total. */
  predicate IsPrefixSum(sums: seq<PrefixSum>, levels: seq<PriceLevel>, sentinel: int) {
    && |sums| == |levels| + 1
    && (forall k :: 0 <= k < |levels| ==> sums[k] == PrefixSum(levels[k].price, LevelsTotal(levels[..k])))
    && sums[|levels|] == PrefixSum(sentinel, LevelsTotal(levels))
  }

  method BuildPrefixSums(levels: seq<PriceLevel>, sentinel: int) returns (sums: seq<PrefixSum>)
    ensures IsPrefixSum(sums, levels, sentinel)
  {
    sums := [];
    var total := 0;
    for k := 0 to |levels|
      invariant |sums| == k && total == LevelsTotal(levels[..k])
      invariant forall m :: 0 <= m < k ==> sums[m] == PrefixSum(levels[m].price, LevelsTotal(levels[..m]))
    {
      sums := sums + [PrefixSum(levels[k].price, total)];
      total := total + levels[k].quantity;
      FlattenStep(levels, k);
    }
    assert levels[..|levels|] == levels;
    sums := sums + [PrefixSum(sentinel, total)];
  }

  /** `lower_bound` on a prefix-sum map. */
  function FirstNotBefore(ascending: bool, sums: seq<PrefixSum>, p: int): (i: nat)
    ensures i <= |sums|
    ensures forall k :: 0 <= k < i ==> Precedes(ascending, sums[k].price, p)
    ensures i < |sums| ==> !Precedes(ascending, sums[i].price, p)
  {
    LowerBoundBy(ascending, sums, (s: PrefixSum) => s.price, p)
  }

  lemma LookupCut(ascending: bool, levels: seq<PriceLevel>, sums: seq<PrefixSum>, sentinel: int, p: int)
    requires SideOk(ascending, levels) && IsPrefixSum(sums, levels, sentinel) && Precedes(ascending, p, sentinel)
    ensures var i := FirstNotBefore(ascending, sums, p);
            && i <= |levels|
            && (forall k :: 0 <= k < i ==> Precedes(ascending, levels[k].price, p))
            && (forall k :: i <= k < |levels| ==> !Precedes(ascending, levels[k].price, p))
            && (forall k :: 0 <= k < |levels| && levels[k].price == p ==> k == i)
  {
    hide LevelsTotal, LevelOk;
    var i := FirstNotBefore(ascending, sums, p);
    assert sums[|levels|].price == sentinel;
    assert forall k :: 0 <= k < |levels| ==> levels[k].price == sums[k].price;
  }

  /** What a lookup at `p` yields: the quantity before `p` and the quantity at `p`. */
  lemma LookupMeasures(ascending: bool, levels: seq<PriceLevel>, sums: seq<PrefixSum>, sentinel: int, p: int)
    requires SideOk(ascending, levels) && IsPrefixSum(sums, levels, sentinel) && Precedes(ascending, p, sentinel)
    ensures var i := FirstNotBefore(ascending, sums, p);
            var at := if i < |levels| && levels[i].price == p then levels[i].quantity else 0;
            && i < |sums| && (sums[i].price == p <==> i < |levels| && levels[i].price == p)
            && sums[i].sum == QuantityBefore(ascending, Flatten(levels), p)
            && sums[i].sum + at == QuantityUpTo(ascending, Flatten(levels), p)
  {
    hide QuantityBefore, Flatten, LevelsTotal, SideOk;
    var i := FirstNotBefore(ascending, sums, p);
    LookupCut(ascending, levels, sums, sentinel, p);
    LevelCutMeasures(ascending, levels, i, p);
    assert levels[..|levels|] == levels;
    if i < |levels| && levels[i].price == p {
      LevelMeasures(ascending, levels, i);
    } else {
      NotBookPrice(ascending, levels, p);
    }
  }

  // ---- the book -------------------------------------------------------------

  class OrderBook {
    var bids: seq<PriceLevel>
    var asks: seq<PriceLevel>

    ghost predicate Valid()
      reads this
    {
      SideOk(false, bids) && SideOk(true, asks)
    }

    constructor ()
      ensures Valid() && bids == [] && asks == []
    {
      bids, asks := [], [];
    }

    /** `bidPriceMaps[price].quantity`, which creates an empty level when there is none. */
    method BidQuantityAt(price: int) returns (quantity: nat)
      modifies this`bids
      ensures var (located, i) := Subscript(false, old(bids), price); bids == located && quantity == located[i].quantity
    {
      var (located, i) := Subscript(false, bids, price);
      bids := located;
      quantity := located[i].quantity;
    }

    /** `askPriceMaps[price].quantity`, which creates an empty level when there is none. */
    method AskQuantityAt(price: int) returns (quantity: nat)
      modifies this`asks
      ensures var (located, i) := Subscript(true, old(asks), price); asks == located && quantity == located[i].quantity
    {
      var (located, i) := Subscript(true, asks, price);
      asks := located;
      quantity := located[i].quantity;
    }

    /** The first scan: bid levels from the best down to the best ask. */
    method ScanBids(bidSums: seq<PrefixSum>, askSums: seq<PrefixSum>, start: OptimPriceInfo)
        returns (best: OptimPriceInfo)
      requires Valid() && Crossed(bids, asks)
      requires IsPrefixSum(bidSums, bids, 0) && IsPrefixSum(askSums, asks, MAX_PRICE)
      requires start.expectedDealQuantity == -1
      modifies this
      ensures bids == old(bids) && asks == old(asks)
      ensures BestOf(best, Flatten(bids), Flatten(asks),
                     Prices(bids[..CrossingLevels(false, bids, asks[0].price)]))
    {
      hide Flatten, QuantityBefore, SideOk, BestOf, Consider, LevelsTotal, LowerBound, FirstNotBefore;
      best := start;
      ghost var bidOrders, askOrders := Flatten(bids), Flatten(asks);
      ghost var n := CrossingLevels(false, bids, asks[0].price);
      assert BestOf(best, bidOrders, askOrders, Prices(bids[..0])) by {
        BestOfNone(best, bidOrders, askOrders);
        assert Prices(bids[..0]) == [];
      }
      PricesInRange(false, bids);
      PricesInRange(true, asks);
      var minBidPrice := askSums[0].price;
      var i := 0;
      while i != |bidSums|
        invariant bids == old(bids) && asks == old(asks)
        invariant 0 <= i <= n
        invariant BestOf(best, bidOrders, askOrders, Prices(bids[..i]))
        decreases |bidSums| - i
      {
        if bidSums[i].price < minBidPrice {
          break;
        }
        assert i < n;
        var curPrice := bidSums[i].price;
        BidLookup(bids, i);
        var currBuy := BidQuantityAt(curPrice);
        LookupMeasures(true, asks, askSums, MAX_PRICE, curPrice);
        var j := FirstNotBefore(true, askSums, curPrice);
        var currSell := 0;
        if askSums[j].price == curPrice {
          AskLookup(asks, j);
          currSell := AskQuantityAt(curPrice);
        }
        ConsiderKeepsBest(best, bidOrders, askOrders, Prices(bids[..i]), curPrice, currBuy, currSell);
        best := Consider(best, curPrice, bidSums[i].sum, currBuy, askSums[j].sum, currSell);
        assert Prices(bids[..i + 1]) == Prices(bids[..i]) + [curPrice];
        i := i + 1;
      }
    }

    /** The second scan: ask levels from the best up to the best bid. */
    method ScanAsks(bidSums: seq<PrefixSum>, askSums: seq<PrefixSum>, start: OptimPriceInfo)
        returns (best: OptimPriceInfo)
      requires Valid() && Crossed(bids, asks)
      requires IsPrefixSum(bidSums, bids, 0) && IsPrefixSum(askSums, asks, MAX_PRICE)
      requires BestOf(start, Flatten(bids), Flatten(asks), Prices(bids[..CrossingLevels(false, bids, asks[0].price)]))
      modifies this
      ensures bids == old(bids) && asks == old(asks)
      ensures BestOf(best, Flatten(bids), Flatten(asks), ScanOrder(bids, asks))
    {
      hide Flatten, QuantityBefore, SideOk, BestOf, Consider, LevelsTotal, LowerBound, FirstNotBefore;
      best := start;
      ghost var bidOrders, askOrders := Flatten(bids), Flatten(asks);
      ghost var seen := Prices(bids[..CrossingLevels(false, bids, asks[0].price)]);
      ghost var n := CrossingLevels(true, asks, bids[0].price);
      PricesInRange(false, bids);
      PricesInRange(true, asks);
      assert seen + Prices(asks[..0]) == seen;
      var maxAskPrice := bidSums[0].price;
      var i := 0;
      while i != |askSums|
        invariant bids == old(bids) && asks == old(asks)
        invariant 0 <= i <= n
        invariant BestOf(best, bidOrders, askOrders, seen + Prices(asks[..i]))
        decreases |askSums| - i
      {
        if askSums[i].price > maxAskPrice {
          break;
        }
        assert i < n;
        var curPrice := askSums[i].price;
        AskLookup(asks, i);
        var currSell := AskQuantityAt(curPrice);
        LookupMeasures(false, bids, bidSums, 0, curPrice);
        var j := FirstNotBefore(false, bidSums, curPrice);
        var currBuy := 0;
        if bidSums[j].price == curPrice {
          BidLookup(bids, j);
          currBuy := BidQuantityAt(curPrice);
        }
        ConsiderKeepsBest(best, bidOrders, askOrders, seen + Prices(asks[..i]), curPrice, currBuy, currSell);
        best := Consider(best, curPrice, bidSums[j].sum, currBuy, askSums[i].sum, currSell);
        assert seen + Prices(asks[..i + 1]) == (seen + Prices(asks[..i])) + [curPrice];
        i := i + 1;
      }
    }

    /** The displayed five levels of one side, starting at the level the walk stopped on. */
    static method ShowSide(ghost ascending: bool, levels: seq<PriceLevel>, from: nat, dealPrice: int, left: int,
                           bestLast: bool, ghost traded: nat) returns (prices: seq<int>, sizes: seq<int>)
      requires SideOk(ascending, levels) && LevelStandsAt(levels, from, traded)
      requires QuantityBefore(ascending, Flatten(levels), dealPrice) <= traded
      requires traded <= QuantityUpTo(ascending, Flatten(levels), dealPrice)
      requires left == QuantityUpTo(ascending, Flatten(levels), dealPrice) - traded
      ensures ShowsDepth(prices, sizes, DepthAfter(levels, traded), bestLast)
      ensures |DepthAfter(levels, traded)| == |levels| - from && DepthPositive(DepthAfter(levels, traded))
      ensures from < |levels| ==> DepthAfter(levels, traded)[0].price == levels[from].price
    {
      hide Flatten, QuantityBefore, SideOk, LevelsTotal, DepthAfter, LevelStandsAt;
      prices, sizes := [0, 0, 0, 0, 0], [0, 0, 0, 0, 0];
      ghost var depth := DepthAfter(levels, traded);
      SideQuantities(ascending, levels);
      StandsWithin(levels, from, traded);
      DepthLength(levels, from, traded);
      forall n: nat | n < |depth| ensures depth[n].size > 0 && depth[n].price == levels[from + n].price {
        ShownIsLeft(ascending, levels, from, n, dealPrice, traded);
      }
      var iter, count := from, 0;
      while iter != |levels| && count < 5
        invariant iter == from + count && count <= 5 && iter <= |levels|
        invariant |prices| == 5 && |sizes| == 5
        invariant forall cell :: 0 <= cell < 5 ==>
                    var n := if bestLast then 4 - cell else cell;
                    && prices[cell] == (if n < count then ToInt32(depth[n].price) else 0)
                    && sizes[cell] == (if n < count then ToInt32(depth[n].size) else 0)
      {
        ShownIsLeft(ascending, levels, from, count, dealPrice, traded);
        var cell := if bestLast then 4 - count else count;
        prices := prices[cell := ToInt32(levels[iter].price)];
        sizes := sizes[cell := ToInt32(ShownSize(levels[iter], dealPrice, left))];
        iter, count := iter + 1, count + 1;
      }
    }

    /** The body of the status computation once the book is known to cross. */
    method ClearCrossed() returns (status: OrderBookStatus)
      requires Valid() && Crossed(bids, asks)
      modifies this
      ensures bids == old(bids) && asks == old(asks)
      ensures Reports(status, bids, asks) && status.cto == status.cvl * status.lpr / 10000
    {
      hide Flatten, QuantityBefore, SideOk, LevelsTotal, BestOf, StandsAt, ChosenFrom, LeastImbalanceBookPrice, Volume,
           TradePoints, ShowsDepth, LevelStandsAt, DepthAfter, ScanOrder, DepthPositive, IsPrefixSum, Crossed;
      var bidSums := BuildPrefixSums(bids, 0);
      var askSums := BuildPrefixSums(asks, MAX_PRICE);
      var uninitialised: OptimPriceInfo := *;
      var best := ScanBids(bidSums, askSums, uninitialised.(expectedDealQuantity := -1));
      best := ScanAsks(bidSums, askSums, best);
      ScanSettles(best, bids, asks);

      var tradeCount, buyOrderIt, sellOrderIt, traded, meetingPrice := MatchOrders(bids, asks);
      WalkSettles(bids, asks, buyOrderIt, sellOrderIt, traded, tradeCount, meetingPrice, best.dealPrice);

      var bp, bs := ShowSide(false, bids, buyOrderIt.mapIter, best.dealPrice,
                             best.buyDealPriceLeftQuantity, true, traded);
      var ap, asz := ShowSide(true, asks, sellOrderIt.mapIter, best.dealPrice,
                              best.askDealPriceRightQuantity, false, traded);
      status := OrderBookStatus(tradeCount, best.expectedDealQuantity,
                                best.expectedDealQuantity * best.dealPrice / 10000, best.dealPrice,
                                bp, ap, bs, asz);
    }

    /** The auction status of the book. */
    method FlushStatus() returns (status: OrderBookStatus)
      requires Valid()
      modifies this
      ensures bids == old(bids) && asks == old(asks)
      ensures bids == [] || asks == [] || bids[0].price < asks[0].price ==>
                && status.nts == status.cvl == status.cto == status.lpr == 0
                && status.bp == status.ap == status.bs == status.asz == [0, 0, 0, 0, 0]
      ensures Crossed(bids, asks) ==> Reports(status, bids, asks)
      ensures bids != [] && asks != [] && bids[0].price >= asks[0].price ==> Crossed(bids, asks)
      ensures Crossed(bids, asks) ==> status.cto == status.cvl * status.lpr / 10000
    {
      hide Reports, SideOk;
      if |bids| == 0 || |asks| == 0 {
        return EMPTY_STATUS;
      } else if bids[0].price < asks[0].price {
        return EMPTY_STATUS;
      }
      status := ClearCrossed();
    }

    /** Insert an order and report; an order of an unknown side is ignored. */
    method InsertOrder(order: Order) returns (obs: OrderBookStatus)
      requires Valid()
      requires order.side == 1 || order.side == 2 ==> AcceptableOrder(order)
      modifies this
      ensures Valid()
      ensures bids == if order.side == 1 then AddOrder(false, old(bids), order) else old(bids)
      ensures asks == if order.side == 2 then AddOrder(true, old(asks), order) else old(asks)
      ensures !Crossed(bids, asks) ==>
                && obs.nts == obs.cvl == obs.cto == obs.lpr == 0
                && obs.bp == obs.ap == obs.bs == obs.asz == [0, 0, 0, 0, 0]
      ensures Crossed(bids, asks) ==> Reports(obs, bids, asks)
    {
      if order.side == 1 {
        AddOrderSideOk(false, bids, order);
        bids := AddOrder(false, bids, order);
      } else if order.side == 2 {
        AddOrderSideOk(true, asks, order);
        asks := AddOrder(true, asks, order);
      }
      obs := FlushStatus();
    }
  }

  lemma BestOfNone(best: OptimPriceInfo, bids: seq<Order>, asks: seq<Order>)
    requires best.expectedDealQuantity == -1
    ensures BestOf(best, bids, asks, [])
  {
  }

  lemma PricesInRange(ascending: bool, levels: seq<PriceLevel>)
    requires SideOk(ascending, levels)
    ensures forall k :: 0 <= k < |levels| ==> 0 < levels[k].price < MAX_PRICE
    ensures forall j, k :: 0 <= j < k < |levels| ==> Precedes(ascending, levels[j].price, levels[k].price)
  {
  }

  lemma StandsWithin(levels: seq<PriceLevel>, m: nat, traded: nat)
    requires LevelStandsAt(levels, m, traded)
    ensures m <= |levels|
  {
  }

  lemma BidLookup(levels: seq<PriceLevel>, i: nat)
    requires SideOk(false, levels) && i < |levels|
    ensures Subscript(false, levels, levels[i].price) == (levels, i)
    ensures LevelsTotal(levels[..i]) == BidsAbove(Flatten(levels), levels[i].price)
    ensures LevelsTotal(levels[..i]) + levels[i].quantity == BidsAtOrAbove(Flatten(levels), levels[i].price)
  {
    SubscriptPresent(false, levels, levels[i].price);
    LevelMeasures(false, levels, i);
  }

  lemma AskLookup(levels: seq<PriceLevel>, i: nat)
    requires SideOk(true, levels) && i < |levels|
    ensures Subscript(true, levels, levels[i].price) == (levels, i)
    ensures LevelsTotal(levels[..i]) == AsksBelow(Flatten(levels), levels[i].price)
    ensures LevelsTotal(levels[..i]) + levels[i].quantity == AsksAtOrBelow(Flatten(levels), levels[i].price)
  {
    SubscriptPresent(true, levels, levels[i].price);
    LevelMeasures(true, levels, i);
  }

  /** After both scans the optimum is set, feasible, of maximal volume and least imbalance. */
  lemma ScanSettles(best: OptimPriceInfo, bidLevels: seq<PriceLevel>, askLevels: seq<PriceLevel>)
    requires SideOk(false, bidLevels) && SideOk(true, askLevels) && Crossed(bidLevels, askLevels)
    requires BestOf(best, Flatten(bidLevels), Flatten(askLevels), ScanOrder(bidLevels, askLevels))
    ensures Describes(best, Flatten(bidLevels), Flatten(askLevels))
    ensures ChosenFrom(Flatten(bidLevels), Flatten(askLevels), ScanOrder(bidLevels, askLevels), best.dealPrice)
    ensures LeastImbalanceBookPrice(bidLevels, askLevels, best.dealPrice)
    ensures Feasible(Flatten(bidLevels), Flatten(askLevels), best.dealPrice)
    ensures best.expectedDealQuantity > 0
  {
    hide Flatten, QuantityBefore, SideOk;
    ScanFinds(best, bidLevels, askLevels);
    ChosenIsLeast(bidLevels, askLevels, best.dealPrice);
    FeasibleInRange(bidLevels, askLevels, best.dealPrice);
  }

  /** The independent walk trades exactly the volume the scan expects. */
  lemma WalkSettles(bidLevels: seq<PriceLevel>, askLevels: seq<PriceLevel>, buyOrderIt: OrderIterator,
                    sellOrderIt: OrderIterator, traded: nat, tradeCount: nat, meetingPrice: int, dealPrice: int)
    requires SideOk(false, bidLevels) && SideOk(true, askLevels)
    requires buyOrderIt.Valid() && buyOrderIt.levels == bidLevels
    requires sellOrderIt.Valid() && sellOrderIt.levels == askLevels
    requires StandsAt(Flatten(bidLevels), buyOrderIt.Position(), traded)
    requires StandsAt(Flatten(askLevels), sellOrderIt.Position(), traded)
    requires var i, j := buyOrderIt.Position(), sellOrderIt.Position();
             i == |Flatten(bidLevels)| || j == |Flatten(askLevels)|
             || Flatten(bidLevels)[i].price < Flatten(askLevels)[j].price
    requires Progress(Flatten(bidLevels), Flatten(askLevels), traded, tradeCount, meetingPrice)
    requires Feasible(Flatten(bidLevels), Flatten(askLevels), dealPrice)
    ensures traded == Volume(Flatten(bidLevels), Flatten(askLevels), dealPrice)
    ensures forall q: int :: Volume(Flatten(bidLevels), Flatten(askLevels), q) <= traded
    ensures BidsAbove(Flatten(bidLevels), dealPrice) <= traded <= BidsAtOrAbove(Flatten(bidLevels), dealPrice)
    ensures AsksBelow(Flatten(askLevels), dealPrice) <= traded <= AsksAtOrBelow(Flatten(askLevels), dealPrice)
    ensures LevelStandsAt(bidLevels, buyOrderIt.mapIter, traded)
    ensures LevelStandsAt(askLevels, sellOrderIt.mapIter, traded)
    ensures buyOrderIt.mapIter < |bidLevels| && sellOrderIt.mapIter < |askLevels| ==>
              bidLevels[buyOrderIt.mapIter].price < askLevels[sellOrderIt.mapIter].price
  {
    hide Flatten, QuantityBefore, OrdersTotal, LevelsTotal, SideOk, LevelOk, PriceSorted;
    var bids, asks := Flatten(bidLevels), Flatten(askLevels);
    FlattenSorted(false, bidLevels);
    FlattenSorted(true, askLevels);
    WalkIsMaximal(bids, asks, buyOrderIt.Position(), sellOrderIt.Position(), traded, tradeCount, meetingPrice);
    FeasibleIsMaximal(bids, asks, dealPrice);
    FeasibleWithin(bids, asks, dealPrice);
    IteratorLevel(buyOrderIt, false, traded);
    IteratorLevel(sellOrderIt, true, traded);
    IteratorPrice(false, buyOrderIt);
    IteratorPrice(true, sellOrderIt);
  }

  lemma IteratorPrice(ascending: bool, it: OrderIterator)
    requires it.Valid() && SideOk(ascending, it.levels)
    ensures it.mapIter < |it.levels| ==>
              && it.Position() < |Flatten(it.levels)|
              && Flatten(it.levels)[it.Position()].price == it.levels[it.mapIter].price
  {
    if it.mapIter < |it.levels| {
      FlattenSplit(it.levels, it.mapIter + 1);
      FlattenStep(it.levels, it.mapIter);
    }
  }

  /** The reported deal price: the highest bid price among the equally good ones, else the lowest ask. */
  lemma ReportedTieBreak(status: OrderBookStatus, bidLevels: seq<PriceLevel>, askLevels: seq<PriceLevel>)
    requires SideOk(false, bidLevels) && SideOk(true, askLevels) && Crossed(bidLevels, askLevels)
    requires Reports(status, bidLevels, askLevels)
    ensures forall m :: 0 <= m < |bidLevels| && TiesWith(bidLevels, askLevels, status.lpr, bidLevels[m].price) ==>
              HasLevel(bidLevels, status.lpr) && bidLevels[m].price <= status.lpr
    ensures !HasLevel(bidLevels, status.lpr) ==>
              && HasLevel(askLevels, status.lpr)
              && forall m :: 0 <= m < |askLevels| && TiesWith(bidLevels, askLevels, status.lpr, askLevels[m].price) ==>
                   status.lpr <= askLevels[m].price
  {
    TiesGoToHighestBid(bidLevels, askLevels, status.lpr);
    hide TiesWith;
  }

  // ---- what the cells show --------------------------------------------------

  lemma {:induction false} DepthPrice(levels: seq<PriceLevel>, traded: nat)
    requires DepthAfter(levels, traded) != []
    ensures HasLevel(levels, DepthAfter(levels, traded)[0].price)
  {
    if traded >= levels[0].quantity {
      DepthPrice(levels[1..], traded - levels[0].quantity);
      var p := DepthAfter(levels, traded)[0].price;
      var k :| 0 <= k < |levels[1..]| && levels[1..][k].price == p;
      assert levels[k + 1].price == p;
    } else {
      assert levels[0].price == DepthAfter(levels, traded)[0].price;
    }
  }

  predicate FitsInt32(levels: seq<PriceLevel>) {
    forall k :: 0 <= k < |levels| ==> levels[k].price < 0x8000_0000
  }

  /** A best cell shows zero exactly when the side is used up, else the price of one of its levels. */
  lemma BestCell(ascending: bool, levels: seq<PriceLevel>, traded: nat, prices: seq<int>, sizes: seq<int>,
                 bestLast: bool)
    requires SideOk(ascending, levels) && FitsInt32(levels)
    requires ShowsDepth(prices, sizes, DepthAfter(levels, traded), bestLast)
    ensures var depth, best := DepthAfter(levels, traded), prices[if bestLast then 4 else 0];
            if depth == [] then best == 0 else best == depth[0].price > 0
  {
    PricesInRange(ascending, levels);
    var depth := DepthAfter(levels, traded);
    if depth != [] {
      DepthPrice(levels, traded);
      var k :| 0 <= k < |levels| && levels[k].price == depth[0].price;
    }
  }

  /** Where prices fit in 32 bits, the best bid shown is below the best ask shown. */
  lemma ShownBestBidBelowBestAsk(status: OrderBookStatus, bidLevels: seq<PriceLevel>, askLevels: seq<PriceLevel>)
    requires SideOk(false, bidLevels) && SideOk(true, askLevels) && Crossed(bidLevels, askLevels)
    requires FitsInt32(bidLevels) && FitsInt32(askLevels) && Reports(status, bidLevels, askLevels)
    ensures status.bp[4] != 0 && status.ap[0] != 0 ==> status.bp[4] < status.ap[0]
    ensures status.bp[4] == 0 <==> DepthAfter(bidLevels, status.cvl) == []
    ensures status.ap[0] == 0 <==> DepthAfter(askLevels, status.cvl) == []
  {
    BestCell(false, bidLevels, status.cvl, status.bp, status.bs, true);
    BestCell(true, askLevels, status.cvl, status.ap, status.asz, false);
  }

  // ---- every insert sequence ------------------------------------------------

  /** The accepted orders of one side, in arrival order. */
  function OfSide(orders: seq<Order>, side: int): seq<Order> {
    if orders == [] then []
    else OfSide(orders[..|orders| - 1], side) + if orders[|orders| - 1].side == side then [orders[|orders| - 1]] else []
  }

  /** The level map that a sequence of inserts builds for one side. */
  function Levels(ascending: bool, orders: seq<Order>): seq<PriceLevel> {
    if orders == [] then []
    else AddOrder(ascending, Levels(ascending, orders[..|orders| - 1]), orders[|orders| - 1])
  }

  /** Reference: the same orders inserted one by one into a price-time list. */
  function PriceTimeList(ascending: bool, orders: seq<Order>): seq<Order> {
    if orders == [] then []
    else PriceTimeInsert(ascending, PriceTimeList(ascending, orders[..|orders| - 1]), orders[|orders| - 1])
  }

  lemma {:induction false} LevelsArePriceTime(ascending: bool, orders: seq<Order>)
    requires forall k :: 0 <= k < |orders| ==> AcceptableOrder(orders[k])
    ensures SideOk(ascending, Levels(ascending, orders))
    ensures Flatten(Levels(ascending, orders)) == PriceTimeList(ascending, orders)
  {
    hide AddOrder, Flatten, PriceTimeInsert, SideOk;
    if orders == [] {
      EmptySide(ascending);
    } else {
      var n := |orders| - 1;
      LevelsArePriceTime(ascending, orders[..n]);
      AddOrderSideOk(ascending, Levels(ascending, orders[..n]), orders[n]);
      AddOrderIsPriceTimeInsert(ascending, Levels(ascending, orders[..n]), orders[n]);
    }
  }

  lemma EmptySide(ascending: bool)
    ensures SideOk(ascending, []) && Flatten([]) == []
  {
  }

  /** Feeding a whole sequence of orders through the book object. */
  method InsertAll(orders: seq<Order>) returns (book: OrderBook)
    requires forall k :: 0 <= k < |orders| ==>
               (orders[k].side == 1 || orders[k].side == 2 ==> AcceptableOrder(orders[k]))
    ensures book.Valid()
    ensures book.bids == Levels(false, OfSide(orders, 1)) && book.asks == Levels(true, OfSide(orders, 2))
  {
    hide AddOrder, Flatten, SideOk, Crossed, Reports;
    book := new OrderBook();
    for k := 0 to |orders|
      invariant book.Valid() && fresh(book)
      invariant book.bids == Levels(false, OfSide(orders[..k], 1))
      invariant book.asks == Levels(true, OfSide(orders[..k], 2))
    {
      assert orders[..k + 1][..k] == orders[..k];
      LevelsAppend(false, OfSide(orders[..k], 1), orders[k]);
      LevelsAppend(true, OfSide(orders[..k], 2), orders[k]);
      var obs := book.InsertOrder(orders[k]);
    }
    assert orders[..|orders|] == orders;
  }

  lemma LevelsAppend(ascending: bool, orders: seq<Order>, order: Order)
    ensures Levels(ascending, orders + [order]) == AddOrder(ascending, Levels(ascending, orders), order)
    ensures orders + [] == orders
  {
    assert (orders + [order])[..|orders|] == orders;
  }
}
