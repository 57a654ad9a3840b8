/** The greedy price-time walk: an iterator over the orders of a side, the matching loop,
    and the reference notions it is measured against. */
module AuctionMatching {
  import opened PriceLevels
  import opened AuctionClearing

  /** The two-level iterator: a level position and a position in that level's orders. */
  class OrderIterator {
    const levels: seq<PriceLevel>
    var mapIter: nat
    var listIter: nat

    /** Between `++` and `advance_to_valid` the list position may sit at the list's end. */
    ghost predicate Loose()
      reads this
    {
      mapIter <= |levels| && (mapIter < |levels| ==> listIter <= |levels[mapIter].orders|)
    }

    ghost predicate Valid()
      reads this
    {
      Loose() && (mapIter < |levels| ==> listIter < |levels[mapIter].orders|)
    }

    /** How many orders of the price-time sequence lie behind the iterator. */
    ghost function Position(): nat
      requires Loose()
      reads this
    {
      |Flatten(levels[..mapIter])| + if mapIter < |levels| then listIter else 0
    }

    predicate AtEnd()
      reads this
    {
      mapIter == |levels|
    }

    constructor Begin(levels: seq<PriceLevel>)
      ensures this.levels == levels && Valid() && Position() == 0
    {
      this.levels := levels;
      mapIter := 0;
      listIter := 0;
      new;
      AdvanceToValid();
    }

    method AdvanceToValid()
      requires Loose()
      modifies this
      ensures Valid() && Position() == old(Position())
    {
      while mapIter != |levels|
        invariant Loose() && Position() == old(Position())
        decreases |levels| - mapIter
      {
        if listIter != |levels[mapIter].orders| {
          return;
        }
        FlattenStep(levels, mapIter);
        mapIter := mapIter + 1;
        if mapIter != |levels| {
          listIter := 0;
        }
      }
    }

    /** operator*: the iterator enumerates the price-time concatenation of the levels. */
    method Current() returns (order: Order)
      requires Valid() && !AtEnd()
      ensures Position() < |Flatten(levels)| && order == Flatten(levels)[Position()]
    {
      FlattenSplit(levels, mapIter + 1);
      FlattenStep(levels, mapIter);
      order := levels[mapIter].orders[listIter];
    }

    /** operator++ */
    method Next()
      requires Valid()
      modifies this
      ensures Valid()
      ensures Position() == old(Position()) + if old(AtEnd()) then 0 else 1
    {
      if mapIter == |levels| {
        return;
      }
      listIter := listIter + 1;
      AdvanceToValid();
    }

    /** The end test agrees with having passed every order. */
    lemma EndMeansAll()
      requires Valid()
      ensures Position() <= |Flatten(levels)| && (AtEnd() <==> Position() == |Flatten(levels)|)
    {
      if mapIter < |levels| {
        FlattenSplit(levels, mapIter + 1);
        FlattenStep(levels, mapIter);
      } else {
        assert levels[..mapIter] == levels;
      }
    }
  }

  // ---- where a walk that moved `traded` units has got to --------------------

  function Prefix(orders: seq<Order>, k: nat): nat
    requires k <= |orders|
  {
    OrdersTotal(orders[..k])
  }

  lemma PrefixStep(orders: seq<Order>, k: nat)
    requires k < |orders|
    ensures Prefix(orders, k + 1) == Prefix(orders, k) + orders[k].quantity
  {
    assert orders[..k + 1][..k] == orders[..k];
  }

  lemma PrefixMonotone(orders: seq<Order>, j: nat, k: nat)
    requires AllPositive(orders) && j <= k <= |orders|
    ensures Prefix(orders, j) <= Prefix(orders, k)
    ensures j < k ==> Prefix(orders, j) < Prefix(orders, k)
    decreases k - j
  {
    if j < k {
      PrefixStep(orders, k - 1);
      PrefixMonotone(orders, j, k - 1);
    }
  }

  /** Position `i` is the first order not used up by `traded` units. */
  predicate StandsAt(orders: seq<Order>, i: nat, traded: nat) {
    && i <= |orders|
    && Prefix(orders, i) <= traded
    && (if i < |orders| then traded < Prefix(orders, i + 1) else traded == OrdersTotal(orders))
  }

  /** Cumulative quantities of the orders used up by `traded` units. */
  function Breaks(orders: seq<Order>, traded: nat): set<nat> {
    set k: nat | 1 <= k <= |orders| && Prefix(orders, k) <= traded :: Prefix(orders, k)
  }

  /** One trade ends at each cumulative quantity of either side, and nowhere else. */
  function TradePoints(bids: seq<Order>, asks: seq<Order>, traded: nat): set<nat> {
    Breaks(bids, traded) + Breaks(asks, traded)
  }

  lemma BreaksNone(orders: seq<Order>)
    requires AllPositive(orders)
    ensures Breaks(orders, 0) == {}
  {
    forall k: nat | 1 <= k <= |orders| ensures Prefix(orders, k) > 0 {
      PrefixMonotone(orders, 0, k);
    }
  }

  lemma BreaksStep(orders: seq<Order>, i: nat, traded: nat, next: nat)
    requires AllPositive(orders) && i < |orders|
    requires Prefix(orders, i) <= traded < next <= Prefix(orders, i + 1)
    ensures Breaks(orders, next) == Breaks(orders, traded) + if next == Prefix(orders, i + 1) then {next} else {}
  {
    forall k: nat | 1 <= k <= |orders|
      ensures k <= i ==> Prefix(orders, k) <= traded
      ensures k > i + 1 ==> Prefix(orders, k) > next
    {
      if k <= i {
        PrefixMonotone(orders, k, i);
      } else {
        PrefixMonotone(orders, i + 1, k);
      }
    }
    if next == Prefix(orders, i + 1) {
      assert next in Breaks(orders, next);
    }
  }

  lemma TradePointsStep(bids: seq<Order>, asks: seq<Order>, i: nat, j: nat, traded: nat, next: nat)
    requires AllPositive(bids) && AllPositive(asks) && i < |bids| && j < |asks|
    requires Prefix(bids, i) <= traded < next <= Prefix(bids, i + 1)
    requires Prefix(asks, j) <= traded < next <= Prefix(asks, j + 1)
    requires next == Prefix(bids, i + 1) || next == Prefix(asks, j + 1)
    ensures |TradePoints(bids, asks, next)| == |TradePoints(bids, asks, traded)| + 1
  {
    var before, after := TradePoints(bids, asks, traded), TradePoints(bids, asks, next);
    assert after == before + {next} by {
      BreaksStep(bids, i, traded, next);
      BreaksStep(asks, j, traded, next);
    }
    assert next !in before;
  }

  // ---- a walk trades the maximal volume -------------------------------------

  lemma PrefixWithin(ascending: bool, orders: seq<Order>, k: nat, p: int)
    requires k <= |orders|
    requires forall m :: 0 <= m < k ==> Precedes(ascending, orders[m].price, p)
    ensures Prefix(orders, k) <= QuantityBefore(ascending, orders, p)
  {
    assert orders == orders[..k] + orders[k..];
    QuantityBeforeConcat(ascending, orders[..k], orders[k..], p);
    AllBefore(ascending, orders[..k], p);
  }

  lemma PrefixCovers(ascending: bool, orders: seq<Order>, k: nat, p: int)
    requires k <= |orders|
    requires forall m :: k <= m < |orders| ==> !Precedes(ascending, orders[m].price, p)
    ensures QuantityBefore(ascending, orders, p) <= Prefix(orders, k)
  {
    assert orders == orders[..k] + orders[k..];
    QuantityBeforeConcat(ascending, orders[..k], orders[k..], p);
    NoneBefore(ascending, orders[k..], p);
    QuantityBeforeMonotone(ascending, orders[..k], p, p);
  }

  /** Orders that met at a price have all traded at a volume possible there. */
  lemma MetWithinVolume(bids: seq<Order>, asks: seq<Order>, i: nat, j: nat, traded: nat)
    requires PriceSorted(false, bids) && PriceSorted(true, asks)
    requires i < |bids| && j < |asks| && bids[i].price >= asks[j].price
    requires traded <= Prefix(bids, i + 1) && traded <= Prefix(asks, j + 1)
    ensures traded <= Volume(bids, asks, bids[i].price)
  {
    PrefixWithin(false, bids, i + 1, bids[i].price - 1);
    PrefixWithin(true, asks, j + 1, bids[i].price + 1);
  }

  /** Where the best remaining bid is below the best remaining ask, no price could trade more. */
  lemma StoppedIsMaximal(bids: seq<Order>, asks: seq<Order>, i: nat, j: nat, traded: nat, q: int)
    requires PriceSorted(false, bids) && PriceSorted(true, asks)
    requires i <= |bids| && j <= |asks| && Prefix(bids, i) <= traded && Prefix(asks, j) <= traded
    requires i == |bids| || j == |asks| || bids[i].price < asks[j].price
    ensures Volume(bids, asks, q) <= traded
  {
    if i == |bids| || q > bids[i].price {
      PrefixCovers(false, bids, i, q - 1);
    } else if j == |asks| || q < asks[j].price {
      PrefixCovers(true, asks, j, q + 1);
    }
  }

  /** The local copy of an order carries what the walk has left of it. */
  ghost predicate Holding(orders: seq<Order>, i: nat, traded: nat, copy: Order) {
    && i < |orders|
    && copy.price == orders[i].price
    && Prefix(orders, i) <= traded <= Prefix(orders, i + 1)
    && copy.quantity == Prefix(orders, i + 1) - traded
  }

  /** What the walk has achieved: the trades made, and a price at which all of it can trade. */
  ghost predicate Progress(bids: seq<Order>, asks: seq<Order>, traded: nat, tradeCount: nat, meetingPrice: int) {
    tradeCount == |TradePoints(bids, asks, traded)| && traded <= Volume(bids, asks, meetingPrice)
  }

  lemma TradeProgress(bids: seq<Order>, asks: seq<Order>, i: nat, j: nat, traded: nat,
                      buyOrder: Order, sellOrder: Order)
    requires PriceSorted(false, bids) && PriceSorted(true, asks) && AllPositive(bids) && AllPositive(asks)
    requires Holding(bids, i, traded, buyOrder) && Holding(asks, j, traded, sellOrder)
    requires 0 < buyOrder.quantity && 0 < sellOrder.quantity && buyOrder.price >= sellOrder.price
    ensures var volume := Min(buyOrder.quantity, sellOrder.quantity);
            && Progress(bids, asks, traded + volume, |TradePoints(bids, asks, traded)| + 1, buyOrder.price)
            && Holding(bids, i, traded + volume, buyOrder.(quantity := buyOrder.quantity - volume))
            && Holding(asks, j, traded + volume, sellOrder.(quantity := sellOrder.quantity - volume))
  {
    hide PriceSorted, OrdersTotal, QuantityBefore;
    var next := traded + Min(buyOrder.quantity, sellOrder.quantity);
    assert |TradePoints(bids, asks, next)| == |TradePoints(bids, asks, traded)| + 1 by {
      TradePointsStep(bids, asks, i, j, traded, next);
    }
    assert next <= Volume(bids, asks, bids[i].price) by {
      MetWithinVolume(bids, asks, i, j, next);
    }
  }

  /** After a trade: step past an order that is used up and copy the next one. */
  method Settle(it: OrderIterator, copy: Order, ghost traded: nat) returns (rest: Order, finished: bool)
    requires it.Valid() && AllPositive(Flatten(it.levels))
    requires Holding(Flatten(it.levels), it.Position(), traded, copy)
    modifies it
    ensures it.Valid()
    ensures it.Position() == old(it.Position()) + if copy.quantity == 0 then 1 else 0
    ensures StandsAt(Flatten(it.levels), it.Position(), traded)
    ensures finished <==> it.AtEnd()
    ensures finished <==> it.Position() == |Flatten(it.levels)|
    ensures !finished ==> Holding(Flatten(it.levels), it.Position(), traded, rest) && rest.quantity > 0
  {
    rest, finished := copy, false;
    ghost var i := it.Position();
    it.EndMeansAll();
    PrefixAhead(Flatten(it.levels), i);
    if copy.quantity == 0 {
      it.Next();
      it.EndMeansAll();
      if it.AtEnd() {
        finished := true;
      } else {
        rest := it.Current();
      }
    }
  }

  lemma PrefixAhead(orders: seq<Order>, i: nat)
    requires AllPositive(orders) && i < |orders|
    ensures Prefix(orders, i + 1) == Prefix(orders, i) + orders[i].quantity
    ensures i + 1 < |orders| ==> Prefix(orders, i + 2) == Prefix(orders, i + 1) + orders[i + 1].quantity
    ensures i + 1 == |orders| ==> Prefix(orders, i + 1) == OrdersTotal(orders)
    ensures Prefix(orders, 0) == 0
  {
    PrefixStep(orders, i);
    if i + 1 < |orders| {
      PrefixStep(orders, i + 1);
    } else {
      assert orders[..i + 1] == orders;
    }
  }

  /** The matching loop over copies of the best orders. */
  method MatchOrders(bidLevels: seq<PriceLevel>, askLevels: seq<PriceLevel>)
      returns (tradeCount: nat, buyOrderIt: OrderIterator, sellOrderIt: OrderIterator,
               ghost traded: nat, ghost meetingPrice: int)
    requires SideOk(false, bidLevels) && SideOk(true, askLevels) && Crossed(bidLevels, askLevels)
    ensures buyOrderIt.Valid() && buyOrderIt.levels == bidLevels
    ensures sellOrderIt.Valid() && sellOrderIt.levels == askLevels
    ensures StandsAt(Flatten(bidLevels), buyOrderIt.Position(), traded)
    ensures StandsAt(Flatten(askLevels), sellOrderIt.Position(), traded)
    ensures var i, j := buyOrderIt.Position(), sellOrderIt.Position();
            i == |Flatten(bidLevels)| || j == |Flatten(askLevels)|
            || Flatten(bidLevels)[i].price < Flatten(askLevels)[j].price
    ensures Progress(Flatten(bidLevels), Flatten(askLevels), traded, tradeCount, meetingPrice)
    ensures 1 <= tradeCount <= |Flatten(bidLevels)| + |Flatten(askLevels)| - 1
  {
    hide PriceSorted, OrdersTotal, QuantityBefore, Flatten, SideOk, AllPositive, Breaks, StandsAt, Prefix, Volume;
    ghost var bids, asks := Flatten(bidLevels), Flatten(askLevels);
    FlattenSorted(false, bidLevels);
    FlattenSorted(true, askLevels);
    Start(bidLevels, askLevels);

    tradeCount := 0;
    buyOrderIt := new OrderIterator.Begin(bidLevels);
    sellOrderIt := new OrderIterator.Begin(askLevels);
    buyOrderIt.EndMeansAll();
    sellOrderIt.EndMeansAll();
    var buyOrder := buyOrderIt.Current();
    var sellOrder := sellOrderIt.Current();
    traded, meetingPrice := 0, buyOrder.price;
    var finished := false;

    while !finished
      invariant buyOrderIt != sellOrderIt && fresh(buyOrderIt) && fresh(sellOrderIt)
      invariant buyOrderIt.Valid() && buyOrderIt.levels == bidLevels
      invariant sellOrderIt.Valid() && sellOrderIt.levels == askLevels
      invariant StandsAt(bids, buyOrderIt.Position(), traded) && StandsAt(asks, sellOrderIt.Position(), traded)
      invariant finished <==> buyOrderIt.Position() == |bids| || sellOrderIt.Position() == |asks|
      invariant !finished ==> Holding(bids, buyOrderIt.Position(), traded, buyOrder) && buyOrder.quantity > 0
      invariant !finished ==> Holding(asks, sellOrderIt.Position(), traded, sellOrder) && sellOrder.quantity > 0
      invariant !finished ==> tradeCount <= buyOrderIt.Position() + sellOrderIt.Position()
      invariant tradeCount <= |bids| + |asks| - 1
      invariant tradeCount == 0 ==> buyOrder.price >= sellOrder.price && !finished
      invariant Progress(bids, asks, traded, tradeCount, meetingPrice)
      decreases |bids| - buyOrderIt.Position() + |asks| - sellOrderIt.Position()
    {
      if buyOrder.price < sellOrder.price {
        break;
      }
      TradeProgress(bids, asks, buyOrderIt.Position(), sellOrderIt.Position(), traded, buyOrder, sellOrder);
      var tradeVolume := Min(buyOrder.quantity, sellOrder.quantity);
      buyOrder := buyOrder.(quantity := buyOrder.quantity - tradeVolume);
      sellOrder := sellOrder.(quantity := sellOrder.quantity - tradeVolume);
      tradeCount := tradeCount + 1;
      traded := traded + tradeVolume;
      meetingPrice := buyOrder.price;

      var buyFinished, sellFinished;
      buyOrder, buyFinished := Settle(buyOrderIt, buyOrder, traded);
      sellOrder, sellFinished := Settle(sellOrderIt, sellOrder, traded);
      finished := buyFinished || sellFinished;
    }
  }

  /** The walk trades exactly the maximal volume of the auction. */
  lemma WalkIsMaximal(bids: seq<Order>, asks: seq<Order>, i: nat, j: nat, traded: nat, tradeCount: nat,
                      meetingPrice: int)
    requires PriceSorted(false, bids) && PriceSorted(true, asks)
    requires StandsAt(bids, i, traded) && StandsAt(asks, j, traded)
    requires i == |bids| || j == |asks| || bids[i].price < asks[j].price
    requires Progress(bids, asks, traded, tradeCount, meetingPrice)
    ensures traded == Volume(bids, asks, meetingPrice)
    ensures forall q: int :: Volume(bids, asks, q) <= traded
  {
    forall q: int ensures Volume(bids, asks, q) <= traded {
      StoppedIsMaximal(bids, asks, i, j, traded, q);
    }
  }

  /** The walk starts on two orders that meet, with nothing traded. */
  lemma Start(bidLevels: seq<PriceLevel>, askLevels: seq<PriceLevel>)
    requires SideOk(false, bidLevels) && SideOk(true, askLevels) && Crossed(bidLevels, askLevels)
    ensures var bids, asks := Flatten(bidLevels), Flatten(askLevels);
            && Fresh(bids) && Fresh(asks)
            && bids[0].price >= asks[0].price
            && Progress(bids, asks, 0, 0, bids[0].price)
  {
    hide QuantityBefore, OrdersTotal, PriceSorted, Holding, StandsAt, Breaks;
    FirstOrder(bidLevels);
    FirstOrder(askLevels);
    FlattenSorted(false, bidLevels);
    FlattenSorted(true, askLevels);
    FreshStart(Flatten(bidLevels));
    FreshStart(Flatten(askLevels));
    BreaksNone(Flatten(bidLevels));
    BreaksNone(Flatten(askLevels));
  }

  lemma FirstOrder(levels: seq<PriceLevel>)
    requires levels != [] && LevelOk(levels[0])
    ensures Flatten(levels) != [] && Flatten(levels)[0].price == levels[0].price
  {
    FlattenSplit(levels, 1);
    FlattenStep(levels, 0);
  }

  ghost predicate Fresh(orders: seq<Order>) {
    orders != [] && orders[0].quantity > 0 && Holding(orders, 0, 0, orders[0]) && StandsAt(orders, 0, 0)
  }

  lemma FreshStart(orders: seq<Order>)
    requires orders != [] && AllPositive(orders)
    ensures Fresh(orders)
  {
    PrefixAhead(orders, 0);
  }
}
