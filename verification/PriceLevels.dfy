/** One side of the call-auction book: orders grouped into price levels kept in the
    comparator's order, the price-time sequence they stand for, and the cumulative
    quantity curves that the auction is about. */
module PriceLevels {

  const MAX_PRICE: int := 0x7FFF_FFFF_FFFF_FFFF

  datatype Order = Order(id: nat, price: int, quantity: nat, side: int)

  datatype PriceLevel = PriceLevel(price: int, quantity: nat, orders: seq<Order>)

  /** The configurable comparator: asks ascend, bids descend. */
  predicate Precedes(ascending: bool, a: int, b: int) {
    if ascending then a < b else a > b
  }

  /** The integer price that comes immediately after `p` in the comparator's order. */
  function NextPrice(ascending: bool, p: int): int {
    if ascending then p + 1 else p - 1
  }

  // ---- quantities -----------------------------------------------------------

  function OrdersTotal(orders: seq<Order>): nat {
    if orders == [] then 0
    else OrdersTotal(orders[..|orders| - 1]) + orders[|orders| - 1].quantity
  }

  function LevelsTotal(levels: seq<PriceLevel>): nat {
    if levels == [] then 0
    else LevelsTotal(levels[..|levels| - 1]) + levels[|levels| - 1].quantity
  }

  /** All orders of a side in price-time order. */
  function Flatten(levels: seq<PriceLevel>): seq<Order> {
    if levels == [] then []
    else Flatten(levels[..|levels| - 1]) + levels[|levels| - 1].orders
  }

  /** Quantity of the orders whose price comes strictly before `p`. */
  function QuantityBefore(ascending: bool, orders: seq<Order>, p: int): nat {
    if orders == [] then 0
    else
      var last := orders[|orders| - 1];
      QuantityBefore(ascending, orders[..|orders| - 1], p)
      + if Precedes(ascending, last.price, p) then last.quantity else 0
  }

  /** Quantity of the orders priced at `p` or before it; prices are integers. */
  function QuantityUpTo(ascending: bool, orders: seq<Order>, p: int): nat {
    QuantityBefore(ascending, orders, NextPrice(ascending, p))
  }

  // ---- well-formed sides ----------------------------------------------------

  predicate LevelOk(level: PriceLevel) {
    && 0 < level.price < MAX_PRICE
    && level.orders != []
    && level.quantity == OrdersTotal(level.orders)
    && forall k :: 0 <= k < |level.orders| ==> level.orders[k].price == level.price && level.orders[k].quantity > 0
  }

  predicate SideOk(ascending: bool, levels: seq<PriceLevel>) {
    && (forall k :: 0 <= k < |levels| ==> LevelOk(levels[k]))
    && forall j, k :: 0 <= j < k < |levels| ==> Precedes(ascending, levels[j].price, levels[k].price)
  }

  predicate HasLevel(levels: seq<PriceLevel>, p: int) {
    exists k :: 0 <= k < |levels| && levels[k].price == p
  }

  /** Orders in price priority: no order is preceded by one with a worse price. */
  predicate PriceSorted(ascending: bool, orders: seq<Order>) {
    forall j, k :: 0 <= j < k < |orders| ==> !Precedes(ascending, orders[k].price, orders[j].price)
  }

  predicate AllPositive(orders: seq<Order>) {
    forall k :: 0 <= k < |orders| ==> orders[k].quantity > 0
  }

  // ---- sums over concatenations ---------------------------------------------

  lemma {:induction false} OrdersTotalConcat(a: seq<Order>, b: seq<Order>)
    ensures OrdersTotal(a + b) == OrdersTotal(a) + OrdersTotal(b)
  {
    if b == [] {
      assert a + b == a;
    } else {
      assert (a + b)[..|a + b| - 1] == a + b[..|b| - 1];
      OrdersTotalConcat(a, b[..|b| - 1]);
    }
  }

  lemma {:induction false} LevelsTotalConcat(a: seq<PriceLevel>, b: seq<PriceLevel>)
    ensures LevelsTotal(a + b) == LevelsTotal(a) + LevelsTotal(b)
  {
    if b == [] {
      assert a + b == a;
    } else {
      assert (a + b)[..|a + b| - 1] == a + b[..|b| - 1];
      LevelsTotalConcat(a, b[..|b| - 1]);
    }
  }

  lemma {:induction false} FlattenConcat(a: seq<PriceLevel>, b: seq<PriceLevel>)
    ensures Flatten(a + b) == Flatten(a) + Flatten(b)
  {
    if b == [] {
      assert a + b == a;
    } else {
      assert (a + b)[..|a + b| - 1] == a + b[..|b| - 1];
      FlattenConcat(a, b[..|b| - 1]);
    }
  }

  lemma {:induction false} QuantityBeforeConcat(ascending: bool, a: seq<Order>, b: seq<Order>, p: int)
    ensures QuantityBefore(ascending, a + b, p) == QuantityBefore(ascending, a, p) + QuantityBefore(ascending, b, p)
  {
    if b == [] {
      assert a + b == a;
    } else {
      assert (a + b)[..|a + b| - 1] == a + b[..|b| - 1];
      QuantityBeforeConcat(ascending, a, b[..|b| - 1], p);
    }
  }

  /** Splitting a side at a level splits its orders at that level. */
  lemma FlattenSplit(levels: seq<PriceLevel>, i: nat)
    requires i <= |levels|
    ensures Flatten(levels) == Flatten(levels[..i]) + Flatten(levels[i..])
    ensures LevelsTotal(levels) == LevelsTotal(levels[..i]) + LevelsTotal(levels[i..])
  {
    assert levels == levels[..i] + levels[i..];
    FlattenConcat(levels[..i], levels[i..]);
    LevelsTotalConcat(levels[..i], levels[i..]);
  }

  lemma FlattenStep(levels: seq<PriceLevel>, i: nat)
    requires i < |levels|
    ensures Flatten(levels[..i + 1]) == Flatten(levels[..i]) + levels[i].orders
    ensures LevelsTotal(levels[..i + 1]) == LevelsTotal(levels[..i]) + levels[i].quantity
  {
    assert levels[..i + 1][..i] == levels[..i];
  }

  lemma {:induction false} LevelsTotalIsOrdersTotal(levels: seq<PriceLevel>)
    requires forall k :: 0 <= k < |levels| ==> levels[k].quantity == OrdersTotal(levels[k].orders)
    ensures LevelsTotal(levels) == OrdersTotal(Flatten(levels))
  {
    if levels != [] {
      var n := |levels| - 1;
      LevelsTotalIsOrdersTotal(levels[..n]);
      OrdersTotalConcat(Flatten(levels[..n]), levels[n].orders);
    }
  }

  // ---- the curves -----------------------------------------------------------

  lemma {:induction false} QuantityBeforeMonotone(ascending: bool, orders: seq<Order>, p: int, q: int)
    requires p == q || Precedes(ascending, p, q)
    ensures QuantityBefore(ascending, orders, p) <= QuantityBefore(ascending, orders, q) <= OrdersTotal(orders)
  {
    if orders != [] {
      QuantityBeforeMonotone(ascending, orders[..|orders| - 1], p, q);
    }
  }

  lemma {:induction false} AllBefore(ascending: bool, orders: seq<Order>, p: int)
    requires forall k :: 0 <= k < |orders| ==> Precedes(ascending, orders[k].price, p)
    ensures QuantityBefore(ascending, orders, p) == OrdersTotal(orders)
  {
    if orders != [] {
      AllBefore(ascending, orders[..|orders| - 1], p);
    }
  }

  lemma {:induction false} NoneBefore(ascending: bool, orders: seq<Order>, p: int)
    requires forall k :: 0 <= k < |orders| ==> !Precedes(ascending, orders[k].price, p)
    ensures QuantityBefore(ascending, orders, p) == 0
  {
    if orders != [] {
      NoneBefore(ascending, orders[..|orders| - 1], p);
    }
  }

  lemma {:induction false} FlattenPrices(levels: seq<PriceLevel>, k: nat) returns (i: nat)
    requires forall m :: 0 <= m < |levels| ==> LevelOk(levels[m])
    requires k < |Flatten(levels)|
    ensures i < |levels| && Flatten(levels)[k].price == levels[i].price
    ensures Flatten(levels)[k].quantity > 0
    ensures |Flatten(levels[..i])| <= k < |Flatten(levels[..i])| + |levels[i].orders|
  {
    var n := |levels| - 1;
    if k < |Flatten(levels[..n])| {
      i := FlattenPrices(levels[..n], k);
      assert levels[..n][..i] == levels[..i];
    } else {
      i := n;
    }
  }

  /** Cumulative level quantities measure the curve at the cut price. */
  lemma LevelCutMeasures(ascending: bool, levels: seq<PriceLevel>, i: nat, p: int)
    requires SideOk(ascending, levels) && i <= |levels|
    requires forall k :: 0 <= k < i ==> Precedes(ascending, levels[k].price, p)
    requires forall k :: i <= k < |levels| ==> !Precedes(ascending, levels[k].price, p)
    ensures QuantityBefore(ascending, Flatten(levels), p) == LevelsTotal(levels[..i])
  {
    var a, b := Flatten(levels[..i]), Flatten(levels[i..]);
    FlattenSplit(levels, i);
    QuantityBeforeConcat(ascending, a, b, p);
    forall k | 0 <= k < |a| ensures Precedes(ascending, a[k].price, p) {
      var m := FlattenPrices(levels[..i], k);
    }
    AllBefore(ascending, a, p);
    forall k | 0 <= k < |b| ensures !Precedes(ascending, b[k].price, p) {
      var m := FlattenPrices(levels[i..], k);
    }
    NoneBefore(ascending, b, p);
    LevelsTotalIsOrdersTotal(levels[..i]);
  }

  /** What stands before a level, and what stands up to and including it. */
  lemma LevelMeasures(ascending: bool, levels: seq<PriceLevel>, i: nat)
    requires SideOk(ascending, levels) && i < |levels|
    ensures QuantityBefore(ascending, Flatten(levels), levels[i].price) == LevelsTotal(levels[..i])
    ensures QuantityUpTo(ascending, Flatten(levels), levels[i].price) == LevelsTotal(levels[..i]) + levels[i].quantity
  {
    LevelCutMeasures(ascending, levels, i, levels[i].price);
    LevelCutMeasures(ascending, levels, i + 1, NextPrice(ascending, levels[i].price));
    FlattenStep(levels, i);
  }

  /** Off the levels, nothing stands exactly at the price. */
  lemma {:induction false} NoLevelMeasures(ascending: bool, orders: seq<Order>, p: int)
    requires forall k :: 0 <= k < |orders| ==> orders[k].price != p
    ensures QuantityUpTo(ascending, orders, p) == QuantityBefore(ascending, orders, p)
  {
    if orders != [] {
      NoLevelMeasures(ascending, orders[..|orders| - 1], p);
    }
  }

  lemma OrdersTotalPositive(orders: seq<Order>)
    requires orders != [] && AllPositive(orders)
    ensures OrdersTotal(orders) > 0
  {
  }

  lemma FlattenSorted(ascending: bool, levels: seq<PriceLevel>)
    requires SideOk(ascending, levels)
    ensures PriceSorted(ascending, Flatten(levels)) && AllPositive(Flatten(levels))
  {
    var orders := Flatten(levels);
    forall k | 0 <= k < |orders| ensures orders[k].quantity > 0 {
      var i := FlattenPrices(levels, k);
    }
    forall j, k | 0 <= j < k < |orders| ensures !Precedes(ascending, orders[k].price, orders[j].price) {
      var a := FlattenPrices(levels, j);
      var b := FlattenPrices(levels, k);
      if b < a {
        FlattenGrows(levels, b + 1, a);
        FlattenStep(levels, b);
      }
    }
  }

  lemma FlattenGrows(levels: seq<PriceLevel>, i: nat, j: nat)
    requires i <= j <= |levels|
    ensures |Flatten(levels[..i])| <= |Flatten(levels[..j])|
    ensures LevelsTotal(levels[..i]) <= LevelsTotal(levels[..j])
  {
    assert levels[..j][..i] == levels[..i];
    FlattenSplit(levels[..j], i);
  }

  // ---- inserting an order ---------------------------------------------------

  /** `std::map::lower_bound` under the comparator: the first item whose key does not precede `p`. */
  function LowerBoundBy<T>(ascending: bool, items: seq<T>, key: T -> int, p: int): (i: nat)
    ensures i <= |items|
    ensures forall k :: 0 <= k < i ==> Precedes(ascending, key(items[k]), p)
    ensures i < |items| ==> !Precedes(ascending, key(items[i]), p)
  {
    if items == [] || !Precedes(ascending, key(items[0]), p) then 0
    else 1 + LowerBoundBy(ascending, items[1..], key, p)
  }

  /** The first level not preceding `p`. */
  function LowerBound(ascending: bool, levels: seq<PriceLevel>, p: int): (i: nat)
    ensures i <= |levels|
    ensures forall k :: 0 <= k < i ==> Precedes(ascending, levels[k].price, p)
    ensures i < |levels| ==> !Precedes(ascending, levels[i].price, p)
  {
    LowerBoundBy(ascending, levels, (l: PriceLevel) => l.price, p)
  }

  /** `std::map::operator[]`: the level at `p`, created empty when there is none. */
  function Subscript(ascending: bool, levels: seq<PriceLevel>, p: int): (r: (seq<PriceLevel>, nat))
    ensures r.1 < |r.0| && r.0[r.1].price == p
  {
    var i := LowerBound(ascending, levels, p);
    if i < |levels| && levels[i].price == p then (levels, i)
    else (levels[..i] + [PriceLevel(p, 0, [])] + levels[i..], i)
  }

  lemma SubscriptPresent(ascending: bool, levels: seq<PriceLevel>, p: int)
    requires SideOk(ascending, levels) && HasLevel(levels, p)
    ensures Subscript(ascending, levels, p).0 == levels
  {
  }

  /** Appending an order to the level its price selects. */
  function AddOrder(ascending: bool, levels: seq<PriceLevel>, order: Order): seq<PriceLevel> {
    var (located, i) := Subscript(ascending, levels, order.price);
    located[i := PriceLevel(order.price, located[i].quantity + order.quantity, located[i].orders + [order])]
  }

  /** Independent reference: insert behind every order with the same or a better price. */
  function PriceTimeInsert(ascending: bool, orders: seq<Order>, order: Order): seq<Order> {
    if orders == [] || !Precedes(ascending, order.price, orders[|orders| - 1].price) then orders + [order]
    else PriceTimeInsert(ascending, orders[..|orders| - 1], order) + [orders[|orders| - 1]]
  }

  lemma {:induction false} PriceTimeInsertAt(ascending: bool, a: seq<Order>, b: seq<Order>, order: Order)
    requires a == [] || !Precedes(ascending, order.price, a[|a| - 1].price)
    requires forall k :: 0 <= k < |b| ==> Precedes(ascending, order.price, b[k].price)
    ensures PriceTimeInsert(ascending, a + b, order) == a + [order] + b
  {
    if b == [] {
      assert a + b == a;
    } else {
      assert (a + b)[..|a + b| - 1] == a + b[..|b| - 1];
      PriceTimeInsertAt(ascending, a, b[..|b| - 1], order);
    }
  }

  predicate AcceptableOrder(order: Order) {
    0 < order.price < MAX_PRICE && order.quantity > 0
  }

  lemma AddOrderToLevel(ascending: bool, levels: seq<PriceLevel>, order: Order, i: nat, level: PriceLevel)
    requires i == LowerBound(ascending, levels, order.price) && i < |levels| && levels[i].price == order.price
    requires level == PriceLevel(order.price, levels[i].quantity + order.quantity, levels[i].orders + [order])
    ensures AddOrder(ascending, levels, order) == levels[..i] + [level] + levels[i + 1..]
    ensures levels == levels[..i] + [levels[i]] + levels[i + 1..]
  {
  }

  lemma AddOrderAsLevel(ascending: bool, levels: seq<PriceLevel>, order: Order, i: nat, level: PriceLevel)
    requires i == LowerBound(ascending, levels, order.price) && !(i < |levels| && levels[i].price == order.price)
    requires level == PriceLevel(order.price, order.quantity, [order])
    ensures AddOrder(ascending, levels, order) == levels[..i] + [level] + levels[i..]
  {
    var located := levels[..i] + [PriceLevel(order.price, 0, [])] + levels[i..];
    assert Subscript(ascending, levels, order.price) == (located, i);
    assert located[i].orders + [order] == [order];
    assert located[i := level] == levels[..i] + [level] + levels[i..];
  }

  lemma FlattenInsert(a: seq<PriceLevel>, level: PriceLevel, b: seq<PriceLevel>)
    ensures Flatten(a + [level] + b) == Flatten(a) + level.orders + Flatten(b)
  {
    FlattenConcat(a + [level], b);
    assert (a + [level])[..|a|] == a;
  }

  lemma RestAfter(ascending: bool, levels: seq<PriceLevel>, p: int)
    requires forall k :: 0 <= k < |levels| ==> LevelOk(levels[k]) && Precedes(ascending, p, levels[k].price)
    ensures forall k :: 0 <= k < |Flatten(levels)| ==> Precedes(ascending, p, Flatten(levels)[k].price)
  {
    forall k | 0 <= k < |Flatten(levels)| ensures Precedes(ascending, p, Flatten(levels)[k].price) {
      var m := FlattenPrices(levels, k);
    }
  }

  lemma FrontBefore(ascending: bool, levels: seq<PriceLevel>, p: int)
    requires forall k :: 0 <= k < |levels| ==> LevelOk(levels[k]) && Precedes(ascending, levels[k].price, p)
    ensures var f := Flatten(levels); f == [] || !Precedes(ascending, p, f[|f| - 1].price)
  {
    if Flatten(levels) != [] {
      var m := FlattenPrices(levels, |Flatten(levels)| - 1);
    }
  }

  lemma InsertIntoLevel(ascending: bool, a: seq<PriceLevel>, level: PriceLevel, b: seq<PriceLevel>, order: Order)
    requires level.orders != [] && forall k :: 0 <= k < |level.orders| ==> level.orders[k].price == order.price
    requires forall k :: 0 <= k < |b| ==> LevelOk(b[k]) && Precedes(ascending, order.price, b[k].price)
    ensures PriceTimeInsert(ascending, Flatten(a + [level] + b), order)
         == Flatten(a) + (level.orders + [order]) + Flatten(b)
  {
    FlattenInsert(a, level, b);
    RestAfter(ascending, b, order.price);
    PriceTimeInsertAt(ascending, Flatten(a) + level.orders, Flatten(b), order);
  }

  lemma InsertBetweenLevels(ascending: bool, a: seq<PriceLevel>, b: seq<PriceLevel>, order: Order)
    requires forall k :: 0 <= k < |a| ==> LevelOk(a[k]) && Precedes(ascending, a[k].price, order.price)
    requires forall k :: 0 <= k < |b| ==> LevelOk(b[k]) && Precedes(ascending, order.price, b[k].price)
    ensures PriceTimeInsert(ascending, Flatten(a + b), order) == Flatten(a) + [order] + Flatten(b)
  {
    FlattenConcat(a, b);
    FrontBefore(ascending, a, order.price);
    RestAfter(ascending, b, order.price);
    PriceTimeInsertAt(ascending, Flatten(a), Flatten(b), order);
  }

  lemma AddToLevelIsInsert(ascending: bool, levels: seq<PriceLevel>, order: Order, i: nat)
    requires i == LowerBound(ascending, levels, order.price) && i < |levels| && levels[i].price == order.price
    requires LevelOk(levels[i])
    requires forall k :: i < k < |levels| ==> LevelOk(levels[k]) && Precedes(ascending, order.price, levels[k].price)
    ensures Flatten(AddOrder(ascending, levels, order)) == PriceTimeInsert(ascending, Flatten(levels), order)
  {
    var level := PriceLevel(order.price, levels[i].quantity + order.quantity, levels[i].orders + [order]);
    AddOrderToLevel(ascending, levels, order, i, level);
    FlattenInsert(levels[..i], level, levels[i + 1..]);
    InsertIntoLevel(ascending, levels[..i], levels[i], levels[i + 1..], order);
  }

  lemma AddAsLevelIsInsert(ascending: bool, levels: seq<PriceLevel>, order: Order, i: nat)
    requires i == LowerBound(ascending, levels, order.price) && !(i < |levels| && levels[i].price == order.price)
    requires forall k :: 0 <= k < i ==> LevelOk(levels[k]) && Precedes(ascending, levels[k].price, order.price)
    requires forall k :: i <= k < |levels| ==> LevelOk(levels[k]) && Precedes(ascending, order.price, levels[k].price)
    ensures Flatten(AddOrder(ascending, levels, order)) == PriceTimeInsert(ascending, Flatten(levels), order)
  {
    var level, a, b := PriceLevel(order.price, order.quantity, [order]), levels[..i], levels[i..];
    assert levels == a + b;
    InsertBetweenLevels(ascending, a, b, order);
    assert Flatten(AddOrder(ascending, levels, order)) == Flatten(a) + [order] + Flatten(b) by {
      AddOrderAsLevel(ascending, levels, order, i, level);
      FlattenInsert(a, level, b);
    }
  }

  /** A level map fed one order stands for the price-time sequence fed that order. */
  lemma AddOrderIsPriceTimeInsert(ascending: bool, levels: seq<PriceLevel>, order: Order)
    requires SideOk(ascending, levels) && AcceptableOrder(order)
    ensures Flatten(AddOrder(ascending, levels, order)) == PriceTimeInsert(ascending, Flatten(levels), order)
  {
    var i := LowerBound(ascending, levels, order.price);
    if i < |levels| && levels[i].price == order.price {
      AddToLevelIsInsert(ascending, levels, order, i);
    } else {
      AddAsLevelIsInsert(ascending, levels, order, i);
    }
  }

  lemma JoinSideOk(ascending: bool, a: seq<PriceLevel>, level: PriceLevel, b: seq<PriceLevel>)
    requires SideOk(ascending, a) && LevelOk(level) && SideOk(ascending, b)
    requires forall k :: 0 <= k < |a| ==> Precedes(ascending, a[k].price, level.price)
    requires forall k :: 0 <= k < |b| ==> Precedes(ascending, level.price, b[k].price)
    ensures SideOk(ascending, a + [level] + b)
  {
  }

  lemma GrowLevelOk(level: PriceLevel, order: Order)
    requires LevelOk(level) && order.price == level.price && order.quantity > 0
    ensures LevelOk(PriceLevel(order.price, level.quantity + order.quantity, level.orders + [order]))
  {
    OrdersTotalConcat(level.orders, [order]);
    assert OrdersTotal([order]) == order.quantity;
  }

  lemma SubsideOk(ascending: bool, levels: seq<PriceLevel>, i: nat, j: nat)
    requires SideOk(ascending, levels) && i <= j <= |levels|
    ensures SideOk(ascending, levels[i..j])
  {
  }

  lemma AddOrderSideOk(ascending: bool, levels: seq<PriceLevel>, order: Order)
    requires SideOk(ascending, levels) && AcceptableOrder(order)
    ensures SideOk(ascending, AddOrder(ascending, levels, order))
  {
    var i := LowerBound(ascending, levels, order.price);
    hide LowerBound, AddOrder;
    SubsideOk(ascending, levels, 0, i);
    if i < |levels| && levels[i].price == order.price {
      var level := PriceLevel(order.price, levels[i].quantity + order.quantity, levels[i].orders + [order]);
      GrowLevelOk(levels[i], order);
      SubsideOk(ascending, levels, i + 1, |levels|);
      JoinSideOk(ascending, levels[..i], level, levels[i + 1..]);
      AddOrderToLevel(ascending, levels, order, i, level);
    } else {
      var level := PriceLevel(order.price, order.quantity, [order]);
      SubsideOk(ascending, levels, i, |levels|);
      JoinSideOk(ascending, levels[..i], level, levels[i..]);
      AddOrderAsLevel(ascending, levels, order, i, level);
    }
  }
}
