/** The depth an auction leaves behind, and why the displayed sizes are that depth. */
module AuctionDepth {
  import opened PriceLevels
  import opened AuctionClearing
  import opened AuctionMatching

  datatype Quote = Quote(price: int, size: nat)

  function Quotes(levels: seq<PriceLevel>): seq<Quote> {
    if levels == [] then [] else [Quote(levels[0].price, levels[0].quantity)] + Quotes(levels[1..])
  }

  function QuotesTotal(quotes: seq<Quote>): nat {
    if quotes == [] then 0 else quotes[0].size + QuotesTotal(quotes[1..])
  }

  /** Independent reference: the levels left when `traded` units are taken from the front. */
  function DepthAfter(levels: seq<PriceLevel>, traded: nat): seq<Quote> {
    if levels == [] then []
    else if traded >= levels[0].quantity then DepthAfter(levels[1..], traded - levels[0].quantity)
    else [Quote(levels[0].price, levels[0].quantity - traded)] + Quotes(levels[1..])
  }

  /** Level `m` is the first one not used up by `traded` units. */
  predicate LevelStandsAt(levels: seq<PriceLevel>, m: nat, traded: nat) {
    && m <= |levels|
    && LevelsTotal(levels[..m]) <= traded
    && (if m < |levels| then traded < LevelsTotal(levels[..m + 1]) else traded == LevelsTotal(levels))
  }

  lemma LevelsTotalFront(levels: seq<PriceLevel>, m: nat)
    requires 0 < m <= |levels|
    ensures LevelsTotal(levels[..m]) == levels[0].quantity + LevelsTotal(levels[1..][..m - 1])
  {
    assert levels[..m] == [levels[0]] + levels[1..][..m - 1];
    LevelsTotalConcat([levels[0]], levels[1..][..m - 1]);
    assert LevelsTotal([levels[0]]) == levels[0].quantity;
  }

  lemma FirstTotal(levels: seq<PriceLevel>)
    requires levels != []
    ensures LevelsTotal(levels[..1]) == levels[0].quantity
  {
    assert levels[..1] == [levels[0]];
  }

  lemma {:induction false} DepthIs(levels: seq<PriceLevel>, m: nat, traded: nat)
    requires LevelStandsAt(levels, m, traded)
    requires forall k :: 0 <= k < |levels| ==> levels[k].quantity > 0
    ensures DepthAfter(levels, traded) ==
              if m == |levels| then []
              else [Quote(levels[m].price, LevelsTotal(levels[..m + 1]) - traded)] + Quotes(levels[m + 1..])
  {
    hide LevelsTotal, Quotes;
    if m == 0 {
      if levels != [] {
        FirstTotal(levels);
      }
    } else {
      var rest := levels[1..];
      LevelsTotalFront(levels, m);
      if m < |levels| {
        LevelsTotalFront(levels, m + 1);
        assert rest[m..] == levels[m + 1..];
      } else {
        assert rest[..m - 1] == rest && levels[..m] == levels;
      }
      DepthIs(rest, m - 1, traded - levels[0].quantity);
    }
  }

  lemma {:induction false} QuotesTotals(levels: seq<PriceLevel>)
    ensures QuotesTotal(Quotes(levels)) == LevelsTotal(levels)
  {
    if levels != [] {
      QuotesTotals(levels[1..]);
      LevelsTotalFront(levels, |levels|);
      assert levels[..|levels|] == levels && levels[1..][..|levels| - 1] == levels[1..];
    }
  }

  /** Conservation: what is left and what was traded make up the whole side. */
  lemma {:induction false} DepthConserves(levels: seq<PriceLevel>, traded: nat)
    requires traded <= LevelsTotal(levels)
    ensures QuotesTotal(DepthAfter(levels, traded)) + traded == LevelsTotal(levels)
  {
    if levels != [] {
      LevelsTotalFront(levels, |levels|);
      assert levels[..|levels|] == levels && levels[1..][..|levels| - 1] == levels[1..];
      if traded >= levels[0].quantity {
        DepthConserves(levels[1..], traded - levels[0].quantity);
      } else {
        QuotesTotals(levels[1..]);
      }
    }
  }

  lemma {:induction false} QuotesAt(levels: seq<PriceLevel>, k: nat)
    requires k < |levels|
    ensures |Quotes(levels)| == |levels| && Quotes(levels)[k] == Quote(levels[k].price, levels[k].quantity)
  {
    if k == 0 {
      if |levels| > 1 {
        QuotesAt(levels[1..], 0);
      }
    } else {
      QuotesAt(levels[1..], k - 1);
    }
  }

  /** An iterator standing on an order stands on the level that holds it. */
  lemma IteratorLevel(it: OrderIterator, ascending: bool, traded: nat)
    requires it.Valid() && SideOk(ascending, it.levels)
    requires StandsAt(Flatten(it.levels), it.Position(), traded)
    ensures LevelStandsAt(it.levels, it.mapIter, traded)
  {
    var levels, m := it.levels, it.mapIter;
    var orders := Flatten(levels);
    FlattenSorted(ascending, levels);
    LevelPrefix(levels, m);
    it.EndMeansAll();
    PrefixMonotone(orders, |Flatten(levels[..m])|, it.Position());
    if m < |levels| {
      LevelPrefix(levels, m + 1);
      FlattenStep(levels, m);
      PrefixMonotone(orders, it.Position() + 1, |Flatten(levels[..m + 1])|);
    } else {
      assert levels[..m] == levels;
      LevelsTotalIsOrdersTotal(levels);
    }
  }

  lemma LevelPrefix(levels: seq<PriceLevel>, m: nat)
    requires m <= |levels| && forall k :: 0 <= k < |levels| ==> LevelOk(levels[k])
    ensures |Flatten(levels[..m])| <= |Flatten(levels)|
    ensures Prefix(Flatten(levels), |Flatten(levels[..m])|) == LevelsTotal(levels[..m])
  {
    FlattenSplit(levels, m);
    assert Flatten(levels)[..|Flatten(levels[..m])|] == Flatten(levels[..m]);
    LevelsTotalIsOrdersTotal(levels[..m]);
  }

  /** The displayed size of a level: the scan's remainder at the deal price, else the raw level. */
  function ShownSize(level: PriceLevel, dealPrice: int, left: int): int {
    if level.price == dealPrice then left else level.quantity
  }

  /** Mixing the scan's remainder with raw levels shows exactly what the walk leaves. */
  lemma ShownIsLeft(ascending: bool, levels: seq<PriceLevel>, m: nat, n: nat, dealPrice: int, traded: nat)
    requires SideOk(ascending, levels) && m + n < |levels| && LevelStandsAt(levels, m, traded)
    requires QuantityBefore(ascending, Flatten(levels), dealPrice) <= traded
    requires traded <= QuantityUpTo(ascending, Flatten(levels), dealPrice)
    ensures n < |DepthAfter(levels, traded)|
    ensures DepthAfter(levels, traded)[n].price == levels[m + n].price
    ensures DepthAfter(levels, traded)[n].size > 0
    ensures ShownSize(levels[m + n], dealPrice, QuantityUpTo(ascending, Flatten(levels), dealPrice) - traded)
         == DepthAfter(levels, traded)[n].size
  {
    hide QuantityBefore, Flatten, Quotes, DepthAfter, LevelsTotal;
    var orders, k := Flatten(levels), m + n;
    var p := levels[k].price;
    SideQuantities(ascending, levels);
    DepthIs(levels, m, traded);
    LevelMeasures(ascending, levels, k);
    FlattenGrows(levels, m, k);
    if n > 0 {
      QuotesAt(levels[m + 1..], n - 1);
      FlattenGrows(levels, m + 1, k);
    } else {
      FlattenStep(levels, m);
      if Precedes(ascending, p, dealPrice) {
        QuantityBeforeMonotone(ascending, orders, NextPrice(ascending, p), dealPrice);
      } else if Precedes(ascending, dealPrice, p) {
        QuantityBeforeMonotone(ascending, orders, NextPrice(ascending, dealPrice), p);
      }
    }
  }

  lemma SideQuantities(ascending: bool, levels: seq<PriceLevel>)
    requires SideOk(ascending, levels)
    ensures forall k :: 0 <= k < |levels| ==> levels[k].quantity > 0
  {
    forall k | 0 <= k < |levels| ensures levels[k].quantity > 0 {
      OrdersTotalPositive(levels[k].orders);
    }
  }

  lemma DepthLength(levels: seq<PriceLevel>, m: nat, traded: nat)
    requires LevelStandsAt(levels, m, traded)
    requires forall k :: 0 <= k < |levels| ==> levels[k].quantity > 0
    ensures |DepthAfter(levels, traded)| == |levels| - m
  {
    DepthIs(levels, m, traded);
    if m + 1 < |levels| {
      QuotesAt(levels[m + 1..], 0);
    }
  }
}
