/** The abstract state of one symbol's book: the orders resting in it, keyed by
    order id. This is the reference the unit tests keep beside the exchange
    (cpp/patterns_and_practics/order_book/UnitTests.cpp, ExchangeFixturesBestPrice):
    a multimap from price to volume per side, whose best entry and the total
    volume at that price are what a best-price event must report. The
    fixture's InsertOrder also files orders the exchange rejects; this
    reference holds accepted orders only, so the two agree on runs without
    rejections, such as the best-price tests. */
module ExchangeReference {
  import opened ExchangeTypes

  datatype RestingOrder = RestingOrder(side: Side, price: Price, volume: Volume)

  type Resting = map<OrderId, RestingOrder>

  /** The orders of one price level: id to volume. */
  ghost function Level(r: Resting, side: Side, price: Price): map<OrderId, Volume> {
    map id | id in r && r[id].side == side && r[id].price == price :: r[id].volume
  }

  /** The prices at which the side has at least one order. */
  ghost function SidePrices(r: Resting, side: Side): set<Price> {
    set id | id in r && r[id].side == side :: r[id].price
  }

  /** The sum of the volumes of a map of orders. */
  ghost function SumVolumes(m: map<OrderId, Volume>): int
    decreases |m|
  {
    if m == map[] then 0
    else
      var k := PickId(m);
      m[k] + SumVolumes(m - {k})
  }

  ghost function PickId(m: map<OrderId, Volume>): (k: OrderId)
    requires m != map[]
    ensures k in m
  {
    var k :| k in m; k
  }

  // ---------------------------------------------------------------------------
  // Sums of volumes.

  lemma {:induction false} SumVolumesNonNegative(m: map<OrderId, Volume>)
    ensures SumVolumes(m) >= 0
    decreases |m|
  {
    if m != map[] {
      SumVolumesNonNegative(m - {PickId(m)});
    }
  }

  /** The sum is the same whichever order is taken out first. */
  lemma {:induction false} SumVolumesRemove(m: map<OrderId, Volume>, k: OrderId)
    requires k in m
    ensures SumVolumes(m) == m[k] + SumVolumes(m - {k})
    decreases |m|
  {
    var j := PickId(m);
    if j != k {
      SumVolumesRemove(m - {j}, k);
      SumVolumesRemove(m - {k}, j);
      assert m - {j} - {k} == m - {k} - {j};
    }
  }

  lemma SumVolumesInsert(m: map<OrderId, Volume>, k: OrderId, v: Volume)
    ensures k !in m ==> SumVolumes(m[k := v]) == SumVolumes(m) + v
  {
    if k !in m {
      SumVolumesRemove(m[k := v], k);
      assert m[k := v] - {k} == m;
    }
  }

  // ---------------------------------------------------------------------------
  // Levels and prices under insertion and removal of an order.

  lemma LevelInsert(r: Resting, id: OrderId, o: RestingOrder, side: Side, price: Price)
    requires id !in r
    ensures Level(r[id := o], side, price) ==
      if o.side == side && o.price == price then Level(r, side, price)[id := o.volume] else Level(r, side, price)
  {
  }

  lemma LevelRemove(r: Resting, id: OrderId, side: Side, price: Price)
    ensures Level(r - {id}, side, price) == Level(r, side, price) - {id}
  {
  }

  /** A price is one of the side's prices exactly when its level is not empty. */
  lemma SidePricesAreLevels(r: Resting, side: Side, price: Price)
    ensures price in SidePrices(r, side) <==> Level(r, side, price) != map[]
  {
    if price in SidePrices(r, side) {
      var id :| id in r && r[id].side == side && r[id].price == price;
      assert id in Level(r, side, price);
    }
    if Level(r, side, price) != map[] {
      var id :| id in Level(r, side, price);
      assert r[id].price in SidePrices(r, side);
    }
  }

  lemma SidePricesInsert(r: Resting, id: OrderId, o: RestingOrder, side: Side)
    requires id !in r
    ensures SidePrices(r[id := o], side) == if o.side == side then SidePrices(r, side) + {o.price} else SidePrices(r, side)
  {
    var r' := r[id := o];
    if o.side == side {
      assert r'[id].price in SidePrices(r', side);
    }
    forall p | p in SidePrices(r, side) ensures p in SidePrices(r', side) {
      var j :| j in r && r[j].side == side && r[j].price == p;
      assert r'[j] == r[j];
    }
  }

  /** Removing an order takes its price out of the side's prices exactly when
      it was the last order of its level. */
  lemma SidePricesRemove(r: Resting, id: OrderId)
    requires id in r
    ensures var o := r[id];
      SidePrices(r - {id}, o.side) ==
        if Level(r - {id}, o.side, o.price) == map[] then SidePrices(r, o.side) - {o.price} else SidePrices(r, o.side)
  {
    var o := r[id];
    var r' := r - {id};
    forall p | p in SidePrices(r, o.side) && p != o.price ensures p in SidePrices(r', o.side) {
      var j :| j in r && r[j].side == o.side && r[j].price == p;
      assert j in r';
    }
    SidePricesAreLevels(r', o.side, o.price);
  }

  lemma SidePricesOtherSide(r: Resting, id: OrderId, side: Side)
    requires id in r && r[id].side != side
    ensures SidePrices(r - {id}, side) == SidePrices(r, side)
  {
    var r' := r - {id};
    forall p | p in SidePrices(r, side) ensures p in SidePrices(r', side) {
      var j :| j in r && r[j].side == side && r[j].price == p;
      assert j in r';
    }
  }

  // ---------------------------------------------------------------------------
  // GetBestPriceFromMap: (0, 0) for an empty side, otherwise the best price and
  // the sum of the volumes resting at it.

  ghost predicate IsReferenceBest(r: Resting, side: Side, price: Price, volume: Volume) {
    if SidePrices(r, side) == {} then price == 0 && volume == 0
    else IsHead(side, price, SidePrices(r, side)) && volume == SumVolumes(Level(r, side, price))
  }

  /** The outcome PlaceOrder reports: the price is checked first, then the
      volume, then that the level's total volume stays within 32 bits. */
  ghost function PlaceOutcome(r: Resting, side: Side, price: Price, volume: Volume): InsertError {
    if price == 0 then InsertError.InvalidPrice
    else if volume == 0 then InsertError.InvalidVolume
    else if SumVolumes(Level(r, side, price)) + volume > UINT_MAX then InsertError.SystemError
    else InsertError.OK
  }
}
