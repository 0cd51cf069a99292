/** The limit order book engine of
    cpp/patterns_and_practics/order_book/SimplifiedExchange.hpp.

    VolumeStorage is one price level: the volume of each order at that price and
    their running total. OrderBook is one symbol: per side a map from price to
    level and the ordered set of the prices that have a level. Exchange routes
    orders to the book of their symbol, draws order ids whose parity encodes the
    side, keeps the symbol and price of each live order, and reports every
    outcome to the handlers that are set.

    The exchange's map holds its books by value and each book's maps hold their
    levels by value, so levels and books are values here: a member function that
    updates one in place returns the updated value instead. */
module SimplifiedExchange {
  import opened ExchangeTypes
  import opened ExchangeReference

  // ===========================================================================
  // VolumeStorage

  datatype VolumeStorage = VolumeStorage(volumes: map<OrderId, Volume>, totalVolume: Volume)
  {
    /** The running total is the sum of the recorded volumes. */
    ghost predicate Valid() {
      totalVolume == SumVolumes(volumes)
    }

    /** Records the volume of an order, refusing it when the level's total
        volume would wrap past 2^32 - 1. */
    function AddVolume(orderId: OrderId, volume: Volume): (r: (InsertError, VolumeStorage))
      ensures totalVolume + volume > UINT_MAX ==> r == (InsertError.SystemError, this)
      ensures totalVolume + volume <= UINT_MAX ==>
        r.0 == InsertError.OK && r.1.volumes == volumes[orderId := volume] && r.1.totalVolume == totalVolume + volume
      ensures Valid() && orderId !in volumes ==> r.1.Valid()
    {
      var newVolume := WrappingAdd(totalVolume, volume);
      if newVolume < totalVolume then
        (InsertError.SystemError, this)
      else
        SumVolumesInsert(volumes, orderId, volume);
        (InsertError.OK, VolumeStorage(volumes[orderId := volume], newVolume))
    }

    /** Erases the volume of an order; SystemError when the order is not here. */
    function RemoveVolume(orderId: OrderId): (r: (DeleteError, VolumeStorage))
      ensures orderId !in volumes ==> r == (DeleteError.SystemError, this)
      ensures orderId in volumes ==>
        r.0 == DeleteError.OK && r.1.volumes == volumes - {orderId} &&
        r.1.totalVolume == WrappingSub(totalVolume, volumes[orderId])
      ensures Valid() ==> r.1.Valid()
      ensures Valid() && orderId in volumes ==> r.1.totalVolume == totalVolume - volumes[orderId]
    {
      if orderId !in volumes then
        (DeleteError.SystemError, this)
      else
        SumVolumesRemove(volumes, orderId);
        SumVolumesNonNegative(volumes - {orderId});
        (DeleteError.OK, VolumeStorage(volumes - {orderId}, WrappingSub(totalVolume, volumes[orderId])))
    }

    function GetTotalVolume(): (v: Volume)
      ensures Valid() ==> v == SumVolumes(volumes)
    {
      totalVolume
    }

    function Empty(): (r: bool)
      ensures r <==> volumes == map[]
      ensures Valid() && r ==> GetTotalVolume() == 0
    {
      volumes == map[]
    }
  }

  /** A default-constructed level. */
  const EmptyLevel: VolumeStorage := VolumeStorage(map[], 0)

  /** orders[price] with operator[]: a missing level reads as a fresh one. */
  function LevelAt(orders: map<Price, VolumeStorage>, price: Price): VolumeStorage {
    if price in orders then orders[price] else EmptyLevel
  }

  /** The price set of a side is the key set of its levels, and every level is
      at a non-zero price, holds at least one order and has a consistent total. */
  ghost predicate SideValid(orders: map<Price, VolumeStorage>, prices: set<Price>) {
    prices == orders.Keys &&
    forall p | p in orders :: p > 0 && orders[p].Valid() && !orders[p].Empty()
  }

  // ===========================================================================
  // OrderBook

  /** The tuple GetBestPriceInfo returns. */
  datatype BestPriceInfo = BestPriceInfo(bestBid: Price, totalBidVolume: Volume, bestAsk: Price, totalAskVolume: Volume)

  datatype OrderBook = OrderBook(bidsOrders: map<Price, VolumeStorage>, asksOrders: map<Price, VolumeStorage>,
                                 bidsPrices: set<Price>, asksPrices: set<Price>)
  {
    ghost predicate Valid() {
      SideValid(bidsOrders, bidsPrices) && SideValid(asksOrders, asksPrices)
    }

    function Orders(side: Side): map<Price, VolumeStorage> {
      if side == Buy then bidsOrders else asksOrders
    }

    function Prices(side: Side): set<Price> {
      if side == Buy then bidsPrices else asksPrices
    }

    /** The order rests in the book at that side and price. */
    predicate Holds(side: Side, price: Price, orderId: OrderId) {
      price in Orders(side) && orderId in Orders(side)[price].volumes
    }

    /** Assignment through the reference Orders(side) returns. */
    function WithOrders(side: Side, orders: map<Price, VolumeStorage>): (b: OrderBook)
      ensures b.Orders(side) == orders && b.Orders(Opposite(side)) == Orders(Opposite(side))
      ensures b.bidsPrices == bidsPrices && b.asksPrices == asksPrices
    {
      if side == Buy then this.(bidsOrders := orders) else this.(asksOrders := orders)
    }

    /** Assignment to the price set of one side. */
    function WithPrices(side: Side, prices: set<Price>): (b: OrderBook)
      ensures b.Prices(side) == prices && b.Prices(Opposite(side)) == Prices(Opposite(side))
      ensures b.bidsOrders == bidsOrders && b.asksOrders == asksOrders
    {
      if side == Buy then this.(bidsPrices := prices) else this.(asksPrices := prices)
    }

    /** (0, 0) for an empty side, otherwise the first price of the side's set and
        the sum of the volumes resting at it. */
    ghost predicate IsSideBest(side: Side, price: Price, volume: Volume) {
      if Prices(side) == {} then price == 0 && volume == 0
      else IsHead(side, price, Prices(side)) && price in Orders(side) && volume == SumVolumes(Orders(side)[price].volumes)
    }

    function GetSideBestPriceInfo(side: Side): (r: (Price, Volume))
      requires Valid()
      ensures IsSideBest(side, r.0, r.1)
    {
      var prices := Prices(side);
      if |prices| > 0 then
        var bestPrice := Head(side, prices);
        (bestPrice, Orders(side)[bestPrice].GetTotalVolume())
      else
        (0, 0)
    }

    function GetBestPriceInfo(): (r: BestPriceInfo)
      requires Valid()
      ensures IsSideBest(Buy, r.bestBid, r.totalBidVolume)
      ensures IsSideBest(Sell, r.bestAsk, r.totalAskVolume)
    {
      var (bestBidPrice, bestBidVolume) := GetSideBestPriceInfo(Buy);
      var (bestAskPrice, bestAskVolume) := GetSideBestPriceInfo(Sell);
      BestPriceInfo(bestBidPrice, bestBidVolume, bestAskPrice, bestAskVolume)
    }

    /** Adds a price to the side's set. The flag says whether the volume at the
        best price changed: the price is now first in the set, either because
        it already was or because it became so. */
    function InsertPrice(side: Side, price: Price): (r: (bool, OrderBook))
      ensures r.1 == WithPrices(side, Prices(side) + {price})
      ensures r.0 <==> IsHead(side, price, Prices(side) + {price})
    {
      var prices := Prices(side);
      var inserted := price !in prices;
      var newPrices := prices + {price};
      HeadOfInsert(side, price, prices);
      // std::begin(prices) is taken before the insertion (end() when empty);
      // set iterators stay valid, so begin() moves exactly when the head does.
      var bestChanged :=
        if !inserted && price == Head(side, prices) then true
        else prices == {} || Head(side, newPrices) != Head(side, prices);
      (bestChanged, WithPrices(side, newPrices))
    }

    function RemovePrice(side: Side, price: Price): (b: OrderBook)
      ensures b.Prices(side) == Prices(side) - {price} && b.Prices(Opposite(side)) == Prices(Opposite(side))
      ensures b.bidsOrders == bidsOrders && b.asksOrders == asksOrders
    {
      WithPrices(side, Prices(side) - {price})
    }

    /** Whether the price is first in the side's set. */
    function IsBestPrice(side: Side, price: Price): (r: bool)
      requires Prices(side) != {}
      ensures r <==> IsHead(side, price, Prices(side))
    {
      Head(side, Prices(side)) == price
    }

    /** Places a new order: InvalidPrice for price 0, then InvalidVolume for
        volume 0, then SystemError when the level's total would overflow; on
        success the order rests at its price, the price is listed, and the flag
        says whether the price is now the side's best. A refused order leaves
        the book as it was. */
    function PlaceOrder(side: Side, price: Price, volume: Volume, orderId: OrderId): (r: (InsertError, bool, OrderBook))
      ensures r.0 == (if price == 0 then InsertError.InvalidPrice
                      else if volume == 0 then InsertError.InvalidVolume
                      else if LevelAt(Orders(side), price).totalVolume + volume > UINT_MAX then InsertError.SystemError
                      else InsertError.OK)
      ensures r.0 != InsertError.OK ==> !r.1 && r.2 == this
      ensures r.0 == InsertError.OK ==>
        r.2.Orders(side) == Orders(side)[price := LevelAt(Orders(side), price).AddVolume(orderId, volume).1] &&
        r.2.Prices(side) == Prices(side) + {price} &&
        r.2.Orders(Opposite(side)) == Orders(Opposite(side)) && r.2.Prices(Opposite(side)) == Prices(Opposite(side)) &&
        (r.1 <==> IsHead(side, price, r.2.Prices(side)))
      ensures forall s, p, id :: r.2.Holds(s, p, id) <==>
        Holds(s, p, id) || (r.0 == InsertError.OK && s == side && p == price && id == orderId)
      ensures Valid() && !Holds(side, price, orderId) ==> r.2.Valid()
    {
      if price == 0 then
        (InsertError.InvalidPrice, false, this)
      else if volume == 0 then
        (InsertError.InvalidVolume, false, this)
      else
        // Orders(side)[price] default-constructs a missing level; a fresh level
        // cannot overflow, so a refused order never leaves one behind.
        var (errCode, level) := LevelAt(Orders(side), price).AddVolume(orderId, volume);
        if errCode != InsertError.OK then
          (errCode, false, this)
        else
          var (bestChanged, book) := WithOrders(side, Orders(side)[price := level]).InsertPrice(side, price);
          (InsertError.OK, bestChanged, book)
    }

    /** Removes an order from the level of the given price, erasing the level
        and its price once it is empty; SystemError, with the book unchanged,
        when the order is not at that level. The flag says whether the price was
        the side's best before the removal. */
    function RemoveOrder(orderId: OrderId, side: Side, price: Price): (r: (DeleteError, bool, OrderBook))
      requires Valid() && price in Prices(side)
      ensures r.0 == DeleteError.OK <==> Holds(side, price, orderId)
      ensures r.0 != DeleteError.OK ==> r.0 == DeleteError.SystemError && !r.1 && r.2 == this
      ensures r.0 == DeleteError.OK ==>
        var level := Orders(side)[price].RemoveVolume(orderId).1;
        (r.1 <==> IsHead(side, price, Prices(side))) &&
        r.2.Orders(side) == (if level.Empty() then Orders(side) - {price} else Orders(side)[price := level]) &&
        r.2.Prices(side) == (if level.Empty() then Prices(side) - {price} else Prices(side)) &&
        r.2.Orders(Opposite(side)) == Orders(Opposite(side)) && r.2.Prices(Opposite(side)) == Prices(Opposite(side))
      ensures forall s, p, id :: r.2.Holds(s, p, id) <==>
        Holds(s, p, id) && !(r.0 == DeleteError.OK && s == side && p == price && id == orderId)
      ensures r.2.Valid()
    {
      var bestPrice := IsBestPrice(side, price);
      var (errCode, level) := Orders(side)[price].RemoveVolume(orderId);
      if errCode != DeleteError.OK then
        (errCode, false, this)
      else
        var book := WithOrders(side, Orders(side)[price := level]);
        EraseHolds(this, side, price, orderId);
        EraseKeepsValid(this, side, price, orderId);
        if level.Empty() then
          (DeleteError.OK, bestPrice, book.WithOrders(side, book.Orders(side) - {price}).RemovePrice(side, price))
        else
          (DeleteError.OK, bestPrice, book)
    }
  }

  /** Erasing an order from its level, and then the level itself once it is
      empty, takes exactly that order out of the book. */
  lemma EraseHolds(book: OrderBook, side: Side, price: Price, orderId: OrderId)
    requires book.Holds(side, price, orderId)
    ensures var level := book.Orders(side)[price].RemoveVolume(orderId).1;
      var erased := book.WithOrders(side, book.Orders(side)[price := level]);
      var dropped := erased.WithOrders(side, erased.Orders(side) - {price}).RemovePrice(side, price);
      (forall s, p, id :: erased.Holds(s, p, id) <==> book.Holds(s, p, id) && !(s == side && p == price && id == orderId)) &&
      (level.Empty() ==>
        forall s, p, id :: dropped.Holds(s, p, id) <==> book.Holds(s, p, id) && !(s == side && p == price && id == orderId))
  {
    var level := book.Orders(side)[price].RemoveVolume(orderId).1;
    var erased := book.WithOrders(side, book.Orders(side)[price := level]);
    var dropped := erased.WithOrders(side, erased.Orders(side) - {price}).RemovePrice(side, price);
    forall s, p, id ensures erased.Holds(s, p, id) <==> book.Holds(s, p, id) && !(s == side && p == price && id == orderId) {
      if s != side {
        assert erased.Orders(s) == book.Orders(s);
      }
    }
    if level.Empty() {
      forall s, p, id ensures dropped.Holds(s, p, id) <==> book.Holds(s, p, id) && !(s == side && p == price && id == orderId) {
        if s != side {
          assert dropped.Orders(s) == book.Orders(s);
        } else if p == price {
          assert id !in level.volumes;
        }
      }
    }
  }

  /** The book stays valid: a level that keeps an order keeps its price, and
      an emptied level goes together with its price. */
  lemma EraseKeepsValid(book: OrderBook, side: Side, price: Price, orderId: OrderId)
    requires book.Valid() && book.Holds(side, price, orderId)
    ensures var level := book.Orders(side)[price].RemoveVolume(orderId).1;
      var erased := book.WithOrders(side, book.Orders(side)[price := level]);
      var dropped := erased.WithOrders(side, erased.Orders(side) - {price}).RemovePrice(side, price);
      if level.Empty() then dropped.Valid() else erased.Valid()
  {
    var level := book.Orders(side)[price].RemoveVolume(orderId).1;
    var erased := book.WithOrders(side, book.Orders(side)[price := level]);
    var dropped := erased.WithOrders(side, erased.Orders(side) - {price}).RemovePrice(side, price);
    assert SideValid(book.Orders(side), book.Prices(side));
    assert SideValid(book.Orders(Opposite(side)), book.Prices(Opposite(side)));
    if level.Empty() {
      assert SideValid(dropped.Orders(side), dropped.Prices(side));
      assert dropped.Orders(Opposite(side)) == book.Orders(Opposite(side));
    } else {
      assert SideValid(erased.Orders(side), erased.Prices(side));
    }
  }

  /** Erasing an order just recorded gives back the level as it was. */
  lemma LevelRoundTrip(level: VolumeStorage, orderId: OrderId, volume: Volume)
    requires orderId !in level.volumes && level.totalVolume + volume <= UINT_MAX
    ensures level.AddVolume(orderId, volume).1.RemoveVolume(orderId) == (DeleteError.OK, level)
  {
    assert level.volumes[orderId := volume] - {orderId} == level.volumes;
  }

  /** The same for one side's levels and prices: a level the order created
      goes away together with its price, a level it joined is restored. */
  lemma SideRoundTrip(orders: map<Price, VolumeStorage>, prices: set<Price>, price: Price, orderId: OrderId, volume: Volume)
    requires SideValid(orders, prices)
    requires !(price in orders && orderId in orders[price].volumes)
    requires LevelAt(orders, price).totalVolume + volume <= UINT_MAX
    ensures var level := LevelAt(orders, price).AddVolume(orderId, volume).1;
      var level' := level.RemoveVolume(orderId).1;
      if level'.Empty() then orders[price := level] - {price} == orders && (prices + {price}) - {price} == prices
      else orders[price := level][price := level'] == orders && prices + {price} == prices
  {
    LevelRoundTrip(LevelAt(orders, price), orderId, volume);
  }

  /** Removing an order just placed, under an id the book did not hold at
      that price, gives back the book as it was. */
  lemma PlaceRemoveRoundTrip(book: OrderBook, side: Side, price: Price, volume: Volume, orderId: OrderId)
    requires book.Valid() && !book.Holds(side, price, orderId)
    requires book.PlaceOrder(side, price, volume, orderId).0 == InsertError.OK
    ensures var placed := book.PlaceOrder(side, price, volume, orderId).2;
      placed.Valid() && price in placed.Prices(side) &&
      placed.RemoveOrder(orderId, side, price).0 == DeleteError.OK &&
      placed.RemoveOrder(orderId, side, price).2 == book
  {
    var placed := book.PlaceOrder(side, price, volume, orderId).2;
    SideRoundTrip(book.Orders(side), book.Prices(side), price, orderId, volume);
    var removed := placed.RemoveOrder(orderId, side, price).2;
    assert removed.Orders(side) == book.Orders(side) && removed.Prices(side) == book.Prices(side);
    if side == Buy {
      assert removed == book;
    } else {
      assert removed == book;
    }
  }

  /** A default-constructed book. */
  const EmptyBook: OrderBook := OrderBook(map[], map[], {}, {})

  lemma EmptyBookValid()
    ensures EmptyBook.Valid()
    ensures forall s, p, id :: !EmptyBook.Holds(s, p, id)
  {
  }

  // ===========================================================================
  // The book against the reference model of the unit tests: the orders resting
  // in it, each with its side, price and volume.

  /** The levels of a side hold exactly the side's resting orders, by price. */
  ghost predicate SideAbstracts(orders: map<Price, VolumeStorage>, side: Side, r: Resting) {
    orders.Keys == SidePrices(r, side) &&
    forall p | p in orders :: orders[p].volumes == Level(r, side, p)
  }

  ghost predicate Abstracts(book: OrderBook, r: Resting) {
    SideAbstracts(book.Orders(Buy), Buy, r) && SideAbstracts(book.Orders(Sell), Sell, r)
  }

  lemma EmptyBookAbstracts()
    ensures Abstracts(EmptyBook, map[])
  {
    assert SidePrices(map[], Buy) == {};
    assert SidePrices(map[], Sell) == {};
  }

  /** The level operator[] reads holds the resting orders at its price. */
  lemma LevelAtIsLevel(orders: map<Price, VolumeStorage>, side: Side, r: Resting, price: Price)
    requires SideAbstracts(orders, side, r)
    ensures LevelAt(orders, price).volumes == Level(r, side, price)
  {
    SidePricesAreLevels(r, side, price);
  }

  /** An order rests in the book exactly when the reference holds it. */
  lemma HoldsIsResting(book: OrderBook, r: Resting, side: Side, price: Price, orderId: OrderId)
    requires Abstracts(book, r)
    ensures book.Holds(side, price, orderId) <==> orderId in r && r[orderId].side == side && r[orderId].price == price
  {
    LevelAtIsLevel(book.Orders(side), side, r, price);
  }

  /** Recording a new order in its level keeps the side in step with the
      reference. */
  lemma PlaceKeepsSideAbstracts(orders: map<Price, VolumeStorage>, r: Resting, orderId: OrderId, o: RestingOrder)
    requires SideAbstracts(orders, o.side, r)
    requires orderId !in r
    requires LevelAt(orders, o.price).totalVolume + o.volume <= UINT_MAX
    ensures SideAbstracts(orders[o.price := LevelAt(orders, o.price).AddVolume(orderId, o.volume).1], o.side, r[orderId := o])
  {
    var r' := r[orderId := o];
    LevelAtIsLevel(orders, o.side, r, o.price);
    SidePricesInsert(r, orderId, o, o.side);
    forall p | p in orders
      ensures Level(r', o.side, p) == if p == o.price then Level(r, o.side, p)[orderId := o.volume] else Level(r, o.side, p)
    {
      LevelInsert(r, orderId, o, o.side, p);
    }
    LevelInsert(r, orderId, o, o.side, o.price);
  }

  /** An order of the other side leaves this side in step. */
  lemma PlaceKeepsOtherSideAbstracts(orders: map<Price, VolumeStorage>, side: Side, r: Resting,
                                     orderId: OrderId, o: RestingOrder)
    requires SideAbstracts(orders, side, r)
    requires orderId !in r && o.side != side
    ensures SideAbstracts(orders, side, r[orderId := o])
  {
    SidePricesInsert(r, orderId, o, side);
    forall p | p in orders ensures Level(r[orderId := o], side, p) == Level(r, side, p) {
      LevelInsert(r, orderId, o, side, p);
    }
  }

  /** Erasing an order from its level, and the level with its price once the
      level is empty, keeps the side in step. */
  lemma RemoveKeepsSideAbstracts(orders: map<Price, VolumeStorage>, side: Side, r: Resting,
                                 orderId: OrderId, price: Price)
    requires SideAbstracts(orders, side, r)
    requires price in orders && orderId in orders[price].volumes
    ensures var level := orders[price].RemoveVolume(orderId).1;
      if level.Empty() then SideAbstracts(orders - {price}, side, r - {orderId})
      else SideAbstracts(orders[price := level], side, r - {orderId})
  {
    var level := orders[price].RemoveVolume(orderId).1;
    RemoveUpdatesLevel(orders, side, r, orderId, price);
    if level.Empty() {
      SideAbstractsAfterRemove(orders - {price}, side, r, orderId);
    } else {
      SideAbstractsAfterRemove(orders[price := level], side, r, orderId);
    }
  }

  /** The level the removal leaves and the side's prices afterwards. */
  lemma RemoveUpdatesLevel(orders: map<Price, VolumeStorage>, side: Side, r: Resting, orderId: OrderId, price: Price)
    requires SideAbstracts(orders, side, r)
    requires price in orders && orderId in orders[price].volumes
    ensures orderId in r && r[orderId].side == side && r[orderId].price == price
    ensures var level := orders[price].RemoveVolume(orderId).1;
      level.volumes == Level(r - {orderId}, side, price) &&
      SidePrices(r - {orderId}, side) == if level.Empty() then orders.Keys - {price} else orders.Keys
  {
    LevelRemove(r, orderId, side, price);
    SidePricesRemove(r, orderId);
  }

  /** Levels that agree with the reference at every price but that of the
      removed order, and agree with the reduced reference at that price. */
  lemma SideAbstractsAfterRemove(orders': map<Price, VolumeStorage>, side: Side, r: Resting, orderId: OrderId)
    requires orderId in r && r[orderId].side == side
    requires orders'.Keys == SidePrices(r - {orderId}, side)
    requires forall p | p in orders' && p != r[orderId].price :: orders'[p].volumes == Level(r, side, p)
    requires r[orderId].price in orders' ==> orders'[r[orderId].price].volumes == Level(r - {orderId}, side, r[orderId].price)
    ensures SideAbstracts(orders', side, r - {orderId})
  {
    forall p | p in orders' && p != r[orderId].price ensures Level(r - {orderId}, side, p) == Level(r, side, p) {
      LevelRemove(r, orderId, side, p);
    }
  }

  lemma RemoveKeepsOtherSideAbstracts(orders: map<Price, VolumeStorage>, side: Side, r: Resting, orderId: OrderId)
    requires SideAbstracts(orders, side, r)
    requires orderId in r && r[orderId].side != side
    ensures SideAbstracts(orders, side, r - {orderId})
  {
    SidePricesOtherSide(r, orderId, side);
    forall p | p in orders ensures Level(r - {orderId}, side, p) == Level(r, side, p) {
      LevelRemove(r, orderId, side, p);
    }
  }

  /** GetBestPriceInfo reports what GetBestPriceFromMap computes from the
      reference: (0, 0) for an empty side, otherwise the best price and the sum
      of the volumes resting at it. */
  lemma BestPriceRefines(book: OrderBook, r: Resting)
    requires book.Valid() && Abstracts(book, r)
    ensures var info := book.GetBestPriceInfo();
      IsReferenceBest(r, Buy, info.bestBid, info.totalBidVolume) &&
      IsReferenceBest(r, Sell, info.bestAsk, info.totalAskVolume)
  {
  }

  /** PlaceOrder reports the outcome the reference predicts; on success the
      book holds the new order and the flag says whether its price is now the
      reference's best, and on failure the book is unchanged. */
  lemma PlaceOrderRefines(book: OrderBook, r: Resting, side: Side, price: Price, volume: Volume, orderId: OrderId)
    requires book.Valid() && Abstracts(book, r) && orderId !in r
    ensures var (err, bestChanged, book') := book.PlaceOrder(side, price, volume, orderId);
      var r' := r[orderId := RestingOrder(side, price, volume)];
      err == PlaceOutcome(r, side, price, volume) &&
      (err == InsertError.OK ==> Abstracts(book', r') && (bestChanged <==> IsHead(side, price, SidePrices(r', side)))) &&
      (err != InsertError.OK ==> book' == book)
  {
    var o := RestingOrder(side, price, volume);
    var orders := book.Orders(side);
    LevelAtIsLevel(orders, side, r, price);
    assert LevelAt(orders, price).Valid();
    if price != 0 && volume != 0 && LevelAt(orders, price).totalVolume + volume <= UINT_MAX {
      PlaceKeepsSideAbstracts(orders, r, orderId, o);
      PlaceKeepsOtherSideAbstracts(book.Orders(Opposite(side)), Opposite(side), r, orderId, o);
      SidePricesInsert(r, orderId, o, side);
    }
  }

  /** RemoveOrder succeeds exactly when the reference holds the order at that
      side and price; the book then drops it, and the flag says whether the
      price was the reference's best before. */
  lemma RemoveOrderRefines(book: OrderBook, r: Resting, orderId: OrderId, side: Side, price: Price)
    requires book.Valid() && Abstracts(book, r) && price in book.Prices(side)
    ensures var (err, wasBest, book') := book.RemoveOrder(orderId, side, price);
      (err == DeleteError.OK <==> orderId in Level(r, side, price)) &&
      (err == DeleteError.OK ==> Abstracts(book', r - {orderId}) && (wasBest <==> IsHead(side, price, SidePrices(r, side)))) &&
      (err != DeleteError.OK ==> book' == book)
  {
    var orders := book.Orders(side);
    LevelAtIsLevel(orders, side, r, price);
    if orderId in orders[price].volumes {
      RemoveKeepsSideAbstracts(orders, side, r, orderId, price);
      RemoveUpdatesLevel(orders, side, r, orderId, price);
      RemoveKeepsOtherSideAbstracts(book.Orders(Opposite(side)), Opposite(side), r, orderId);
    }
  }
}
