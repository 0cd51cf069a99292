/** The Exchange class of
    cpp/patterns_and_practics/order_book/SimplifiedExchange.hpp (namespace
    simplified). Its fields are those of the class: the books by symbol, the
    metadata of the live orders and the two id counters; the three handlers the
    user may set are flags, and `events` logs their invocations, oldest first.
    Each operation updates the fields in place to the state its step computes. */
module Simplified {
  import opened ExchangeTypes
  import opened SimplifiedExchange
  import opened ExchangeState
  import opened ExchangeSteps

  // ===========================================================================
  // Exchange

  /** The book of every supported stock, each empty. */
  ghost const InitialBooks: map<string, OrderBook> := map s | s in SupportedStocks :: EmptyBook

  class Exchange {
    var orderBooks: map<string, OrderBook>
    var orderMetaInfo: map<OrderId, MetaInfo>
    var bidsOrderIdCounter: OrderId
    var asksOrderIdCounter: OrderId
    /** Whether the user has set OnOrderInserted, OnOrderDeleted and
        OnBestPriceChanged. */
    var onOrderInserted: bool
    var onOrderDeleted: bool
    var onBestPriceChanged: bool
    /** The handler invocations so far, oldest first. */
    var events: seq<Event>

    ghost predicate Valid()
      reads this
    {
      ExchangeValid(orderBooks, orderMetaInfo, bidsOrderIdCounter, asksOrderIdCounter)
    }

    /** An empty book per supported stock, no orders, no handler set. */
    constructor()
      ensures Valid()
      ensures orderBooks == InitialBooks && orderMetaInfo == map[]
      ensures bidsOrderIdCounter == 0 && asksOrderIdCounter == 1
      ensures !onOrderInserted && !onOrderDeleted && !onBestPriceChanged && events == []
    {
      var books: map<string, OrderBook> := map[];
      var i := 0;
      while i < |SupportedStocks|
        invariant 0 <= i <= |SupportedStocks|
        invariant books == map s | s in SupportedStocks[..i] :: EmptyBook
      {
        books := books[SupportedStocks[i] := EmptyBook];
        i := i + 1;
      }
      assert SupportedStocks[..i] == SupportedStocks;
      EmptyBookValid();
      orderBooks := books;
      orderMetaInfo := map[];
      bidsOrderIdCounter := 0;
      asksOrderIdCounter := 1;
      onOrderInserted := false;
      onOrderDeleted := false;
      onBestPriceChanged := false;
      events := [];
    }

    /** Advances the side's counter by two and hands out its new value. */
    method GetOrderId(side: Side) returns (orderId: OrderId)
      requires NextId(side, bidsOrderIdCounter, asksOrderIdCounter) <= INT_MAX
      modifies this
      ensures orderId == NextId(side, old(bidsOrderIdCounter), old(asksOrderIdCounter))
      ensures bidsOrderIdCounter == if side == Buy then orderId else old(bidsOrderIdCounter)
      ensures asksOrderIdCounter == if side == Sell then orderId else old(asksOrderIdCounter)
      ensures CountersValid(old(bidsOrderIdCounter), old(asksOrderIdCounter)) ==> GetSide(orderId) == side
      ensures orderBooks == old(orderBooks) && orderMetaInfo == old(orderMetaInfo) && events == old(events)
      ensures onOrderInserted == old(onOrderInserted) && onOrderDeleted == old(onOrderDeleted)
      ensures onBestPriceChanged == old(onBestPriceChanged)
    {
      if side == Buy {
        bidsOrderIdCounter := bidsOrderIdCounter + 2;
        orderId := bidsOrderIdCounter;
      } else {
        asksOrderIdCounter := asksOrderIdCounter + 2;
        orderId := asksOrderIdCounter;
      }
    }

    /** InsertOrder: the fields become the state InsertOrderStep computes, and
        the events it emits are appended to the log. */
    method InsertOrder(symbol: string, side: Side, price: Price, volume: Volume, userReference: UserReference)
      requires Valid()
      requires NextId(side, bidsOrderIdCounter, asksOrderIdCounter) <= INT_MAX
      modifies this
      ensures Valid()
      ensures var o := InsertOrderStep(old(orderBooks), old(orderMetaInfo), old(bidsOrderIdCounter), old(asksOrderIdCounter),
                                       symbol, side, price, volume, userReference, onOrderInserted, onBestPriceChanged);
        orderBooks == o.books && orderMetaInfo == o.meta &&
        bidsOrderIdCounter == o.bidsCounter && asksOrderIdCounter == o.asksCounter &&
        events == old(events) + o.emitted
      ensures onOrderInserted == old(onOrderInserted) && onOrderDeleted == old(onOrderDeleted)
      ensures onBestPriceChanged == old(onBestPriceChanged)
    {
      // The step reads the state GetOrderId starts from; GetOrderId then
      // advances the side's counter to the id the step filed the order under.
      var o := InsertOrderStep(orderBooks, orderMetaInfo, bidsOrderIdCounter, asksOrderIdCounter,
                               symbol, side, price, volume, userReference, onOrderInserted, onBestPriceChanged);
      var orderId := GetOrderId(side);
      assert orderId == NextId(side, old(bidsOrderIdCounter), old(asksOrderIdCounter));
      orderBooks := o.books;
      orderMetaInfo := o.meta;
      events := events + o.emitted;
    }

    /** DeleteOrder: the fields become the state DeleteOrderStep computes, and
        the events it emits are appended to the log. */
    method DeleteOrder(orderId: OrderId)
      requires Valid()
      modifies this
      ensures Valid()
      ensures var o := DeleteOrderStep(old(orderBooks), old(orderMetaInfo), old(bidsOrderIdCounter), old(asksOrderIdCounter),
                                       orderId, onOrderDeleted, onBestPriceChanged);
        orderBooks == o.books && orderMetaInfo == o.meta && events == old(events) + o.emitted
      ensures bidsOrderIdCounter == old(bidsOrderIdCounter) && asksOrderIdCounter == old(asksOrderIdCounter)
      ensures onOrderInserted == old(onOrderInserted) && onOrderDeleted == old(onOrderDeleted)
      ensures onBestPriceChanged == old(onBestPriceChanged)
    {
      var o := DeleteOrderStep(orderBooks, orderMetaInfo, bidsOrderIdCounter, asksOrderIdCounter,
                               orderId, onOrderDeleted, onBestPriceChanged);
      orderBooks := o.books;
      orderMetaInfo := o.meta;
      events := events + o.emitted;
    }
  }
}
