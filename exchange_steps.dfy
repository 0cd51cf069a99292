/** The operations of the Exchange of
    cpp/patterns_and_practics/order_book/SimplifiedExchange.hpp as steps on its
    state: each computes the new state and the handler invocations of one call,
    listed in the order the handlers are called. */
module ExchangeSteps {
  import opened ExchangeTypes
  import opened SimplifiedExchange
  import opened ExchangeState

  /** The state after an operation, with the events it emitted. */
  datatype Outcome = Outcome(books: map<string, OrderBook>, meta: map<OrderId, MetaInfo>,
                             bidsCounter: int, asksCounter: int, emitted: seq<Event>)

  /** The events of one call: the handler's own event first when that handler
      is set, then at most one best-price event, and that one only when
      `reportsBest` holds and the best-price handler is set. */
  predicate EmitsOnce(emitted: seq<Event>, handlerSet: bool, first: Event, bestSet: bool, reportsBest: bool, best: Event) {
    var n := if handlerSet then 1 else 0;
    |emitted| == n + (if bestSet && reportsBest then 1 else 0) &&
    (handlerSet ==> emitted[0] == first) &&
    (forall k | n <= k < |emitted| :: emitted[k] == best)
  }

  /** The handler invocations of an InsertOrder that reached a book: its
      outcome first, then the book's new best prices when the order succeeded
      and changed the volume at the best price. */
  function InsertEvents(onOrderInserted: bool, onBestPriceChanged: bool, userReference: UserReference,
                        orderId: OrderId, symbol: string, err: InsertError, bestChanged: bool, book: OrderBook): (e: seq<Event>)
    requires book.Valid()
    ensures EmitsOnce(e, onOrderInserted, OrderInserted(userReference, err, orderId),
                      onBestPriceChanged, err == InsertError.OK && bestChanged, BestPriceChanged(symbol, book.GetBestPriceInfo()))
  {
    ExecuteCallback(onOrderInserted, OrderInserted(userReference, err, orderId)) +
    if err == InsertError.OK && bestChanged then ExecuteCallback(onBestPriceChanged, BestPriceChanged(symbol, book.GetBestPriceInfo()))
    else []
  }

  /** InsertOrder. The side's next id is drawn first, so the counter advances
      by two whatever the outcome, and the id encodes the side and was never
      used. An unknown symbol is reported as SymbolNotFound and changes
      nothing else; otherwise the order is placed in the symbol's book, whose
      outcome is reported, and on success its symbol and price are recorded.
      The exchange stays consistent. */
  function InsertOrderStep(books: map<string, OrderBook>, meta: map<OrderId, MetaInfo>,
                           bidsCounter: int, asksCounter: int,
                           symbol: string, side: Side, price: Price, volume: Volume, userReference: UserReference,
                           onOrderInserted: bool, onBestPriceChanged: bool): (o: Outcome)
    requires ExchangeValid(books, meta, bidsCounter, asksCounter)
    requires NextId(side, bidsCounter, asksCounter) <= INT_MAX
    ensures ExchangeValid(o.books, o.meta, o.bidsCounter, o.asksCounter)
    ensures o.bidsCounter == (if side == Buy then bidsCounter + 2 else bidsCounter) &&
            o.asksCounter == (if side == Sell then asksCounter + 2 else asksCounter)
  {
    InsertKeepsValid(books, meta, bidsCounter, asksCounter, symbol, side, price, volume);
    NextIdIsFresh(books, meta, bidsCounter, asksCounter, side);
    var orderId: OrderId := NextId(side, bidsCounter, asksCounter);
    var bids' := if side == Buy then orderId else bidsCounter;
    var asks' := if side == Sell then orderId else asksCounter;
    if symbol !in books then
      Outcome(books, meta, bids', asks',
              ExecuteCallback(onOrderInserted, OrderInserted(userReference, InsertError.SymbolNotFound, orderId)))
    else
      var r := books[symbol].PlaceOrder(side, price, volume, orderId);
      assert !books[symbol].Holds(side, price, orderId);
      Outcome(books[symbol := r.2], if r.0 == InsertError.OK then meta[orderId := MetaInfo(symbol, price)] else meta,
              bids', asks', InsertEvents(onOrderInserted, onBestPriceChanged, userReference, orderId, symbol, r.0, r.1, r.2))
  }

  /** What InsertOrder does, case by case. */
  lemma InsertOrderCases(books: map<string, OrderBook>, meta: map<OrderId, MetaInfo>,
                         bidsCounter: int, asksCounter: int,
                         symbol: string, side: Side, price: Price, volume: Volume, userReference: UserReference,
                         onOrderInserted: bool, onBestPriceChanged: bool)
    requires ExchangeValid(books, meta, bidsCounter, asksCounter)
    requires NextId(side, bidsCounter, asksCounter) <= INT_MAX
    ensures var o := InsertOrderStep(books, meta, bidsCounter, asksCounter, symbol, side, price, volume, userReference,
                                     onOrderInserted, onBestPriceChanged);
      var id := NextId(side, bidsCounter, asksCounter);
      GetSide(id) == side && id !in meta &&
      if symbol in books then
        var r := books[symbol].PlaceOrder(side, price, volume, id);
        r.2.Valid() && o.books == books[symbol := r.2] &&
        o.meta == (if r.0 == InsertError.OK then meta[id := MetaInfo(symbol, price)] else meta) &&
        o.emitted == InsertEvents(onOrderInserted, onBestPriceChanged, userReference, id, symbol, r.0, r.1, r.2)
      else
        o.books == books && o.meta == meta &&
        o.emitted == ExecuteCallback(onOrderInserted, OrderInserted(userReference, InsertError.SymbolNotFound, id))
  {
    NextIdIsFresh(books, meta, bidsCounter, asksCounter, side);
    var id := NextId(side, bidsCounter, asksCounter);
    var bids' := if side == Buy then id else bidsCounter;
    var asks' := if side == Sell then id else asksCounter;
    var o := InsertOrderStep(books, meta, bidsCounter, asksCounter, symbol, side, price, volume, userReference,
                             onOrderInserted, onBestPriceChanged);
    if symbol in books {
      InsertKeepsValid(books, meta, bidsCounter, asksCounter, symbol, side, price, volume);
      var r := books[symbol].PlaceOrder(side, price, volume, id);
      assert o == Outcome(books[symbol := r.2], if r.0 == InsertError.OK then meta[id := MetaInfo(symbol, price)] else meta,
                          bids', asks', InsertEvents(onOrderInserted, onBestPriceChanged, userReference, id, symbol, r.0, r.1, r.2));
    } else {
      assert o == Outcome(books, meta, bids', asks',
                          ExecuteCallback(onOrderInserted, OrderInserted(userReference, InsertError.SymbolNotFound, id)));
    }
  }

  /** Placing an order changes the books only at the symbol, where the order
      now rests exactly when it succeeded; with InsertOrderCases, these are the
      books InsertOrder leaves. */
  lemma InsertHolds(books: map<string, OrderBook>, symbol: string, side: Side, price: Price, volume: Volume,
                    orderId: OrderId)
    requires symbol in books
    ensures var r := books[symbol].PlaceOrder(side, price, volume, orderId);
      forall s, sd, p, j | s in books :: books[symbol := r.2][s].Holds(sd, p, j) <==>
        books[s].Holds(sd, p, j) || (r.0 == InsertError.OK && s == symbol && sd == side && p == price && j == orderId)
  {
    var r := books[symbol].PlaceOrder(side, price, volume, orderId);
    forall s, sd, p, j | s in books
      ensures books[symbol := r.2][s].Holds(sd, p, j) <==>
        books[s].Holds(sd, p, j) || (r.0 == InsertError.OK && s == symbol && sd == side && p == price && j == orderId)
    {
      if s != symbol {
        assert books[symbol := r.2][s] == books[s];
      }
    }
  }

  /** The handler invocations of a DeleteOrder that reached a book: its
      outcome first, then the book's new best prices when the order was removed
      from the side's best price. */
  function DeleteEvents(onOrderDeleted: bool, onBestPriceChanged: bool, orderId: OrderId,
                        symbol: string, err: DeleteError, wasBest: bool, book: OrderBook): (e: seq<Event>)
    requires book.Valid()
    ensures EmitsOnce(e, onOrderDeleted, OrderDeleted(orderId, err),
                      onBestPriceChanged, err == DeleteError.OK && wasBest, BestPriceChanged(symbol, book.GetBestPriceInfo()))
  {
    ExecuteCallback(onOrderDeleted, OrderDeleted(orderId, err)) +
    if err == DeleteError.OK && wasBest then ExecuteCallback(onBestPriceChanged, BestPriceChanged(symbol, book.GetBestPriceInfo()))
    else []
  }

  /** DeleteOrder. An id without metadata is reported as OrderNotFound and
      changes nothing else. Otherwise the order is removed from the level its
      metadata names (the symbol is read before the metadata is erased), which
      always succeeds, the outcome is reported and the metadata erased. The
      counters stay and the exchange stays consistent. */
  function DeleteOrderStep(books: map<string, OrderBook>, meta: map<OrderId, MetaInfo>,
                           bidsCounter: int, asksCounter: int, orderId: OrderId,
                           onOrderDeleted: bool, onBestPriceChanged: bool): (o: Outcome)
    requires ExchangeValid(books, meta, bidsCounter, asksCounter)
    ensures ExchangeValid(o.books, o.meta, o.bidsCounter, o.asksCounter)
    ensures o.bidsCounter == bidsCounter && o.asksCounter == asksCounter
  {
    if orderId !in meta then
      Outcome(books, meta, bidsCounter, asksCounter,
              ExecuteCallback(onOrderDeleted, OrderDeleted(orderId, DeleteError.OrderNotFound)))
    else
      // The symbol is read before the metadata is erased.
      var metaInfo := meta[orderId];
      DeleteKeepsValid(books, meta, bidsCounter, asksCounter, orderId);
      var r := books[metaInfo.symbol].RemoveOrder(orderId, GetSide(orderId), metaInfo.price);
      Outcome(books[metaInfo.symbol := r.2], if r.0 == DeleteError.OK then meta - {orderId} else meta,
              bidsCounter, asksCounter,
              DeleteEvents(onOrderDeleted, onBestPriceChanged, orderId, metaInfo.symbol, r.0, r.1, r.2))
  }

  /** What DeleteOrder does, case by case. */
  lemma DeleteOrderCases(books: map<string, OrderBook>, meta: map<OrderId, MetaInfo>,
                         bidsCounter: int, asksCounter: int, orderId: OrderId,
                         onOrderDeleted: bool, onBestPriceChanged: bool)
    requires ExchangeValid(books, meta, bidsCounter, asksCounter)
    ensures var o := DeleteOrderStep(books, meta, bidsCounter, asksCounter, orderId, onOrderDeleted, onBestPriceChanged);
      if orderId in meta then
        var m := meta[orderId];
        m.symbol in books && m.price in books[m.symbol].Prices(GetSide(orderId)) &&
        var r := books[m.symbol].RemoveOrder(orderId, GetSide(orderId), m.price);
        r.0 == DeleteError.OK && o.books == books[m.symbol := r.2] && o.meta == meta - {orderId} &&
        o.emitted == DeleteEvents(onOrderDeleted, onBestPriceChanged, orderId, m.symbol, r.0, r.1, r.2)
      else
        o.books == books && o.meta == meta &&
        o.emitted == ExecuteCallback(onOrderDeleted, OrderDeleted(orderId, DeleteError.OrderNotFound))
  {
    if orderId in meta {
      DeleteKeepsValid(books, meta, bidsCounter, asksCounter, orderId);
    }
  }

  /** A live order is removed from the side's best price exactly when its
      price was the side's best, and only then is a best-price event due. */
  lemma DeleteLiveEvents(books: map<string, OrderBook>, meta: map<OrderId, MetaInfo>,
                         bidsCounter: int, asksCounter: int, orderId: OrderId)
    requires ExchangeValid(books, meta, bidsCounter, asksCounter)
    requires orderId in meta
    ensures var m := meta[orderId];
      m.symbol in books && m.price in books[m.symbol].Prices(GetSide(orderId)) &&
      var r := books[m.symbol].RemoveOrder(orderId, GetSide(orderId), m.price);
      r.1 <==> IsHead(GetSide(orderId), m.price, books[m.symbol].Prices(GetSide(orderId)))
  {
    DeleteKeepsValid(books, meta, bidsCounter, asksCounter, orderId);
  }

  /** Removing a live order takes exactly that order out of the books: the
      metadata says where the order rests, and it rests nowhere else. */
  lemma DeleteHolds(books: map<string, OrderBook>, meta: map<OrderId, MetaInfo>,
                    bidsCounter: int, asksCounter: int, orderId: OrderId)
    requires ExchangeValid(books, meta, bidsCounter, asksCounter)
    requires orderId in meta
    ensures var m := meta[orderId];
      m.symbol in books && m.price in books[m.symbol].Prices(GetSide(orderId)) &&
      var book' := books[m.symbol].RemoveOrder(orderId, GetSide(orderId), m.price).2;
      forall s, sd, p, j | s in books :: books[m.symbol := book'][s].Holds(sd, p, j) <==> books[s].Holds(sd, p, j) && j != orderId
  {
    var m := meta[orderId];
    var book := books[m.symbol];
    assert book.Valid() && book.Holds(GetSide(orderId), m.price, orderId);
    assert SideValid(book.Orders(GetSide(orderId)), book.Prices(GetSide(orderId)));
    var book' := book.RemoveOrder(orderId, GetSide(orderId), m.price).2;
    forall s, sd, p | s in books && books[s].Holds(sd, p, orderId)
      ensures s == m.symbol && sd == GetSide(orderId) && p == m.price
    {
      assert meta[orderId] == MetaInfo(s, p);
    }
    RemoveOnlyHere(books, m.symbol, book', GetSide(orderId), m.price, orderId);
  }

  /** Replacing one book by a copy that lost one order, where no other book or
      level holds that order, takes exactly that order out of the books. */
  lemma RemoveOnlyHere(books: map<string, OrderBook>, symbol: string, book': OrderBook,
                       side: Side, price: Price, orderId: OrderId)
    requires symbol in books
    requires forall sd, p, j :: book'.Holds(sd, p, j) <==>
      books[symbol].Holds(sd, p, j) && !(sd == side && p == price && j == orderId)
    requires forall s, sd, p | s in books && books[s].Holds(sd, p, orderId) :: s == symbol && sd == side && p == price
    ensures forall s, sd, p, j | s in books :: books[symbol := book'][s].Holds(sd, p, j) <==> books[s].Holds(sd, p, j) && j != orderId
  {
    forall s, sd, p, j | s in books
      ensures books[symbol := book'][s].Holds(sd, p, j) <==> books[s].Holds(sd, p, j) && j != orderId
    {
      if s != symbol {
        assert books[symbol := book'][s] == books[s];
      }
    }
  }

  /** Deleting the same order twice: the second call reports OrderNotFound
      and changes nothing. */
  lemma DeleteTwiceNotFound(books: map<string, OrderBook>, meta: map<OrderId, MetaInfo>,
                            bidsCounter: int, asksCounter: int, orderId: OrderId,
                            onOrderDeleted: bool, onBestPriceChanged: bool)
    requires ExchangeValid(books, meta, bidsCounter, asksCounter)
    ensures var o := DeleteOrderStep(books, meta, bidsCounter, asksCounter, orderId, onOrderDeleted, onBestPriceChanged);
      var o' := DeleteOrderStep(o.books, o.meta, o.bidsCounter, o.asksCounter, orderId, onOrderDeleted, onBestPriceChanged);
      o'.books == o.books && o'.meta == o.meta &&
      o'.emitted == ExecuteCallback(onOrderDeleted, OrderDeleted(orderId, DeleteError.OrderNotFound))
  {
    DeleteOrderCases(books, meta, bidsCounter, asksCounter, orderId, onOrderDeleted, onBestPriceChanged);
    var o := DeleteOrderStep(books, meta, bidsCounter, asksCounter, orderId, onOrderDeleted, onBestPriceChanged);
    DeleteOrderCases(o.books, o.meta, o.bidsCounter, o.asksCounter, orderId, onOrderDeleted, onBestPriceChanged);
  }

  /** Deleting an order right after it was accepted gives back the books and
      the metadata as they were; only the counter has moved on. */
  lemma InsertThenDeleteRestores(books: map<string, OrderBook>, meta: map<OrderId, MetaInfo>,
                                 bidsCounter: int, asksCounter: int,
                                 symbol: string, side: Side, price: Price, volume: Volume, userReference: UserReference,
                                 onOrderInserted: bool, onOrderDeleted: bool, onBestPriceChanged: bool)
    requires ExchangeValid(books, meta, bidsCounter, asksCounter)
    requires NextId(side, bidsCounter, asksCounter) <= INT_MAX
    requires symbol in books
    requires books[symbol].PlaceOrder(side, price, volume, NextId(side, bidsCounter, asksCounter)).0 == InsertError.OK
    ensures var o := InsertOrderStep(books, meta, bidsCounter, asksCounter, symbol, side, price, volume, userReference,
                                     onOrderInserted, onBestPriceChanged);
      var o' := DeleteOrderStep(o.books, o.meta, o.bidsCounter, o.asksCounter, NextId(side, bidsCounter, asksCounter),
                                onOrderDeleted, onBestPriceChanged);
      o'.books == books && o'.meta == meta
  {
    var id := NextId(side, bidsCounter, asksCounter);
    NextIdIsFresh(books, meta, bidsCounter, asksCounter, side);
    assert !books[symbol].Holds(side, price, id);
    var placed := books[symbol].PlaceOrder(side, price, volume, id).2;
    PlaceRemoveRoundTrip(books[symbol], side, price, volume, id);
    var o := InsertOrderStep(books, meta, bidsCounter, asksCounter, symbol, side, price, volume, userReference,
                             onOrderInserted, onBestPriceChanged);
    InsertOrderCases(books, meta, bidsCounter, asksCounter, symbol, side, price, volume, userReference,
                     onOrderInserted, onBestPriceChanged);
    assert o.books == books[symbol := placed] && o.meta == meta[id := MetaInfo(symbol, price)];
    var o' := DeleteOrderStep(o.books, o.meta, o.bidsCounter, o.asksCounter, id, onOrderDeleted, onBestPriceChanged);
    DeleteOrderCases(o.books, o.meta, o.bidsCounter, o.asksCounter, id, onOrderDeleted, onBestPriceChanged);
    assert o'.books == o.books[symbol := books[symbol]] && o'.meta == o.meta - {id};
    UpdateBack(books, symbol, placed);
    AddThenRemove(meta, id, MetaInfo(symbol, price));
  }

  lemma UpdateBack<K, V>(m: map<K, V>, k: K, v: V)
    requires k in m
    ensures m[k := v][k := m[k]] == m
  {
  }

  lemma AddThenRemove<K, V>(m: map<K, V>, k: K, v: V)
    requires k !in m
    ensures m[k := v] - {k} == m
  {
  }
}
