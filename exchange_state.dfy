/** The state of the Exchange of
    cpp/patterns_and_practics/order_book/SimplifiedExchange.hpp as values: the
    books by symbol, the metadata of the live orders and the two id counters,
    and the consistency the exchange keeps between them.

    A handler is a flag saying whether it is set; invoking it yields an event. */
module ExchangeState {
  import opened ExchangeTypes
  import opened SimplifiedExchange

  /** What DeleteOrder needs to find an order again: its book and its level. */
  datatype MetaInfo = MetaInfo(symbol: string, price: Price)

  /** One invocation of a handler, with its arguments. */
  datatype Event =
    | OrderInserted(userReference: UserReference, insertError: InsertError, orderId: OrderId)
    | OrderDeleted(orderId: OrderId, deleteError: DeleteError)
    | BestPriceChanged(symbol: string, info: BestPriceInfo)

  /** ExecuteCallback: an unset handler is skipped rather than invoked. */
  function ExecuteCallback(handlerSet: bool, e: Event): seq<Event> {
    if handlerSet then [e] else []
  }

  const SupportedStocks: seq<string> := ["AAPL", "MSFT", "GOOG"]

  /** The side an order id encodes: odd ids are asks. C++ `%` truncates
      towards zero, but whether the remainder is zero does not depend on that. */
  function GetSide(orderId: OrderId): Side {
    if orderId % 2 != 0 then Sell else Buy
  }

  /** The id GetOrderId hands out next for a side. */
  function NextId(side: Side, bidsCounter: int, asksCounter: int): int {
    if side == Buy then bidsCounter + 2 else asksCounter + 2
  }

  /** The id has been handed out: bids draw 2, 4, 6, ... and asks 3, 5, 7, ...,
      each up to its side's counter. */
  predicate Issued(orderId: int, bidsCounter: int, asksCounter: int) {
    if orderId % 2 == 0 then 0 < orderId <= bidsCounter else 1 < orderId <= asksCounter
  }

  /** The counters have the parity of their side. */
  predicate CountersValid(bidsCounter: int, asksCounter: int) {
    0 <= bidsCounter && bidsCounter % 2 == 0 && 1 <= asksCounter && asksCounter % 2 == 1
  }

  ghost predicate BooksValid(books: map<string, OrderBook>) {
    forall s | s in books :: books[s].Valid()
  }

  /** Every order with metadata rests in the book and at the price the metadata
      names, on the side its id encodes, under an id already handed out. */
  ghost predicate MetaHeld(books: map<string, OrderBook>, meta: map<OrderId, MetaInfo>,
                           bidsCounter: int, asksCounter: int) {
    forall id | id in meta ::
      Issued(id, bidsCounter, asksCounter) && meta[id].symbol in books &&
      books[meta[id].symbol].Holds(GetSide(id), meta[id].price, id)
  }

  /** Every order resting in a book has metadata naming that book and price,
      and rests on the side its id encodes. */
  ghost predicate HeldMeta(books: map<string, OrderBook>, meta: map<OrderId, MetaInfo>) {
    forall s, side, p, id | s in books && books[s].Holds(side, p, id) ::
      id in meta && meta[id] == MetaInfo(s, p) && side == GetSide(id)
  }

  /** The state the exchange keeps consistent: the metadata lists exactly the
      orders resting in the books. */
  ghost predicate ExchangeValid(books: map<string, OrderBook>, meta: map<OrderId, MetaInfo>,
                                bidsCounter: int, asksCounter: int) {
    CountersValid(bidsCounter, asksCounter) && BooksValid(books) &&
    MetaHeld(books, meta, bidsCounter, asksCounter) && HeldMeta(books, meta)
  }

  /** The next id of a side encodes that side, has not been handed out under
      the current counters and is handed out once the side's counter reaches
      it; so no book holds it and no metadata mentions it: ids are never
      reused, not even across sides. */
  lemma NextIdIsFresh(books: map<string, OrderBook>, meta: map<OrderId, MetaInfo>,
                      bidsCounter: int, asksCounter: int, side: Side)
    requires ExchangeValid(books, meta, bidsCounter, asksCounter)
    requires NextId(side, bidsCounter, asksCounter) <= INT_MAX
    ensures var id := NextId(side, bidsCounter, asksCounter);
      GetSide(id) == side && id > 0 &&
      !Issued(id, bidsCounter, asksCounter) &&
      Issued(id, if side == Buy then id else bidsCounter, if side == Sell then id else asksCounter) &&
      id !in meta && forall s, sd, p | s in books :: !books[s].Holds(sd, p, id)
  {
    var id := NextId(side, bidsCounter, asksCounter);
    assert id !in meta;
    forall s, sd, p | s in books ensures !books[s].Holds(sd, p, id) {
      assert books[s].Holds(sd, p, id) ==> id in meta;
    }
  }

  lemma MetaHeldAfterAdd(books: map<string, OrderBook>, meta: map<OrderId, MetaInfo>,
                         bidsCounter: int, asksCounter: int, bids': int, asks': int,
                         symbol: string, book': OrderBook, side: Side, price: Price, id: OrderId)
    requires MetaHeld(books, meta, bidsCounter, asksCounter)
    requires symbol in books && bidsCounter <= bids' && asksCounter <= asks'
    requires forall sd, p, j :: books[symbol].Holds(sd, p, j) ==> book'.Holds(sd, p, j)
    requires book'.Holds(side, price, id) && GetSide(id) == side && Issued(id, bids', asks')
    ensures MetaHeld(books[symbol := book'], meta[id := MetaInfo(symbol, price)], bids', asks')
  {
  }

  lemma HeldMetaAfterAdd(books: map<string, OrderBook>, meta: map<OrderId, MetaInfo>,
                         symbol: string, book': OrderBook, side: Side, price: Price, id: OrderId)
    requires HeldMeta(books, meta)
    requires symbol in books && GetSide(id) == side
    requires forall s, sd, p | s in books :: !books[s].Holds(sd, p, id)
    requires forall sd, p, j :: book'.Holds(sd, p, j) <==> books[symbol].Holds(sd, p, j) || (sd == side && p == price && j == id)
    ensures HeldMeta(books[symbol := book'], meta[id := MetaInfo(symbol, price)])
  {
    var books' := books[symbol := book'];
    forall s, sd, p, j | s in books' && books'[s].Holds(sd, p, j)
      ensures j in meta[id := MetaInfo(symbol, price)] && meta[id := MetaInfo(symbol, price)][j] == MetaInfo(s, p) && sd == GetSide(j)
    {
      if s != symbol || j != id {
        assert books[s].Holds(sd, p, j);
      }
    }
  }

  lemma MetaHeldAfterRemove(books: map<string, OrderBook>, meta: map<OrderId, MetaInfo>,
                            bidsCounter: int, asksCounter: int, symbol: string, book': OrderBook, id: OrderId)
    requires MetaHeld(books, meta, bidsCounter, asksCounter)
    requires symbol in books && id in meta && meta[id].symbol == symbol
    requires forall sd, p, j :: books[symbol].Holds(sd, p, j) && !(sd == GetSide(id) && p == meta[id].price && j == id) ==>
      book'.Holds(sd, p, j)
    ensures MetaHeld(books[symbol := book'], meta - {id}, bidsCounter, asksCounter)
  {
  }

  lemma HeldMetaAfterRemove(books: map<string, OrderBook>, meta: map<OrderId, MetaInfo>,
                            symbol: string, book': OrderBook, id: OrderId)
    requires HeldMeta(books, meta)
    requires symbol in books && id in meta && meta[id].symbol == symbol
    requires forall sd, p, j :: book'.Holds(sd, p, j) ==>
      books[symbol].Holds(sd, p, j) && !(sd == GetSide(id) && p == meta[id].price && j == id)
    ensures HeldMeta(books[symbol := book'], meta - {id})
  {
    var books' := books[symbol := book'];
    forall s, sd, p, j | s in books' && books'[s].Holds(sd, p, j)
      ensures j in meta - {id} && meta[j] == MetaInfo(s, p) && sd == GetSide(j)
    {
      assert books[s].Holds(sd, p, j);
    }
  }

  /** InsertOrder keeps the exchange consistent: the order gets the side's next
      id, and on success its book holds it and the metadata records it. */
  lemma InsertKeepsValid(books: map<string, OrderBook>, meta: map<OrderId, MetaInfo>,
                         bidsCounter: int, asksCounter: int,
                         symbol: string, side: Side, price: Price, volume: Volume)
    requires ExchangeValid(books, meta, bidsCounter, asksCounter)
    requires NextId(side, bidsCounter, asksCounter) <= INT_MAX
    ensures var id := NextId(side, bidsCounter, asksCounter);
      var bids' := if side == Buy then id else bidsCounter;
      var asks' := if side == Sell then id else asksCounter;
      if symbol in books then
        var (err, _, book') := books[symbol].PlaceOrder(side, price, volume, id);
        ExchangeValid(books[symbol := book'],
                      if err == InsertError.OK then meta[id := MetaInfo(symbol, price)] else meta, bids', asks')
      else ExchangeValid(books, meta, bids', asks')
  {
    var id := NextId(side, bidsCounter, asksCounter);
    AdvanceKeepsValid(books, meta, bidsCounter, asksCounter, side);
    if symbol in books {
      var (err, _, book') := books[symbol].PlaceOrder(side, price, volume, id);
      if err == InsertError.OK {
        AcceptedKeepsValid(books, meta, bidsCounter, asksCounter, symbol, side, price, volume);
      } else {
        assert books[symbol := book'] == books;
      }
    }
  }

  /** Drawing the side's next id keeps the exchange consistent. */
  lemma AdvanceKeepsValid(books: map<string, OrderBook>, meta: map<OrderId, MetaInfo>,
                          bidsCounter: int, asksCounter: int, side: Side)
    requires ExchangeValid(books, meta, bidsCounter, asksCounter)
    requires NextId(side, bidsCounter, asksCounter) <= INT_MAX
    ensures var id := NextId(side, bidsCounter, asksCounter);
      ExchangeValid(books, meta, if side == Buy then id else bidsCounter, if side == Sell then id else asksCounter)
  {
    var id := NextId(side, bidsCounter, asksCounter);
    assert MetaHeld(books, meta, if side == Buy then id else bidsCounter, if side == Sell then id else asksCounter);
  }

  /** An order its book accepts under the side's next id rests in that book
      and gets its metadata, and the exchange stays consistent. */
  lemma AcceptedKeepsValid(books: map<string, OrderBook>, meta: map<OrderId, MetaInfo>,
                           bidsCounter: int, asksCounter: int,
                           symbol: string, side: Side, price: Price, volume: Volume)
    requires ExchangeValid(books, meta, bidsCounter, asksCounter)
    requires NextId(side, bidsCounter, asksCounter) <= INT_MAX && symbol in books
    requires books[symbol].PlaceOrder(side, price, volume, NextId(side, bidsCounter, asksCounter)).0 == InsertError.OK
    ensures var id := NextId(side, bidsCounter, asksCounter);
      ExchangeValid(books[symbol := books[symbol].PlaceOrder(side, price, volume, id).2],
                    meta[id := MetaInfo(symbol, price)],
                    if side == Buy then id else bidsCounter, if side == Sell then id else asksCounter)
  {
    var id := NextId(side, bidsCounter, asksCounter);
    var bids' := if side == Buy then id else bidsCounter;
    var asks' := if side == Sell then id else asksCounter;
    NextIdIsFresh(books, meta, bidsCounter, asksCounter, side);
    var book' := books[symbol].PlaceOrder(side, price, volume, id).2;
    assert book'.Valid();
    MetaHeldAfterAdd(books, meta, bidsCounter, asksCounter, bids', asks', symbol, book', side, price, id);
    HeldMetaAfterAdd(books, meta, symbol, book', side, price, id);
  }

  /** DeleteOrder of a live order succeeds and keeps the exchange consistent:
      the order leaves its book and its metadata. */
  lemma DeleteKeepsValid(books: map<string, OrderBook>, meta: map<OrderId, MetaInfo>,
                         bidsCounter: int, asksCounter: int, orderId: OrderId)
    requires ExchangeValid(books, meta, bidsCounter, asksCounter)
    requires orderId in meta
    ensures var m := meta[orderId];
      m.symbol in books && m.price in books[m.symbol].Prices(GetSide(orderId)) &&
      var (err, _, book') := books[m.symbol].RemoveOrder(orderId, GetSide(orderId), m.price);
      err == DeleteError.OK && ExchangeValid(books[m.symbol := book'], meta - {orderId}, bidsCounter, asksCounter)
  {
    var m := meta[orderId];
    LiveOrderLevel(books, meta, bidsCounter, asksCounter, orderId);
    var book' := books[m.symbol].RemoveOrder(orderId, GetSide(orderId), m.price).2;
    RemovedKeepsValid(books, meta, bidsCounter, asksCounter, book', orderId);
  }

  /** A live order rests in a valid book, at a price of its side. */
  lemma LiveOrderLevel(books: map<string, OrderBook>, meta: map<OrderId, MetaInfo>,
                       bidsCounter: int, asksCounter: int, orderId: OrderId)
    requires ExchangeValid(books, meta, bidsCounter, asksCounter)
    requires orderId in meta
    ensures var m := meta[orderId];
      m.symbol in books && books[m.symbol].Valid() && books[m.symbol].Holds(GetSide(orderId), m.price, orderId) &&
      m.price in books[m.symbol].Prices(GetSide(orderId))
  {
    var m := meta[orderId];
    var book := books[m.symbol];
    assert book.Valid() && book.Holds(GetSide(orderId), m.price, orderId);
    assert SideValid(book.Orders(GetSide(orderId)), book.Prices(GetSide(orderId)));
  }

  /** Replacing a live order's book by a valid copy without that order, and
      erasing its metadata, keeps the exchange consistent. */
  lemma RemovedKeepsValid(books: map<string, OrderBook>, meta: map<OrderId, MetaInfo>,
                          bidsCounter: int, asksCounter: int, book': OrderBook, orderId: OrderId)
    requires ExchangeValid(books, meta, bidsCounter, asksCounter)
    requires orderId in meta && meta[orderId].symbol in books && book'.Valid()
    requires forall sd, p, j :: book'.Holds(sd, p, j) <==>
      books[meta[orderId].symbol].Holds(sd, p, j) && !(sd == GetSide(orderId) && p == meta[orderId].price && j == orderId)
    ensures ExchangeValid(books[meta[orderId].symbol := book'], meta - {orderId}, bidsCounter, asksCounter)
  {
    MetaHeldAfterRemove(books, meta, bidsCounter, asksCounter, meta[orderId].symbol, book', orderId);
    HeldMetaAfterRemove(books, meta, meta[orderId].symbol, book', orderId);
  }
}
