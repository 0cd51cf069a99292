/** The vocabulary of the exchange interface
    (cpp/patterns_and_practics/order_book/IExchange.hpp): prices and volumes are
    32-bit unsigned integers, order ids and user references are 32-bit signed
    integers, and two small error enumerations. Also the order of each side's
    price set: bids best-first by descending price, asks by ascending price. */
module ExchangeTypes {

  const UINT_MAX: int := 0xFFFF_FFFF
  const INT_MIN: int := -0x8000_0000
  const INT_MAX: int := 0x7FFF_FFFF

  type Price = x: int | 0 <= x <= UINT_MAX
  type Volume = x: int | 0 <= x <= UINT_MAX
  type OrderId = x: int | INT_MIN <= x <= INT_MAX
  type UserReference = x: int | INT_MIN <= x <= INT_MAX

  datatype Side = Buy | Sell

  function Opposite(side: Side): Side {
    if side == Buy then Sell else Buy
  }

  datatype InsertError = OK | SymbolNotFound | InvalidPrice | InvalidVolume | SystemError

  datatype DeleteError = OK | OrderNotFound | SystemError

  /** Sum of two unsigned values as the machine computes it, modulo 2^32. */
  function WrappingAdd(a: Volume, b: Volume): (r: Volume)
    ensures a + b <= UINT_MAX ==> r == a + b
    ensures a + b > UINT_MAX ==> r == a + b - (UINT_MAX + 1) && r < a
  {
    (a + b) % (UINT_MAX + 1)
  }

  /** Difference of two unsigned values as the machine computes it, modulo 2^32. */
  function WrappingSub(a: Volume, b: Volume): (r: Volume)
    ensures b <= a ==> r == a - b
    ensures b > a ==> r == a - b + UINT_MAX + 1
  {
    (a - b) % (UINT_MAX + 1)
  }

  // ---------------------------------------------------------------------------
  // Price order per side: std::set<Price, std::greater<Price>> for bids and
  // std::set<Price, std::less<Price>> for asks, so begin() is the best price.

  /** a comes before b in the price set of the given side. */
  predicate Better(side: Side, a: Price, b: Price) {
    if side == Buy then a > b else a < b
  }

  /** p is the first element (begin()) of the price set s. */
  predicate IsHead(side: Side, p: Price, s: set<Price>) {
    p in s && forall q | q in s :: q == p || Better(side, p, q)
  }

  lemma {:induction false} HeadExists(side: Side, s: set<Price>)
    requires s != {}
    ensures exists p :: IsHead(side, p, s)
    decreases |s|
  {
    var x :| x in s;
    if s == {x} {
      assert IsHead(side, x, s);
    } else {
      var rest := s - {x};
      HeadExists(side, rest);
      var h :| IsHead(side, h, rest);
      if Better(side, x, h) {
        forall q | q in s ensures q == x || Better(side, x, q) {
          if q != x {
            assert q in rest;
          }
        }
        assert IsHead(side, x, s);
      } else {
        assert IsHead(side, h, s);
      }
    }
  }

  lemma HeadUnique(side: Side, p: Price, q: Price, s: set<Price>)
    requires IsHead(side, p, s) && IsHead(side, q, s)
    ensures p == q
  {
  }

  /** *std::begin(s): the best price of a non-empty price set. */
  function Head(side: Side, s: set<Price>): (p: Price)
    requires s != {}
    ensures IsHead(side, p, s)
  {
    HeadExists(side, s);
    var p :| IsHead(side, p, s);
    p
  }

  /** Adding a price to a set makes it the head exactly when the set was empty
      or the price is the old head or better than it. */
  lemma HeadOfInsert(side: Side, p: Price, s: set<Price>)
    ensures IsHead(side, p, s + {p}) <==> (s == {} || p == Head(side, s) || Better(side, p, Head(side, s)))
  {
    if s != {} {
      var h := Head(side, s);
      if IsHead(side, p, s + {p}) {
        assert p == h || Better(side, p, h);
      }
    }
  }
}
