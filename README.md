# A verified model of a C++ practice repository

This project models in Dafny the core of a collection of small C++ programs and
proves what they promise.

- **The limit order book** (`cpp/patterns_and_practics/order_book`).
  - Price levels keep a running total of their volumes.
  - A book keeps, for each side, its levels and the ordered set of its prices, and reports the best price of each side.
  - The exchange routes orders to the book of their symbol. It draws order ids whose parity encodes the side, keeps the symbol and price of every live order, and reports every outcome to the handlers the user has set.
  - The unit tests keep a reference of their own, a multimap per side. The model proves that the book agrees with it. The model's reference holds accepted orders only. The tests' fixture also files rejected orders, so the two agree only on runs without rejections, such as the best-price tests.
- **Bit reversal** of 8-, 16-, 32- and 64-bit integers by three methods: a mask-and-shift network, the network finished by a byte swap, and a byte-table lookup.
- **The sequential merge sort**, in place on an array with a scratch buffer.
- **The binary max-heap**: `insert` with its std::size_t parent arithmetic, and `get_max`.
- **The set-associative key/value cache**:
  - the key picks its set;
  - each set keeps a recency order;
  - a full set evicts its least or its most recently used key, according to the policy;
  - a hit leaves the entry's list iterator on the erased node: see "## Findings".
- **The set-associative address cache**:
  - an address splits into offset, set and tag;
  - `push_line` fills the first free or matching line of the set, or replaces a random one;
  - `find` returns the bits at the offset.
- **The LRU cache**: a set of nodes threaded by a doubly linked list from the most to the least recently used key, with `refer` and `display`.
- **Integer matrix multiplication**: the applicability check, the sequential triple loop, and the division of the result's elements into one chunk per thread.
- **The undo/redo mixins** over a number.

Each operation is modelled in the form the C++ code has:

- Code that updates fields or arrays in place becomes a class or a method over arrays. Each method is proved against a specification function, and the function's properties are proved as lemmas.
- Code that only computes becomes functions.
- Values are mathematical integers, except where the source's width matters:
  - the 32-bit unsigned volume total that can wrap;
  - the 64-bit `size_t` parent computation of the heap;
  - the 64-bit cache lines and bit patterns.
- When a C++ operation reads outside an object, the model either puts that case outside its precondition or models it as an error result. Such cases are the `front()` of an empty vector, the `end()` of a map, or a null `prev` pointer.

Calls to `std::rand` are modelled as a parameter `rnd`. The order book's handlers are flags that say whether each one is set. Invoking a set handler appends an event to a log.

The matrix applicability check asks more than the product needs. The product only needs the columns of the first matrix to match the rows of the second. The check also asks the rows of the first to match the columns of the second, so it refuses, for example, a 1 by 2 matrix times a 2 by 3 matrix (`MatrixMultiply.ApplicabilityIsSquareShaped`). The model follows the code: the multiplication fails exactly when the check fails.

## Model

| member | source | states |
|---|---|---|
| ExchangeTypes.WrappingAdd | cpp/patterns_and_practics/order_book/SimplifiedExchange.hpp:37-38 | the unsigned sum equals the true sum when it fits in 32 bits, and otherwise wraps to less than the first operand |
| ExchangeTypes.WrappingSub | cpp/patterns_and_practics/order_book/SimplifiedExchange.hpp:52 | the unsigned difference is the true difference when it is not negative, and otherwise wraps modulo 2^32 |
| ExchangeTypes.HeadExists | cpp/patterns_and_practics/order_book/SimplifiedExchange.hpp:73-74 | a non-empty price set has a first price in its side's order: highest for bids, lowest for asks |
| ExchangeTypes.HeadUnique | cpp/patterns_and_practics/order_book/SimplifiedExchange.hpp:73-74 | a price set has at most one first price |
| ExchangeTypes.Head | cpp/patterns_and_practics/order_book/SimplifiedExchange.hpp:81 | `*begin()` of a non-empty price set is its best price |
| ExchangeTypes.HeadOfInsert | cpp/patterns_and_practics/order_book/SimplifiedExchange.hpp:94-107 | adding a price makes it the first exactly when the set was empty, or the price already was the first, or it is better than the old first |
| ExchangeReference.SumVolumesRemove | cpp/patterns_and_practics/order_book/UnitTests.cpp:450-454 | the total volume of a level is the same whichever order is counted first |
| ExchangeReference.SumVolumesInsert | cpp/patterns_and_practics/order_book/UnitTests.cpp:407-411 | adding a new order to the reference adds its volume to the total |
| ExchangeReference.SumVolumesNonNegative | cpp/patterns_and_practics/order_book/UnitTests.cpp:450-454 | the total volume of a level is never negative |
| ExchangeReference.LevelInsert | cpp/patterns_and_practics/order_book/UnitTests.cpp:407-416 | adding an order to the reference adds it to the level of its side and price and to no other |
| ExchangeReference.LevelRemove | cpp/patterns_and_practics/order_book/UnitTests.cpp:426-440 | removing an order takes it out of its level and leaves the others |
| ExchangeReference.SidePricesAreLevels | cpp/patterns_and_practics/order_book/UnitTests.cpp:445-451 | a price is among a side's prices exactly when its level holds an order |
| ExchangeReference.SidePricesInsert | cpp/patterns_and_practics/order_book/UnitTests.cpp:407-416 | a new order adds its price to its own side's prices and leaves the other side's |
| ExchangeReference.SidePricesRemove | cpp/patterns_and_practics/order_book/UnitTests.cpp:426-440 | removing an order drops its price from its side exactly when no other order of that side rests there |
| ExchangeReference.SidePricesOtherSide | cpp/patterns_and_practics/order_book/UnitTests.cpp:426-440 | removing an order leaves the other side's prices as they were |
| SimplifiedExchange.VolumeStorage.AddVolume | cpp/patterns_and_practics/order_book/SimplifiedExchange.hpp:36-46 | SystemError with the level unchanged when the 32-bit total would wrap; otherwise the volume is recorded, the total grows by exactly that volume, and a valid level stays valid |
| SimplifiedExchange.VolumeStorage.RemoveVolume | cpp/patterns_and_practics/order_book/SimplifiedExchange.hpp:48-55 | SystemError with no change for an absent id; otherwise the entry is erased, the total drops by its volume, and the level stays valid |
| SimplifiedExchange.VolumeStorage.GetTotalVolume | cpp/patterns_and_practics/order_book/SimplifiedExchange.hpp:57-59 | on a valid level, the total is the sum of the recorded volumes |
| SimplifiedExchange.VolumeStorage.Empty | cpp/patterns_and_practics/order_book/SimplifiedExchange.hpp:61-63 | true exactly when no volume is recorded; the total is then 0 |
| SimplifiedExchange.OrderBook.WithOrders | cpp/patterns_and_practics/order_book/SimplifiedExchange.hpp:89-91 | assigning through `Orders(side)` changes that side's levels only |
| SimplifiedExchange.OrderBook.WithPrices | cpp/patterns_and_practics/order_book/SimplifiedExchange.hpp:110-113 | assigning a side's price set changes nothing else |
| SimplifiedExchange.OrderBook.GetSideBestPriceInfo | cpp/patterns_and_practics/order_book/SimplifiedExchange.hpp:77-87 | (0, 0) for an empty side; otherwise the side's best price and the total volume of its level |
| SimplifiedExchange.OrderBook.GetBestPriceInfo | cpp/patterns_and_practics/order_book/SimplifiedExchange.hpp:140-145 | the best bid with its volume and the best ask with its volume, each as `GetSideBestPriceInfo` defines it |
| SimplifiedExchange.OrderBook.InsertPrice | cpp/patterns_and_practics/order_book/SimplifiedExchange.hpp:93-114 | the price joins the side's set; the flag is true exactly when the price is first afterwards |
| SimplifiedExchange.OrderBook.RemovePrice | cpp/patterns_and_practics/order_book/SimplifiedExchange.hpp:116-126 | the price leaves the side's set; nothing else changes |
| SimplifiedExchange.OrderBook.IsBestPrice | cpp/patterns_and_practics/order_book/SimplifiedExchange.hpp:128-137 | true exactly when the price is first in the side's non-empty set |
| SimplifiedExchange.OrderBook.PlaceOrder | cpp/patterns_and_practics/order_book/SimplifiedExchange.hpp:148-158 | price 0 gives InvalidPrice, then volume 0 gives InvalidVolume, then a wrapping total gives SystemError, each with flag false and the book unchanged. On OK the order rests at its side and price, nothing else changes, and a valid book stays valid |
| SimplifiedExchange.OrderBook.RemoveOrder | cpp/patterns_and_practics/order_book/SimplifiedExchange.hpp:160-173 | OK exactly when the order rests at that side and price, and then it alone leaves the book. The flag says the price was first before the removal. A level is erased with its price once empty. Otherwise SystemError with the book unchanged |
| SimplifiedExchange.EraseHolds | cpp/patterns_and_practics/order_book/SimplifiedExchange.hpp:162-170 | erasing an order from its level, and the level once empty, removes exactly that order |
| SimplifiedExchange.EraseKeepsValid | cpp/patterns_and_practics/order_book/SimplifiedExchange.hpp:162-170 | the book stays valid: every remaining level has its price in the set and the set names only levels |
| SimplifiedExchange.LevelRoundTrip | cpp/patterns_and_practics/order_book/SimplifiedExchange.hpp:36-55 | removing an order just added gives back the level as it was |
| SimplifiedExchange.SideRoundTrip | cpp/patterns_and_practics/order_book/SimplifiedExchange.hpp:152-170 | the same for a side's levels and prices, including a level the order created |
| SimplifiedExchange.PlaceRemoveRoundTrip | cpp/patterns_and_practics/order_book/SimplifiedExchange.hpp:148-173 | removing an order just placed under a fresh id gives back the book |
| SimplifiedExchange.EmptyBookValid | cpp/patterns_and_practics/order_book/SimplifiedExchange.hpp:175-177 | a default book is valid and holds no order |
| SimplifiedExchange.EmptyBookAbstracts | cpp/patterns_and_practics/order_book/UnitTests.cpp:399-411 | a default book agrees with the empty reference |
| SimplifiedExchange.LevelAt | cpp/patterns_and_practics/order_book/SimplifiedExchange.hpp:152 | `Orders(side)[price]`: a missing price reads as a fresh empty level; specified by SimplifiedExchange.LevelAtIsLevel |
| SimplifiedExchange.LevelAtIsLevel | cpp/patterns_and_practics/order_book/SimplifiedExchange.hpp:152 | the level `operator[]` reads holds exactly the reference orders at that side and price |
| SimplifiedExchange.HoldsIsResting | cpp/patterns_and_practics/order_book/UnitTests.cpp:407-416 | an order rests in the book exactly when the reference holds it at that side and price |
| SimplifiedExchange.PlaceKeepsSideAbstracts | cpp/patterns_and_practics/order_book/SimplifiedExchange.hpp:152 | recording a new order keeps its side in step with the reference that gains it |
| SimplifiedExchange.PlaceKeepsOtherSideAbstracts | cpp/patterns_and_practics/order_book/UnitTests.cpp:413-416 | an order of one side leaves the other side in step |
| SimplifiedExchange.RemoveKeepsSideAbstracts | cpp/patterns_and_practics/order_book/SimplifiedExchange.hpp:162-170 | erasing an order, and its level once empty, keeps the side in step with the reference that loses it |
| SimplifiedExchange.RemoveUpdatesLevel | cpp/patterns_and_practics/order_book/SimplifiedExchange.hpp:162-170 | the order found in a level is the reference's order at that side and price, and the level left behind is its reference level without it |
| SimplifiedExchange.SideAbstractsAfterRemove | cpp/patterns_and_practics/order_book/UnitTests.cpp:426-440 | levels that agree with the reference after a removal at every price keep the side in step |
| SimplifiedExchange.RemoveKeepsOtherSideAbstracts | cpp/patterns_and_practics/order_book/UnitTests.cpp:436-440 | removing an order of one side leaves the other side in step |
| SimplifiedExchange.BestPriceRefines | cpp/patterns_and_practics/order_book/UnitTests.cpp:445-476 | the reported best prices and volumes are what the unit tests' reference computes from its multimaps: (0, 0) for an empty side |
| SimplifiedExchange.PlaceOrderRefines | cpp/patterns_and_practics/order_book/UnitTests.cpp:407-419 | PlaceOrder reports the outcome the reference predicts; on OK the book agrees with the reference plus the order |
| SimplifiedExchange.RemoveOrderRefines | cpp/patterns_and_practics/order_book/UnitTests.cpp:421-442 | RemoveOrder succeeds exactly when the reference holds the order there, and the book then agrees with the reference without it |
| ExchangeState.ExecuteCallback | cpp/patterns_and_practics/order_book/SimplifiedExchange.hpp:22-28 | an unset handler is skipped and a set one invoked once with its arguments; specified, as emitted by InsertOrder and DeleteOrder, by the EmitsOnce ensures of ExchangeSteps.InsertEvents and ExchangeSteps.DeleteEvents |
| ExchangeState.GetSide | cpp/patterns_and_practics/order_book/SimplifiedExchange.hpp:246-248 | an odd id is an ask and an even one a bid; ExchangeState.NextIdIsFresh proves that every id drawn for a side encodes that side |
| ExchangeState.NextId | cpp/patterns_and_practics/order_book/SimplifiedExchange.hpp:237-244 | the side's counter plus two, the value GetOrderId returns; specified by ExchangeState.NextIdIsFresh (the side's parity, not issued under the current counters, issued once the side's counter reaches it) and by Simplified.Exchange.GetOrderId |
| ExchangeState.NextIdIsFresh | cpp/patterns_and_practics/order_book/SimplifiedExchange.hpp:237-244 | the next id of a side encodes that side, is positive, has not been issued under the current counters of either side, and counts as issued once the side's counter is advanced to it; so no book and no metadata holds it, and ids are never reused |
| ExchangeState.MetaHeldAfterAdd | cpp/patterns_and_practics/order_book/SimplifiedExchange.hpp:204-208 | the metadata of an accepted order names where it rests |
| ExchangeState.HeldMetaAfterAdd | cpp/patterns_and_practics/order_book/SimplifiedExchange.hpp:204-208 | every resting order still has metadata after an order is accepted |
| ExchangeState.MetaHeldAfterRemove | cpp/patterns_and_practics/order_book/SimplifiedExchange.hpp:224-228 | after a removal, the remaining metadata still names where its orders rest |
| ExchangeState.HeldMetaAfterRemove | cpp/patterns_and_practics/order_book/SimplifiedExchange.hpp:224-228 | after a removal, every resting order still has metadata |
| ExchangeState.InsertKeepsValid | cpp/patterns_and_practics/order_book/SimplifiedExchange.hpp:194-214 | InsertOrder keeps the metadata in step with the books and the counters of the right parity |
| ExchangeState.DeleteKeepsValid | cpp/patterns_and_practics/order_book/SimplifiedExchange.hpp:216-234 | DeleteOrder of a live order succeeds and keeps the exchange consistent |
| ExchangeSteps.InsertEvents | cpp/patterns_and_practics/order_book/SimplifiedExchange.hpp:204-212 | OnOrderInserted fires once if set; OnBestPriceChanged then fires exactly when the order is accepted, the best price changed and the handler is set, with the book's new best prices |
| ExchangeSteps.InsertOrderStep | cpp/patterns_and_practics/order_book/SimplifiedExchange.hpp:194-214 | the side's counter advances by two and the other stays; the exchange stays consistent |
| ExchangeSteps.InsertOrderCases | cpp/patterns_and_practics/order_book/SimplifiedExchange.hpp:194-214 | the new id has the order's side and no metadata. An unknown symbol gives SymbolNotFound and no other change. Otherwise the symbol's book becomes the one the placement leaves, the book's outcome is reported, and the metadata records the symbol and price exactly on OK |
| ExchangeSteps.InsertHolds | cpp/patterns_and_practics/order_book/SimplifiedExchange.hpp:204-208 | the books the placement leaves hold exactly the old orders, plus the new order at the symbol, side and price when the book accepted it |
| ExchangeSteps.DeleteEvents | cpp/patterns_and_practics/order_book/SimplifiedExchange.hpp:224-232 | OnOrderDeleted fires once if set; OnBestPriceChanged then fires exactly when the removal succeeded at the best price and the handler is set |
| ExchangeSteps.DeleteOrderStep | cpp/patterns_and_practics/order_book/SimplifiedExchange.hpp:216-234 | the counters never change and the exchange stays consistent |
| ExchangeSteps.DeleteOrderCases | cpp/patterns_and_practics/order_book/SimplifiedExchange.hpp:216-234 | an id without metadata gives OrderNotFound and no other change. A live order's level exists in its book; the removal succeeds, replaces that book and erases the metadata, and its outcome is reported |
| ExchangeSteps.DeleteLiveEvents | cpp/patterns_and_practics/order_book/SimplifiedExchange.hpp:224-232 | a live order's deletion reports OK, and a best-price event exactly when its price was the side's best |
| ExchangeSteps.DeleteHolds | cpp/patterns_and_practics/order_book/SimplifiedExchange.hpp:224-228 | deleting a live order takes exactly that order out of the books |
| ExchangeSteps.DeleteTwiceNotFound | cpp/patterns_and_practics/order_book/SimplifiedExchange.hpp:217-221 | deleting an order a second time reports OrderNotFound and changes nothing |
| ExchangeSteps.InsertThenDeleteRestores | cpp/patterns_and_practics/order_book/SimplifiedExchange.hpp:194-234 | deleting an order right after it was accepted gives back the books and the metadata |
| Simplified.Exchange.constructor | cpp/patterns_and_practics/order_book/SimplifiedExchange.hpp:181-192 | an empty book for each of AAPL, MSFT and GOOG, no orders, counters 0 and 1 |
| Simplified.Exchange.GetOrderId | cpp/patterns_and_practics/order_book/SimplifiedExchange.hpp:237-244 | the side's counter advances by two and its new value is returned; it has the side's parity |
| Simplified.Exchange.InsertOrder | cpp/patterns_and_practics/order_book/SimplifiedExchange.hpp:194-214 | the fields become the state InsertOrderStep computes and the events are appended to the log |
| Simplified.Exchange.DeleteOrder | cpp/patterns_and_practics/order_book/SimplifiedExchange.hpp:216-234 | the fields become the state DeleteOrderStep computes and the events are appended to the log |
| BitReverse.Bytes16RoundTrip | cpp/patterns_and_practics/bit_reverse/bitreverse.cpp:110-111 | reading a 16-bit value as bytes and back gives the value |
| BitReverse.Bytes32RoundTrip | cpp/patterns_and_practics/bit_reverse/bitreverse.cpp:110-111 | the same for 32 bits |
| BitReverse.Bytes64RoundTrip | cpp/patterns_and_practics/bit_reverse/bitreverse.cpp:110-111 | the same for 64 bits |
| BitReverse.ByteSwap16 | cpp/patterns_and_practics/bit_reverse/bitreverse.cpp:7 | the two bytes trade places |
| BitReverse.ByteSwap32 | cpp/patterns_and_practics/bit_reverse/bitreverse.cpp:8 | the four bytes come in reverse order |
| BitReverse.ByteSwap64 | cpp/patterns_and_practics/bit_reverse/bitreverse.cpp:9 | the eight bytes come in reverse order |
| BitReverse.ShiftBitreverse8 | cpp/patterns_and_practics/bit_reverse/bitreverse.cpp:37-42 | the swap network on 8 bits: adjacent bits, then pairs, then nibbles; specified by BitReverse.ShiftBitreverse8MovesBits (bit i lands on bit 7 - i) |
| BitReverse.ShiftBitreverse16 | cpp/patterns_and_practics/bit_reverse/bitreverse.cpp:44-50 | the same network on 16 bits, ending with the byte swap; specified by BitReverse.ShiftBitreverse16MovesBits |
| BitReverse.ShiftBitreverse32 | cpp/patterns_and_practics/bit_reverse/bitreverse.cpp:52-59 | the same network on 32 bits; specified by BitReverse.ShiftBitreverse32MovesBits |
| BitReverse.ShiftBitreverse64 | cpp/patterns_and_practics/bit_reverse/bitreverse.cpp:61-69 | the same network on 64 bits; specified by BitReverse.ShiftBitreverse64MovesBits |
| BitReverse.ShiftBitreverse8MovesBits | cpp/patterns_and_practics/bit_reverse/bitreverse.cpp:37-42 | bit i of the input is bit 7 - i of the result |
| BitReverse.ShiftBitreverse16MovesBits | cpp/patterns_and_practics/bit_reverse/bitreverse.cpp:44-50 | bit i of the input is bit 15 - i of the result |
| BitReverse.ShiftBitreverse32MovesBits | cpp/patterns_and_practics/bit_reverse/bitreverse.cpp:52-59 | bit i of the input is bit 31 - i of the result |
| BitReverse.ShiftBitreverse64MovesBits | cpp/patterns_and_practics/bit_reverse/bitreverse.cpp:61-69 | bit i of the input is bit 63 - i of the result |
| BitReverse.ShiftBitreverse8Involution | cpp/patterns_and_practics/bit_reverse/bitreverse.cpp:37-42 | reversing twice gives back the value |
| BitReverse.ShiftBitreverse16Involution | cpp/patterns_and_practics/bit_reverse/bitreverse.cpp:44-50 | reversing twice gives back the value |
| BitReverse.ShiftBitreverse32Involution | cpp/patterns_and_practics/bit_reverse/bitreverse.cpp:52-59 | reversing twice gives back the value |
| BitReverse.ShiftBitreverse64Involution | cpp/patterns_and_practics/bit_reverse/bitreverse.cpp:61-69 | reversing twice gives back the value |
| BitReverse.BuiltinBitreverse16 | cpp/patterns_and_practics/bit_reverse/bitreverse.cpp:73 | `__builtin_bitreverse16` written bit by bit; specified by BitReverse.BuiltinBitreverse16AgreesWithShift |
| BitReverse.BuiltinBitreverse16AgreesWithShift | cpp/patterns_and_practics/bit_reverse/bitreverse.cpp:73 | the bit-by-bit reversal the builtin computes equals the shift network |
| BitReverse.BswapBitreverse16 | cpp/patterns_and_practics/bit_reverse/bitreverse.cpp:12-18 | the first three stages of the swap network, then `__builtin_bswap16`; specified by BitReverse.BswapBitreverse16AgreesWithShift |
| BitReverse.BswapBitreverse32 | cpp/patterns_and_practics/bit_reverse/bitreverse.cpp:20-26 | the same with `__builtin_bswap32`; specified by BitReverse.BswapBitreverse32AgreesWithShift |
| BitReverse.BswapBitreverse64 | cpp/patterns_and_practics/bit_reverse/bitreverse.cpp:28-34 | the same with `__builtin_bswap64`; specified by BitReverse.BswapBitreverse64AgreesWithShift |
| BitReverse.BswapBitreverse16AgreesWithShift | cpp/patterns_and_practics/bit_reverse/bitreverse.cpp:12-18 | the network finished by a byte swap equals the full shift network |
| BitReverse.BswapBitreverse32AgreesWithShift | cpp/patterns_and_practics/bit_reverse/bitreverse.cpp:20-26 | the same for 32 bits |
| BitReverse.BswapBitreverse64AgreesWithShift | cpp/patterns_and_practics/bit_reverse/bitreverse.cpp:28-34 | the same for 64 bits |
| BitReverse.ByteTableAt | cpp/patterns_and_practics/bit_reverse/bitreverse.cpp:84-101 | `byte_table[b]`, row b / 16 and column b % 16 of the table as written; specified by BitReverse.ByteTableReverses |
| BitReverse.ByteTableReverses | cpp/patterns_and_practics/bit_reverse/bitreverse.cpp:83-101 | every entry of the 256-entry table is the bit reversal of its index |
| BitReverse.ReverseByte | cpp/patterns_and_practics/bit_reverse/bitreverse.cpp:103-105 | the table lookup is the 8-bit reversal |
| BitReverse.LookupTableBitreverseBytes | cpp/patterns_and_practics/bit_reverse/bitreverse.cpp:107-117 | byte i of the result is the reversed byte at the mirrored position of the input |
| BitReverse.LookupTableBitreverse8 | cpp/patterns_and_practics/bit_reverse/bitreverse.cpp:107-117 | the table method on 8 bits equals the shift network |
| BitReverse.LookupTableBitreverse16 | cpp/patterns_and_practics/bit_reverse/bitreverse.cpp:107-117 | the table method on 16 bits equals the shift network |
| BitReverse.LookupTableBitreverse32 | cpp/patterns_and_practics/bit_reverse/bitreverse.cpp:107-117 | the table method on 32 bits equals the shift network |
| BitReverse.LookupTableBitreverse64 | cpp/patterns_and_practics/bit_reverse/bitreverse.cpp:107-117 | the table method on 64 bits equals the shift network |
| BitReverse.ReverseFourTimes | cpp/patterns_and_practics/bit_reverse/bitreverse.cpp:119-129 | reversing 199 four times, by the four methods, prints 199 again |
| MergeSort.Merge | cpp/practice/parallel_programming/merge_sort.cpp:21-31 | the merged output is as long as both inputs together |
| MergeSort.MergeSortOf | cpp/practice/parallel_programming/merge_sort.cpp:33-50 | the recursive sort that splits at half the distance keeps the length of its input |
| MergeSort.MergeIsPermutation | cpp/practice/parallel_programming/merge_sort.cpp:21-31 | merge_sorted writes exactly the elements of its two ranges |
| MergeSort.MergeIsSorted | cpp/practice/parallel_programming/merge_sort.cpp:21-31 | merging two sorted ranges gives a sorted range |
| MergeSort.MergeSortIsPermutation | cpp/practice/parallel_programming/merge_sort.cpp:33-50 | the sort leaves a permutation of its range |
| MergeSort.MergeSortIsSorted | cpp/practice/parallel_programming/merge_sort.cpp:33-50 | the sort leaves its range sorted |
| MergeSort.SortedUnique | cpp/practice/parallel_programming/merge_sort.cpp:33-50 | two sorted arrangements of the same elements are equal, so the sort's result is the sorted permutation of its input |
| MergeSort.MergeFrom | cpp/practice/parallel_programming/merge_sort.cpp:23-30 | the merge loop resumed at indices i and j, as long as what is left of both ranges; specified by MergeSort.MergeFromIsMerge |
| MergeSort.MergeFromIsMerge | cpp/practice/parallel_programming/merge_sort.cpp:23-30 | the merge loop's view of two ranges of one array equals the merge of the two slices |
| MergeSort.MergeLoop | cpp/practice/parallel_programming/merge_sort.cpp:23-30 | the loop writes to the output slice the merge of the two ranges, taking the left element exactly when it is smaller, and changes nothing else in the output |
| MergeSort.MergeSorted | cpp/practice/parallel_programming/merge_sort.cpp:21-31 | the output range receives the merge of the two input ranges and the rest of the output is untouched |
| MergeSort.Copy | cpp/practice/parallel_programming/merge_sort.cpp:48 | std::copy puts the source range at the destination and leaves the rest of the destination |
| MergeSort.MergeBack | cpp/practice/parallel_programming/merge_sort.cpp:47-48 | the range becomes the merge of its two halves, through the scratch buffer, and nothing outside the two ranges changes |
| MergeSort.SequentialMergeSortImpl | cpp/practice/parallel_programming/merge_sort.cpp:33-50 | the range becomes its merge sort, and nothing outside the range and its scratch range changes |
| MergeSort.SortHalves | cpp/practice/parallel_programming/merge_sort.cpp:42-45 | both halves become their merge sorts |
| MergeSort.SplitSort | cpp/practice/parallel_programming/merge_sort.cpp:41-47 | the sort of a range of more than one element is the merge of the sorts of its halves split at distance / 2 |
| MergeSort.MergeSortArray | cpp/practice/parallel_programming/merge_sort.cpp:52-57 | merge_sort with a scratch vector of the same length leaves the array as its merge sort |
| MergeSort.SortExample | cpp/practice/parallel_programming/merge_sort.cpp:61-69 | {2, 5, 2, 1, 9, 7} sorts to 1 2 2 5 7 9 |
| MergeSort.SortArrayExample | cpp/practice/parallel_programming/merge_sort.cpp:61-69 | the array the program sorts ends as 1 2 2 5 7 9 |
| BinaryHeap.GetParent | cpp/practice/other/binary_heap.cpp:15-20 | for position pos of at least 1 the parent is (pos - 1) / 2, below pos; position 0 wraps around in size_t to 2^63 - 1 |
| BinaryHeap.Swap | cpp/practice/other/binary_heap.cpp:37 | std::iter_swap of two positions exchanges those two elements and leaves every other |
| BinaryHeap.SwapWithParent | cpp/practice/other/binary_heap.cpp:34-38 | swapping an element no smaller than its parent moves the one break in the heap property up to the parent |
| BinaryHeap.SiftUp | cpp/practice/other/binary_heap.cpp:30-39 | the sift-up loop as a recursion on pos, keeping the length; specified by BinaryHeap.SiftUpKeepsHeap and BinaryHeap.SiftUpIsPermutation |
| BinaryHeap.Inserted | cpp/practice/other/binary_heap.cpp:22-40 | the vector insert leaves, one element longer; specified by BinaryHeap.InsertKeepsHeap |
| BinaryHeap.SiftUpKeepsHeap | cpp/practice/other/binary_heap.cpp:30-39 | the sift-up loop repairs a heap broken at one position |
| BinaryHeap.SiftUpIsPermutation | cpp/practice/other/binary_heap.cpp:30-39 | the sift-up loop only rearranges elements |
| BinaryHeap.SwapIsPermutation | cpp/practice/other/binary_heap.cpp:37 | a swap only rearranges the elements |
| BinaryHeap.InsertKeepsHeap | cpp/practice/other/binary_heap.cpp:22-40 | insert keeps a heap a heap and adds exactly the new element; on an empty heap it gives the one-element heap |
| BinaryHeap.HeapRootIsMax | cpp/practice/other/binary_heap.cpp:42-44 | no element of a heap exceeds its front |
| BinaryHeap.HeapRootIsMaxAll | cpp/practice/other/binary_heap.cpp:42-44 | on a non-empty heap every element is at most the front |
| BinaryHeap.Heap.constructor | cpp/practice/other/binary_heap.cpp:11 | a new heap is empty and valid |
| BinaryHeap.Heap.Insert | cpp/practice/other/binary_heap.cpp:22-40 | the vector becomes the element appended and sifted up; a heap stays a heap with one more element |
| BinaryHeap.Heap.GetMax | cpp/practice/other/binary_heap.cpp:42-44 | the front is returned, and on a heap no element exceeds it |
| BinaryHeap.InsertExample | cpp/practice/other/binary_heap.cpp:66-77 | inserting 1, 2, 5, 3 and 7 leaves 7 5 2 1 3 |
| BinaryHeap.HeapExample | cpp/practice/other/binary_heap.cpp:66-77 | the program prints 7 5 2 1 3 and max 7 |
| MultiPolicyCache.Without | cpp/practice/other/set_assotiative_multi_policy_cache.cpp:56 | erasing a key from the order removes it and nothing else; an absent key leaves the order as it was |
| MultiPolicyCache.WithoutDistinct | cpp/practice/other/set_assotiative_multi_policy_cache.cpp:56 | erasing a present key from an order without duplicates shortens it by one and keeps it free of duplicates |
| MultiPolicyCache.Evict | cpp/practice/other/set_assotiative_multi_policy_cache.cpp:12-32 | LRU pops the back of the order and MRU the front; the victim and the rest make up the old order |
| MultiPolicyCache.SetContents.Push | cpp/practice/other/set_assotiative_multi_policy_cache.cpp:50-71 | the key goes to the front of the order with the new value, and every other cached key keeps its value, in the program with the iterator refreshed after a hit (see Findings) |
| MultiPolicyCache.SetContents.Get | cpp/practice/other/set_assotiative_multi_policy_cache.cpp:73-83 | found exactly when the key is cached; then its value is returned and the key moves to the front; otherwise (false, 0) and no change, in the program with the iterator refreshed after a hit (see Findings) |
| MultiPolicyCache.EmptySet | cpp/practice/other/set_assotiative_multi_policy_cache.cpp:47-48 | an empty set is valid for every set size |
| MultiPolicyCache.OrderCoversCache | cpp/practice/other/set_assotiative_multi_policy_cache.cpp:47-48 | the order has one entry per cached key |
| MultiPolicyCache.PushKeepsValid | cpp/practice/other/set_assotiative_multi_policy_cache.cpp:50-71 | push keeps the order free of duplicates, in step with the cached keys, and within the set size |
| MultiPolicyCache.EvictKeepsValid | cpp/practice/other/set_assotiative_multi_policy_cache.cpp:61-70 | pushing a new key into a full set, through the eviction, keeps the set valid |
| MultiPolicyCache.PushPresent | cpp/practice/other/set_assotiative_multi_policy_cache.cpp:54-58 | pushing a cached key keeps the same keys and evicts nothing, in the program with the iterator refreshed after a hit (see Findings) |
| MultiPolicyCache.PushEvicts | cpp/practice/other/set_assotiative_multi_policy_cache.cpp:61-69 | pushing a new key into a full set evicts exactly the back (LRU) or the front (MRU) of the order |
| MultiPolicyCache.PushRoom | cpp/practice/other/set_assotiative_multi_policy_cache.cpp:67-70 | pushing a new key into a set with room adds it and evicts nothing |
| MultiPolicyCache.PushThenGet | cpp/practice/other/set_assotiative_multi_policy_cache.cpp:50-83 | a get right after a push finds the pushed value, in the program with the iterator refreshed after a hit (see Findings) |
| MultiPolicyCache.GetKeepsValid | cpp/practice/other/set_assotiative_multi_policy_cache.cpp:73-83 | get keeps a set valid and its cached values unchanged |
| MultiPolicyCache.EraseNode | cpp/practice/other/set_assotiative_multi_policy_cache.cpp:56 | `order.erase(it)`: every node but the one carrying the iterator's id stays |
| MultiPolicyCache.Hit | cpp/practice/other/set_assotiative_multi_policy_cache.cpp:56-57 | the shared hit step with nodes and iterators: defined exactly when the entry's iterator names a node still in the list; then the key's new node is in front, the same keys stay cached and one more id is allocated |
| MultiPolicyCache.EvictNode | cpp/practice/other/set_assotiative_multi_policy_cache.cpp:12-32 | erase_order on nodes: the victim's key and the remaining keys are those Evict gives, and the nodes are the victim and the rest |
| MultiPolicyCache.NodePush | cpp/practice/other/set_assotiative_multi_policy_cache.cpp:50-71 | push with nodes and iterators; a new key is always defined when the set has room or a node to evict |
| MultiPolicyCache.NodeGet | cpp/practice/other/set_assotiative_multi_policy_cache.cpp:73-83 | get with nodes and iterators; a missing key gives (false, 0) and no change |
| MultiPolicyCache.Abstract | cpp/practice/other/set_assotiative_multi_policy_cache.cpp:39-48 | a set's node keys, front to back, are SetContents's order and its entries' values are SetContents's table |
| MultiPolicyCache.HitLeavesIteratorStale | cpp/practice/other/set_assotiative_multi_policy_cache.cpp:73-79 | as written, a first hit on a key whose iterator is right is defined, but leaves that iterator naming a node no longer in the list, so the second get of the key is undefined |
| MultiPolicyCache.SecondGetUndefined | cpp/practice/other/set_assotiative_multi_policy_cache.cpp:50-79 | as written, push(k, 1), get(k), get(k) on an empty set: the push and the first get are defined and the second get is undefined |
| MultiPolicyCache.ThirdPushUndefined | cpp/practice/other/set_assotiative_multi_policy_cache.cpp:50-71 | as written, push(k, 1), push(k, 2), push(k, 3) on an empty set: the third push is undefined |
| MultiPolicyCache.CorrectedHitRefines | cpp/practice/other/set_assotiative_multi_policy_cache.cpp:56-57 | with the iterator refreshed after the hit, every iterator keeps naming its key's node, and the order becomes the key followed by the old order without it |
| MultiPolicyCache.CorrectedGetRefines | cpp/practice/other/set_assotiative_multi_policy_cache.cpp:73-83 | with the iterator refreshed, get is always defined, keeps every iterator on its node, and returns and leaves what SetContents.Get gives |
| MultiPolicyCache.CorrectedPushRefines | cpp/practice/other/set_assotiative_multi_policy_cache.cpp:50-71 | with the iterator refreshed, push is always defined, keeps every iterator on its node, and leaves what SetContents.Push gives |
| MultiPolicyCache.SetIndex | cpp/practice/other/set_assotiative_multi_policy_cache.cpp:89 | the set index is below the number of sets, and a key below it is its own index |
| MultiPolicyCache.CacheSet.PopVictim | cpp/practice/other/set_assotiative_multi_policy_cache.cpp:12-32 | the victim and the new order are those Evict gives for the set's policy |
| MultiPolicyCache.CacheSet.constructor | cpp/practice/other/set_assotiative_multi_policy_cache.cpp:47-48 | a new set of the given policy and size holds nothing |
| MultiPolicyCache.CacheSet.Push | cpp/practice/other/set_assotiative_multi_policy_cache.cpp:50-71 | the set's contents become SetContents.Push of the old ones and stay valid, in the program with the iterator refreshed after a hit (see Findings) |
| MultiPolicyCache.CacheSet.Get | cpp/practice/other/set_assotiative_multi_policy_cache.cpp:73-83 | the result and the new contents are those SetContents.Get gives, in the program with the iterator refreshed after a hit (see Findings) |
| MultiPolicyCache.SetAssociativeCache.constructor | cpp/practice/other/set_assotiative_multi_policy_cache.cpp:37 | CacheSize / SetSize empty sets of the given policy |
| MultiPolicyCache.SetAssociativeCache.Push | cpp/practice/other/set_assotiative_multi_policy_cache.cpp:88-90 | the key's set's contents become SetContents.Push of its old ones, no other set is touched, and the cache stays valid |
| MultiPolicyCache.SetAssociativeCache.Get | cpp/practice/other/set_assotiative_multi_policy_cache.cpp:92-94 | the get asks the key's set only |
| AddressCache.Offset | cpp/practice/other/set_assotiative_cache.cpp:59 | the offset is below 64 |
| AddressCache.SetOf | cpp/practice/other/set_assotiative_cache.cpp:32 | the set number is below set_num |
| AddressCache.TagOf | cpp/practice/other/set_assotiative_cache.cpp:35-36 | the tag is at least 1, so it never reads as an empty line |
| AddressCache.DecompositionIsLossless | cpp/practice/other/set_assotiative_cache.cpp:29-36 | two addresses with the same offset, set and tag are the same address |
| AddressCache.SetStart | cpp/practice/other/set_assotiative_cache.cpp:32 | the lines of the set lie within the cache |
| AddressCache.LineBits | cpp/practice/other/set_assotiative_cache.cpp:74 | the value find returns is below 8: the shifted line modulo 8, three bits rather than a byte |
| AddressCache.FirstFit | cpp/practice/other/set_assotiative_cache.cpp:38-50 | the first line of the set, from the given one on, that is empty or carries the tag; none if there is no such line |
| AddressCache.Lookup | cpp/practice/other/set_assotiative_cache.cpp:70-77 | the first line of the set, from the given one on, that carries the tag; none if there is no such line |
| AddressCache.ChosenLine | cpp/practice/other/set_assotiative_cache.cpp:38-55 | the line push_line writes lies within the set: the first fit, or rnd % lines_in_set when there is none |
| AddressCache.Place | cpp/practice/other/set_assotiative_cache.cpp:38-55 | placing a tag keeps the number of lines; PushWritesOneLine and PlaceThenLookup state which line changes and how |
| AddressCache.PushedAsWritten | cpp/practice/other/set_assotiative_cache.cpp:27-56 | push_line as written, storing the tag minus one on replacement; it keeps the number of lines, and ReplacedLineIsLost states what it loses |
| AddressCache.Pushed | cpp/practice/other/set_assotiative_cache.cpp:27-56 | push_line with the replaced line given the address's own tag; it keeps the number of lines, and PushThenFind states that it is found again |
| AddressCache.Found | cpp/practice/other/set_assotiative_cache.cpp:58-80 | find: a hit with the line's bits at the offset when a line of the set carries the tag, else (false, 0); specified by AddressCache.PushThenFind, AddressCache.FindSkipsEmptyLines and AddressCache.ReplacedLineIsLost |
| AddressCache.PushWritesOneLine | cpp/practice/other/set_assotiative_cache.cpp:38-55 | push_line changes one line of the address's set and no other line |
| AddressCache.PushPrefersFirstFit | cpp/practice/other/set_assotiative_cache.cpp:38-50 | when the set has an empty or matching line, the first such line receives the tag and the value |
| AddressCache.FindSkipsEmptyLines | cpp/practice/other/set_assotiative_cache.cpp:66-77 | find never reports an empty line as a hit |
| AddressCache.PushThenFind | cpp/practice/other/set_assotiative_cache.cpp:27-80 | with the corrected replacement tag, after a push every address of the pushed line is found, with the bits at its offset |
| AddressCache.PlaceThenLookup | cpp/practice/other/set_assotiative_cache.cpp:38-55 | the line placement chooses is the first line of the set the tag lookup finds afterwards |
| AddressCache.LookupFindsFirst | cpp/practice/other/set_assotiative_cache.cpp:70-77 | the lookup returns the first line carrying the tag |
| AddressCache.LookupMisses | cpp/practice/other/set_assotiative_cache.cpp:70-79 | a lookup in a set with no line carrying the tag misses |
| AddressCache.ReplacedLineIsLost | cpp/practice/other/set_assotiative_cache.cpp:52-55 | as written, a line pushed by random replacement is never found again |
| AddressCache.ReplacedLineLooksEmpty | cpp/practice/other/set_assotiative_cache.cpp:52-55 | as written, replacing into a full one-line set with address 0 leaves tag 0, a line that reads as empty, and find misses |
| AddressCache.SetAssociativeCache.constructor | cpp/practice/other/set_assotiative_cache.cpp:24 | all lines start empty |
| AddressCache.SetAssociativeCache.PushLine | cpp/practice/other/set_assotiative_cache.cpp:27-56 | the line array becomes what Pushed computes from the old one, with the corrected replacement tag |
| AddressCache.SetAssociativeCache.Find | cpp/practice/other/set_assotiative_cache.cpp:58-80 | the result is what Found computes from the lines, and nothing changes |
| LruList.Without | cpp/practice/other/lru_cache.cpp:69-75 | unlinking a key removes it from the order and nothing else |
| LruList.Referred | cpp/practice/other/lru_cache.cpp:49-92 | after refer the referred key is the most recently used |
| LruList.WithoutAt | cpp/practice/other/lru_cache.cpp:69-75 | unlinking the key at position j of an order without duplicates leaves the order around it |
| LruList.ReferKeepsDistinct | cpp/practice/other/lru_cache.cpp:49-92 | refer keeps the keys distinct and within max_size, with the referred key first |
| LruList.ReferKeys | cpp/practice/other/lru_cache.cpp:55-68 | a present key keeps the same keys. An absent key is added. When the cache is full, exactly the least recently used key is evicted |
| LruList.FollowNext | cpp/practice/other/lru_cache.cpp:96-98 | from a node that is not last, next leads to its successor in the order |
| LruList.EvictLast | cpp/practice/other/lru_cache.cpp:58-63 | dropping the last node and clearing its predecessor's next leaves the links of the shorter order, with the predecessor last |
| LruList.Joined | cpp/practice/other/lru_cache.cpp:71-72 | the links once the node's successor and predecessor skip it, with the same keys; specified by LruList.Unlink |
| LruList.Unlink | cpp/practice/other/lru_cache.cpp:70-73 | joining a present node's neighbours leaves the links of the order without it; last moves back if it was last |
| LruList.AddNode | cpp/practice/other/lru_cache.cpp:67-68 | a new unlinked node does not disturb the list |
| LruList.PushFront | cpp/practice/other/lru_cache.cpp:76-88 | linking a node in front of the old first gives the links of the longer order |
| LruList.DistinctKeys | cpp/practice/other/lru_cache.cpp:56 | the set's size equals the length of the order, so the fullness test on uset.size() is a test on the order |
| LruCache.Lru.constructor | cpp/practice/other/lru_cache.cpp:47 | an empty cache with the given maximum size |
| LruCache.Lru.Refer | cpp/practice/other/lru_cache.cpp:49-92 | the order of use becomes Referred of the old one, the links stay consistent, and the key is first |
| LruCache.Lru.EvictLeastRecent | cpp/practice/other/lru_cache.cpp:56-65 | the last node leaves both the set and the list |
| LruCache.Lru.UnlinkNode | cpp/practice/other/lru_cache.cpp:69-75 | the node of a present key leaves the list and stays in the set |
| LruCache.Lru.LinkFront | cpp/practice/other/lru_cache.cpp:76-88 | the node is linked in front, becomes first, and also last if it is alone |
| LruCache.Lru.Display | cpp/practice/other/lru_cache.cpp:94-101 | the keys display prints are the order of use, from the most to the least recently used |
| LruCache.FillExample | cpp/practice/other/lru_cache.cpp:106-111 | referring 1 to 5 fills a cache of five as 5 4 3 2 1 |
| LruCache.MoveAndEvictExample | cpp/practice/other/lru_cache.cpp:113-115 | referring 1 moves it to the front; referring 6 then evicts 2 |
| LruCache.LruExample | cpp/practice/other/lru_cache.cpp:105-118 | the program displays 6 1 5 4 3 |
| MatrixMultiply.Applicable | cpp/practice/parallel_programming/matrix_multiply.cpp:8-13 | check_multiply_applicability lets the program go on: rows of each matrix equal to the columns of the other; MatrixMultiply.SequentialMultiply fails exactly when it is false |
| MatrixMultiply.ApplicabilityIsSquareShaped | cpp/practice/parallel_programming/matrix_multiply.cpp:8-13 | the check refuses a 1 by 2 times a 2 by 3 matrix, whose product is defined |
| MatrixMultiply.Product | cpp/practice/parallel_programming/matrix_multiply.cpp:18-28 | Rows(m1) rows of Cols(m2) entries, entry (i, j) the sum over k below Cols(m1) of m1[i][k] * m2[k][j] |
| MatrixMultiply.Dot | cpp/practice/parallel_programming/matrix_multiply.cpp:24-26 | the innermost loop's sum of m1[i][k] * m2[k][j] over k below n; specified through MatrixMultiply.Product and MatrixMultiply.SequentialMultiply |
| MatrixMultiply.Identity | cpp/practice/parallel_programming/matrix_multiply.cpp:18-28 | the n by n identity matrix: 1 on the diagonal and 0 elsewhere |
| MatrixMultiply.IdentityIsNeutral | cpp/practice/parallel_programming/matrix_multiply.cpp:22-28 | multiplying a rectangular matrix by the identity on the right gives it back |
| MatrixMultiply.SequentialMultiply | cpp/practice/parallel_programming/matrix_multiply.cpp:8-31 | fails exactly when the applicability check fails. Otherwise a fresh Rows(m1) by Cols(m2) matrix is returned whose every entry is that of the product |
| MatrixMultiply.ProductExample | cpp/practice/parallel_programming/matrix_multiply.cpp:93-111 | the program's 3 by 4 and 4 by 3 matrices pass the check and multiply to 23 45 43 / 42 83 66 / 43 82 97 |
| MatrixMultiply.Chunks | cpp/practice/parallel_programming/matrix_multiply.cpp:42-53 | chunks has threads + 1 bounds, and bound c is c times the quotient plus the number of earlier chunks that got one of the remainder |
| MatrixMultiply.ChunkStart | cpp/practice/parallel_programming/matrix_multiply.cpp:42-53 | the closed form of bound c: c times the quotient plus the number of earlier chunks given one of the remainder; specified by MatrixMultiply.NextChunkStart and MatrixMultiply.ChunksPartition |
| MatrixMultiply.NextChunkStart | cpp/practice/parallel_programming/matrix_multiply.cpp:43-53 | each chunk holds the quotient, plus one exactly for the first elements % threads chunks |
| MatrixMultiply.Dealt | cpp/practice/parallel_programming/matrix_multiply.cpp:46-53 | the bounds as the loop deals them, one step at a time; specified by MatrixMultiply.DealtIsChunkStart |
| MatrixMultiply.DealtIsChunkStart | cpp/practice/parallel_programming/matrix_multiply.cpp:46-53 | the bounds the loop deals out one at a time, the quotient plus one while remainder lasts, are the closed-form chunk starts |
| MatrixMultiply.ChunkEnds | cpp/practice/parallel_programming/matrix_multiply.cpp:46-53 | chunks[0] is 0 and chunks[threads] is the number of elements |
| MatrixMultiply.ChunksAscend | cpp/practice/parallel_programming/matrix_multiply.cpp:47-53 | the bounds never decrease |
| MatrixMultiply.ChunkCovers | cpp/practice/parallel_programming/matrix_multiply.cpp:55-60 | every element below a bound lies in a chunk before it |
| MatrixMultiply.ChunkUnique | cpp/practice/parallel_programming/matrix_multiply.cpp:55-60 | no element lies in two chunks |
| MatrixMultiply.ChunksPartition | cpp/practice/parallel_programming/matrix_multiply.cpp:55-60 | the chunks partition the elements: each index below elements_num lies in exactly one chunk |
| MatrixMultiply.ChunksExample | cpp/practice/parallel_programming/matrix_multiply.cpp:42-53 | ten elements over four threads give bounds 0 3 6 8 10 |
| Mixin.Number.Get | cpp/patterns_and_practics/static_polymorphism/mixin.cpp:8 | returns n; specified by Mixin.NumberRoundTrip and Mixin.MixinExample |
| Mixin.UndoableNumber.Get | cpp/patterns_and_practics/static_polymorphism/mixin.cpp:8 | returns n, the inherited get; specified by Mixin.UndoRestores |
| Mixin.ReUndoableNumber.Get | cpp/patterns_and_practics/static_polymorphism/mixin.cpp:8 | returns n, the inherited get; specified by Mixin.RedoRestores and Mixin.MixinExample |
| Mixin.Number.Set | cpp/patterns_and_practics/static_polymorphism/mixin.cpp:7 | the number becomes the value |
| Mixin.UndoableNumber.Set | cpp/patterns_and_practics/static_polymorphism/mixin.cpp:16 | the current value is saved in before, then the number becomes the value |
| Mixin.UndoableNumber.Undo | cpp/patterns_and_practics/static_polymorphism/mixin.cpp:17 | the number goes back to before, which is kept |
| Mixin.ReUndoableNumber.Set | cpp/patterns_and_practics/static_polymorphism/mixin.cpp:25 | after records the value, then Undoable's set saves the current value in before and sets the value |
| Mixin.ReUndoableNumber.UndoableSet | cpp/patterns_and_practics/static_polymorphism/mixin.cpp:16 | Undoable's set inside the composed type: before takes the current value, after is kept |
| Mixin.ReUndoableNumber.Undo | cpp/patterns_and_practics/static_polymorphism/mixin.cpp:17 | the number goes back to before; before and after are kept |
| Mixin.ReUndoableNumber.Redo | cpp/patterns_and_practics/static_polymorphism/mixin.cpp:26 | Undoable's set with after: the number becomes after and before takes the value redo replaced |
| Mixin.NumberRoundTrip | cpp/patterns_and_practics/static_polymorphism/mixin.cpp:7-8 | get after set returns the value set |
| Mixin.UndoRestores | cpp/patterns_and_practics/static_polymorphism/mixin.cpp:16-17 | undo after a set restores the value it replaced, and a second undo keeps it: one level of undo |
| Mixin.RedoRestores | cpp/patterns_and_practics/static_polymorphism/mixin.cpp:16-29 | redo after undo brings the undone value back, and an undo after it returns to the value redo replaced |
| Mixin.MixinExample | cpp/patterns_and_practics/static_polymorphism/mixin.cpp:31-40 | set 42 and 84 reads 84, undo reads 42, redo reads 84 again |

## Left out

- The output statements of every program (`std::cout`, `print`, `print_matrix`, the debug lines of `refer`, the `-- replace` line of the cache) are not modelled. `main` functions appear only as example lemmas and methods.
- `std::rand` in `push_line` is a parameter `rnd` of the operation; any value is allowed.
- Threads are not modelled. That covers `std::thread::hardware_concurrency`, the workers and `thread_body` of `parallel_matrixes_multiplication`. Only its chunk bounds are modelled; `thread_body` computes row and column from `result_matrix.size()` for both and is not a model of anything here.
- Integer overflow of `int` products and sums in the matrix multiplication is not modelled: entries are mathematical integers.
- The order book's handlers are `std::function` objects. They are modelled as flags that say whether each is set, plus an event log. The concrete handlers and the fixture bookkeeping of the unit tests are not modelled.
- The `operator<<` overloads for the error enums are output formatting. They are not modelled: `OrderNotFound` prints "OK", and `InvalidPrice` reaches the throwing default.
- SimplifiedExchange.OrderBook.RemoveOrder: requires the price to be in the side's set. `IsBestPrice` dereferences `begin()` of a possibly empty set, and `operator[]` creates a level for an absent price. Neither can happen for an order the exchange's metadata finds.
- Simplified.Exchange.DeleteOrder: the model reads the order's symbol and price before it erases the metadata. The source erases `OrderMetaInfo`'s entry and then goes on to use the reference to it.
- Simplified.Exchange.InsertOrder: requires the side's next id to fit in a signed 32-bit int. The counters step by two in `int`, although the comment speaks of 2^63 orders.
- The order book is modelled by value: a level or a book operation returns the new value, which the exchange stores. The C++ objects are held by value in their maps, so no aliasing is lost.
- The builtins `__builtin_bitreverse8/32/64` and `__builtin_bswap*` are not modelled. The byte swaps are written out as functions whose contract says what the builtin computes. Only the 16-bit bit-reversal builtin is written out bit by bit.
- BinaryHeap.Heap.Insert: requires the vector to stay below 2^64 elements, the size_t bound.
- Elements of the merge sort and the heap are `int` with `std::less`; other element types and comparators are not modelled.
- LruCache.Lru.Refer: requires max_size of at least 2 and the key not already first. With one slot, eviction erases the only node but leaves `first` pointing at it, so the new node is linked to a freed node. Referring the first key again links its node to itself. The debug lines at lru_cache.cpp:57 and lru_cache.cpp:64 also read `last->prev->data` unguarded: line 57 reads a null `prev` with one slot, and line 64, after the eviction, with two slots. They are output and are left out with the rest of it.
- LruCache.Lru.Display: requires a non-empty cache, since it reads `last->data`.
- The LRU cache identifies a node by its key, and the unordered set is a map from key to links. The ghost order is the list the links form; hashing and the heterogeneous lookup are not modelled.
- MatrixMultiply.SequentialMultiply: requires both matrices to have a first row and no row shorter than the first, since the code reads `front()` and indexes up to its size.
- MatrixMultiply.Chunks: requires at least one thread, since the code divides by the thread count.
- The multi-policy cache's keys are natural numbers: `key % set_num` on an unsigned key. Values are integers, and a missing value reads as 0, `Value{}`.
- The multi-policy cache's node ids stand for the addresses of list nodes. An erased node's id is never allocated again, so a dangling iterator never finds a new node that happens to reuse the freed memory.
- The multi-policy cache's comments do not match its code, and the model follows the code. The comment at line 37 says there are 8 sets by default, but 16 / 4 is 4. The comment at line 121 expects 256 keys found, but the cache holds at most 16 entries.
- PushPresent: is proved of SetContents, which refreshes the entry's iterator after every hit. As written, a push of the same key after a hit erases through a dangling iterator (ThirdPushUndefined), so the source promises this only for the first hit after an insertion.
- PushThenGet: is proved of SetContents. As written, when the push was itself a second hit on the key, it is already undefined, and when it was a first hit, the following get is the second hit, so the get is undefined too (HitLeavesIteratorStale).
- SetContents.Push: describes the program with the iterator refreshed after a hit. The code as written is NodePush without refresh: see "## Findings".
- SetContents.Get: describes the program with the iterator refreshed after a hit. The code as written is NodeGet without refresh: see "## Findings".
- CacheSet.Push: follows SetContents.Push, so it also describes the program with the iterator refreshed.
- CacheSet.Get: follows SetContents.Get, so it also describes the program with the iterator refreshed.

## Findings

| source | as written | input that shows it | evidently intended | confidence | as-written member | corrected member |
|---|---|---|---|---|---|---|
| cpp/practice/other/set_assotiative_cache.cpp:54 | random replacement stores `addr`, the tag minus one, as the new line's tag, so `find`, which looks for `addr + 1`, never finds the line again; for tag 1 it writes 0, which marks the line empty | one line per set, line holding tag 5, `push_line(0, 7)`: the line becomes tag 0 and `find(0)` misses | store `tag`, as the two other branches do | high (not executed) | AddressCache.PushedAsWritten, AddressCache.ReplacedLineIsLost, AddressCache.ReplacedLineLooksEmpty | AddressCache.Pushed, AddressCache.PushThenFind, AddressCache.SetAssociativeCache.PushLine |
| cpp/practice/other/set_assotiative_multi_policy_cache.cpp:56-57 | a hit erases the node the entry's `order_it` names and puts a new node in front, but does not point `order_it` at it; the same happens in `get` (lines 76-77). Only the insertion (line 70) sets `order_it`, so after one hit the iterator names a freed node | `push(k, 1); get(k); get(k)`: the second get erases through the dangling iterator, which is undefined behaviour; so does `push(k, 1); push(k, 2); push(k, 3)`. `main` gets each key once and never reaches it | `entry->second.order_it = std::begin(order);` after each `emplace_front`, as line 70 does | high (not executed) | MultiPolicyCache.NodePush, MultiPolicyCache.NodeGet, MultiPolicyCache.HitLeavesIteratorStale, MultiPolicyCache.SecondGetUndefined, MultiPolicyCache.ThirdPushUndefined | MultiPolicyCache.CorrectedGetRefines, MultiPolicyCache.CorrectedPushRefines, MultiPolicyCache.SetContents.Push, MultiPolicyCache.SetContents.Get |
