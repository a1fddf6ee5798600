# Price-time priority limit order book

A Dafny model of the `LimitOrderBook` class of `order_book.py`. The book holds
the resting orders of one symbol on two sides. Bids are kept best (highest)
price first, asks best (lowest) price first. It accepts one incoming order at
a time and returns its execution reports, one taker report and then one maker
report per fill:

- A **market** order trades against the full depth of the opposite side.
  Whatever it cannot fill is dropped; it never rests.
- A **limit** order trades while the best opposite price is within its limit.
  Equal prices trade. Its remainder rests on its own side, behind every order
  at the same or a better price.
- A **stop** order is handled exactly like a limit order. There is no trigger
  price.

Every fill trades the smaller of the two remaining quantities, at the resting
(maker) order's price. A maker whose quantity reaches zero leaves the head of
its side in the same step.

The market-taker status rule is reproduced as written. A market taker's report
says `Filled` when nothing is left of the taker. It also says `Filled` when the
fill empties the last resting order, even though quantity is still unfilled.
`Scenarios.MarketTakesLastAsk` shows a buy of 100 against one ask of 30: it is
reported `Filled` and the remaining 70 units are dropped. Every other status
in the book is `Filled` exactly when the order's own remainder is zero.

Layout:

- `orders.dfy` (module `Orders`): orders, execution reports, the price
  orderings, and the invariant of one side.
- `matching.dfy` (module `Matching`): one matching pass as a recursive
  function `Match`, with the properties of its fills, reports and the side it
  leaves.
- `resting.dfy` (module `Resting`): the resting index, insertion, and the
  index scan as a method with loops.
- `order_book.dfy` (module `OrderBook`): the whole `add_order` step on a book
  with sorted sides as a function `Submit`, with its invariants. It also holds
  the class `LimitOrderBook`, whose methods update `bids` and `asks` in place and are
  proved equal to `Submit`, `Match` and `Inserted`.
- `scenarios.dfy` (module `Scenarios`): worked examples on small books.

The book's invariant is `OrderBook.WellFormed`:

- both sides are sorted by price priority;
- every resting order is on its own side, is not a market order, and has
  positive quantity;
- the best bid is strictly below the best ask.

`order_book.py` does not validate orders: it has no check for a non-positive
quantity or a missing price. The model accepts every order its types allow:
any non-negative quantity (`nat`), any integer price and every order type. A
limit order with quantity 0 makes no fill and does not rest. The types do
exclude two inputs the code accepts, a missing price and a negative quantity;
see "Left out".

`OrderBook.Submit` is the `add_order` step as a function of the two sides. It
places a resting remainder at `Resting.RestingIndex`. That is where the code's
index scan stops when the own side is sorted, which `WellFormed` guarantees and
`Resting.InsertionIndex` proves. On an unsorted side the scan can stop earlier,
so `Submit` describes `add_order` only on books whose own side is sorted. Every
book the class can reach is such a book.

## Model

| member | source | states |
|---|---|---|
| Orders.Compatible | order_book.py:57-62 | the two break tests, negated: a buy accepts asks at or below its limit, a sell bids at or above it, equal prices included; no contract of its own, stated by `Matching.MatchStops` and `Matching.MatchFillAt` |
| Matching.FillQty | order_book.py:64-65 | the fill quantity is at most both remaining quantities and equals one of them, i.e. it is their minimum |
| Matching.AfterFill | order_book.py:92-97 | the decrement of the head maker by the fill and its `pop(0)` when nothing is left (lines 116-117 and 142-143 in the market loop); no contract of its own, stated by `Matching.AfterFillSum`, `Matching.MatchConsumes` and `Matching.LastMakerRemainder` |
| Matching.HeadFill | order_book.py:64-140 | the taker and the maker report of one fill, with the fill quantity, the maker's price, and both status rules including the market rule of line 120; no contract of its own, stated by `Matching.MatchFillAt`, `Matching.MakerStatusAt` and `Matching.TakerStatusAt` |
| Matching.Match | order_book.py:55-97 | a pass makes at most one fill per resting order; it makes none exactly when the taker is empty, the side is empty, or the head is not eligible (limit taker: not compatible), and then changes nothing; the taker only loses quantity and keeps all its other fields |
| Matching.Reports | order_book.py:69-89 | a pass returns two reports per fill |
| Matching.ReportsPairs | order_book.py:69-89 | report 2i is the taker's report of fill i and report 2i+1 the maker's: taker-then-maker pairs |
| Matching.ReportsAppend | order_book.py:70-140 | each loop iteration appends exactly its taker report and then its maker report |
| Matching.MatchStep | order_book.py:91-97 | one loop iteration (record the fill, decrement both quantities, pop a maker that reached zero) leaves unchanged what the loop returns |
| Matching.MatchRest | order_book.py:95-97 | when a pass fills more than once, the first maker was taken whole and popped, and the pass goes on over the rest of the side |
| Matching.MatchConsumes | order_book.py:95-97 | matching only removes makers from the head of the side, in order; at most the last maker touched stays at the head, with less but positive quantity and nothing else changed |
| Matching.LastMakerRemainder | order_book.py:91-97 | when the last maker touched stays at the head, its remaining quantity is what it had less exactly its fill |
| Matching.MatchFillAt | order_book.py:64-89 | fill i is between the taker and the i-th resting order; both reports carry the right id, symbol and side, the same quantity (positive against a positive maker), and the maker's price; a limit taker only fills against compatible prices |
| Matching.MakerStatusAt | order_book.py:80-89 | a maker's fill never exceeds its remaining quantity, and its report is Filled exactly when the fill took all of it |
| Matching.MakersLeave | order_book.py:91-97 | every maker before the last one filled is Filled; the last one is Filled exactly when it left the side |
| Matching.TakerStatusAt | order_book.py:119-129 | only the last taker report can be Filled; it is Filled exactly when the taker has nothing left, or, for a market taker, when the opposite side is now empty |
| Matching.MatchStops | order_book.py:55-62 | matching stops only when the taker is filled, the side is empty, or (limit taker) the head is incompatible: a buy stops at an ask above its limit, a sell at a bid below it |
| Matching.MatchConserves | order_book.py:91-93 | the taker reports and the maker reports each add up to what the taker lost |
| Matching.MatchConservesSide | order_book.py:92-97 | the opposite side loses exactly the quantity the taker gained |
| Matching.AfterFillSum | order_book.py:93-97 | a single fill takes exactly its quantity off the side's total |
| Resting.RestingIndex | order_book.py:154-177 | the resting index is within the side, every order before it is at the same or a better price, and the order at it is strictly worse |
| Resting.Inserted | order_book.py:179-180 | insertion adds exactly the one order: the side grows by one and its multiset gains that order |
| Resting.InsertedPosition | order_book.py:147-180 | on a sorted side the new order sits at the resting index; orders at the same or a better price keep their positions in front of it, and strictly worse ones shift back by one behind it |
| Resting.InsertedFifo | order_book.py:163-176 | every order already resting at the new order's price stays in front of it and in its place (FIFO at one price) |
| Resting.InsertedKeepsSide | order_book.py:147-180 | insertion keeps a side sorted, with only its own side's non-market orders of positive quantity |
| Resting.InsertionIndex | order_book.py:156-177 | the scan never passes an order at a worse price, and on a sorted side it returns exactly the resting index |
| OrderBook.Submit | order_book.py:18-42 | the `add_order` step on a book with a sorted own side: the pass of `Match` (limit pass, or market pass for a market order), then the remainder of a limit or stop order rested with `Inserted`; no contract of its own, stated by `OrderBook.SubmitKeepsWellFormed`, `OrderBook.MarketNeverRests`, `OrderBook.RemainderRests`, and equal to `OrderBook.LimitOrderBook.AddOrder` |
| OrderBook.NoCrossAnywhere | order_book.py:55-62 | on a well-formed book every bid is strictly below every ask |
| OrderBook.SubmitKeepsWellFormed | order_book.py:18-42 | adding any order to a well-formed book leaves it well formed: sorted sides, positive resting quantities, no resting market order, not crossed |
| OrderBook.MarketNeverRests | order_book.py:25-26 | a market order leaves its own side untouched and only consumes the opposite side from the head; it either fills completely or takes the whole side; against an empty side it returns no reports and changes nothing |
| OrderBook.RemainderRests | order_book.py:28-40 | a limit or stop order's own side gains exactly its remainder at the resting index when quantity is left, and is unchanged otherwise; its opposite side is consumed from the head, and matching stopped at an incompatible head or an empty side |
| OrderBook.LimitOrderBook.constructor | order_book.py:11-16 | a new book has the given symbol and two empty sides, and is well formed |
| OrderBook.LimitOrderBook.AddOrder | order_book.py:18-42 | dispatches on the order type; the reports, the returned order and the new sides are those of `Submit`, and the book stays well formed |
| OrderBook.LimitOrderBook.MatchLimit | order_book.py:44-99 | the loop returns the reports and remaining taker of the limit pass `Match`, and leaves the opposite side as `Match` does; the own side is unchanged |
| OrderBook.LimitOrderBook.ExecuteMarket | order_book.py:101-145 | the loop, which decrements before building the reports, returns the reports and remaining taker of the market pass `Match`, and leaves the sides as `Match` does |
| OrderBook.LimitOrderBook.InsertResting | order_book.py:147-180 | the own side becomes `Inserted` of the order, and the other side is unchanged |
| Scenarios.LimitOnEmptyBookRests | order_book.py:28-33 | a buy limit order of 100 at 10 on an empty book makes no reports and rests as the only bid |
| Scenarios.SellCrossesRestingBid | order_book.py:64-97 | a sell limit of 50 at 9 against a bid of 100 at 10 trades 50 at 10; the sell is Filled, the bid PartialFill, and 50 of the bid stays |
| Scenarios.MarketOnEmptySideVanishes | order_book.py:101-109 | a market buy against an empty ask side makes no reports and changes nothing |
| Scenarios.MarketTakesLastAsk | order_book.py:115-143 | a market buy of 100 against one ask of 30 trades 30 at 20, both reports Filled, 70 left unfilled and dropped, both sides empty |
| Scenarios.SamePriceInArrivalOrder | order_book.py:55-97 | a buy of 15 at 15 against two asks of 10 at 15 takes the first whole and then 5 of the second, which stays |

## Left out

- Timestamps: each report's timestamp comes from the wall clock (`datetime.now`), so the `Report` record has no timestamp field.
- Reports are records (`Report`), not string-keyed dictionaries, and statuses are the two constructors `Filled` and `PartialFill`.
- `order.py` is not part of this model. `Order` holds only the fields the book reads and writes: id, symbol, side, type, price and remaining quantity.
- Order types are the closed set `Market`, `Limit` and `Stop`. `Stop` stands for the code's fall-through branch, which any type string other than "market" and "limit" reaches. There are no stop-trigger semantics, because the code has none.
- Sides are the closed set `Buy` and `Sell`. A side string other than "buy" or "sell" is not modelled.
- Input validation: a limit or stop order always carries a price (`price: int`) and quantities are never negative (`nat`). In the code a missing price raises a TypeError in the comparisons at order_book.py:58, 61, 160 and 170 against a non-empty side, and rests unpriced on an empty one. A negative quantity behaves like 0. Neither case is modelled.
- `OrderBook.Submit` places a remainder at the resting index, which is where the code's scan stops only on a sorted own side. On an unsorted side the scan can stop earlier. Unsorted sides cannot arise from the constructor, and `OrderBook.LimitOrderBook.InsertResting` requires a sorted side.
- Prices are integers rather than floats, and quantities are `nat`. No rounding is modelled.
- Aliasing is not modelled. In the code the caller's order object and the resting `best` object are mutated in place, and a resting remainder is the caller's object itself. The model passes orders by value: `AddOrder` returns the updated incoming order, and the book rebuilds the head of a side instead of mutating it.
- In the code `opposite` aliases `self.asks` or `self.bids`, so every `pop(0)` changes the field at once. The class methods work on a local copy and assign it back after the loop. The final state is the same; the intermediate states cannot be observed without concurrency.
- Concurrency and thread safety: the code has none.
- `streamlit_app.py` is not part of this model. It is a dashboard, with charting and floating-point analytics.
