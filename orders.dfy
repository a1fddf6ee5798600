/** Orders, execution reports and the price orderings the book relies on. */
module Orders {

  datatype Side = Buy | Sell

  /** The three order types the book dispatches on; a stop order takes the limit path. */
  datatype OrderType = Market | Limit | Stop

  /** An order as the book reads and writes it. `quantity` is the remaining
      (unfilled) quantity; `price` is ignored for market orders. */
  datatype Order = Order(id: int, symbol: string, side: Side, kind: OrderType, price: int, quantity: nat)

  datatype Status = Filled | PartialFill

  /** One execution report; every fill produces one for the taker and one for the maker. */
  datatype Report = Report(orderId: int, symbol: string, side: Side, filledQty: nat, price: int, status: Status)

  /** Price `p` is strictly better than price `q` for a resting order on `side`:
      higher for bids, lower for asks. */
  predicate Better(side: Side, p: int, q: int) {
    match side
    case Buy => p > q
    case Sell => p < q
  }

  /** The incoming order's limit accepts the resting order's price: a buy takes
      asks at or below its limit, a sell takes bids at or above its limit. */
  predicate Compatible(taker: Order, maker: Order) {
    match taker.side
    case Buy => maker.price <= taker.price
    case Sell => maker.price >= taker.price
  }

  /** Price priority along one side: no order is strictly better than one ahead of it. */
  ghost predicate Sorted(side: Side, book: seq<Order>) {
    forall i, j :: 0 <= i < j < |book| ==> !Better(side, book[j].price, book[i].price)
  }

  /** The invariant of one side of the book: sorted by price priority, every
      order belongs to that side, is not a market order and still has quantity. */
  ghost predicate SideOk(side: Side, book: seq<Order>) {
    Sorted(side, book) &&
    forall i :: 0 <= i < |book| ==> book[i].side == side && book[i].kind != Market && book[i].quantity > 0
  }

  /** Total remaining quantity resting in `book`. */
  function SumQty(book: seq<Order>): nat {
    if book == [] then 0 else book[0].quantity + SumQty(book[1..])
  }

  function StatusOf(done: bool): Status {
    if done then Filled else PartialFill
  }

  /** The report for order `o` in one fill of `qty` units at `price`. */
  function ReportFor(o: Order, qty: nat, price: int, status: Status): Report {
    Report(o.id, o.symbol, o.side, qty, price, status)
  }
}
