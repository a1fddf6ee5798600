/** The limit order book of one symbol: two sides of resting orders, the
    dispatch of an incoming order by its type, and the class that holds the
    sides and updates them in place. */
module OrderBook {
  import opened Orders
  import opened Matching
  import opened Resting

  /** The two sides: bids best (highest) price first, asks best (lowest) price first. */
  datatype Sides = Sides(bids: seq<Order>, asks: seq<Order>)

  /** The best bid is strictly below the best ask whenever both exist. */
  ghost predicate NotCrossed(b: Sides) {
    b.bids == [] || b.asks == [] || b.bids[0].price < b.asks[0].price
  }

  /** The book's invariant. */
  ghost predicate WellFormed(b: Sides) {
    SideOk(Buy, b.bids) && SideOk(Sell, b.asks) && NotCrossed(b)
  }

  /** The side an order of `side` rests on, and the side it trades against. */
  function Own(b: Sides, side: Side): seq<Order> {
    if side == Buy then b.bids else b.asks
  }

  function Opposite(b: Sides, side: Side): seq<Order> {
    if side == Buy then b.asks else b.bids
  }

  function WithOwn(b: Sides, side: Side, s: seq<Order>): Sides {
    if side == Buy then b.(bids := s) else b.(asks := s)
  }

  function WithOpposite(b: Sides, side: Side, s: seq<Order>): Sides {
    if side == Buy then b.(asks := s) else b.(bids := s)
  }

  /** What adding one order produces: its fills, the order with its remaining
      quantity, and the two sides afterwards. */
  datatype Submission = Submission(fills: seq<Fill>, taker: Order, book: Sides)

  /** Adding `order` to the book `b`. A market order matches the full depth of
      the opposite side and never rests; a limit or stop order matches while
      prices are compatible and its remainder, if any, rests on its own side. */
  function Submit(b: Sides, order: Order): Submission {
    var out := Match(order, Opposite(b, order.side), order.kind == Market);
    var after := WithOpposite(b, order.side, out.opposite);
    if order.kind != Market && out.taker.quantity > 0 then
      Submission(out.fills, out.taker, WithOwn(after, order.side, Inserted(Own(after, order.side), out.taker)))
    else
      Submission(out.fills, out.taker, after)
  }

  /** On a well-formed book every bid is strictly below every ask. */
  lemma NoCrossAnywhere(b: Sides, i: nat, j: nat)
    requires WellFormed(b) && i < |b.bids| && j < |b.asks|
    ensures b.bids[i].price < b.asks[j].price
  {
    assert b.bids[i].price <= b.bids[0].price;
    assert b.asks[0].price <= b.asks[j].price;
  }

  /** What matching leaves of a side still satisfies the side's invariant, and
      its best price is no better than before. */
  lemma ConsumedKeepsSide(rest: seq<Order>, s: seq<Order>, n: nat, side: Side)
    requires Consumed(rest, s, n) && SideOk(side, s)
    ensures SideOk(side, rest)
    ensures rest != [] ==> s != [] && !Better(side, rest[0].price, s[0].price)
  {
    if rest != s[n..] {
      forall j | 1 <= j < |rest|
        ensures rest[j] == s[n - 1 + j]
      {
        assert rest[j] == rest[1..][j - 1];
      }
    }
  }

  /** Adding any order to a well-formed book leaves it well formed: both sides
      sorted, only positive quantities resting, no market order resting, and
      the book not crossed. */
  lemma SubmitKeepsWellFormed(b: Sides, order: Order)
    requires WellFormed(b)
    ensures WellFormed(Submit(b, order).book)
  {
    var side := order.side;
    var other := if side == Buy then Sell else Buy;
    var out := Match(order, Opposite(b, side), order.kind == Market);
    var after := WithOpposite(b, side, out.opposite);
    MatchConsumes(order, Opposite(b, side), order.kind == Market);
    ConsumedKeepsSide(out.opposite, Opposite(b, side), |out.fills|, other);
    assert WellFormed(after);
    if order.kind != Market && out.taker.quantity > 0 {
      var own := Inserted(Own(after, side), out.taker);
      InsertedKeepsSide(Own(after, side), out.taker);
      MatchStops(order, Opposite(b, side), false);
      var k := RestingIndex(side, Own(b, side), out.taker.price);
      InsertedPosition(Own(b, side), out.taker);
      assert own[0] == (if k == 0 then out.taker else Own(b, side)[0]);
    }
  }

  /** A market order never rests: its own side is untouched, the opposite side
      only loses quantity, from the head, and whatever it could not fill is
      dropped because it took the whole opposite side. Against an empty side it
      produces nothing and changes nothing. */
  lemma MarketNeverRests(b: Sides, order: Order)
    requires order.kind == Market
    ensures var r := Submit(b, order);
      Own(r.book, order.side) == Own(b, order.side) &&
      Consumed(Opposite(r.book, order.side), Opposite(b, order.side), |r.fills|) &&
      (r.taker.quantity == 0 || Opposite(r.book, order.side) == []) &&
      (Opposite(b, order.side) == [] ==> r == Submission([], order, b))
  {
    MatchConsumes(order, Opposite(b, order.side), true);
    MatchStops(order, Opposite(b, order.side), true);
  }

  /** A limit or stop order rests exactly when quantity is left after matching,
      at its resting index on its own side; its opposite side only loses
      quantity, from the head, and matching stopped at an incompatible head. */
  lemma RemainderRests(b: Sides, order: Order)
    requires order.kind != Market
    ensures var r := Submit(b, order);
      Own(r.book, order.side) ==
        (if r.taker.quantity > 0 then Inserted(Own(b, order.side), r.taker) else Own(b, order.side)) &&
      Consumed(Opposite(r.book, order.side), Opposite(b, order.side), |r.fills|) &&
      (r.taker.quantity > 0 ==>
        Opposite(r.book, order.side) == [] || !Compatible(order, Opposite(r.book, order.side)[0]))
  {
    MatchConsumes(order, Opposite(b, order.side), false);
    MatchStops(order, Opposite(b, order.side), false);
  }

  /** The limit order book of one symbol. */
  class LimitOrderBook {
    const symbol: string
    var bids: seq<Order>
    var asks: seq<Order>

    ghost function State(): Sides
      reads this
    {
      Sides(bids, asks)
    }

    ghost predicate Valid()
      reads this
    {
      WellFormed(State())
    }

    /** An empty book for `symbol`. */
    constructor (symbol: string)
      ensures this.symbol == symbol && State() == Sides([], []) && Valid()
    {
      this.symbol := symbol;
      bids := [];
      asks := [];
    }

    /** Handles one incoming order and returns its execution reports: taker
        then maker for every fill. `taker` is the order as the caller sees it
        afterwards, with its remaining quantity. */
    method AddOrder(order: Order) returns (reports: seq<Report>, taker: Order)
      requires Valid()
      modifies this
      ensures Valid()
      ensures var r := Submit(old(State()), order);
        reports == Reports(r.fills) && taker == r.taker && State() == r.book
    {
      ghost var before := State();
      ghost var fills: seq<Fill>;
      match order.kind {
        case Market =>
          reports, taker, fills := ExecuteMarket(order);
        case Limit =>
          reports, taker, fills := MatchLimit(order);
          if taker.quantity > 0 {
            InsertResting(taker);
          }
        case Stop =>
          // a stop order is handled exactly like a limit order
          reports, taker, fills := MatchLimit(order);
          if taker.quantity > 0 {
            InsertResting(taker);
          }
      }
      SubmitKeepsWellFormed(before, order);
    }

    /** Matches a limit (or stop) order against the opposite side while the
        best resting price is within its limit. */
    method MatchLimit(order: Order) returns (reports: seq<Report>, taker: Order, ghost fills: seq<Fill>)
      modifies this
      ensures var out := Match(order, Opposite(old(State()), order.side), false);
        fills == out.fills && reports == Reports(fills) && taker == out.taker &&
        State() == WithOpposite(old(State()), order.side, out.opposite)
    {
      var opposite := if order.side == Buy then asks else bids;
      ghost var start := opposite;
      assert start == Opposite(old(State()), order.side);
      reports, taker, fills := [], order, [];
      while taker.quantity > 0 && opposite != []
        invariant reports == Reports(fills)
        invariant Resume(fills, taker, opposite, false) == Resume([], order, start, false)
        invariant State() == old(State())
        decreases |opposite|, taker.quantity
      {
        var best := opposite[0];
        if taker.side == Buy && best.price > taker.price {
          break;
        }
        if taker.side == Sell && best.price < taker.price {
          break;
        }
        var fillQty := FillQty(taker, best);
        var tradePrice := best.price;
        var fill := Fill(ReportFor(taker, fillQty, tradePrice, StatusOf(taker.quantity - fillQty == 0)),
                         ReportFor(best, fillQty, tradePrice, StatusOf(best.quantity - fillQty == 0)));
        ghost var f0, t0, o0 := fills, taker, opposite;
        assert fill == HeadFill(t0, o0, false);
        ReportsAppend(fills, fill);
        reports := reports + [fill.taker, fill.maker];
        fills := fills + [fill];
        taker := taker.(quantity := taker.quantity - fillQty);
        best := best.(quantity := best.quantity - fillQty);
        if best.quantity == 0 {
          opposite := opposite[1..];
        } else {
          opposite := [best] + opposite[1..];
        }
        MatchStep(f0, t0, o0, false, fills, taker, opposite);
      }
      ghost var whole := Match(order, start, false);
      assert Match(taker, opposite, false).fills == [];
      assert [] + whole.fills == whole.fills && fills + [] == fills;
      if order.side == Buy {
        asks := opposite;
      } else {
        bids := opposite;
      }
    }

    /** Fills a market order against the full depth of the opposite side. */
    method ExecuteMarket(order: Order) returns (reports: seq<Report>, taker: Order, ghost fills: seq<Fill>)
      modifies this
      ensures var out := Match(order, Opposite(old(State()), order.side), true);
        fills == out.fills && reports == Reports(fills) && taker == out.taker &&
        State() == WithOpposite(old(State()), order.side, out.opposite)
    {
      var opposite := if order.side == Buy then asks else bids;
      ghost var start := opposite;
      assert start == Opposite(old(State()), order.side);
      reports, taker, fills := [], order, [];
      while taker.quantity > 0 && opposite != []
        invariant reports == Reports(fills)
        invariant Resume(fills, taker, opposite, true) == Resume([], order, start, true)
        invariant State() == old(State())
        decreases |opposite|, taker.quantity
      {
        ghost var f0, t0, o0 := fills, taker, opposite;
        var best := opposite[0];
        var fillQty := FillQty(taker, best);
        var tradePrice := best.price;
        taker := taker.(quantity := taker.quantity - fillQty);
        best := best.(quantity := best.quantity - fillQty);
        // the taker counts as filled once it has nothing left, or once this
        // fill took the last resting order
        var marketStatus := StatusOf(taker.quantity == 0 || (best.quantity == 0 && |opposite| == 1));
        var fill := Fill(ReportFor(taker, fillQty, tradePrice, marketStatus),
                         ReportFor(best, fillQty, tradePrice, StatusOf(best.quantity == 0)));
        assert fill == HeadFill(t0, o0, true);
        ReportsAppend(fills, fill);
        reports := reports + [fill.taker, fill.maker];
        fills := fills + [fill];
        if best.quantity == 0 {
          opposite := opposite[1..];
        } else {
          opposite := [best] + opposite[1..];
        }
        MatchStep(f0, t0, o0, true, fills, taker, opposite);
      }
      ghost var whole := Match(order, start, true);
      assert Match(taker, opposite, true).fills == [];
      assert [] + whole.fills == whole.fills && fills + [] == fills;
      if order.side == Buy {
        asks := opposite;
      } else {
        bids := opposite;
      }
    }

    /** Places the remainder of a limit order on its own side at its resting index. */
    method InsertResting(order: Order)
      requires Sorted(order.side, Own(State(), order.side))
      modifies this
      ensures State() == WithOwn(old(State()), order.side, Inserted(Own(old(State()), order.side), order))
    {
      var book := if order.side == Buy then bids else asks;
      var idx := InsertionIndex(book, order);
      book := book[..idx] + [order] + book[idx..];
      if order.side == Buy {
        bids := book;
      } else {
        asks := book;
      }
    }
  }
}
