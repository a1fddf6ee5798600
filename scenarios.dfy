/** Worked examples of the book's behaviour on small books, including the
    status a market taker gets when it takes the last resting order. */
module Scenarios {
  import opened Orders
  import opened Matching
  import opened OrderBook

  /** A buy limit order on an empty book produces no reports and rests as the only bid. */
  lemma LimitOnEmptyBookRests()
    ensures var buy := Order(1, "XYZ", Buy, Limit, 10, 100);
      var r := Submit(Sides([], []), buy);
      Reports(r.fills) == [] && r.book == Sides([buy], [])
  {
  }

  /** A crossing sell limit trades at the resting bid's price, not its own;
      the sell is Filled, the bid stays with its remainder. */
  lemma SellCrossesRestingBid()
    ensures var bid := Order(1, "XYZ", Buy, Limit, 10, 100);
      var sell := Order(2, "XYZ", Sell, Limit, 9, 50);
      var r := Submit(Sides([bid], []), sell);
      Reports(r.fills) == [Report(2, "XYZ", Sell, 50, 10, Filled), Report(1, "XYZ", Buy, 50, 10, PartialFill)] &&
      r.taker.quantity == 0 &&
      r.book == Sides([bid.(quantity := 50)], [])
  {
    var bid := Order(1, "XYZ", Buy, Limit, 10, 100);
    var sell := Order(2, "XYZ", Sell, Limit, 9, 50);
    var rest := Match(sell.(quantity := 0), [bid.(quantity := 50)], false);
    assert rest.fills == [];
    assert Match(sell, [bid], false).fills == [HeadFill(sell, [bid], false)];
  }

  /** A market buy against an empty ask side vanishes without a report. */
  lemma MarketOnEmptySideVanishes()
    ensures var bid := Order(1, "XYZ", Buy, Limit, 10, 100);
      var buy := Order(2, "XYZ", Buy, Market, 0, 100);
      var r := Submit(Sides([bid], []), buy);
      Reports(r.fills) == [] && r.book == Sides([bid], [])
  {
  }

  /** A market buy for 100 against a single ask of 30 takes the ask and is
      reported Filled although 70 units stay unfilled; those 70 are dropped. */
  lemma MarketTakesLastAsk()
    ensures var ask := Order(1, "XYZ", Sell, Limit, 20, 30);
      var buy := Order(2, "XYZ", Buy, Market, 0, 100);
      var r := Submit(Sides([], [ask]), buy);
      Reports(r.fills) == [Report(2, "XYZ", Buy, 30, 20, Filled), Report(1, "XYZ", Sell, 30, 20, Filled)] &&
      r.taker.quantity == 70 &&
      r.book == Sides([], [])
  {
    var ask := Order(1, "XYZ", Sell, Limit, 20, 30);
    var buy := Order(2, "XYZ", Buy, Market, 0, 100);
    assert Match(buy.(quantity := 70), [], true).fills == [];
    assert Match(buy, [ask], true).fills == [HeadFill(buy, [ask], true)];
  }

  /** Two asks at one price are taken in arrival order: the first fully, the
      second in part, and the second stays with its remainder. */
  lemma SamePriceInArrivalOrder()
    ensures var a := Order(1, "XYZ", Sell, Limit, 15, 10);
      var b := Order(2, "XYZ", Sell, Limit, 15, 10);
      var buy := Order(3, "XYZ", Buy, Limit, 15, 15);
      var r := Submit(Sides([], [a, b]), buy);
      Reports(r.fills) == [Report(3, "XYZ", Buy, 10, 15, PartialFill), Report(1, "XYZ", Sell, 10, 15, Filled),
                           Report(3, "XYZ", Buy, 5, 15, Filled), Report(2, "XYZ", Sell, 5, 15, PartialFill)] &&
      r.book == Sides([], [b.(quantity := 5)])
  {
    var a := Order(1, "XYZ", Sell, Limit, 15, 10);
    var b := Order(2, "XYZ", Sell, Limit, 15, 10);
    var buy := Order(3, "XYZ", Buy, Limit, 15, 15);
    var t := buy.(quantity := 5);
    assert [a, b][1..] == [b];
    assert Match(t.(quantity := 0), [b.(quantity := 5)], false).fills == [];
    assert Match(t, [b], false).fills == [HeadFill(t, [b], false)];
    assert Match(buy, [a, b], false).fills == [HeadFill(buy, [a, b], false), HeadFill(t, [b], false)];
  }
}
