/** The fill loop shared by market execution and limit matching, stated as a
    recursive function over the opposite side, and what it guarantees. */
module Matching {
  import opened Orders

  /** One fill: the report for the incoming (taker) order and the report for
      the resting (maker) order it traded with. */
  datatype Fill = Fill(taker: Report, maker: Report)

  /** What one matching pass leaves behind: its fills in order, the incoming
      order with its remaining quantity, and the opposite side. */
  datatype Outcome = Outcome(fills: seq<Fill>, taker: Order, opposite: seq<Order>)

  /** The report list a pass returns: taker then maker, one pair per fill. */
  function Reports(fills: seq<Fill>): (r: seq<Report>)
    ensures |r| == 2 * |fills|
  {
    if fills == [] then [] else [fills[0].taker, fills[0].maker] + Reports(fills[1..])
  }

  /** Report `2 * i` is the taker's report of fill `i`, report `2 * i + 1` the maker's. */
  lemma {:induction false} ReportsPairs(fills: seq<Fill>)
    ensures forall i :: 0 <= i < |fills| ==>
      Reports(fills)[2 * i] == fills[i].taker && Reports(fills)[2 * i + 1] == fills[i].maker
  {
    if fills != [] {
      ReportsPairs(fills[1..]);
      forall i | 1 <= i < |fills|
        ensures Reports(fills)[2 * i] == fills[i].taker && Reports(fills)[2 * i + 1] == fills[i].maker
      {
        assert fills[i] == fills[1..][i - 1];
      }
    }
  }

  /** Appending a fill appends its two reports. */
  lemma {:induction false} ReportsAppend(fills: seq<Fill>, f: Fill)
    ensures Reports(fills + [f]) == Reports(fills) + [f.taker, f.maker]
  {
    if fills != [] {
      ReportsAppend(fills[1..], f);
      assert (fills + [f])[1..] == fills[1..] + [f];
    }
  }

  /** The quantity of one fill: the smaller of the two remaining quantities. */
  function FillQty(taker: Order, maker: Order): (q: nat)
    ensures q <= taker.quantity && q <= maker.quantity
    ensures q == taker.quantity || q == maker.quantity
  {
    if taker.quantity <= maker.quantity then taker.quantity else maker.quantity
  }

  /** A market order trades with any head; a limit order only with a compatible one. */
  predicate Eligible(taker: Order, maker: Order, market: bool) {
    market || Compatible(taker, maker)
  }

  /** The opposite side after a fill of `q` against its head: the head leaves
      when nothing is left of it, otherwise it stays with its quantity reduced. */
  function AfterFill(opposite: seq<Order>, q: nat): seq<Order>
    requires opposite != [] && q <= opposite[0].quantity
  {
    if opposite[0].quantity - q == 0 then opposite[1..]
    else [opposite[0].(quantity := opposite[0].quantity - q)] + opposite[1..]
  }

  /** The two reports of a fill between `taker` and the head of `opposite`,
      both at the head's price. A maker is Filled when nothing is left of it; a
      taker too, and a market taker also when it took the last resting order. */
  function HeadFill(taker: Order, opposite: seq<Order>, market: bool): Fill
    requires opposite != []
  {
    var best := opposite[0];
    var q := FillQty(taker, best);
    var takerDone := taker.quantity - q == 0 || (market && best.quantity - q == 0 && |opposite| == 1);
    Fill(ReportFor(taker, q, best.price, StatusOf(takerDone)),
         ReportFor(best, q, best.price, StatusOf(best.quantity - q == 0)))
  }

  /** Matching `taker` against `opposite`, best order first, while the taker has
      quantity, the side is not empty and the head is eligible. A market taker's
      report also says Filled when the fill empties the last resting order. */
  function Match(taker: Order, opposite: seq<Order>, market: bool): (out: Outcome)
    ensures |out.fills| <= |opposite|
    ensures out.fills == [] <==>
      (taker.quantity == 0 || opposite == [] || !Eligible(taker, opposite[0], market))
    ensures out.fills == [] ==> out.taker == taker && out.opposite == opposite
    ensures out.taker == taker.(quantity := out.taker.quantity)
    ensures out.taker.quantity <= taker.quantity
    decreases |opposite|, taker.quantity
  {
    if taker.quantity == 0 || opposite == [] || !Eligible(taker, opposite[0], market) then
      Outcome([], taker, opposite)
    else
      var q := FillQty(taker, opposite[0]);
      var rest := Match(taker.(quantity := taker.quantity - q), AfterFill(opposite, q), market);
      Outcome([HeadFill(taker, opposite, market)] + rest.fills, rest.taker, rest.opposite)
  }

  /** Quantity filled for the taker, summed over the fills. */
  function TakerFilled(fills: seq<Fill>): nat {
    if fills == [] then 0 else fills[0].taker.filledQty + TakerFilled(fills[1..])
  }

  /** Quantity filled for the makers, summed over the fills. */
  function MakerFilled(fills: seq<Fill>): nat {
    if fills == [] then 0 else fills[0].maker.filledQty + MakerFilled(fills[1..])
  }

  /** `rest` is what `n` fills leave of side `s`: the first n - 1 makers are
      gone, and the n-th is gone too or stays at the head with less, but some,
      quantity left and nothing else about it changed. */
  ghost predicate Consumed(rest: seq<Order>, s: seq<Order>, n: nat) {
    n <= |s| &&
    (rest == s[n..] ||
     (0 < n && |rest| == |s| - n + 1 && rest[1..] == s[n..] &&
      rest[0] == s[n - 1].(quantity := rest[0].quantity) &&
      0 < rest[0].quantity < s[n - 1].quantity))
  }

  /** One step of a pass that fills at all: the head is eligible, and the rest
      of the pass continues from the reduced taker and the side after the fill;
      it can only fill again if the head left the side. */
  lemma MatchFirst(taker: Order, opposite: seq<Order>, market: bool)
    requires Match(taker, opposite, market).fills != []
    ensures taker.quantity > 0 && opposite != [] && Eligible(taker, opposite[0], market)
    ensures var out := Match(taker, opposite, market);
      var q := FillQty(taker, opposite[0]);
      var rest := Match(taker.(quantity := taker.quantity - q), AfterFill(opposite, q), market);
      out.fills == [HeadFill(taker, opposite, market)] + rest.fills &&
      out.fills[0] == HeadFill(taker, opposite, market) &&
      out.taker == rest.taker && out.opposite == rest.opposite &&
      (rest.fills != [] ==> q == opposite[0].quantity)
  {
  }

  /** A pass that fills more than once took the whole head order first and
      goes on as the pass of the reduced taker over the rest of the side. */
  lemma MatchRest(taker: Order, opposite: seq<Order>, market: bool)
    requires |Match(taker, opposite, market).fills| > 1
    ensures opposite != [] && opposite[0].quantity < taker.quantity
    ensures var out := Match(taker, opposite, market);
      var rest := Match(taker.(quantity := taker.quantity - opposite[0].quantity), opposite[1..], market);
      rest.fills == out.fills[1..] && rest.taker == out.taker && rest.opposite == out.opposite
  {
    MatchFirst(taker, opposite, market);
    var q := FillQty(taker, opposite[0]);
    var rest := Match(taker.(quantity := taker.quantity - q), AfterFill(opposite, q), market);
    assert AfterFill(opposite, q) == opposite[1..];
    assert ([HeadFill(taker, opposite, market)] + rest.fills)[1..] == rest.fills;
  }

  /** The fills already made followed by the rest of the pass from `taker`
      and `opposite`: what a fill loop that is part-way through will return. */
  function Resume(fills: seq<Fill>, taker: Order, opposite: seq<Order>, market: bool): Outcome {
    var rest := Match(taker, opposite, market);
    Outcome(fills + rest.fills, rest.taker, rest.opposite)
  }

  /** One iteration of the fill loop keeps what it will return: once the head
      fill joins the fills made, the taker is reduced by the fill and the side
      is what the fill leaves of it, resuming the pass gives the same outcome. */
  lemma MatchStep(fills: seq<Fill>, taker: Order, opposite: seq<Order>, market: bool,
                  fills': seq<Fill>, taker': Order, opposite': seq<Order>)
    requires taker.quantity > 0 && opposite != [] && Eligible(taker, opposite[0], market)
    requires fills' == fills + [HeadFill(taker, opposite, market)]
    requires taker' == taker.(quantity := taker.quantity - FillQty(taker, opposite[0]))
    requires opposite' == AfterFill(opposite, FillQty(taker, opposite[0]))
    ensures Resume(fills', taker', opposite', market) == Resume(fills, taker, opposite, market)
  {
    MatchFirst(taker, opposite, market);
    var rest := Match(taker', opposite', market);
    assert fills + ([HeadFill(taker, opposite, market)] + rest.fills) == fills' + rest.fills;
  }

  /** Fills remove makers from the head of the opposite side only, in order. */
  lemma {:induction false} MatchConsumes(taker: Order, opposite: seq<Order>, market: bool)
    ensures var out := Match(taker, opposite, market);
      Consumed(out.opposite, opposite, |out.fills|)
    decreases |opposite|, taker.quantity
  {
    var out := Match(taker, opposite, market);
    if out.fills == [] {
      assert opposite[0..] == opposite;
    } else {
      MatchFirst(taker, opposite, market);
      var q := FillQty(taker, opposite[0]);
      var t := taker.(quantity := taker.quantity - q);
      var next := AfterFill(opposite, q);
      var rest := Match(t, next, market);
      if opposite[0].quantity == q {
        MatchConsumes(t, next, market);
        assert next[|rest.fills|..] == opposite[|out.fills|..];
        if rest.fills != [] {
          assert next[|rest.fills| - 1] == opposite[|rest.fills|];
        }
      } else {
        assert rest.fills == [];
        assert out.opposite[1..] == opposite[1..];
      }
    }
  }

  /** Fill number `i` trades with the i-th order of the opposite side, at that
      order's price, for the same quantity on both reports; a limit taker only
      trades at prices its limit accepts. */
  lemma {:induction false} MatchFillAt(taker: Order, opposite: seq<Order>, market: bool, i: nat)
    requires i < |Match(taker, opposite, market).fills|
    ensures i < |opposite|
    ensures var f := Match(taker, opposite, market).fills[i];
      f.taker.orderId == taker.id && f.taker.symbol == taker.symbol && f.taker.side == taker.side &&
      f.maker.orderId == opposite[i].id && f.maker.symbol == opposite[i].symbol &&
      f.maker.side == opposite[i].side &&
      f.taker.price == opposite[i].price && f.maker.price == opposite[i].price &&
      f.taker.filledQty == f.maker.filledQty && (0 < opposite[i].quantity ==> 0 < f.maker.filledQty) &&
      (!market ==> Compatible(taker, opposite[i]))
    decreases |opposite|, taker.quantity
  {
    if i == 0 {
      MatchFirst(taker, opposite, market);
    } else {
      MatchRest(taker, opposite, market);
      MatchFillAt(taker.(quantity := taker.quantity - opposite[0].quantity), opposite[1..], market, i - 1);
    }
  }

  /** The maker status rule: a maker's report says Filled exactly when the fill
      took all the maker had left. */
  lemma {:induction false} MakerStatusAt(taker: Order, opposite: seq<Order>, market: bool, i: nat)
    requires i < |Match(taker, opposite, market).fills|
    ensures i < |opposite|
    ensures var mr := Match(taker, opposite, market).fills[i].maker;
      mr.filledQty <= opposite[i].quantity &&
      (mr.status == Filled <==> mr.filledQty == opposite[i].quantity)
    decreases |opposite|, taker.quantity
  {
    if i == 0 {
      MatchFirst(taker, opposite, market);
    } else {
      MatchRest(taker, opposite, market);
      MakerStatusAt(taker.(quantity := taker.quantity - opposite[0].quantity), opposite[1..], market, i - 1);
    }
  }

  /** Every maker but the last is filled and leaves the side; the last one is
      Filled exactly when it left the side too. */
  lemma {:induction false} MakersLeave(taker: Order, opposite: seq<Order>, market: bool, i: nat)
    requires i < |Match(taker, opposite, market).fills|
    ensures var out := Match(taker, opposite, market);
      var mr := out.fills[i].maker;
      (i + 1 < |out.fills| ==> mr.status == Filled) &&
      (i + 1 == |out.fills| ==> (mr.status == Filled <==> out.opposite == opposite[|out.fills|..]))
    decreases |opposite|, taker.quantity
  {
    var out := Match(taker, opposite, market);
    if i > 0 {
      MatchRest(taker, opposite, market);
      MakersLeave(taker.(quantity := taker.quantity - opposite[0].quantity), opposite[1..], market, i - 1);
      assert opposite[1..][|out.fills| - 1..] == opposite[|out.fills|..];
    } else {
      MatchFirst(taker, opposite, market);
      if |out.fills| == 1 && opposite[0].quantity != FillQty(taker, opposite[0]) {
        assert |out.opposite| == |opposite|;
      }
    }
  }

  /** The last maker touched, when it stays at the head of the side, keeps
      exactly what it had less the quantity of its fill. */
  lemma {:induction false} LastMakerRemainder(taker: Order, opposite: seq<Order>, market: bool)
    requires var out := Match(taker, opposite, market);
      out.fills != [] && out.opposite != opposite[|out.fills|..]
    ensures var out := Match(taker, opposite, market);
      out.opposite != [] &&
      out.opposite[0].quantity + out.fills[|out.fills| - 1].maker.filledQty == opposite[|out.fills| - 1].quantity
    decreases |opposite|, taker.quantity
  {
    var out := Match(taker, opposite, market);
    if |out.fills| > 1 {
      MatchRest(taker, opposite, market);
      assert opposite[1..][|out.fills| - 1..] == opposite[|out.fills|..];
      LastMakerRemainder(taker.(quantity := taker.quantity - opposite[0].quantity), opposite[1..], market);
    } else {
      MatchFirst(taker, opposite, market);
    }
  }

  /** The taker status rule: only the last fill's report can say Filled. For a
      limit taker it does exactly when nothing is left of the taker; for a
      market taker also when the fill emptied the opposite side, however much
      the market order still wanted. */
  lemma {:induction false} TakerStatusAt(taker: Order, opposite: seq<Order>, market: bool, i: nat)
    requires i < |Match(taker, opposite, market).fills|
    ensures var out := Match(taker, opposite, market);
      out.fills[i].taker.status == Filled <==>
        (i + 1 == |out.fills| && (out.taker.quantity == 0 || (market && out.opposite == [])))
    decreases |opposite|, taker.quantity
  {
    if i > 0 {
      MatchRest(taker, opposite, market);
      TakerStatusAt(taker.(quantity := taker.quantity - opposite[0].quantity), opposite[1..], market, i - 1);
    } else {
      MatchFirst(taker, opposite, market);
      if |Match(taker, opposite, market).fills| > 1 {
        MatchRest(taker, opposite, market);
      }
    }
  }

  /** Why matching stopped: the taker is filled, the side is empty, or (for a
      limit taker) the new head is not compatible. A market taker therefore
      either fills completely or takes the whole side. */
  lemma {:induction false} MatchStops(taker: Order, opposite: seq<Order>, market: bool)
    ensures var out := Match(taker, opposite, market);
      out.taker.quantity == 0 || out.opposite == [] || (!market && !Compatible(taker, out.opposite[0]))
    decreases |opposite|, taker.quantity
  {
    if Match(taker, opposite, market).fills != [] {
      MatchFirst(taker, opposite, market);
      var q := FillQty(taker, opposite[0]);
      MatchStops(taker.(quantity := taker.quantity - q), AfterFill(opposite, q), market);
    }
  }

  /** A fill of `q` takes exactly `q` off the side's total quantity. */
  lemma AfterFillSum(opposite: seq<Order>, q: nat)
    requires opposite != [] && q <= opposite[0].quantity
    ensures SumQty(AfterFill(opposite, q)) + q == SumQty(opposite)
  {
    if opposite[0].quantity != q {
      assert AfterFill(opposite, q)[1..] == opposite[1..];
    }
  }

  /** Quantity is conserved: the taker's reports and the makers' reports each
      add up to what the taker lost. */
  lemma {:induction false} MatchConserves(taker: Order, opposite: seq<Order>, market: bool)
    ensures var out := Match(taker, opposite, market);
      TakerFilled(out.fills) == taker.quantity - out.taker.quantity &&
      MakerFilled(out.fills) == taker.quantity - out.taker.quantity
    decreases |opposite|, taker.quantity
  {
    var out := Match(taker, opposite, market);
    if out.fills != [] {
      MatchFirst(taker, opposite, market);
      var q := FillQty(taker, opposite[0]);
      MatchConserves(taker.(quantity := taker.quantity - q), AfterFill(opposite, q), market);
    }
  }

  /** The opposite side loses exactly the quantity the taker gained. */
  lemma {:induction false} MatchConservesSide(taker: Order, opposite: seq<Order>, market: bool)
    ensures var out := Match(taker, opposite, market);
      SumQty(opposite) == SumQty(out.opposite) + (taker.quantity - out.taker.quantity)
    decreases |opposite|, taker.quantity
  {
    if Match(taker, opposite, market).fills != [] {
      MatchFirst(taker, opposite, market);
      var q := FillQty(taker, opposite[0]);
      MatchConservesSide(taker.(quantity := taker.quantity - q), AfterFill(opposite, q), market);
      AfterFillSum(opposite, q);
    }
  }
}
