/** Inserting the remainder of a limit order into its own side so that price
    priority holds and orders at one price keep their arrival order. */
module Resting {
  import opened Orders

  /** Where an order at `price` joins `book`: behind every order whose price is
      at least as good (including every order at the same price), in front of
      the first strictly worse one. */
  function RestingIndex(side: Side, book: seq<Order>, price: int): (k: nat)
    ensures k <= |book|
    ensures forall j :: 0 <= j < k ==> !Better(side, price, book[j].price)
    ensures k < |book| ==> Better(side, price, book[k].price)
  {
    if book == [] || Better(side, price, book[0].price) then 0
    else 1 + RestingIndex(side, book[1..], price)
  }

  /** The side `book` with order `o` placed at its resting index. */
  function Inserted(book: seq<Order>, o: Order): (r: seq<Order>)
    ensures |r| == |book| + 1
    ensures multiset(r) == multiset(book) + multiset{o}
  {
    var k := RestingIndex(o.side, book, o.price);
    assert book == book[..k] + book[k..];
    book[..k] + [o] + book[k..]
  }

  /** The resting index is the first strictly worse position, whatever the order of `book`. */
  lemma RestingIndexUnique(side: Side, book: seq<Order>, price: int, k: nat)
    requires k <= |book|
    requires forall j :: 0 <= j < k ==> !Better(side, price, book[j].price)
    requires k < |book| ==> Better(side, price, book[k].price)
    ensures k == RestingIndex(side, book, price)
  {
  }

  /** On a sorted side the new order lands behind every order at its own price
      or better and in front of every strictly worse one; nothing else moves. */
  lemma InsertedPosition(book: seq<Order>, o: Order)
    requires Sorted(o.side, book)
    ensures var k := RestingIndex(o.side, book, o.price);
      var r := Inserted(book, o);
      r[k] == o &&
      (forall j :: 0 <= j < k ==> r[j] == book[j] && !Better(o.side, o.price, r[j].price)) &&
      (forall j :: k < j < |r| ==> r[j] == book[j - 1] && Better(o.side, o.price, r[j].price))
  {
    var k := RestingIndex(o.side, book, o.price);
    var r := Inserted(book, o);
    assert r == book[..k] + [o] + book[k..];
    forall j | 0 <= j < k
      ensures r[j] == book[j]
    {
      assert r[j] == book[..k][j];
    }
    forall j | k < j < |r|
      ensures r[j] == book[j - 1] && Better(o.side, o.price, r[j].price)
    {
      assert r[j] == book[k..][j - k - 1];
      assert !Better(o.side, book[j - 1].price, book[k].price);
    }
  }

  /** Orders at one price keep their arrival order: every order already resting
      at the new order's price stays in front of it. */
  lemma InsertedFifo(book: seq<Order>, o: Order, j: nat)
    requires Sorted(o.side, book)
    requires j < |book| && book[j].price == o.price
    ensures j < RestingIndex(o.side, book, o.price)
    ensures Inserted(book, o)[j] == book[j]
  {
    InsertedPosition(book, o);
  }

  /** Insertion keeps a side well formed when the new order belongs there. */
  lemma InsertedKeepsSide(book: seq<Order>, o: Order)
    requires SideOk(o.side, book) && o.quantity > 0 && o.kind != Market
    ensures SideOk(o.side, Inserted(book, o))
  {
    var k := RestingIndex(o.side, book, o.price);
    var r := Inserted(book, o);
    InsertedPosition(book, o);
    forall i, j | 0 <= i < j < |r|
      ensures !Better(o.side, r[j].price, r[i].price)
    {
      if i < k && k < j {
        assert !Better(o.side, o.price, r[i].price);
      }
    }
  }

  /** The scan that finds where the remainder rests: step past strictly better
      orders, then past the run of orders at exactly the same price. */
  method InsertionIndex(book: seq<Order>, order: Order) returns (idx: nat)
    ensures idx <= |book|
    ensures forall j :: 0 <= j < idx ==> !Better(order.side, order.price, book[j].price)
    ensures Sorted(order.side, book) ==> idx == RestingIndex(order.side, book, order.price)
  {
    idx := 0;
    while idx < |book|
      invariant idx <= |book|
      invariant forall j :: 0 <= j < idx ==> Better(order.side, book[j].price, order.price)
      decreases |book| - idx
    {
      if Better(order.side, book[idx].price, order.price) {
        idx := idx + 1;
      } else {
        ghost var first := idx;
        while idx < |book| && book[idx].price == order.price
          invariant first <= idx <= |book|
          invariant forall j :: first <= j < idx ==> book[j].price == order.price
          decreases |book| - idx
        {
          idx := idx + 1;
        }
        if Sorted(order.side, book) {
          if idx < |book| {
            assert !Better(order.side, book[idx].price, book[first].price);
          }
          RestingIndexUnique(order.side, book, order.price, idx);
        }
        return;
      }
    }
    RestingIndexUnique(order.side, book, order.price, idx);
  }
}
