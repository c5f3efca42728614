/** The trading vocabulary shared by the market-data clients and the strategies, src/synthfi/Trading. */
module Trading {
  datatype Option<+T> = None | Some(value: T)

  datatype Side = Bid | Ask

  function Flip(side: Side): Side {
    if side == Bid then Ask else Bid
  }

  /** One price level; prices and quantities are exact numbers here. */
  datatype Level = Level(price: real, quantity: real)

  /** `p` comes strictly before `q` in a best-first book of this side. */
  predicate Before(side: Side, p: real, q: real) {
    if side == Bid then p > q else p < q
  }

  /** Best price first; equal prices may follow each other. */
  ghost predicate BestFirst(side: Side, book: seq<Level>) {
    forall i, j :: 0 <= i < j < |book| ==> !Before(side, book[j].price, book[i].price)
  }

  /** Best price first, one level per price. */
  ghost predicate Strict(side: Side, book: seq<Level>) {
    forall i, j :: 0 <= i < j < |book| ==> Before(side, book[i].price, book[j].price)
  }

  ghost predicate Positive(book: seq<Level>) {
    forall i :: 0 <= i < |book| ==> book[i].quantity > 0.0
  }

  ghost predicate HasPrice(orders: seq<Level>, p: real) {
    exists i :: 0 <= i < |orders| && orders[i].price == p
  }

  /** Two strictly ordered lists of the same prices and the same quantity per price are the same list. */
  lemma {:induction false} SamePrices(side: Side, a: seq<Level>, b: seq<Level>)
    requires Strict(side, a) && Strict(side, b)
    requires forall p :: HasPrice(a, p) <==> HasPrice(b, p)
    requires forall i, j :: 0 <= i < |a| && 0 <= j < |b| && a[i].price == b[j].price ==> a[i].quantity == b[j].quantity
    ensures a == b
  {
    if a == [] || b == [] {
      if a != [] { assert HasPrice(a, a[0].price); }
      if b != [] { assert HasPrice(b, b[0].price); }
    } else {
      assert HasPrice(a, a[0].price) && HasPrice(b, b[0].price);
      assert a[0].price == b[0].price;
      forall p
        ensures HasPrice(a[1..], p) <==> HasPrice(b[1..], p)
      {
        TailPrice(side, a, p);
        TailPrice(side, b, p);
      }
      SamePrices(side, a[1..], b[1..]);
      assert a == [a[0]] + a[1..] && b == [b[0]] + b[1..];
    }
  }

  lemma TailPrice(side: Side, a: seq<Level>, p: real)
    requires Strict(side, a) && a != []
    ensures HasPrice(a[1..], p) <==> HasPrice(a, p) && p != a[0].price
  {
    if HasPrice(a[1..], p) {
      var i :| 0 <= i < |a[1..]| && a[1..][i].price == p;
      assert a[i + 1].price == p;
    }
    if HasPrice(a, p) && p != a[0].price {
      var i :| 0 <= i < |a| && a[i].price == p;
      assert a[1..][i - 1].price == p;
    }
  }
}
