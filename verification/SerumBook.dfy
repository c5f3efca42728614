/**
 * From slab to order book, do_update_book of the Serum market-data client: convert each leaf, sort by price, merge
 * orders at the same price.
 */
module SerumBook {
  import opened Trading
  import opened SerumSlab

  /** The market's lot sizes and the decimals of its two mints. */
  datatype Market = Market(baseLotSize: nat, quoteLotSize: nat, baseDecimals: nat, quoteDecimals: nat) {
    ghost predicate Valid() {
      baseLotSize > 0
    }

    function Price(limitPrice: U64): real
      requires Valid()
    {
      ((limitPrice as real * quoteLotSize as real) * Pow10(baseDecimals)) / (Pow10(quoteDecimals) * baseLotSize as real)
    }

    function Quantity(lots: U64): real {
      (lots as real * baseLotSize as real) / Pow10(baseDecimals)
    }

    function Convert(leaf: LeafNode): Level
      requires Valid()
    {
      Level(Price(leaf.key.limitPrice), Quantity(leaf.quantity))
    }

    function ConvertAll(leaves: seq<LeafNode>): (orders: seq<Level>)
      requires Valid()
      ensures |orders| == |leaves| && forall i :: 0 <= i < |leaves| ==> orders[i] == Convert(leaves[i])
    {
      seq(|leaves|, i requires 0 <= i < |leaves| => Convert(leaves[i]))
    }
  }

  function Pow10(n: nat): (p: real)
    ensures p > 0.0
  {
    if n == 0 then 1.0 else 10.0 * Pow10(n - 1)
  }

  /** Ten to the power of `n`: the powers multiply as the exponents add. */
  lemma {:induction false} Pow10Adds(m: nat, n: nat)
    ensures Pow10(1) == 10.0 && Pow10(m + n) == Pow10(m) * Pow10(n)
  {
    if m == 0 {
      assert Pow10(0) == 1.0;
    } else {
      Pow10Adds(m - 1, n);
      assert 10.0 * (Pow10(m - 1) * Pow10(n)) == 10.0 * Pow10(m - 1) * Pow10(n);
    }
  }

  // ---------------------------------------------------------------- what a side of the book must be

  /** The quantity `orders` hold at price `p`. */
  ghost function QuantityAt(orders: seq<Level>, p: real): real {
    if orders == [] then 0.0
    else (if orders[0].price == p then orders[0].quantity else 0.0) + QuantityAt(orders[1..], p)
  }

  ghost function Total(orders: seq<Level>): real {
    if orders == [] then 0.0 else orders[0].quantity + Total(orders[1..])
  }

  /** What a level is worth in quote currency. */
  function Worth(order: Level): real {
    order.price * order.quantity
  }

  ghost function TotalWorth(orders: seq<Level>): real {
    if orders == [] then 0.0 else Worth(orders[0]) + TotalWorth(orders[1..])
  }

  /** One level per price of the orders, strictly best first, holding everything the orders have at that price. */
  ghost predicate IsBookOf(side: Side, book: seq<Level>, orders: seq<Level>) {
    && Strict(side, book)
    && (forall p :: HasPrice(book, p) <==> HasPrice(orders, p))
    && (forall i :: 0 <= i < |book| ==> book[i].quantity == QuantityAt(orders, book[i].price))
  }

  /** There is only one such book. */
  lemma BookUnique(side: Side, a: seq<Level>, b: seq<Level>, orders: seq<Level>)
    requires IsBookOf(side, a, orders) && IsBookOf(side, b, orders)
    ensures a == b
  {
    SamePrices(side, a, b);
  }

  // ---------------------------------------------------------------- sorting

  /** `b` is a rearrangement of `a` with best prices first, equal prices in any order. */
  ghost predicate SortedFrom(side: Side, a: seq<Level>, b: seq<Level>) {
    multiset(a) == multiset(b) && BestFirst(side, b)
  }

  /** Insertion sort in the place of std::sort, of which only the contract is used. */
  method SortOrders(side: Side, orders: seq<Level>) returns (sorted: seq<Level>)
    ensures SortedFrom(side, orders, sorted)
  {
    sorted := [];
    assert orders[..0] == [];
    for i := 0 to |orders|
      invariant SortedFrom(side, orders[..i], sorted)
    {
      var k := 0;
      while k < |sorted| && !Before(side, orders[i].price, sorted[k].price)
        invariant k <= |sorted|
        invariant forall j :: 0 <= j < k ==> !Before(side, orders[i].price, sorted[j].price)
      {
        k := k + 1;
      }
      InsertSorted(side, sorted, orders[i], k);
      assert sorted == sorted[..k] + sorted[k..];
      sorted := sorted[..k] + [orders[i]] + sorted[k..];
      assert orders[..i + 1] == orders[..i] + [orders[i]];
    }
    assert orders[..|orders|] == orders;
  }

  lemma InsertSorted(side: Side, sorted: seq<Level>, x: Level, k: nat)
    requires BestFirst(side, sorted) && k <= |sorted|
    requires forall j :: 0 <= j < k ==> !Before(side, x.price, sorted[j].price)
    requires k < |sorted| ==> Before(side, x.price, sorted[k].price)
    ensures BestFirst(side, sorted[..k] + [x] + sorted[k..])
  {
    var s := sorted[..k] + [x] + sorted[k..];
    forall i, j | 0 <= i < j < |s|
      ensures !Before(side, s[j].price, s[i].price)
    {
      if j > k && k < |sorted| { assert j - 1 > k ==> !Before(side, sorted[j - 1].price, sorted[k].price); }
    }
  }

  // ---------------------------------------------------------------- merging

  /** One turn of the merge loop: a new level, or more quantity at the last one. */
  function MergeOne(book: seq<Level>, order: Level): seq<Level> {
    if book == [] || book[|book| - 1].price != order.price then book + [order]
    else book[..|book| - 1] + [book[|book| - 1].(quantity := book[|book| - 1].quantity + order.quantity)]
  }

  lemma {:induction false} QuantityAppend(a: seq<Level>, b: seq<Level>, p: real)
    ensures QuantityAt(a + b, p) == QuantityAt(a, p) + QuantityAt(b, p)
    ensures Total(a + b) == Total(a) + Total(b) && TotalWorth(a + b) == TotalWorth(a) + TotalWorth(b)
  {
    hide Worth;
    if a == [] {
      assert a + b == b;
    } else {
      assert (a + b)[1..] == a[1..] + b;
      QuantityAppend(a[1..], b, p);
    }
  }

  lemma {:induction false} NoneThere(orders: seq<Level>, p: real)
    requires !HasPrice(orders, p)
    ensures QuantityAt(orders, p) == 0.0
  {
    if orders != [] {
      assert forall i :: 0 <= i < |orders| - 1 ==> orders[1..][i] == orders[i + 1];
      NoneThere(orders[1..], p);
    }
  }

  /** The merge loop's invariant: the book so far is the book of the orders read so far. */
  lemma MergeStep(side: Side, orders: seq<Level>, k: nat, book: seq<Level>)
    requires k < |orders| && BestFirst(side, orders) && IsBookOf(side, book, orders[..k])
    ensures IsBookOf(side, MergeOne(book, orders[k]), orders[..k + 1])
  {
    var seen, x, next := orders[..k], orders[k], MergeOne(book, orders[k]);
    assert orders[..k + 1] == seen + [x];
    forall p
      ensures QuantityAt(seen + [x], p) == QuantityAt(seen, p) + (if x.price == p then x.quantity else 0.0)
      ensures HasPrice(seen + [x], p) <==> HasPrice(seen, p) || x.price == p
    {
      QuantityAppend(seen, [x], p);
      HasPriceAppend(seen, x, p);
    }
    LastIsWorst(side, orders, k, book);
    if book != [] && book[|book| - 1].price == x.price {
      SamePriceLevel(book, x);
    } else {
      forall p
        ensures HasPrice(next, p) <==> HasPrice(book, p) || x.price == p
      {
        HasPriceAppend(book, x, p);
      }
      NoneThere(seen, x.price);
      forall i | 0 <= i < |book|
        ensures book[i].price != x.price
      {
        assert HasPrice(book, book[i].price);
      }
    }
  }

  lemma HasPriceAppend(orders: seq<Level>, x: Level, p: real)
    ensures HasPrice(orders + [x], p) <==> HasPrice(orders, p) || x.price == p
  {
    if HasPrice(orders, p) {
      var i :| 0 <= i < |orders| && orders[i].price == p;
      assert (orders + [x])[i].price == p;
    }
    if x.price == p { assert (orders + [x])[|orders|].price == p; }
  }

  /** Every level so far is at least as good as the next order. */
  lemma LastIsWorst(side: Side, orders: seq<Level>, k: nat, book: seq<Level>)
    requires k < |orders| && BestFirst(side, orders) && IsBookOf(side, book, orders[..k])
    ensures forall i :: 0 <= i < |book| ==> !Before(side, orders[k].price, book[i].price)
  {
    forall i | 0 <= i < |book|
      ensures !Before(side, orders[k].price, book[i].price)
    {
      assert HasPrice(book, book[i].price);
      var j :| 0 <= j < k && orders[..k][j].price == book[i].price;
      assert orders[j].price == book[i].price;
    }
  }

  /** Adding to the last level changes no price. */
  lemma SamePriceLevel(book: seq<Level>, x: Level)
    requires book != [] && book[|book| - 1].price == x.price
    ensures var next := MergeOne(book, x);
            && |next| == |book|
            && (forall i :: 0 <= i < |book| ==> next[i].price == book[i].price)
            && (forall p :: HasPrice(next, p) <==> HasPrice(book, p))
  {
    var next := MergeOne(book, x);
    forall p
      ensures HasPrice(next, p) <==> HasPrice(book, p)
    {
      if HasPrice(next, p) { var i :| 0 <= i < |next| && next[i].price == p; assert book[i].price == p; }
      if HasPrice(book, p) { var i :| 0 <= i < |book| && book[i].price == p; assert next[i].price == p; }
    }
  }

  // ---------------------------------------------------------------- any order of equal prices

  /** Rearranging orders changes neither the quantity at any price nor the totals. */
  lemma {:induction false} RearrangeKeepsQuantity(a: seq<Level>, b: seq<Level>, p: real)
    requires multiset(a) == multiset(b)
    ensures QuantityAt(a, p) == QuantityAt(b, p) && Total(a) == Total(b) && TotalWorth(a) == TotalWorth(b)
    decreases |a|
  {
    if a == [] {
      assert |multiset(b)| == 0;
    } else {
      var i := Partner(a, b);
      QuantityFirst(a, p);
      QuantityWithout(b, i, p);
      hide QuantityAt, Total, TotalWorth;
      RearrangeKeepsQuantity(a[1..], b[..i] + b[i + 1..], p);
    }
  }

  /** Where the first order of `a` went; without it both are still rearrangements of each other. */
  lemma Partner(a: seq<Level>, b: seq<Level>) returns (i: nat)
    requires multiset(a) == multiset(b) && a != []
    ensures i < |b| && b[i] == a[0] && multiset(a[1..]) == multiset(b[..i] + b[i + 1..])
  {
    i := Find(b, a[0]) by { assert a[0] in multiset(a); }
    TakeFirst(a);
    TakeOut(b, i);
  }

  lemma TakeFirst(a: seq<Level>)
    requires a != []
    ensures multiset(a[1..]) == multiset(a) - multiset{a[0]}
  {
    assert a == [a[0]] + a[1..];
  }

  lemma Find(b: seq<Level>, x: Level) returns (i: nat)
    requires x in multiset(b)
    ensures i < |b| && b[i] == x
  {
    i :| 0 <= i < |b| && b[i] == x;
  }

  lemma QuantityFirst(a: seq<Level>, p: real)
    requires a != []
    ensures QuantityAt(a, p) == (if a[0].price == p then a[0].quantity else 0.0) + QuantityAt(a[1..], p)
    ensures Total(a) == a[0].quantity + Total(a[1..]) && TotalWorth(a) == Worth(a[0]) + TotalWorth(a[1..])
  {
  }

  lemma TakeOut(a: seq<Level>, i: nat)
    requires i < |a|
    ensures multiset(a[..i] + a[i + 1..]) == multiset(a) - multiset{a[i]}
  {
    assert a == a[..i] + [a[i]] + a[i + 1..];
  }

  lemma QuantityWithout(a: seq<Level>, i: nat, p: real)
    requires i < |a|
    ensures QuantityAt(a, p) ==
            QuantityAt(a[..i] + a[i + 1..], p) + (if a[i].price == p then a[i].quantity else 0.0)
    ensures Total(a) == Total(a[..i] + a[i + 1..]) + a[i].quantity
    ensures TotalWorth(a) == TotalWorth(a[..i] + a[i + 1..]) + Worth(a[i])
  {
    hide Worth;
    assert a == a[..i] + ([a[i]] + a[i + 1..]);
    QuantityAppend(a[..i], [a[i]] + a[i + 1..], p);
    QuantityAppend([a[i]], a[i + 1..], p);
    QuantityAppend(a[..i], a[i + 1..], p);
  }

  lemma RearrangeKeepsPrices(a: seq<Level>, b: seq<Level>, p: real)
    requires multiset(a) == multiset(b)
    ensures HasPrice(a, p) ==> HasPrice(b, p)
  {
    if HasPrice(a, p) {
      var i :| 0 <= i < |a| && a[i].price == p;
      assert a[i] in multiset(a);
      assert a[i] in b;
    }
  }

  /** So a book of the sorted orders is a book of the orders as they came. */
  lemma BookOfRearranged(side: Side, book: seq<Level>, a: seq<Level>, b: seq<Level>)
    requires multiset(a) == multiset(b) && IsBookOf(side, book, a)
    ensures IsBookOf(side, book, b)
  {
    forall p
      ensures HasPrice(a, p) <==> HasPrice(b, p)
      ensures QuantityAt(a, p) == QuantityAt(b, p)
    {
      RearrangeKeepsPrices(a, b, p);
      RearrangeKeepsPrices(b, a, p);
      RearrangeKeepsQuantity(a, b, p);
    }
  }

  lemma MergeTotal(book: seq<Level>, order: Level)
    ensures Total(MergeOne(book, order)) == Total(book) + order.quantity
    ensures TotalWorth(MergeOne(book, order)) == TotalWorth(book) + Worth(order)
  {
    if book == [] || book[|book| - 1].price != order.price {
      QuantityAppend(book, [order], 0.0);
      SingleTotal(order);
    } else {
      var last := book[|book| - 1];
      var more := last.(quantity := last.quantity + order.quantity);
      assert book == book[..|book| - 1] + [last];
      QuantityAppend(book[..|book| - 1], [last], 0.0);
      QuantityAppend(book[..|book| - 1], [more], 0.0);
      SingleTotal(last);
      SingleTotal(more);
      WorthAdds(last, order);
      hide Worth, Total, TotalWorth;
    }
  }

  lemma SingleTotal(order: Level)
    ensures Total([order]) == order.quantity && TotalWorth([order]) == Worth(order)
  {
    hide Worth;
    assert [order][1..] == [];
  }

  lemma WorthAdds(a: Level, b: Level)
    requires a.price == b.price
    ensures Worth(a.(quantity := a.quantity + b.quantity)) == Worth(a) + Worth(b)
  {
  }

  // ---------------------------------------------------------------- the client

  /** The merge loop over sorted orders. */
  method MergeLevels(side: Side, allOrders: seq<Level>) returns (sideBook: seq<Level>)
    requires BestFirst(side, allOrders)
    ensures IsBookOf(side, sideBook, allOrders)
    ensures Total(sideBook) == Total(allOrders) && TotalWorth(sideBook) == TotalWorth(allOrders)
  {
    hide IsBookOf, Total, TotalWorth, Worth, BestFirst;
    sideBook := [];
    MergeStart(side);
    assert allOrders[..0] == [];
    for k := 0 to |allOrders|
      invariant IsBookOf(side, sideBook, allOrders[..k])
      invariant Total(sideBook) == Total(allOrders[..k]) && TotalWorth(sideBook) == TotalWorth(allOrders[..k])
    {
      var order := allOrders[k];
      MergeStep(side, allOrders, k, sideBook);
      MergeTotal(sideBook, order);
      TotalStep(allOrders, k);
      if sideBook == [] || sideBook[|sideBook| - 1].price != order.price {
        sideBook := sideBook + [order];
      } else {
        var last := sideBook[|sideBook| - 1];
        sideBook := sideBook[..|sideBook| - 1] + [last.(quantity := last.quantity + order.quantity)];
      }
    }
    assert allOrders[..|allOrders|] == allOrders;
  }

  lemma MergeStart(side: Side)
    ensures IsBookOf(side, [], []) && Total([]) == 0.0 == TotalWorth([])
  {
  }

  lemma TotalStep(orders: seq<Level>, k: nat)
    requires k < |orders|
    ensures Total(orders[..k + 1]) == Total(orders[..k]) + orders[k].quantity
    ensures TotalWorth(orders[..k + 1]) == TotalWorth(orders[..k]) + Worth(orders[k])
  {
    SingleTotal(orders[k]);
    hide Worth, Total, TotalWorth;
    assert orders[..k + 1] == orders[..k] + [orders[k]];
    QuantityAppend(orders[..k], [orders[k]], 0.0);
  }

  // ---------------------------------------------------------------- native amounts

  /** The lots of all leaves, and what they are worth in lots of the quote currency. */
  ghost function BaseLots(leaves: seq<LeafNode>): nat {
    if leaves == [] then 0 else leaves[0].quantity + BaseLots(leaves[1..])
  }

  ghost function QuoteLots(leaves: seq<LeafNode>): nat {
    if leaves == [] then 0 else leaves[0].key.limitPrice * leaves[0].quantity + QuoteLots(leaves[1..])
  }

  /**
   * A published side holds the native amounts of the slab: in units of the base mint all its lots at their size, in
   * units of the quote mint every order's price times its lots at theirs.
   */
  ghost predicate Conserves(market: Market, book: seq<Level>, leaves: seq<LeafNode>) {
    ConservesBase(market, book, leaves) && ConservesQuote(market, book, leaves)
  }

  ghost predicate ConservesBase(market: Market, book: seq<Level>, leaves: seq<LeafNode>) {
    Total(book) * Pow10(market.baseDecimals) == (market.baseLotSize * BaseLots(leaves)) as real
  }

  ghost predicate ConservesQuote(market: Market, book: seq<Level>, leaves: seq<LeafNode>) {
    TotalWorth(book) * Pow10(market.quoteDecimals) == (market.quoteLotSize * QuoteLots(leaves)) as real
  }

  /** Conversion keeps both native amounts of every leaf. */
  lemma LeafIsConserved(market: Market, leaf: LeafNode)
    requires market.Valid()
    ensures var o := market.Convert(leaf);
            && o.quantity * Pow10(market.baseDecimals) == (market.baseLotSize * leaf.quantity) as real
            && o.price * o.quantity * Pow10(market.quoteDecimals)
               == (market.quoteLotSize * (leaf.key.limitPrice * leaf.quantity)) as real
  {
    var bl, ql, p, n := market.baseLotSize as real, market.quoteLotSize as real, leaf.key.limitPrice as real,
      leaf.quantity as real;
    ProductsAgree(market, leaf);
    Cancels(p, n, bl, ql, Pow10(market.baseDecimals), Pow10(market.quoteDecimals));
  }

  lemma ProductsAgree(market: Market, leaf: LeafNode)
    ensures (market.baseLotSize * leaf.quantity) as real == market.baseLotSize as real * leaf.quantity as real
    ensures (market.quoteLotSize * (leaf.key.limitPrice * leaf.quantity)) as real
            == market.quoteLotSize as real * (leaf.key.limitPrice as real * leaf.quantity as real)
  {
  }

  lemma Cancels(p: real, n: real, bl: real, ql: real, base: real, quote: real)
    requires bl > 0.0 && base > 0.0 && quote > 0.0
    ensures quote * bl > 0.0
    ensures ((n * bl) / base) * base == bl * n
    ensures (((p * ql) * base) / (quote * bl)) * ((n * bl) / base) * quote == ql * (p * n)
  {
  }

  lemma {:induction false} BaseIsConserved(market: Market, leaves: seq<LeafNode>)
    requires market.Valid()
    ensures ConservesBase(market, market.ConvertAll(leaves), leaves)
  {
    hide Pow10, Market.Price, Market.Quantity;
    if leaves != [] {
      BaseIsConserved(market, leaves[1..]);
      var orders, others := market.ConvertAll(leaves), market.ConvertAll(leaves[1..]);
      assert orders[1..] == others;
      LeafIsConserved(market, leaves[0]);
      SumScales(orders[0].quantity, Total(others), Pow10(market.baseDecimals), market.baseLotSize,
                leaves[0].quantity, BaseLots(leaves[1..]));
    }
  }

  lemma {:induction false} QuoteIsConserved(market: Market, leaves: seq<LeafNode>)
    requires market.Valid()
    ensures ConservesQuote(market, market.ConvertAll(leaves), leaves)
  {
    hide Pow10, Market.Price, Market.Quantity;
    if leaves != [] {
      QuoteIsConserved(market, leaves[1..]);
      var leaf, orders, others := leaves[0], market.ConvertAll(leaves), market.ConvertAll(leaves[1..]);
      assert orders[1..] == others;
      LeafIsConserved(market, leaf);
      assert Worth(orders[0]) == orders[0].price * orders[0].quantity;
      hide Worth;
      SumScales(Worth(orders[0]), TotalWorth(others), Pow10(market.quoteDecimals), market.quoteLotSize,
                leaf.key.limitPrice * leaf.quantity, QuoteLots(leaves[1..]));
    }
  }

  /** So a side with the totals of the converted leaves holds the native amounts of them all. */
  lemma LeavesAreConserved(market: Market, leaves: seq<LeafNode>, book: seq<Level>)
    requires market.Valid()
    requires Total(book) == Total(market.ConvertAll(leaves))
    requires TotalWorth(book) == TotalWorth(market.ConvertAll(leaves))
    ensures Conserves(market, book, leaves)
  {
    hide Pow10, Total, TotalWorth, BaseLots, QuoteLots;
    assert ConservesBase(market, book, leaves) by {
      BaseIsConserved(market, leaves);
    }
    assert ConservesQuote(market, book, leaves) by {
      QuoteIsConserved(market, leaves);
    }
  }

  lemma SumScales(x: real, y: real, unit: real, size: nat, a: nat, b: nat)
    requires x * unit == (size * a) as real && y * unit == (size * b) as real
    ensures (x + y) * unit == (size * (a + b)) as real
  {
    assert size * (a + b) == size * a + size * b;
  }

  /** The stored book of one trading pair. */
  class MarketDataClient {
    var bids: seq<Level>
    var asks: seq<Level>

    constructor ()
      ensures bids == [] && asks == []
    {
      bids, asks := [], [];
    }

    function SideBook(side: Side): seq<Level>
      reads this
    {
      if side == Bid then bids else asks
    }

    /** do_update_book: convert, sort, clear and rebuild one side. */
    method DoUpdateBook(market: Market, side: Side, leaves: seq<LeafNode>)
      requires market.Valid()
      modifies this
      ensures IsBookOf(side, SideBook(side), market.ConvertAll(leaves))
      ensures Conserves(market, if side == Bid then bids else asks, leaves)
      ensures SideBook(Flip(side)) == old(SideBook(Flip(side)))
    {
      hide IsBookOf, Total, TotalWorth, Conserves, BestFirst;
      var orders := market.ConvertAll(leaves);
      var allOrders := SortOrders(side, orders);
      var sideBook := MergeLevels(side, allOrders);
      BookOfRearranged(side, sideBook, allOrders, orders);
      RearrangeKeepsQuantity(allOrders, orders, 0.0);
      LeavesAreConserved(market, leaves, sideBook);
      if side == Bid { bids := sideBook; } else { asks := sideBook; }
    }

    /** An order-book account: list the slab's leaves and rebuild the side from them. */
    method OnOrderbookAccount(market: Market, side: Side, slab: Slab, rootNode: nat, ghost height: nat)
      requires market.Valid() && Finite(slab, rootNode, height)
      modifies this
      ensures IsBookOf(side, SideBook(side), market.ConvertAll(Leaves(slab, rootNode, height)))
      ensures Conserves(market, if side == Bid then bids else asks, Leaves(slab, rootNode, height))
      ensures SideBook(Flip(side)) == old(SideBook(Flip(side)))
    {
      hide IsBookOf, Conserves;
      var leaves := GetLeafNodes(slab, rootNode, height);
      DoUpdateBook(market, side, leaves);
    }
  }

  // ---------------------------------------------------------------- the slab's order and the book's order

  lemma PriceMonotone(market: Market, a: U64, b: U64)
    requires market.Valid() && a <= b
    ensures market.Price(a) <= market.Price(b)
  {
    var q, d := market.quoteLotSize as real, Pow10(market.quoteDecimals) * market.baseLotSize as real;
    var t := Pow10(market.baseDecimals);
    assert d > 0.0;
    assert a as real * q <= b as real * q;
    assert (a as real * q) * t <= (b as real * q) * t;
    DivideMonotone((a as real * q) * t, (b as real * q) * t, d);
  }

  lemma DivideMonotone(x: real, y: real, d: real)
    requires x <= y && d > 0.0
    ensures x / d <= y / d
  {
    assert (x / d) * d == x && (y / d) * d == y;
  }

  /** A well-formed slab already lists asks best first, and bids worst first: the key carries the price on top. */
  lemma TraversalFollowsPrice(market: Market, slab: Slab, rootNode: nat)
    requires market.Valid() && WellFormed(slab, rootNode)
    ensures BestFirst(Ask, market.ConvertAll(Leaves(slab, rootNode, 128)))
    ensures forall i, j :: 0 <= i < j < |Leaves(slab, rootNode, 128)| ==>
              !Before(Bid, market.ConvertAll(Leaves(slab, rootNode, 128))[i].price,
                           market.ConvertAll(Leaves(slab, rootNode, 128))[j].price)
  {
    var leaves := Leaves(slab, rootNode, 128);
    var orders := market.ConvertAll(leaves);
    LeavesAscend(slab, rootNode, 128, 0);
    forall i, j | 0 <= i < j < |orders|
      ensures orders[i].price <= orders[j].price
    {
      assert leaves[i].key.Number() < leaves[j].key.Number();
      PriceMonotone(market, leaves[i].key.limitPrice, leaves[j].key.limitPrice);
    }
  }

  /** Orders of positive size give a book fit for the arbitrage walk. */
  lemma BookIsTradable(side: Side, book: seq<Level>, orders: seq<Level>)
    requires IsBookOf(side, book, orders) && Positive(orders)
    ensures BestFirst(side, book) && Positive(book)
  {
    forall i | 0 <= i < |book|
      ensures book[i].quantity > 0.0
    {
      assert HasPrice(book, book[i].price);
      SomeQuantity(orders, book[i].price);
    }
  }

  lemma {:induction false} SomeQuantity(orders: seq<Level>, p: real)
    requires Positive(orders)
    ensures QuantityAt(orders, p) >= 0.0
    ensures HasPrice(orders, p) ==> QuantityAt(orders, p) > 0.0
  {
    if orders != [] {
      SomeQuantity(orders[1..], p);
      if HasPrice(orders, p) && orders[0].price != p {
        var i :| 0 <= i < |orders| && orders[i].price == p;
        assert orders[1..][i - 1].price == p;
      }
    }
  }
}
