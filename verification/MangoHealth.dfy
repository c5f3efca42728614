/**
 * Account health and the margin it leaves, src/synthfi/Mango: each currency held is valued at a weighted oracle
 * price, and the sum bounds what may be bought. Amounts are exact numbers here.
 */
module MangoHealth {
  /** The quote currency's index; it is worth itself. */
  const QUOTE := 15

  datatype Token = Token(deposits: real, depositIndex: real, borrows: real, borrowIndex: real, unit: real)

  /** Cached oracle price, initial weights, and whether the pair is in the margin basket. */
  datatype Market = Market(price: real, assetWeight: real, liabilityWeight: real, inBasket: bool)

  /** What open orders hold, in whole tokens. */
  datatype Orders = Orders(quoteFree: real, quoteLocked: real, baseFree: real, baseLocked: real)

  datatype Pair = Pair(index: nat, base: nat, orders: Orders)

  /** Reference data: tokens by currency index, markets by pair index, then the pairs and currencies traded. */
  datatype Reference = Reference(numOracles: nat, tokens: seq<Token>, markets: seq<Market>,
                                 pairs: seq<Pair>, currencies: seq<nat>)

  datatype Components = Components(quote: real, spot: seq<real>, price: seq<real>, weight: seq<real>)

  function Abs(x: real): real {
    if x < 0.0 then -x else x
  }

  /** The first pair with this base currency. */
  function PairOf(pairs: seq<Pair>, currency: nat): (k: nat)
    ensures k <= |pairs| && (k < |pairs| ==> pairs[k].base == currency)
    ensures forall i :: 0 <= i < k ==> pairs[i].base != currency
  {
    if pairs == [] || pairs[0].base == currency then 0 else 1 + PairOf(pairs[1..], currency)
  }

  /** What the code reads without checking: a token for each currency, a pair and a market for each with an oracle. */
  predicate CurrencyOk(r: Reference, currency: nat) {
    && currency < |r.tokens| && r.tokens[currency].unit > 0.0
    && (currency < r.numOracles ==>
          && PairOf(r.pairs, currency) < |r.pairs| && r.pairs[PairOf(r.pairs, currency)].index == currency
          && currency < |r.markets| && (r.markets[currency].inBasket ==> r.markets[currency].price != 0.0))
  }

  ghost predicate Valid(r: Reference) {
    forall i :: 0 <= i < |r.currencies| ==> CurrencyOk(r, r.currencies[i])
  }

  // ---------------------------------------------------------------- the specification

  function Position(t: Token): real
    requires t.unit > 0.0
  {
    (t.deposits * t.depositIndex - t.borrows * t.borrowIndex) / t.unit
  }

  /**
   * Equal deposits and borrows at equal indices cancel; a deposit raises the position, and a loan lowers it, by its
   * native units times its index, in whole tokens.
   */
  lemma PositionMoves(t: Token, x: real)
    requires t.unit > 0.0
    ensures t.deposits == t.borrows && t.depositIndex == t.borrowIndex ==> Position(t) == 0.0
    ensures Position(t.(deposits := t.deposits + x)) == Position(t) + x * t.depositIndex / t.unit
    ensures Position(t.(borrows := t.borrows + x)) == Position(t) - x * t.borrowIndex / t.unit
  {
    AddScaled(t.deposits * t.depositIndex - t.borrows * t.borrowIndex, x * t.depositIndex, t.unit);
    AddScaled(t.deposits * t.depositIndex - t.borrows * t.borrowIndex, -(x * t.borrowIndex), t.unit);
    Distribute(t.deposits, x, t.depositIndex);
    Distribute(t.borrows, x, t.borrowIndex);
  }

  lemma AddScaled(a: real, b: real, unit: real)
    requires unit > 0.0
    ensures (a + b) / unit == a / unit + b / unit && (-b) / unit == -(b / unit)
  {
  }

  lemma Distribute(a: real, b: real, c: real)
    ensures (a + b) * c == a * c + b * c
  {
  }

  /** The base position were all bids to fill, and were all asks to fill. */
  function BidsBase(m: Market, o: Orders, position: real): real
    requires m.price != 0.0
  {
    (position + o.quoteLocked) / m.price + o.baseFree + o.baseLocked
  }

  function AsksBase(o: Orders, position: real): real {
    position + o.baseFree
  }

  predicate BidsWorse(m: Market, o: Orders, position: real)
    requires m.price != 0.0
  {
    Abs(BidsBase(m, o, position)) > Abs(AsksBase(o, position))
  }

  /** The base quantity a position counts for: in the basket, the larger of the two cases. */
  function Spot(m: Market, o: Orders, position: real): real
    requires m.inBasket ==> m.price != 0.0
  {
    if !m.inBasket then position
    else if BidsWorse(m, o, position) then BidsBase(m, o, position)
    else AsksBase(o, position)
  }

  /** The quote quantity that goes with it. */
  function QuoteShare(m: Market, o: Orders, position: real): real
    requires m.inBasket ==> m.price != 0.0
  {
    if !m.inBasket then 0.0
    else if BidsWorse(m, o, position) then o.quoteFree
    else o.baseLocked * m.price + o.quoteFree + o.quoteLocked
  }

  /** All that a pair holds, orders included, at the oracle price. */
  function PairWorth(m: Market, o: Orders, position: real): real {
    (position + o.baseFree + o.baseLocked) * m.price + o.quoteFree + o.quoteLocked
  }

  lemma AsksKeepWorth(m: Market, o: Orders, position: real)
    ensures AsksBase(o, position) * m.price + (o.baseLocked * m.price + o.quoteFree + o.quoteLocked)
            == PairWorth(m, o, position)
  {
    Distribute(position + o.baseFree, o.baseLocked, m.price);
  }

  lemma BidsMoveWorth(m: Market, o: Orders, position: real)
    requires m.price != 0.0
    ensures BidsBase(m, o, position) * m.price + o.quoteFree
            == PairWorth(m, o, position) - position * m.price + position
  {
    var p, q := m.price, (position + o.quoteLocked) / m.price;
    DivideBack(position + o.quoteLocked, p);
    Distribute(q, o.baseFree + o.baseLocked, p);
    Distribute(position, o.baseFree + o.baseLocked, p);
    assert BidsBase(m, o, position) == q + (o.baseFree + o.baseLocked);
    assert PairWorth(m, o, position) == (position + (o.baseFree + o.baseLocked)) * p + o.quoteFree + o.quoteLocked;
  }

  /**
   * Orders filled at the oracle price should leave what the pair is worth as it was. The asks do; the bids do exactly
   * when the price, by which the position is divided, makes no difference to it.
   */
  lemma FillsKeepWorth(m: Market, o: Orders, position: real)
    requires m.inBasket && m.price != 0.0
    ensures Spot(m, o, position) * m.price + QuoteShare(m, o, position) == PairWorth(m, o, position) <==>
            !BidsWorse(m, o, position) || position == 0.0 || m.price == 1.0
  {
    SameScaled(position, m.price);
    if BidsWorse(m, o, position) {
      BidsMoveWorth(m, o, position);
      Shift(BidsBase(m, o, position) * m.price + o.quoteFree, PairWorth(m, o, position), position * m.price, position);
    } else {
      AsksKeepWorth(m, o, position);
    }
    hide BidsBase, AsksBase, PairWorth, BidsWorse;
  }

  lemma Shift(a: real, b: real, x: real, y: real)
    requires a == b - x + y
    ensures a == b <==> x == y
  {
  }

  lemma DivideBack(x: real, p: real)
    requires p != 0.0
    ensures x / p * p == x
  {
  }

  lemma SameScaled(x: real, p: real)
    ensures x * p == x <==> x == 0.0 || p == 1.0
  {
    if x > 0.0 {
      if p < 1.0 { assert x * (1.0 - p) > 0.0; }
      if p > 1.0 { assert x * (p - 1.0) > 0.0; }
    } else if x < 0.0 {
      if p < 1.0 { assert (-x) * (1.0 - p) > 0.0; }
      if p > 1.0 { assert (-x) * (p - 1.0) > 0.0; }
    }
  }

  function Weight(m: Market, spot: real): real {
    if spot > 0.0 then m.assetWeight else m.liabilityWeight
  }

  /** A currency's part of the quote component. */
  function QuotePart(r: Reference, currency: nat, position: real): real
    requires CurrencyOk(r, currency)
  {
    if currency < r.numOracles then
      QuoteShare(r.markets[currency], r.pairs[PairOf(r.pairs, currency)].orders, position)
    else if currency == 15 then position
    else 0.0
  }

  function SpotOf(r: Reference, currency: nat, position: real): real
    requires CurrencyOk(r, currency) && currency < r.numOracles
  {
    Spot(r.markets[currency], r.pairs[PairOf(r.pairs, currency)].orders, position)
  }

  /** A currency's weighted value at the oracle price. */
  function SpotPart(r: Reference, currency: nat, position: real): real
    requires CurrencyOk(r, currency)
  {
    if currency < r.numOracles then
      var m, spot := r.markets[currency], SpotOf(r, currency, position);
      spot * m.price * Weight(m, spot)
    else 0.0
  }

  function QuoteSum(r: Reference, positions: seq<real>, n: nat): real
    requires Valid(r) && n <= |r.currencies| <= |positions|
  {
    if n == 0 then 0.0 else QuoteSum(r, positions, n - 1) + QuotePart(r, r.currencies[n - 1], positions[n - 1])
  }

  function SpotSum(r: Reference, positions: seq<real>, n: nat): real
    requires Valid(r) && n <= |r.currencies| <= |positions|
  {
    if n == 0 then 0.0 else SpotSum(r, positions, n - 1) + SpotPart(r, r.currencies[n - 1], positions[n - 1])
  }

  /** Health: what all currencies are worth. */
  function Health(r: Reference, positions: seq<real>): real
    requires Valid(r) && |r.currencies| <= |positions|
  {
    QuoteSum(r, positions, |r.currencies|) + SpotSum(r, positions, |r.currencies|)
  }

  /** No currency is listed twice. */
  ghost predicate Distinct(r: Reference) {
    forall i, j :: 0 <= i < j < |r.currencies| ==> r.currencies[i] != r.currencies[j]
  }

  /** Currencies listed twice are listed with one position, as positions taken from the accounts always are. */
  ghost predicate Agree(r: Reference, positions: seq<real>)
    requires |positions| == |r.currencies|
  {
    forall i, j :: 0 <= i < j < |r.currencies| && r.currencies[i] == r.currencies[j] ==> positions[i] == positions[j]
  }

  /** Currency `i` is not listed again before place `n`. */
  ghost predicate LastIn(r: Reference, i: nat, n: nat)
    requires i < n <= |r.currencies|
  {
    forall j :: i < j < n ==> r.currencies[j] != r.currencies[i]
  }

  /** After `n` turns: the quote parts summed, and at the pair of each currency with an oracle its last terms. */
  ghost predicate Written(r: Reference, positions: seq<real>, n: nat, c: Components)
    requires Valid(r) && n <= |r.currencies| <= |positions|
  {
    && |c.spot| == |c.price| == |c.weight| == |r.pairs|
    && c.quote == QuoteSum(r, positions, n)
    && forall i :: 0 <= i < n && r.currencies[i] < r.numOracles && LastIn(r, i, n) ==>
         FilledAt(r, r.currencies[i], positions[i], c)
  }

  /** The component vectors hold, at the pair of every currency with an oracle, its terms. */
  ghost predicate Filled(r: Reference, positions: seq<real>, c: Components)
    requires Valid(r) && |r.currencies| <= |positions|
  {
    && |c.spot| == |c.price| == |c.weight| == |r.pairs|
    && c.quote == QuoteSum(r, positions, |r.currencies|)
    && forall i :: 0 <= i < |r.currencies| && r.currencies[i] < r.numOracles ==>
         FilledAt(r, r.currencies[i], positions[i], c)
  }

  predicate FilledAt(r: Reference, currency: nat, position: real, c: Components)
    requires CurrencyOk(r, currency) && currency < r.numOracles && |c.spot| == |c.price| == |c.weight| == |r.pairs|
  {
    var k := PairOf(r.pairs, currency);
    && c.spot[k] == SpotOf(r, currency, position)
    && c.price[k] == r.markets[currency].price
    && c.weight[k] == Weight(r.markets[currency], SpotOf(r, currency, position))
  }

  /** Nothing was written for a pair whose base currency is not listed. */
  ghost predicate RestZero(r: Reference, n: nat, c: Components)
    requires |c.spot| == |c.price| == |c.weight| == |r.pairs| && n <= |r.currencies|
  {
    forall k :: 0 <= k < |r.pairs|
                && (forall i :: 0 <= i < n && r.currencies[i] < r.numOracles ==> PairOf(r.pairs, r.currencies[i]) != k)
                ==> c.spot[k] == c.price[k] == c.weight[k] == 0.0
  }

  // ---------------------------------------------------------------- the loops

  /** The linear search of the two loops. */
  method FindPair(pairs: seq<Pair>, currency: nat) returns (k: nat)
    ensures k == PairOf(pairs, currency)
  {
    k := 0;
    while k < |pairs| && pairs[k].base != currency
      invariant k <= |pairs| && forall i :: 0 <= i < k ==> pairs[i].base != currency
    {
      k := k + 1;
    }
  }

  method GetPositionComponent(r: Reference) returns (positions: seq<real>)
    requires Valid(r)
    ensures |positions| == |r.currencies|
    ensures forall i :: 0 <= i < |positions| ==> positions[i] == Position(r.tokens[r.currencies[i]])
  {
    positions := [];
    for i := 0 to |r.currencies|
      invariant |positions| == i
      invariant forall j :: 0 <= j < i ==> positions[j] == Position(r.tokens[r.currencies[j]])
    {
      var t := r.tokens[r.currencies[i]];
      positions := positions + [(t.deposits * t.depositIndex - t.borrows * t.borrowIndex) / t.unit];
    }
  }

  /** One turn's search and arithmetic for a currency with an oracle. */
  method Evaluate(m: Market, o: Orders, position: real) returns (quote: real, spot: real, weight: real)
    requires m.inBasket ==> m.price != 0.0
    ensures quote == QuoteShare(m, o, position) && spot == Spot(m, o, position) && weight == Weight(m, spot)
  {
    quote := 0.0;
    if m.inBasket {
      var bids := (position + o.quoteLocked) / m.price + o.baseFree + o.baseLocked;
      var asks := position + o.baseFree;
      if Abs(bids) > Abs(asks) {
        spot := bids;
        quote := o.quoteFree;
      } else {
        spot := asks;
        quote := o.baseLocked * m.price + o.quoteFree + o.quoteLocked;
      }
    } else {
      spot := position;
    }
    weight := if spot > 0.0 then m.assetWeight else m.liabilityWeight;
  }

  method GetHealthComponents(r: Reference, positions: seq<real>) returns (c: Components)
    requires Valid(r) && |positions| == |r.currencies|
    ensures Written(r, positions, |r.currencies|, c) && RestZero(r, |r.currencies|, c)
    ensures Agree(r, positions) ==> Filled(r, positions, c)
  {
    hide Spot, QuoteShare, Weight, Written, RestZero, Filled, Agree;
    var quote := 0.0;
    var zeros := seq(|r.pairs|, _ => 0.0);
    var spot, price, weight := zeros, zeros, zeros;
    NothingFilled(r, positions, Components(quote, spot, price, weight));
    for i := 0 to |r.currencies|
      invariant |spot| == |price| == |weight| == |r.pairs|
      invariant Written(r, positions, i, Components(quote, spot, price, weight))
      invariant RestZero(r, i, Components(quote, spot, price, weight))
    {
      var currency := r.currencies[i];
      ghost var before := Components(quote, spot, price, weight);
      if currency < r.numOracles {
        var k := FindPair(r.pairs, currency);
        var m := r.markets[r.pairs[k].index];
        var share, base, w := Evaluate(m, r.pairs[k].orders, positions[i]);
        quote := quote + share;
        spot, price, weight := spot[k := base], price[k := m.price], weight[k := w];
        WriteFills(r, positions, i, before, Components(quote, spot, price, weight));
      } else {
        if currency == QUOTE {
          quote := quote + positions[i];
        }
        QuoteFills(r, positions, i, before, Components(quote, spot, price, weight));
      }
    }
    c := Components(quote, spot, price, weight);
    if Agree(r, positions) { WrittenIsFilled(r, positions, c); }
  }

  /** The last place before `n` where the currency of place `i` is listed. */
  lemma {:induction false} LastPlace(r: Reference, i: nat, n: nat) returns (k: nat)
    requires i < n <= |r.currencies|
    ensures i <= k < n && r.currencies[k] == r.currencies[i] && LastIn(r, k, n)
    decreases n - i
  {
    k := i;
    if j :| i < j < n && r.currencies[j] == r.currencies[i] {
      k := LastPlace(r, j, n);
    }
  }

  lemma WrittenIsFilled(r: Reference, positions: seq<real>, c: Components)
    requires Valid(r) && |positions| == |r.currencies| && Agree(r, positions)
    requires Written(r, positions, |r.currencies|, c)
    ensures Filled(r, positions, c)
  {
    hide FilledAt, QuoteSum, LastIn;
    forall i | 0 <= i < |r.currencies| && r.currencies[i] < r.numOracles
      ensures FilledAt(r, r.currencies[i], positions[i], c)
    {
      var k := LastPlace(r, i, |r.currencies|);
      assert positions[k] == positions[i];
    }
  }

  lemma NothingFilled(r: Reference, positions: seq<real>, c: Components)
    requires Valid(r) && |positions| == |r.currencies| && |c.spot| == |c.price| == |c.weight| == |r.pairs|
    requires c.quote == 0.0 && forall k :: 0 <= k < |r.pairs| ==> c.spot[k] == c.price[k] == c.weight[k] == 0.0
    ensures Written(r, positions, 0, c) && RestZero(r, 0, c)
  {
  }

  lemma QuoteFills(r: Reference, positions: seq<real>, i: nat, c: Components, d: Components)
    requires Valid(r) && i < |r.currencies| == |positions| && r.currencies[i] >= r.numOracles
    requires |c.spot| == |c.price| == |c.weight| == |r.pairs|
    requires Written(r, positions, i, c) && RestZero(r, i, c)
    requires d == c.(quote := c.quote + QuotePart(r, r.currencies[i], positions[i]))
    ensures Written(r, positions, i + 1, d) && RestZero(r, i + 1, d)
  {
    hide QuotePart, SpotOf, Weight;
    forall j | 0 <= j < i + 1 && r.currencies[j] < r.numOracles && LastIn(r, j, i + 1)
      ensures FilledAt(r, r.currencies[j], positions[j], d)
    {
      assert LastIn(r, j, i);
      assert FilledAt(r, r.currencies[j], positions[j], c);
    }
  }

  /** Only the pair of currency `i` was written. */
  ghost predicate WroteAt(r: Reference, i: nat, c: Components, d: Components)
    requires i < |r.currencies| && CurrencyOk(r, r.currencies[i]) && r.currencies[i] < r.numOracles
    requires |c.spot| == |c.price| == |c.weight| == |r.pairs| && |d.spot| == |d.price| == |d.weight| == |r.pairs|
  {
    forall k :: 0 <= k < |r.pairs| && k != PairOf(r.pairs, r.currencies[i]) ==>
      d.spot[k] == c.spot[k] && d.price[k] == c.price[k] && d.weight[k] == c.weight[k]
  }

  lemma LastBefore(r: Reference, j: nat, i: nat)
    requires j < i < |r.currencies| && LastIn(r, j, i + 1)
    ensures LastIn(r, j, i) && r.currencies[j] != r.currencies[i]
  {
  }

  /** Writing one currency's terms leaves those of all other currencies, which have other pairs. */
  lemma WriteFills(r: Reference, positions: seq<real>, i: nat, c: Components, d: Components)
    requires Valid(r) && i < |r.currencies| == |positions| && r.currencies[i] < r.numOracles
    requires Written(r, positions, i, c) && RestZero(r, i, c)
    requires |d.spot| == |d.price| == |d.weight| == |r.pairs| && FilledAt(r, r.currencies[i], positions[i], d)
    requires d.quote == c.quote + QuotePart(r, r.currencies[i], positions[i]) && WroteAt(r, i, c, d)
    ensures Written(r, positions, i + 1, d) && RestZero(r, i + 1, d)
  {
    hide QuotePart, SpotOf, Weight, LastIn, RestZero;
    forall j | 0 <= j < i && r.currencies[j] < r.numOracles && LastIn(r, j, i + 1)
      ensures FilledAt(r, r.currencies[j], positions[j], d)
    {
      LastBefore(r, j, i);
      assert FilledAt(r, r.currencies[j], positions[j], c);
      assert PairOf(r.pairs, r.currencies[j]) != PairOf(r.pairs, r.currencies[i]);
    }
    WriteLeavesZero(r, i, c, d);
  }

  lemma WriteLeavesZero(r: Reference, i: nat, c: Components, d: Components)
    requires Valid(r) && i < |r.currencies| && r.currencies[i] < r.numOracles
    requires |c.spot| == |c.price| == |c.weight| == |r.pairs| && |d.spot| == |d.price| == |d.weight| == |r.pairs|
    requires RestZero(r, i, c) && WroteAt(r, i, c, d)
    ensures RestZero(r, i + 1, d)
  {
    hide CurrencyOk;
    forall k | 0 <= k < |r.pairs|
               && (forall j :: 0 <= j < i + 1 && r.currencies[j] < r.numOracles ==> PairOf(r.pairs, r.currencies[j]) != k)
      ensures d.spot[k] == d.price[k] == d.weight[k] == 0.0
    {
      assert k != PairOf(r.pairs, r.currencies[i]);
    }
  }

  method GetHealthFromComponents(r: Reference, c: Components, ghost positions: seq<real>) returns (health: real)
    requires Valid(r) && |positions| == |r.currencies| && Filled(r, positions, c)
    ensures health == Health(r, positions)
  {
    hide QuoteSum, QuotePart, SpotOf, Weight;
    health := c.quote;
    for i := 0 to |r.currencies|
      invariant health == c.quote + SpotSum(r, positions, i)
    {
      var currency := r.currencies[i];
      if currency < r.numOracles {
        var k := FindPair(r.pairs, currency);
        assert FilledAt(r, currency, positions[i], c);
        health := health + c.spot[k] * c.price[k] * c.weight[k];
      }
    }
  }

  // ---------------------------------------------------------------- the wallet

  function Positions(r: Reference): seq<real>
    requires Valid(r)
  {
    seq(|r.currencies|, i requires 0 <= i < |r.currencies| => Position(r.tokens[r.currencies[i]]))
  }

  /** The weight that currency `i` gets. */
  function WeightHere(r: Reference, positions: seq<real>, i: nat): real
    requires Valid(r) && i < |r.currencies| <= |positions| && r.currencies[i] < r.numOracles
  {
    Weight(r.markets[r.currencies[i]], SpotOf(r, r.currencies[i], positions[i]))
  }

  /** What the source asserts before it divides. */
  ghost predicate Divisible(r: Reference, positions: seq<real>)
    requires Valid(r) && |r.currencies| <= |positions|
  {
    Health(r, positions) > 0.0 ==>
      forall i :: 0 <= i < |r.currencies| && r.currencies[i] < r.numOracles ==> WeightHere(r, positions, i) != 1.0
  }

  /** The quote quantity said to be available for buying currency `i`. */
  function MarginAvailable(r: Reference, positions: seq<real>, i: nat): real
    requires Valid(r) && i < |r.currencies| <= |positions| && r.currencies[i] < r.numOracles
    requires Divisible(r, positions)
  {
    if Health(r, positions) <= 0.0 then 0.0 else Health(r, positions) / (1.0 - WeightHere(r, positions, i))
  }

  predicate Listed(r: Reference, k: nat)
    requires Valid(r)
  {
    exists i :: 0 <= i < |r.currencies| && r.currencies[i] < r.numOracles && PairOf(r.pairs, r.currencies[i]) == k
  }

  /** The wallet client: `do_update_positions` rewrites both vectors from the reference data. */
  class MangoWalletClient {
    var reference: Reference
    var positions: seq<real>
    var marginAvailable: seq<real>

    constructor (reference: Reference)
      ensures this.reference == reference
      ensures |positions| == |reference.currencies| && |marginAvailable| == |reference.pairs|
    {
      this.reference := reference;
      positions := seq(|reference.currencies|, _ => 0.0);
      marginAvailable := seq(|reference.pairs|, _ => 0.0);
    }

    method UpdatePositions()
      requires Valid(reference) && Divisible(reference, Positions(reference))
      modifies this`positions, this`marginAvailable
      ensures positions == Positions(reference) && |marginAvailable| == |reference.pairs|
      ensures forall i :: 0 <= i < |reference.currencies| && reference.currencies[i] < reference.numOracles ==>
                marginAvailable[PairOf(reference.pairs, reference.currencies[i])]
                == MarginAvailable(reference, positions, i)
      ensures forall k :: 0 <= k < |reference.pairs| && !Listed(reference, k) ==>
                marginAvailable[k] == if Health(reference, positions) <= 0.0 then 0.0 else Health(reference, positions)
    {
      hide Health, SpotOf, Weight, Written, Filled, RestZero, CurrencyOk, MarginAvailable;
      positions := GetPositionComponent(reference);
      assert positions == Positions(reference);
      var c := GetHealthComponents(reference, positions);
      var health := GetHealthFromComponents(reference, c, positions);
      marginAvailable := Margins(reference, positions, c, health);
    }
  }

  method Divide(health: real, weight: seq<real>) returns (margins: seq<real>)
    requires forall k :: 0 <= k < |weight| ==> weight[k] != 1.0
    ensures |margins| == |weight| && forall k :: 0 <= k < |margins| ==> margins[k] == health / (1.0 - weight[k])
  {
    margins := [];
    for k := 0 to |weight|
      invariant |margins| == k && forall n :: 0 <= n < k ==> margins[n] == health / (1.0 - weight[n])
    {
      margins := margins + [health / (1.0 - weight[k])];
    }
  }

  /** The last loop of the update. */
  method Margins(r: Reference, ghost positions: seq<real>, c: Components, health: real) returns (margins: seq<real>)
    requires Valid(r) && |positions| == |r.currencies| && Divisible(r, positions) && health == Health(r, positions)
    requires Filled(r, positions, c) && RestZero(r, |r.currencies|, c)
    ensures |margins| == |r.pairs|
    ensures forall i :: 0 <= i < |r.currencies| && r.currencies[i] < r.numOracles ==>
              margins[PairOf(r.pairs, r.currencies[i])] == MarginAvailable(r, positions, i)
    ensures forall k :: 0 <= k < |r.pairs| && !Listed(r, k) ==> margins[k] == if health <= 0.0 then 0.0 else health
  {
    hide Health, SpotOf, Weight, QuoteSum;
    if health <= 0.0 {
      margins := seq(|r.pairs|, _ => 0.0);
    } else {
      forall k | 0 <= k < |r.pairs| ensures c.weight[k] != 1.0 && (!Listed(r, k) ==> c.weight[k] == 0.0) {
        WeightNotOne(r, positions, c, k);
      }
      margins := Divide(health, c.weight);
      hide RestZero, Listed;
      forall i | 0 <= i < |r.currencies| && r.currencies[i] < r.numOracles
        ensures margins[PairOf(r.pairs, r.currencies[i])] == MarginAvailable(r, positions, i)
      {
        assert FilledAt(r, r.currencies[i], positions[i], c);
      }
    }
  }

  lemma WeightNotOne(r: Reference, positions: seq<real>, c: Components, k: nat)
    requires Valid(r) && |positions| == |r.currencies| && Divisible(r, positions) && Health(r, positions) > 0.0
    requires Filled(r, positions, c) && RestZero(r, |r.currencies|, c) && k < |r.pairs|
    ensures c.weight[k] != 1.0
    ensures !Listed(r, k) ==> c.weight[k] == 0.0
  {
    hide Health, SpotOf, Weight, QuoteSum;
    if Listed(r, k) {
      var i :| 0 <= i < |r.currencies| && r.currencies[i] < r.numOracles && PairOf(r.pairs, r.currencies[i]) == k;
      assert FilledAt(r, r.currencies[i], positions[i], c);
      assert WeightHere(r, positions, i) != 1.0;
    }
  }

  // ---------------------------------------------------------------- what the margin means

  /** Positions after buying currency `b` for `v` of the quote currency `q` at the oracle price. */
  function AfterBuy(r: Reference, positions: seq<real>, b: nat, q: nat, v: real): seq<real>
    requires Buyable(r, positions, b, q)
  {
    positions[b := positions[b] + v / r.markets[r.currencies[b]].price][q := positions[q] - v]
  }

  function HealthAfterBuy(r: Reference, positions: seq<real>, b: nat, q: nat, v: real): real
    requires Buyable(r, positions, b, q)
  {
    Health(r, AfterBuy(r, positions, b, q, v))
  }

  /** A currency with an oracle, and the quote currency to pay with, in a list without repetition. */
  ghost predicate Buyable(r: Reference, positions: seq<real>, b: nat, q: nat) {
    && Valid(r) && Distinct(r) && |positions| == |r.currencies| && b < |r.currencies| && q < |r.currencies|
    && r.currencies[b] < r.numOracles <= r.currencies[q] == QUOTE
    && r.markets[r.currencies[b]].price > 0.0
  }

  ghost predicate BuyableOutside(r: Reference, positions: seq<real>, b: nat, q: nat) {
    Buyable(r, positions, b, q) && !r.markets[r.currencies[b]].inBasket
  }

  lemma {:induction false} SumsChange(r: Reference, positions: seq<real>, i: nat, x: real, n: nat)
    requires Valid(r) && |positions| == |r.currencies| && i < |r.currencies| && n <= |r.currencies|
    ensures QuoteSum(r, positions[i := x], n) == QuoteSum(r, positions, n)
              + if i < n then QuotePart(r, r.currencies[i], x) - QuotePart(r, r.currencies[i], positions[i]) else 0.0
    ensures SpotSum(r, positions[i := x], n) == SpotSum(r, positions, n)
              + if i < n then SpotPart(r, r.currencies[i], x) - SpotPart(r, r.currencies[i], positions[i]) else 0.0
  {
    hide QuotePart, SpotPart;
    if n > 0 {
      SumsChange(r, positions, i, x, n - 1);
    }
  }

  /** Only the two currencies traded change health. */
  lemma BuyChange(r: Reference, positions: seq<real>, b: nat, q: nat, v: real)
    requires Buyable(r, positions, b, q)
    ensures var x := positions[b] + v / r.markets[r.currencies[b]].price;
            HealthAfterBuy(r, positions, b, q, v)
            == Health(r, positions) - v
               + QuotePart(r, r.currencies[b], x) - QuotePart(r, r.currencies[b], positions[b])
               + SpotPart(r, r.currencies[b], x) - SpotPart(r, r.currencies[b], positions[b])
  {
    var m := r.markets[r.currencies[b]];
    var x := positions[b] + v / m.price;
    var mid := positions[b := x];
    SumsChange(r, positions, b, x, |r.currencies|);
    SumsChange(r, mid, q, positions[q] - v, |r.currencies|);
    hide QuoteSum, SpotSum;
  }

  lemma BoughtValue(p: real, v: real, price: real, w: real)
    requires price > 0.0
    ensures (p + v / price) * price * w == p * price * w + v * w
  {
    assert (p + v / price) * price == p * price + v;
  }

  /** Buying moves health by the part of the price that the weight does not give back. */
  lemma BuyMovesHealth(r: Reference, positions: seq<real>, b: nat, q: nat, v: real)
    requires BuyableOutside(r, positions, b, q) && positions[b] > 0.0 && v >= 0.0
    ensures HealthAfterBuy(r, positions, b, q, v)
            == Health(r, positions) - v * (1.0 - r.markets[r.currencies[b]].assetWeight)
  {
    var m := r.markets[r.currencies[b]];
    BuyChange(r, positions, b, q, v);
    BoughtValue(positions[b], v, m.price, m.assetWeight);
    QuotientSign(v, m.price);
    hide HealthAfterBuy, Health;
  }

  lemma QuotientSign(v: real, price: real)
    requires v >= 0.0 && price > 0.0
    ensures v / price >= 0.0
  {
  }

  /** Buying nothing. */
  lemma BuyNothing(r: Reference, positions: seq<real>, b: nat, q: nat)
    requires BuyableOutside(r, positions, b, q)
    ensures HealthAfterBuy(r, positions, b, q, 0.0) == Health(r, positions)
  {
    assert AfterBuy(r, positions, b, q, 0.0) == positions;
  }

  lemma Bound(health: real, w: real, v: real)
    requires w < 1.0
    ensures health - v * (1.0 - w) >= 0.0 <==> v <= health / (1.0 - w)
  {
    var d := 1.0 - w;
    assert health == health / d * d;
    if v <= health / d {
      assert v * d <= health / d * d;
    } else {
      assert v * d > health / d * d;
    }
  }

  /** The margin is exact: any purchase keeps recomputed health from turning negative just when it is within it. */
  ghost predicate MarginExact(r: Reference, positions: seq<real>, b: nat, q: nat)
    requires Buyable(r, positions, b, q) && Divisible(r, positions)
  {
    forall v :: v >= 0.0 ==> (HealthAfterBuy(r, positions, b, q, v) >= 0.0 <==> v <= MarginAvailable(r, positions, b))
  }

  /**
   * At positive health, the margin of a pair outside the basket whose asset weight is below one is exact when the
   * position is long. When it is not, and the liability weight is above one, the margin is negative, so it is not
   * exact: buying nothing is already too much. MarginExactForShort has the liability weights below one.
   */
  lemma MarginExactForLong(r: Reference, positions: seq<real>, b: nat, q: nat)
    requires BuyableOutside(r, positions, b, q) && Divisible(r, positions) && Health(r, positions) > 0.0
    requires r.markets[r.currencies[b]].assetWeight < 1.0
    ensures positions[b] > 0.0 ==> MarginExact(r, positions, b, q)
    ensures positions[b] <= 0.0 && r.markets[r.currencies[b]].liabilityWeight > 1.0 ==>
              MarginAvailable(r, positions, b) < 0.0 && !MarginExact(r, positions, b, q)
  {
    var m := r.markets[r.currencies[b]];
    if positions[b] > 0.0 {
      forall v | v >= 0.0
        ensures HealthAfterBuy(r, positions, b, q, v) >= 0.0 <==> v <= MarginAvailable(r, positions, b)
      {
        BuyMovesHealth(r, positions, b, q, v);
        Bound(Health(r, positions), m.assetWeight, v);
      }
    } else if m.liabilityWeight > 1.0 {
      BuyNothing(r, positions, b, q);
      NegativeQuotient(Health(r, positions), 1.0 - m.liabilityWeight);
      assert HealthAfterBuy(r, positions, b, q, 0.0) >= 0.0;
    }
  }

  lemma NegativeQuotient(x: real, d: real)
    requires x > 0.0 && d < 0.0
    ensures x / d < 0.0
  {
  }

  lemma Product(a: real, b: real)
    requires a >= 0.0 && b >= 0.0
    ensures a * b >= 0.0
  {
  }

  lemma Owes(p: real, v: real, price: real)
    requires price > 0.0
    ensures p + v / price <= 0.0 <==> v <= -(p * price)
  {
    var x := p + v / price;
    assert x * price == p * price + v;
    if x <= 0.0 {
      assert x * price <= 0.0;
    } else {
      assert x * price > 0.0;
    }
  }

  lemma Cover(owed: real, v: real, wa: real, wl: real)
    requires 0.0 <= v <= owed && wa < 1.0 < wl
    ensures v * (wl - 1.0) >= 0.0
    ensures owed * (wl - wa) >= v * (1.0 - wa)
  {
    Product(v, wl - 1.0);
    Product(owed - v, wl - wa);
    assert owed * (wl - wa) == v * (wl - 1.0) + v * (1.0 - wa) + (owed - v) * (wl - wa);
  }

  /** The change of health when a short position of value `a` takes `v`. */
  lemma ShortArithmetic(a: real, v: real, wa: real, wl: real)
    ensures (a * wl + v * wl) - a * wl - v == v * (wl - 1.0)
    ensures (a * wa + v * wa) - a * wl - v == -a * (wl - wa) - v * (1.0 - wa)
  {
  }

  /** What a position that is not long owes, at the oracle price. */
  function Owed(m: Market, p: real): real {
    -(p * m.price)
  }

  function Gain(owed: real, v: real, wa: real, wl: real): real {
    if v <= owed then v * (wl - 1.0) else owed * (wl - wa) - v * (1.0 - wa)
  }

  /** A position's weighted value outside the basket. */
  function Value(m: Market, p: real): real {
    p * m.price * Weight(m, p)
  }

  lemma SpotPartIsValue(r: Reference, currency: nat, p: real)
    requires CurrencyOk(r, currency) && currency < r.numOracles && !r.markets[currency].inBasket
    ensures SpotPart(r, currency, p) == Value(r.markets[currency], p) && QuotePart(r, currency, p) == 0.0
  {
  }

  lemma ShortValue(m: Market, p: real, v: real)
    requires m.price > 0.0 && p <= 0.0
    ensures Value(m, p + v / m.price) - Value(m, p) - v == Gain(Owed(m, p), v, m.assetWeight, m.liabilityWeight)
  {
    BoughtValue(p, v, m.price, m.assetWeight);
    BoughtValue(p, v, m.price, m.liabilityWeight);
    Owes(p, v, m.price);
    ShortArithmetic(p * m.price, v, m.assetWeight, m.liabilityWeight);
  }

  /** Covering what a short position owes earns health back; only buying past it costs. */
  lemma ShortHealth(r: Reference, positions: seq<real>, b: nat, q: nat, v: real)
    requires BuyableOutside(r, positions, b, q) && positions[b] <= 0.0
    ensures var m := r.markets[r.currencies[b]];
            HealthAfterBuy(r, positions, b, q, v)
            == Health(r, positions) + Gain(Owed(m, positions[b]), v, m.assetWeight, m.liabilityWeight)
  {
    var m, currency, p := r.markets[r.currencies[b]], r.currencies[b], positions[b];
    BuyChange(r, positions, b, q, v);
    SpotPartIsValue(r, currency, p);
    SpotPartIsValue(r, currency, p + v / m.price);
    ShortValue(m, p, v);
    hide HealthAfterBuy, Health, Gain, Value, SpotPart, QuotePart, Owed;
  }

  /** What may be bought while short: health, and what covering gives back, over what buying past it costs. */
  function ShortLimit(health: real, owed: real, wa: real, wl: real): real
    requires wa < 1.0
  {
    (health + owed * (wl - wa)) / (1.0 - wa)
  }

  /** A short position leaves exactly that to buy, not the negative amount reported. */
  lemma ShortMargin(r: Reference, positions: seq<real>, b: nat, q: nat, v: real)
    requires BuyableOutside(r, positions, b, q) && Health(r, positions) > 0.0 && positions[b] <= 0.0 && v >= 0.0
    requires r.markets[r.currencies[b]].assetWeight < 1.0 < r.markets[r.currencies[b]].liabilityWeight
    ensures var m := r.markets[r.currencies[b]];
            HealthAfterBuy(r, positions, b, q, v) >= 0.0
            <==> v <= ShortLimit(Health(r, positions), Owed(m, positions[b]), m.assetWeight, m.liabilityWeight)
  {
    var m := r.markets[r.currencies[b]];
    var owed := Owed(m, positions[b]);
    hide HealthAfterBuy, Health, Gain, ShortLimit, Owed;
    ShortHealth(r, positions, b, q, v);
    GainBound(Health(r, positions), owed, v, m.assetWeight, m.liabilityWeight);
  }

  lemma GainBound(health: real, owed: real, v: real, wa: real, wl: real)
    requires health > 0.0 && v >= 0.0 && wa < 1.0 < wl
    ensures health + Gain(owed, v, wa, wl) >= 0.0 <==> v <= ShortLimit(health, owed, wa, wl)
  {
    Bound(health + owed * (wl - wa), wa, v);
    if v <= owed {
      Cover(owed, v, wa, wl);
    }
  }

  /** The margin at liability weight `wl`, as reported for a short position. */
  function ShortReport(health: real, wl: real): real
    requires wl < 1.0
  {
    health / (1.0 - wl)
  }

  /** Up to what is owed, the reported margin tells. */
  lemma GainCovering(health: real, owed: real, v: real, wa: real, wl: real)
    requires wl < 1.0 && v <= owed
    ensures health + Gain(owed, v, wa, wl) >= 0.0 <==> v <= ShortReport(health, wl)
  {
    Bound(health, wl, v);
  }

  /** Beyond, the other limit does. */
  lemma GainBeyond(health: real, owed: real, v: real, wa: real, wl: real)
    requires wa < 1.0 && v > owed
    ensures health + Gain(owed, v, wa, wl) >= 0.0 <==> v <= ShortLimit(health, owed, wa, wl)
  {
    Bound(health + owed * (wl - wa), wa, v);
  }

  /** How far a limit `x` lies beyond what is owed, times what buying at weight `w` costs. */
  function Excess(x: real, owed: real, w: real): real {
    (x - owed) * (1.0 - w)
  }

  lemma ExcessCompares(x: real, y: real, owed: real, w: real, u: real)
    requires w < 1.0
    ensures Excess(x, owed, w) > 0.0 <==> x > owed
    ensures Excess(x, owed, w) == Excess(y, owed, w) ==> x == y
    ensures x > owed && Excess(x, owed, w) == Excess(x, owed, u) ==> w == u
  {
    ProductSign(x - owed, 1.0 - w);
    ProductSign(x - y, 1.0 - w);
    ProductSign(u - w, x - owed);
    assert (x - y) * (1.0 - w) == Excess(x, owed, w) - Excess(y, owed, w);
    assert (u - w) * (x - owed) == Excess(x, owed, w) - Excess(x, owed, u);
  }

  lemma ProductSign(a: real, b: real)
    ensures b > 0.0 ==> (a * b > 0.0 <==> a > 0.0) && (a * b == 0.0 <==> a == 0.0)
  {
  }

  lemma ExcessesAgree(health: real, owed: real, wa: real, wl: real)
    requires wa < 1.0 && wl < 1.0
    ensures Excess(ShortReport(health, wl), owed, wl) == Excess(ShortLimit(health, owed, wa, wl), owed, wa)
  {
    var report, limit := ShortReport(health, wl), ShortLimit(health, owed, wa, wl);
    assert report * (1.0 - wl) == health;
    assert limit * (1.0 - wa) == health + owed * (wl - wa);
  }

  /** Both limits lie on one side of what is owed, and beyond it they meet only when the weights are the same. */
  lemma LimitsCompare(health: real, owed: real, wa: real, wl: real)
    requires wa < 1.0 && wl < 1.0
    ensures var report, limit := ShortReport(health, wl), ShortLimit(health, owed, wa, wl);
            && (report > owed <==> limit > owed)
            && (report > owed && report == limit ==> wl == wa)
            && (wl == wa ==> report == limit)
  {
    hide Excess, ShortReport, ShortLimit;
    var report, limit := ShortReport(health, wl), ShortLimit(health, owed, wa, wl);
    ExcessesAgree(health, owed, wa, wl);
    ExcessCompares(report, limit, owed, wl, wa);
    ExcessCompares(limit, report, owed, wa, wl);
  }

  /** The report is exact for every purchase when it stays within what is owed, or when the weights agree. */
  lemma ReportExact(health: real, owed: real, v: real, wa: real, wl: real)
    requires wa < 1.0 && wl < 1.0 && (ShortReport(health, wl) <= owed || wl == wa)
    ensures health + Gain(owed, v, wa, wl) >= 0.0 <==> v <= ShortReport(health, wl)
  {
    hide Gain, ShortReport, ShortLimit;
    LimitsCompare(health, owed, wa, wl);
    if v <= owed { GainCovering(health, owed, v, wa, wl); } else { GainBeyond(health, owed, v, wa, wl); }
  }

  /** Otherwise some purchase belies it. */
  lemma ReportWrong(health: real, owed: real, wa: real, wl: real) returns (v: real)
    requires wa < 1.0 && wl < 1.0 && ShortReport(health, wl) > owed && wl != wa
    ensures v > owed && !(health + Gain(owed, v, wa, wl) >= 0.0 <==> v <= ShortReport(health, wl))
  {
    hide Gain, ShortReport, ShortLimit;
    LimitsCompare(health, owed, wa, wl);
    var report, limit := ShortReport(health, wl), ShortLimit(health, owed, wa, wl);
    v := if report > limit then report else limit;
    GainBeyond(health, owed, v, wa, wl);
  }

  lemma ShortReported(r: Reference, positions: seq<real>, b: nat, q: nat)
    requires BuyableOutside(r, positions, b, q) && Divisible(r, positions) && Health(r, positions) > 0.0
    requires positions[b] <= 0.0 && r.markets[r.currencies[b]].liabilityWeight < 1.0
    ensures var m := r.markets[r.currencies[b]];
            MarginAvailable(r, positions, b) == ShortReport(Health(r, positions), m.liabilityWeight)
            && Owed(m, positions[b]) >= 0.0
  {
    hide Health;
    Product(-positions[b], r.markets[r.currencies[b]].price);
  }

  /** At liability weight below one, a short position's margin is exact if and only if it stays within what is owed. */
  lemma MarginExactForShort(r: Reference, positions: seq<real>, b: nat, q: nat)
    requires BuyableOutside(r, positions, b, q) && Divisible(r, positions) && Health(r, positions) > 0.0
    requires r.markets[r.currencies[b]].assetWeight < 1.0 && r.markets[r.currencies[b]].liabilityWeight < 1.0
    requires positions[b] <= 0.0
    ensures var m := r.markets[r.currencies[b]];
            MarginExact(r, positions, b, q) <==>
            MarginAvailable(r, positions, b) <= Owed(m, positions[b]) || m.liabilityWeight == m.assetWeight
  {
    var m, health := r.markets[r.currencies[b]], Health(r, positions);
    var owed, wa, wl := Owed(m, positions[b]), m.assetWeight, m.liabilityWeight;
    ShortReported(r, positions, b, q);
    hide HealthAfterBuy, Health, Gain, ShortReport, MarginAvailable, Owed;
    if ShortReport(health, wl) <= owed || wl == wa {
      forall v | v >= 0.0
        ensures HealthAfterBuy(r, positions, b, q, v) >= 0.0 <==> v <= MarginAvailable(r, positions, b)
      {
        ShortHealth(r, positions, b, q, v);
        ReportExact(health, owed, v, wa, wl);
      }
    } else {
      var v := ReportWrong(health, owed, wa, wl);
      ShortHealth(r, positions, b, q, v);
      assert !(HealthAfterBuy(r, positions, b, q, v) >= 0.0 <==> v <= MarginAvailable(r, positions, b));
    }
  }

  /** The weighted value of a pair in the basket whose asks are the worse case. */
  function AsksValue(m: Market, o: Orders, p: real): real {
    (p + o.baseFree) * m.price * m.assetWeight
  }

  lemma AsksParts(r: Reference, currency: nat, p: real)
    requires CurrencyOk(r, currency) && currency < r.numOracles && r.markets[currency].inBasket
    requires var m, o := r.markets[currency], r.pairs[PairOf(r.pairs, currency)].orders;
             AsksBase(o, p) > 0.0 && !BidsWorse(m, o, p)
    ensures var m, o := r.markets[currency], r.pairs[PairOf(r.pairs, currency)].orders;
            && SpotPart(r, currency, p) == AsksValue(m, o, p)
            && QuotePart(r, currency, p) == o.baseLocked * m.price + o.quoteFree + o.quoteLocked
            && Weight(m, SpotOf(r, currency, p)) == m.assetWeight
  {
  }

  /** What buying costs at an asset weight. */
  function Cost(m: Market, v: real): real {
    v * (1.0 - m.assetWeight)
  }

  lemma AsksBought(m: Market, o: Orders, p: real, v: real)
    requires m.price > 0.0
    ensures AsksValue(m, o, p + v / m.price) == AsksValue(m, o, p) + v - Cost(m, v)
  {
    assert Cost(m, v) == v - v * m.assetWeight;
    BoughtValue(p + o.baseFree, v, m.price, m.assetWeight);
    assert p + v / m.price + o.baseFree == p + o.baseFree + v / m.price;
  }

  /** A pair in the basket, long, with the asks its worse case at position `p`. */
  predicate AsksLead(m: Market, o: Orders, p: real) {
    m.inBasket && m.price > 0.0 && AsksBase(o, p) > 0.0 && !BidsWorse(m, o, p)
  }

  /** The same with the bids its worse case. */
  predicate BidsLead(m: Market, o: Orders, p: real) {
    m.inBasket && m.price > 0.0 && BidsBase(m, o, p) > 0.0 && BidsWorse(m, o, p)
  }

  predicate AsksLeadAfter(m: Market, o: Orders, p: real, v: real) {
    m.price > 0.0 && AsksLead(m, o, p + v / m.price)
  }

  predicate BidsLeadAfter(m: Market, o: Orders, p: real, v: real) {
    m.price > 0.0 && BidsLead(m, o, p + v / m.price)
  }

  /** In the basket, with a price of at least one: once the asks are the worse case, buying keeps them so. */
  lemma AsksStayWorse(m: Market, o: Orders, p: real, v: real)
    requires m.price >= 1.0 && v >= 0.0 && AsksLead(m, o, p)
    ensures AsksLeadAfter(m, o, p, v)
  {
    var d := v / m.price;
    QuotientSign(v, m.price);
    assert (p + d + o.quoteLocked) / m.price == (p + o.quoteLocked) / m.price + d / m.price;
    QuotientSign(d, m.price);
    assert d / m.price <= d;
  }

  function OrdersOf(r: Reference, currency: nat): Orders
    requires CurrencyOk(r, currency) && currency < r.numOracles
  {
    r.pairs[PairOf(r.pairs, currency)].orders
  }

  /** Buying while the asks lead, at whatever price, moves health as outside the basket. */
  lemma AsksMoveHealth(r: Reference, positions: seq<real>, b: nat, q: nat, v: real)
    requires Buyable(r, positions, b, q)
    requires var m, o := r.markets[r.currencies[b]], OrdersOf(r, r.currencies[b]);
             AsksLead(m, o, positions[b]) && AsksLeadAfter(m, o, positions[b], v)
    ensures HealthAfterBuy(r, positions, b, q, v) == Health(r, positions) - Cost(r.markets[r.currencies[b]], v)
    ensures WeightHere(r, positions, b) == r.markets[r.currencies[b]].assetWeight
  {
    var currency, p := r.currencies[b], positions[b];
    var m, o := r.markets[currency], OrdersOf(r, currency);
    hide HealthAfterBuy, Health, SpotPart, QuotePart, BidsWorse, AsksValue, SpotOf, AsksBase, Weight, Cost;
    BuyChange(r, positions, b, q, v);
    AsksParts(r, currency, p);
    AsksParts(r, currency, p + v / m.price);
    AsksBought(m, o, p, v);
  }

  lemma CostBound(m: Market, health: real, v: real)
    requires m.assetWeight < 1.0
    ensures health - Cost(m, v) >= 0.0 <==> v <= health / (1.0 - m.assetWeight)
  {
    Bound(health, m.assetWeight, v);
  }

  lemma MarginWhileAsksLead(r: Reference, positions: seq<real>, b: nat, q: nat, v: real)
    requires Buyable(r, positions, b, q) && Divisible(r, positions) && Health(r, positions) > 0.0
    requires var m, o := r.markets[r.currencies[b]], OrdersOf(r, r.currencies[b]);
             AsksLead(m, o, positions[b]) && AsksLeadAfter(m, o, positions[b], v) && m.assetWeight < 1.0
    ensures HealthAfterBuy(r, positions, b, q, v) >= 0.0 <==> v <= MarginAvailable(r, positions, b)
  {
    hide HealthAfterBuy, Health, AsksLead, WeightHere, Cost;
    AsksMoveHealth(r, positions, b, q, v);
    CostBound(r.markets[r.currencies[b]], Health(r, positions), v);
  }

  /** So the margin is exact for every purchase after which they still lead, at a price of at least one for all. */
  lemma MarginExactInBasket(r: Reference, positions: seq<real>, b: nat, q: nat)
    requires Buyable(r, positions, b, q) && Divisible(r, positions) && Health(r, positions) > 0.0
    requires r.markets[r.currencies[b]].assetWeight < 1.0
    requires AsksLead(r.markets[r.currencies[b]], OrdersOf(r, r.currencies[b]), positions[b])
    ensures var m, o := r.markets[r.currencies[b]], OrdersOf(r, r.currencies[b]);
            forall v :: v >= 0.0 && AsksLeadAfter(m, o, positions[b], v) ==>
              (HealthAfterBuy(r, positions, b, q, v) >= 0.0 <==> v <= MarginAvailable(r, positions, b))
    ensures r.markets[r.currencies[b]].price >= 1.0 ==> MarginExact(r, positions, b, q)
  {
    var m, o, p := r.markets[r.currencies[b]], OrdersOf(r, r.currencies[b]), positions[b];
    hide HealthAfterBuy, Health, AsksLead, AsksLeadAfter, WeightHere, MarginAvailable;
    forall v | v >= 0.0 && AsksLeadAfter(m, o, p, v)
      ensures HealthAfterBuy(r, positions, b, q, v) >= 0.0 <==> v <= MarginAvailable(r, positions, b)
    {
      MarginWhileAsksLead(r, positions, b, q, v);
    }
    if m.price >= 1.0 {
      forall v | v >= 0.0
        ensures AsksLeadAfter(m, o, p, v)
      {
        AsksStayWorse(m, o, p, v);
      }
    }
  }

  /** The weighted value of a pair in the basket whose bids are the worse case. */
  function BidsValue(m: Market, o: Orders, p: real): real
    requires m.price != 0.0
  {
    BidsBase(m, o, p) * m.price * m.assetWeight
  }

  lemma BidsParts(r: Reference, currency: nat, p: real)
    requires CurrencyOk(r, currency) && currency < r.numOracles
    requires BidsLead(r.markets[currency], OrdersOf(r, currency), p)
    ensures var m, o := r.markets[currency], OrdersOf(r, currency);
            && SpotPart(r, currency, p) == BidsValue(m, o, p) && QuotePart(r, currency, p) == o.quoteFree
            && Weight(m, SpotOf(r, currency, p)) == m.assetWeight
  {
  }

  /** What the bids' case gives back of a purchase: the weight over the price of it. */
  function Credit(m: Market, v: real): real
    requires m.price != 0.0
  {
    v * (m.assetWeight / m.price)
  }

  /** The position enters the bids' case divided by the price, and so does what is bought. */
  lemma BidsBought(m: Market, o: Orders, p: real, v: real)
    requires m.price > 0.0
    ensures BidsValue(m, o, p + v / m.price) == BidsValue(m, o, p) + Credit(m, v)
  {
    var price, w, d := m.price, m.assetWeight, v / m.price;
    assert BidsBase(m, o, p + d) == BidsBase(m, o, p) + d / price;
    BoughtValue(BidsBase(m, o, p), d, price, w);
    assert d * w == v * (w / price);
  }

  /** Buying while the bids lead moves health by the weight over the price. */
  lemma BidsMoveHealth(r: Reference, positions: seq<real>, b: nat, q: nat, v: real)
    requires Buyable(r, positions, b, q)
    requires var m, o := r.markets[r.currencies[b]], OrdersOf(r, r.currencies[b]);
             BidsLead(m, o, positions[b]) && BidsLeadAfter(m, o, positions[b], v)
    ensures var m := r.markets[r.currencies[b]];
            HealthAfterBuy(r, positions, b, q, v) == Health(r, positions) - v + Credit(m, v)
    ensures WeightHere(r, positions, b) == r.markets[r.currencies[b]].assetWeight
  {
    var currency, p := r.currencies[b], positions[b];
    var m, o := r.markets[currency], OrdersOf(r, currency);
    hide HealthAfterBuy, Health, SpotPart, QuotePart, BidsWorse, BidsBase, BidsValue, SpotOf, Weight, Credit;
    BuyChange(r, positions, b, q, v);
    BidsParts(r, currency, p);
    BidsParts(r, currency, p + v / m.price);
    BidsBought(m, o, p, v);
  }

  /**
   * So, for every purchase after which the bids still lead, the margin tells if and only if the purchase is within
   * both limits or beyond both: that by the weight, and that by the weight over the price.
   */
  lemma MarginWhileBidsLead(r: Reference, positions: seq<real>, b: nat, q: nat, v: real)
    requires Buyable(r, positions, b, q) && Divisible(r, positions) && Health(r, positions) > 0.0
    requires var m, o := r.markets[r.currencies[b]], OrdersOf(r, r.currencies[b]);
             BidsLead(m, o, positions[b]) && BidsLeadAfter(m, o, positions[b], v) && m.assetWeight < 1.0
    ensures var m, health := r.markets[r.currencies[b]], Health(r, positions);
            (HealthAfterBuy(r, positions, b, q, v) >= 0.0 <==> v <= MarginAvailable(r, positions, b)) <==>
            (v - Credit(m, v) <= health <==> v * (1.0 - m.assetWeight) <= health)
  {
    hide HealthAfterBuy, Health, BidsWorse, BidsBase, WeightHere, Credit;
    BidsMoveHealth(r, positions, b, q, v);
    Bound(Health(r, positions), r.markets[r.currencies[b]].assetWeight, v);
  }
}
