/** The take strategy: books per trading pair, the matching loop, and the decision to send one order. */
module TakeStrategy {
  import opened Trading
  import opened ArbitrageWalk
  import opened ArbitrageReport
  import opened CrossedBooks

  datatype Book = Book(bids: seq<Level>, asks: seq<Level>) {
    function Get(side: Side): seq<Level> {
      if side == Bid then bids else asks
    }
  }

  /** The stored books, one of each venue per trading pair. */
  datatype Books = Books(serum: seq<Book>, ftx: seq<Book>) {
    /** The sides a book update compares: Serum's `side` against the opposite side of FTX. */
    function VenuesOf(pair: nat, side: Side): Venues
      requires pair < |serum| == |ftx|
    {
      Venues(side, serum[pair].Get(side), ftx[pair].Get(Flip(side)))
    }
  }

  /** The configured limits, and the number that the decimal type gives for zero divided by zero. */
  datatype Limits = Limits(maxUsdTradeSize: real, minUsdTradeProfit: real, zeroByZero: real) {
    /** The size limit: the maximum divided by itself. */
    function MaxQuantity(): real {
      if maxUsdTradeSize == 0.0 then zeroByZero else 1.0
    }
  }

  datatype Order = Order(price: real, quantity: real, side: Side, pair: nat)

  /** The price of the last Serum level matched, 0 when nothing was. */
  function TradePrice(v: Venues): real {
    var fills := Match(v);
    if fills == [] then 0.0 else v.serum[fills[|fills| - 1].i].price
  }

  /** The order an idle strategy sends for a pair of opposite sides, if any. */
  function Decide(v: Venues, pair: nat, limits: Limits): Option<Order> {
    if v.serum == [] || v.ftx == [] || ReportedProfit(v, Match(v)) < limits.minUsdTradeProfit then None
    else Some(Order(TradePrice(v), Min(ReportedVolume(v, Match(v)), limits.MaxQuantity()), v.side, pair))
  }

  /** The source's exit test: the pair no longer pays after both fees. */
  predicate Unprofitable(side: Side, serum: Level, ftx: Level, serumFee: real, ftxFee: real) {
    if side == Bid then serum.price - serumFee <= ftx.price + ftxFee
    else serum.price + serumFee >= ftx.price - ftxFee
  }

  /** The source's profit term for one step. */
  function StepProfit(side: Side, serum: Level, ftx: Level, serumFee: real, ftxFee: real, levelSize: real): real {
    if side == Bid then (serum.price - (ftx.price + ftxFee + serumFee)) * levelSize
    else (ftx.price - (serum.price + ftxFee + serumFee)) * levelSize
  }

  function SerumFee(level: Level): real {
    level.price * SERUM_TAKER_FEE
  }

  function FtxFee(level: Level): real {
    level.price * FTX_TAKER_FEE
  }

  /** What one step adds to the reported profit. */
  function Reported(v: Venues, i: nat, j: nat): real
    requires i < |v.serum| && j < |v.ftx|
  {
    v.Margin(i, j) * v.LevelSize(i, j)
  }

  lemma StepTests(v: Venues, i: nat, j: nat, levelSize: real)
    requires i < |v.serum| && j < |v.ftx| && levelSize == Min(v.serum[i].quantity, v.ftx[j].quantity)
    ensures var serumFee, ftxFee := SerumFee(v.serum[i]), FtxFee(v.ftx[j]);
            && (Unprofitable(v.side, v.serum[i], v.ftx[j], serumFee, ftxFee) <==> v.Margin(i, j) <= 0.0)
            && StepProfit(v.side, v.serum[i], v.ftx[j], serumFee, ftxFee, levelSize) == Reported(v, i, j)
    ensures levelSize == v.LevelSize(i, j)
  {
  }

  /** Totals accumulated over `done`, with `rest` still to come. */
  ghost predicate Accounts(v: Venues, done: seq<Fill>, rest: seq<Fill>, arb: real, profit: real, price: real) {
    && Indexed(v, done) && Indexed(v, rest)
    && arb + ReportedVolume(v, rest) == ReportedVolume(v, Match(v))
    && profit + ReportedProfit(v, rest) == ReportedProfit(v, Match(v))
    && done + rest == Match(v)
    && price == if done == [] then 0.0 else v.serum[done[|done| - 1].i].price
  }

  lemma AccountsStep(v: Venues, done: seq<Fill>, f: Fill, rest: seq<Fill>, arb: real, profit: real, price: real)
    requires Accounts(v, done, [f] + rest, arb, profit, price)
    ensures f.i < |v.serum| && f.j < |v.ftx|
    ensures Accounts(v, done + [f], rest, arb + v.LevelSize(f.i, f.j), profit + Reported(v, f.i, f.j),
                     v.serum[f.i].price)
  {
    hide Venues.Margin, Venues.LevelSize, Match;
    assert ([f] + rest)[0] == f && ([f] + rest)[1..] == rest;
    assert done + [f] + rest == done + ([f] + rest);
    assert forall k :: 0 <= k < |rest| ==> rest[k] == ([f] + rest)[k + 1];
  }

  lemma AccountsStart(v: Venues)
    ensures Accounts(v, [], Walk(v, Start(v)), 0.0, 0.0, 0.0)
  {
    assert [] + Match(v) == Match(v);
  }

  /** A step of the walk, or its end. */
  lemma WalkStep(v: Venues, c: Cursor)
    ensures !Stopped(v, c) ==> Walk(v, c) == [Fill(c.i, c.j, Min(c.rs, c.rf))] + Walk(v, Advance(v, c))
    ensures Stopped(v, c) ==> Walk(v, c) == []
  {
  }

  lemma AccountsEnd(v: Venues, done: seq<Fill>, arb: real, profit: real, price: real)
    requires Accounts(v, done, [], arb, profit, price)
    ensures arb == ReportedVolume(v, Match(v)) && profit == ReportedProfit(v, Match(v)) && price == TradePrice(v)
  {
    assert done == Match(v);
  }

  // ---------------------------------------------------------------- what an order says about the books

  /** The limit price of the order is the worst Serum price matched: no matched level trades beyond it. */
  lemma TradePriceIsWorst(v: Venues, k: nat)
    requires v.Valid() && k < |Match(v)|
    ensures !Before(v.side, TradePrice(v), v.serum[Match(v)[k].i].price)
  {
    SerumIndexRises(v, Start(v), k, |Match(v)| - 1);
    var last := Match(v)[|Match(v)| - 1].i;
    var i := Match(v)[k].i;
    if i < last { assert !Before(v.side, v.serum[last].price, v.serum[i].price); }
  }

  lemma {:induction false} SerumIndexRises(v: Venues, c: Cursor, k: nat, l: nat)
    requires v.Valid() && At(v, c) && k <= l < |Walk(v, c)|
    ensures c.i <= Walk(v, c)[k].i <= Walk(v, c)[l].i
    decreases l
  {
    var d := Advance(v, c);
    if k > 0 {
      SerumIndexRises(v, d, k - 1, l - 1);
    } else if l > 0 {
      SerumIndexRises(v, d, 0, l - 1);
    }
  }

  /** A sale on Serum, at a stored price: some Serum bid exceeds some FTX ask by more than both fees. */
  ghost predicate Sells(o: Order, serumBids: seq<Level>, ftxAsks: seq<Level>) {
    && o.side == Bid && HasPrice(serumBids, o.price)
    && exists i, j :: 0 <= i < |serumBids| && 0 <= j < |ftxAsks| &&
         serumBids[i].price - serumBids[i].price * 0.0003 > ftxAsks[j].price + ftxAsks[j].price * 0.002
  }

  /** A purchase on Serum: some FTX bid exceeds some Serum ask by more than both fees. */
  ghost predicate Buys(o: Order, serumAsks: seq<Level>, ftxBids: seq<Level>) {
    && o.side == Ask && HasPrice(serumAsks, o.price)
    && exists i, j :: 0 <= i < |serumAsks| && 0 <= j < |ftxBids| &&
         ftxBids[j].price - ftxBids[j].price * 0.002 > serumAsks[i].price + serumAsks[i].price * 0.0003
  }

  ghost predicate PaysAndFits(o: Order, side: Side, pair: nat, limits: Limits, serum: Book, ftx: Book) {
    && (if side == Bid then Sells(o, serum.bids, ftx.asks) else Buys(o, serum.asks, ftx.bids))
    && o.pair == pair && o.quantity <= if limits.maxUsdTradeSize == 0.0 then limits.zeroByZero else 1.0
  }

  /** At a positive minimum profit every order pays, whatever the books. */
  lemma OrderPays(s: Books, pair: nat, side: Side, limits: Limits)
    requires pair < |s.serum| == |s.ftx| && limits.minUsdTradeProfit > 0.0
    ensures var order := Decide(s.VenuesOf(pair, side), pair, limits);
            order.Some? ==> PaysAndFits(order.value, side, pair, limits, s.serum[pair], s.ftx[pair])
  {
    var v := s.VenuesOf(pair, side);
    if Decide(v, pair, limits).Some? {
      NoFillsNoProfit(v);
      assert !Stopped(v, Start(v));
      var fills := Match(v);
      var last := fills[|fills| - 1].i;
      assert v.serum[last].price == TradePrice(v);
      assert HasPrice(v.serum, TradePrice(v));
      FirstPairPays(v);
      hide Match, ReportedProfit, ReportedVolume;
    }
  }

  lemma NoFillsNoProfit(v: Venues)
    ensures Stopped(v, Start(v)) ==> ReportedProfit(v, Match(v)) == 0.0
    ensures !Stopped(v, Start(v)) ==> Match(v) != []
  {
  }

  /** A walk that starts finds the two best levels crossed. */
  lemma FirstPairPays(v: Venues)
    requires !Stopped(v, Start(v))
    ensures v.side == Bid ==>
              v.serum[0].price - v.serum[0].price * 0.0003 > v.ftx[0].price + v.ftx[0].price * 0.002
    ensures v.side == Ask ==>
              v.ftx[0].price - v.ftx[0].price * 0.002 > v.serum[0].price + v.serum[0].price * 0.0003
  {
  }

  // ---------------------------------------------------------------- exactly which orders go out

  /**
   * What an idle strategy answers to two opposite sides: an order exactly when neither is empty and their crossed
   * levels earn the minimum; for what those levels offer, up to the limit, at the worst of their Serum prices.
   */
  ghost predicate Owed(v: Venues, pair: nat, limits: Limits, order: Option<Order>) {
    && (order.Some? <==> v.serum != [] && v.ftx != [] && CrossedProfit(v) >= limits.minUsdTradeProfit)
    && (order.Some? ==>
          && order.value.side == v.side && order.value.pair == pair && WorstCrossed(v, order.value.price)
          && order.value.quantity ==
             Min(CrossedVolume(v), if limits.maxUsdTradeSize == 0.0 then limits.zeroByZero else 1.0))
  }

  lemma TradePriceIsWorstCrossed(v: Venues)
    requires v.Valid()
    ensures WorstCrossed(v, TradePrice(v))
  {
    var fills := Match(v);
    forall i: nat, j: nat | Crossed(v, i, j)
      ensures fills != [] && !Before(v.side, TradePrice(v), v.serum[i].price)
    {
      CrossedIsMeet(v, i, j);
      MatchIsOverlaps(v, i, j, Overlap(v, i, j));
      var k :| 0 <= k < |fills| && fills[k] == Fill(i, j, Overlap(v, i, j));
      TradePriceIsWorst(v, k);
    }
    if fills != [] {
      var last := fills[|fills| - 1];
      MatchIsOverlaps(v, last.i, last.j, last.volume);
      CrossedIsMeet(v, last.i, last.j);
      assert Crossed(v, last.i, last.j) && v.serum[last.i].price == TradePrice(v);
    }
  }

  lemma DecideIsOwed(v: Venues, pair: nat, limits: Limits)
    requires v.Valid()
    ensures Owed(v, pair, limits, Decide(v, pair, limits))
  {
    ReportIsCrossed(v);
    TradePriceIsWorstCrossed(v);
    hide Match, ReportedProfit, ReportedVolume, TradePrice, CrossedProfit, CrossedVolume, WorstCrossed, Venues.Valid;
  }

  class Strategy {
    const limits: Limits
    var isTrading: bool
    var serumBooks: seq<Book>
    var ftxBooks: seq<Book>

    ghost predicate Valid()
      reads this
    {
      |serumBooks| == |ftxBooks|
    }

    constructor (pairs: nat, limits: Limits)
      ensures Valid() && !isTrading && |serumBooks| == pairs && this.limits == limits
    {
      this.limits := limits;
      isTrading := false;
      serumBooks := seq(pairs, _ => Book([], []));
      ftxBooks := seq(pairs, _ => Book([], []));
    }

    function Stored(): Books
      reads this
    {
      Books(serumBooks, ftxBooks)
    }

    /** The loop: two iterators, two remainders, running totals. */
    static method MatchLoop(v: Venues) returns (arbitrageQuantity: real, expectedProfit: real, serumTradePrice: real)
      requires v.serum != [] && v.ftx != []
      ensures arbitrageQuantity == ReportedVolume(v, Match(v))
      ensures expectedProfit == ReportedProfit(v, Match(v))
      ensures serumTradePrice == TradePrice(v)
    {
      var serumIt, ftxIt := 0, 0;
      var remainingSerum, remainingFtx := v.serum[0].quantity, v.ftx[0].quantity;
      arbitrageQuantity, expectedProfit, serumTradePrice := 0.0, 0.0, 0.0;
      ghost var done: seq<Fill> := [];
      ghost var c := Start(v);
      hide ReportedVolume, ReportedProfit, Indexed, TradePrice, Match, Unprofitable, StepProfit, Venues.Margin,
           Reported, SerumFee, FtxFee, Venues.LevelSize;
      AccountsStart(v);
      hide Accounts, Walk;
      while serumIt < |v.serum| && ftxIt < |v.ftx|
        invariant c == Cursor(serumIt, ftxIt, remainingSerum, remainingFtx)
        invariant Accounts(v, done, Walk(v, c), arbitrageQuantity, expectedProfit, serumTradePrice)
        decreases |v.serum| - serumIt + (|v.ftx| - ftxIt)
      {
        var serum, ftx := v.serum[serumIt], v.ftx[ftxIt];
        var serumFee, ftxFee := SerumFee(serum), FtxFee(ftx);
        var levelSize := Min(serum.quantity, ftx.quantity);
        StepTests(v, serumIt, ftxIt, levelSize);
        WalkStep(v, c);
        if Unprofitable(v.side, serum, ftx, serumFee, ftxFee) {
          break;
        }
        ghost var step := Fill(serumIt, ftxIt, Min(remainingSerum, remainingFtx));
        AccountsStep(v, done, step, Walk(v, Advance(v, c)), arbitrageQuantity, expectedProfit, serumTradePrice);
        serumTradePrice := serum.price;
        arbitrageQuantity := arbitrageQuantity + levelSize;
        expectedProfit := expectedProfit + StepProfit(v.side, serum, ftx, serumFee, ftxFee, levelSize);
        if remainingSerum < remainingFtx {
          remainingFtx := remainingFtx - remainingSerum;
          serumIt := serumIt + 1;
          remainingSerum := v.SerumQuantity(serumIt);
        } else if remainingSerum > remainingFtx {
          remainingSerum := remainingSerum - remainingFtx;
          ftxIt := ftxIt + 1;
          remainingFtx := v.FtxQuantity(ftxIt);
        } else {
          serumIt := serumIt + 1;
          remainingSerum := v.SerumQuantity(serumIt);
          ftxIt := ftxIt + 1;
          remainingFtx := v.FtxQuantity(ftxIt);
        }
        done, c := done + [step], Advance(v, c);
      }
      WalkStep(v, c);
      AccountsEnd(v, done, arbitrageQuantity, expectedProfit, serumTradePrice);
    }

    /** One side of a book update: send an order, once, when the reported profit reaches the minimum. */
    method DoBookUpdate(pair: nat, side: Side) returns (order: Option<Order>)
      requires Valid() && pair < |serumBooks|
      modifies this`isTrading
      ensures order == if old(isTrading) then None else Decide(Stored().VenuesOf(pair, side), pair, limits)
      ensures isTrading == (old(isTrading) || order.Some?)
      ensures order.Some? && limits.minUsdTradeProfit > 0.0 ==>
                PaysAndFits(order.value, side, pair, limits, serumBooks[pair], ftxBooks[pair])
    {
      if limits.minUsdTradeProfit > 0.0 { OrderPays(Stored(), pair, side, limits); }
      hide PaysAndFits;
      var v := Stored().VenuesOf(pair, side);
      if v.serum == [] || v.ftx == [] {
        return None;
      }
      var arbitrageQuantity, expectedProfit, serumTradePrice := MatchLoop(v);
      if isTrading {
        return None;
      }
      if expectedProfit < limits.minUsdTradeProfit {
        return None;
      }
      isTrading := true;
      var maxTradeQuantity := limits.zeroByZero;
      if limits.maxUsdTradeSize != 0.0 {
        maxTradeQuantity := limits.maxUsdTradeSize / limits.maxUsdTradeSize;
        assert maxTradeQuantity == 1.0;
      }
      var tradeQuantity := Min(arbitrageQuantity, maxTradeQuantity);
      order := Some(Order(serumTradePrice, tradeQuantity, side, pair));
    }

    /** A new Serum book: store it, then look at both sides. */
    method OnSerumBook(pair: nat, book: Book) returns (bidOrder: Option<Order>, askOrder: Option<Order>)
      requires Valid() && pair < |serumBooks|
      modifies this
      ensures Valid() && serumBooks == old(serumBooks)[pair := book] && ftxBooks == old(ftxBooks)
      ensures Stored() == After(old(Stored()), SerumBook(pair, book))
      ensures [bidOrder, askOrder] == Answer(old(Stored()), old(isTrading), SerumBook(pair, book), limits)
      ensures isTrading == (old(isTrading) || bidOrder.Some? || askOrder.Some?)
      ensures limits.minUsdTradeProfit > 0.0 && bidOrder.Some? ==>
                PaysAndFits(bidOrder.value, Bid, pair, limits, serumBooks[pair], ftxBooks[pair])
      ensures limits.minUsdTradeProfit > 0.0 && askOrder.Some? ==>
                PaysAndFits(askOrder.value, Ask, pair, limits, serumBooks[pair], ftxBooks[pair])
    {
      AnswerIsTwo(Stored(), isTrading, SerumBook(pair, book), limits);
      hide Decide, Decisions, PaysAndFits;
      serumBooks := serumBooks[pair := book];
      bidOrder := DoBookUpdate(pair, Bid);
      askOrder := DoBookUpdate(pair, Ask);
    }

    /** A new FTX book, likewise. */
    method OnFtxBook(pair: nat, book: Book) returns (bidOrder: Option<Order>, askOrder: Option<Order>)
      requires Valid() && pair < |serumBooks|
      modifies this
      ensures Valid() && ftxBooks == old(ftxBooks)[pair := book] && serumBooks == old(serumBooks)
      ensures Stored() == After(old(Stored()), FtxBook(pair, book))
      ensures [bidOrder, askOrder] == Answer(old(Stored()), old(isTrading), FtxBook(pair, book), limits)
      ensures isTrading == (old(isTrading) || bidOrder.Some? || askOrder.Some?)
      ensures limits.minUsdTradeProfit > 0.0 && bidOrder.Some? ==>
                PaysAndFits(bidOrder.value, Bid, pair, limits, serumBooks[pair], ftxBooks[pair])
      ensures limits.minUsdTradeProfit > 0.0 && askOrder.Some? ==>
                PaysAndFits(askOrder.value, Ask, pair, limits, serumBooks[pair], ftxBooks[pair])
    {
      AnswerIsTwo(Stored(), isTrading, FtxBook(pair, book), limits);
      hide Decide, Decisions, PaysAndFits;
      ftxBooks := ftxBooks[pair := book];
      bidOrder := DoBookUpdate(pair, Bid);
      askOrder := DoBookUpdate(pair, Ask);
    }
  }

  // ---------------------------------------------------------------- whole runs

  /** What a run of one-sided updates answers, threading the trading flag, which nothing ever clears. */
  function Decisions(trading: bool, updates: seq<Venues>, pairs: seq<nat>, limits: Limits): (d: seq<Option<Order>>)
    requires |updates| == |pairs|
    ensures |d| == |updates|
    decreases |updates|
  {
    if updates == [] then [] else
      var first := if trading then None else Decide(updates[0], pairs[0], limits);
      [first] + Decisions(trading || first.Some?, updates[1..], pairs[1..], limits)
  }

  /** Over any run at most one order goes out: for the first update whose reported profit reaches the minimum. */
  lemma {:induction false} FirstOpportunityOnly(updates: seq<Venues>, pairs: seq<nat>, limits: Limits, k: nat)
    requires |updates| == |pairs| && k < |updates|
    ensures Decisions(true, updates, pairs, limits)[k] == None
    ensures Decisions(false, updates, pairs, limits)[k] ==
            if forall i :: 0 <= i < k ==> Decide(updates[i], pairs[i], limits) == None
            then Decide(updates[k], pairs[k], limits) else None
  {
    hide Decide;
    if k > 0 {
      FirstOpportunityOnly(updates[1..], pairs[1..], limits, k - 1);
      assert forall i :: 0 < i < k ==> updates[i] == updates[1..][i - 1] && pairs[i] == pairs[1..][i - 1];
      assert forall i :: 0 <= i < k - 1 ==> updates[1..][i] == updates[i + 1] && pairs[1..][i] == pairs[i + 1];
    }
  }

  ghost predicate AnyOrder(d: seq<Option<Order>>) {
    exists i :: 0 <= i < |d| && d[i].Some?
  }

  /** A run goes on where its first part left the flag. */
  lemma {:induction false} DecisionsSplit(trading: bool, a: seq<Venues>, p: seq<nat>, b: seq<Venues>, q: seq<nat>,
      limits: Limits)
    requires |a| == |p| && |b| == |q|
    ensures var first := Decisions(trading, a, p, limits);
            Decisions(trading, a + b, p + q, limits)
            == first + Decisions(trading || AnyOrder(first), b, q, limits)
    decreases |a|
  {
    hide Decide;
    var first := Decisions(trading, a, p, limits);
    if a == [] {
      assert a + b == b && p + q == q;
    } else {
      assert (a + b)[1..] == a[1..] + b && (p + q)[1..] == p[1..] + q;
      var rest := Decisions(trading || first[0].Some?, a[1..], p[1..], limits);
      assert first == [first[0]] + rest;
      DecisionsSplit(trading || first[0].Some?, a[1..], p[1..], b, q, limits);
      AnyOrderCons(first[0], rest);
    }
  }

  lemma AnyOrderCons(o: Option<Order>, rest: seq<Option<Order>>)
    ensures AnyOrder([o] + rest) <==> o.Some? || AnyOrder(rest)
  {
    if AnyOrder(rest) {
      var i :| 0 <= i < |rest| && rest[i].Some?;
      assert ([o] + rest)[i + 1].Some?;
    }
    assert ([o] + rest)[0] == o;
  }

  /** A book that comes in. */
  datatype Call = SerumBook(pair: nat, book: Book) | FtxBook(pair: nat, book: Book)

  function After(s: Books, c: Call): Books
    requires c.pair < |s.serum| == |s.ftx|
  {
    match c
    case SerumBook(pair, book) => s.(serum := s.serum[pair := book])
    case FtxBook(pair, book) => s.(ftx := s.ftx[pair := book])
  }

  /** What a call compares: both sides of its pair, with the new book stored. */
  function Compared(s: Books, c: Call): (updates: seq<Venues>)
    requires c.pair < |s.serum| == |s.ftx|
    ensures |updates| == 2
  {
    [After(s, c).VenuesOf(c.pair, Bid), After(s, c).VenuesOf(c.pair, Ask)]
  }

  /** What a call answers. */
  function Answer(s: Books, trading: bool, c: Call, limits: Limits): (d: seq<Option<Order>>)
    requires c.pair < |s.serum| == |s.ftx|
    ensures |d| == 2
  {
    Decisions(trading, Compared(s, c), [c.pair, c.pair], limits)
  }

  lemma AnswerIsTwo(s: Books, trading: bool, c: Call, limits: Limits)
    requires c.pair < |s.serum| == |s.ftx|
    ensures var t := After(s, c);
            var bid := if trading then None else Decide(t.VenuesOf(c.pair, Bid), c.pair, limits);
            var ask := if trading || bid.Some? then None else Decide(t.VenuesOf(c.pair, Ask), c.pair, limits);
            Answer(s, trading, c, limits) == [bid, ask]
  {
    hide Decide, After, Books.VenuesOf;
    var u := Compared(s, c);
    var bid := if trading then None else Decide(u[0], c.pair, limits);
    assert u[1..] == [u[1]] && [c.pair, c.pair][1..] == [c.pair];
    assert Answer(s, trading, c, limits) == [bid] + Decisions(trading || bid.Some?, [u[1]], [c.pair], limits);
    assert [u[1]][1..] == [] && [c.pair][1..] == [];
  }

  ghost predicate InOrder(book: Book) {
    && BestFirst(Bid, book.bids) && BestFirst(Ask, book.asks)
    && Positive(book.bids) && Positive(book.asks)
  }

  /**
   * A call that finds the strategy idle answers, for books in order: what is owed to the Serum bids against the FTX
   * asks, and, if that is no order, what is owed to the Serum asks against the FTX bids. The new book is in place of
   * the stored one of its venue. A call that finds it trading answers nothing.
   */
  lemma AnswerIsOwed(s: Books, c: Call, limits: Limits)
    requires c.pair < |s.serum| == |s.ftx|
    requires InOrder(c.book) && InOrder(s.serum[c.pair]) && InOrder(s.ftx[c.pair])
    ensures var serum := if c.SerumBook? then c.book else s.serum[c.pair];
            var ftx := if c.FtxBook? then c.book else s.ftx[c.pair];
            var d := Answer(s, false, c, limits);
            && Owed(Venues(Bid, serum.bids, ftx.asks), c.pair, limits, d[0])
            && (if d[0].Some? then d[1] == None
                else Owed(Venues(Ask, serum.asks, ftx.bids), c.pair, limits, d[1]))
    ensures Answer(s, true, c, limits) == [None, None]
  {
    var t := After(s, c);
    AnswerIsTwo(s, false, c, limits);
    AnswerIsTwo(s, true, c, limits);
    DecideIsOwed(t.VenuesOf(c.pair, Bid), c.pair, limits);
    DecideIsOwed(t.VenuesOf(c.pair, Ask), c.pair, limits);
    hide Owed, Decide, Answer;
  }

  predicate Known(s: Books, calls: seq<Call>) {
    |s.serum| == |s.ftx| && forall i :: 0 <= i < |calls| ==> calls[i].pair < |s.serum|
  }

  /** The answers of a sequence of calls, each made on the books and with the flag that the last one left. */
  function Answers(s: Books, trading: bool, calls: seq<Call>, limits: Limits): seq<Option<Order>>
    requires Known(s, calls)
    decreases |calls|
  {
    if calls == [] then [] else
      var d := Answer(s, trading, calls[0], limits);
      d + Answers(After(s, calls[0]), trading || d[0].Some? || d[1].Some?, calls[1..], limits)
  }

  /** All that a sequence of calls compares, and the pairs. */
  function AllCompared(s: Books, calls: seq<Call>): (updates: seq<Venues>)
    requires Known(s, calls)
    ensures |updates| == 2 * |calls|
    decreases |calls|
  {
    if calls == [] then [] else Compared(s, calls[0]) + AllCompared(After(s, calls[0]), calls[1..])
  }

  function AllPairs(calls: seq<Call>): (pairs: seq<nat>)
    ensures |pairs| == 2 * |calls|
  {
    if calls == [] then [] else [calls[0].pair, calls[0].pair] + AllPairs(calls[1..])
  }

  lemma {:induction false} AnswersAreDecisions(s: Books, trading: bool, calls: seq<Call>, limits: Limits)
    requires Known(s, calls)
    ensures Answers(s, trading, calls, limits)
            == Decisions(trading, AllCompared(s, calls), AllPairs(calls), limits)
    decreases |calls|
  {
    hide Decide, Decisions, Compared, After;
    if calls == [] {
      NoDecisions(trading, limits);
    } else {
      var c := calls[0];
      var d := Answer(s, trading, c, limits);
      KnownAfter(s, calls);
      DecisionsSplit(trading, Compared(s, c), [c.pair, c.pair],
                     AllCompared(After(s, c), calls[1..]), AllPairs(calls[1..]), limits);
      assert AnyOrder(d) <==> d[0].Some? || d[1].Some?;
      AnswersAreDecisions(After(s, c), trading || d[0].Some? || d[1].Some?, calls[1..], limits);
    }
  }

  lemma NoDecisions(trading: bool, limits: Limits)
    ensures Decisions(trading, [], [], limits) == []
  {
  }

  lemma KnownAfter(s: Books, calls: seq<Call>)
    requires Known(s, calls) && calls != []
    ensures Known(After(s, calls[0]), calls[1..])
  {
  }

  /**
   * Whatever books come in, at most one order goes out: for the first comparison, in the order of the calls, whose
   * reported profit reaches the minimum.
   */
  lemma OneOrderPerRun(s: Books, calls: seq<Call>, limits: Limits, k: nat)
    requires Known(s, calls) && k < 2 * |calls|
    ensures var updates, pairs := AllCompared(s, calls), AllPairs(calls);
            |Answers(s, false, calls, limits)| == 2 * |calls| &&
            Answers(s, false, calls, limits)[k] ==
            if forall i :: 0 <= i < k ==> Decide(updates[i], pairs[i], limits) == None
            then Decide(updates[k], pairs[k], limits) else None
  {
    hide Decide, Decisions, Answers;
    AnswersAreDecisions(s, false, calls, limits);
    FirstOpportunityOnly(AllCompared(s, calls), AllPairs(calls), limits, k);
  }
}
