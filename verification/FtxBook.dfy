/**
 * The FTX order book, src/synthfi/Ftx/FtxMarketDataClient: a sorted vector per side, replaced by snapshots and
 * edited in place by updates, which must stay the sorted listing of a map from price to quantity.
 */
module FtxBook {
  import opened Trading
  import Crc32

  /** The first place from `from` on that does not come before `price`: std::lower_bound on a sorted range. */
  function LowerBound(side: Side, book: seq<Level>, from: nat, price: real): (k: nat)
    requires from <= |book|
    ensures from <= k <= |book|
    ensures forall j :: from <= j < k ==> Before(side, book[j].price, price)
    ensures k < |book| ==> !Before(side, book[k].price, price)
    decreases |book| - from
  {
    if from < |book| && Before(side, book[from].price, price) then LowerBound(side, book, from + 1, price) else from
  }

  /** The three edits at place `k`: append or insert, delete, overwrite. */
  function Edited(book: seq<Level>, k: nat, u: Level): (next: seq<Level>)
    requires k <= |book|
    ensures k <= |next|
  {
    if k == |book| then book + [u]
    else if book[k].price == u.price then
      if u.quantity == 0.0 then book[..k] + book[k + 1..] else book[k := book[k].(quantity := u.quantity)]
    else book[..k] + [u] + book[k..]
  }

  /** One level of an update message, searched for from the place the last one left. */
  function UpdateOne(side: Side, book: seq<Level>, it: nat, u: Level): (r: (seq<Level>, nat))
    requires it <= |book|
    ensures r.1 <= |r.0|
  {
    var k := LowerBound(side, book, it, u.price);
    (Edited(book, k, u), k)
  }

  function UpdateFrom(side: Side, book: seq<Level>, it: nat, updates: seq<Level>): seq<Level>
    requires it <= |book|
    decreases |updates|
  {
    if updates == [] then book else
      var (next, place) := UpdateOne(side, book, it, updates[0]);
      UpdateFrom(side, next, place, updates[1..])
  }

  /** On an ordered side the place is the one std::lower_bound promises: it parts the range, and nothing else does. */
  lemma LowerBoundParts(side: Side, book: seq<Level>, from: nat, price: real, k: nat)
    requires Strict(side, book) && from <= k <= |book|
    ensures k == LowerBound(side, book, from, price) <==>
            (forall j :: from <= j < k ==> Before(side, book[j].price, price))
            && (forall j :: k <= j < |book| ==> !Before(side, book[j].price, price))
  {
    var l := LowerBound(side, book, from, price);
    forall j | l < j < |book|
      ensures !Before(side, book[j].price, price)
    {
      assert Before(side, book[l].price, book[j].price);
    }
    if k < l {
      assert Before(side, book[k].price, price);
    } else if l < k {
      assert !Before(side, book[l].price, price);
    }
  }

  // ---------------------------------------------------------------- the map a book lists

  /** `book` lists `m`: best price first, every price of the map once, with its quantity, none of them zero. */
  ghost predicate IsListing(side: Side, book: seq<Level>, m: map<real, real>) {
    && Strict(side, book)
    && (forall p :: HasPrice(book, p) <==> p in m)
    && (forall i :: 0 <= i < |book| ==> book[i].price in m && m[book[i].price] == book[i].quantity != 0.0)
  }

  lemma ListingUnique(side: Side, a: seq<Level>, b: seq<Level>, m: map<real, real>)
    requires IsListing(side, a, m) && IsListing(side, b, m)
    ensures a == b
  {
    SamePrices(side, a, b);
  }

  /** What an update means: zero deletes the price, anything else writes it. */
  function Write(m: map<real, real>, u: Level): map<real, real> {
    if u.quantity == 0.0 then m - {u.price} else m[u.price := u.quantity]
  }

  function WriteAll(m: map<real, real>, updates: seq<Level>): map<real, real>
    decreases |updates|
  {
    if updates == [] then m else WriteAll(Write(m, updates[0]), updates[1..])
  }

  // ---------------------------------------------------------------- one update

  /** The search starts no further than the price's place. */
  predicate InReach(side: Side, book: seq<Level>, it: nat, price: real)
    requires it <= |book|
  {
    it == 0 || Before(side, book[it - 1].price, price)
  }

  /** Where the search stops, everything before is better and everything from there on is not. */
  lemma SearchSplits(side: Side, book: seq<Level>, it: nat, price: real)
    requires Strict(side, book) && it <= |book| && InReach(side, book, it, price)
    ensures var k := LowerBound(side, book, it, price);
            && (forall j :: 0 <= j < k ==> Before(side, book[j].price, price))
            && (forall j :: k <= j < |book| ==> book[j].price == price || Before(side, price, book[j].price))
            && (forall j :: k < j < |book| ==> Before(side, price, book[j].price))
  {
    var k := LowerBound(side, book, it, price);
    forall j | 0 <= j < k
      ensures Before(side, book[j].price, price)
    {
      if j < it && j != it - 1 { assert Before(side, book[j].price, book[it - 1].price); }
    }
    forall j | k < j < |book|
      ensures Before(side, price, book[j].price)
    {
      assert Before(side, book[k].price, book[j].price);
    }
  }

  lemma HasPriceAt(book: seq<Level>, i: nat)
    requires i < |book|
    ensures HasPrice(book, book[i].price)
  {
  }

  /** Overwriting the quantity of a listed price. */
  lemma Overwrite(side: Side, book: seq<Level>, k: nat, q: real, m: map<real, real>)
    requires IsListing(side, book, m) && k < |book| && q != 0.0
    ensures IsListing(side, book[k := book[k].(quantity := q)], m[book[k].price := q])
  {
    var next, p := book[k := book[k].(quantity := q)], book[k].price;
    HasPriceAt(book, k);
    forall x
      ensures HasPrice(next, x) <==> HasPrice(book, x)
    {
      if HasPrice(next, x) { var i :| 0 <= i < |next| && next[i].price == x; assert book[i].price == x; }
      if HasPrice(book, x) { var i :| 0 <= i < |book| && book[i].price == x; assert next[i].price == x; }
    }
    OthersDiffer(side, book, k);
  }

  lemma ErasePrices(book: seq<Level>, k: nat, x: real)
    requires k < |book| && forall i :: 0 <= i < |book| && i != k ==> book[i].price != book[k].price
    ensures HasPrice(book[..k] + book[k + 1..], x) <==> HasPrice(book, x) && x != book[k].price
  {
    var next := book[..k] + book[k + 1..];
    if HasPrice(next, x) {
      var i :| 0 <= i < |next| && next[i].price == x;
      assert book[if i < k then i else i + 1].price == x;
    }
    if HasPrice(book, x) && x != book[k].price {
      var i :| 0 <= i < |book| && book[i].price == x;
      assert next[if i < k then i else i - 1].price == x;
    }
  }

  lemma OthersDiffer(side: Side, book: seq<Level>, k: nat)
    requires Strict(side, book) && k < |book|
    ensures forall i :: 0 <= i < |book| && i != k ==> book[i].price != book[k].price
  {
    forall i | 0 <= i < |book| && i != k
      ensures book[i].price != book[k].price
    {
      assert i < k ==> Before(side, book[i].price, book[k].price);
      assert k < i ==> Before(side, book[k].price, book[i].price);
    }
  }

  /** Erasing a listed price. */
  lemma Erase(side: Side, book: seq<Level>, k: nat, m: map<real, real>)
    requires IsListing(side, book, m) && k < |book|
    ensures IsListing(side, book[..k] + book[k + 1..], m - {book[k].price})
  {
    hide HasPrice;
    var next := book[..k] + book[k + 1..];
    OthersDiffer(side, book, k);
    forall x
      ensures HasPrice(next, x) <==> HasPrice(book, x) && x != book[k].price
    {
      ErasePrices(book, k, x);
    }
    assert forall i :: 0 <= i < |next| ==> next[i] == book[if i < k then i else i + 1];
  }

  lemma InsertPrices(book: seq<Level>, k: nat, u: Level, x: real)
    requires k <= |book|
    ensures HasPrice(book[..k] + [u] + book[k..], x) <==> HasPrice(book, x) || x == u.price
  {
    var next := book[..k] + [u] + book[k..];
    assert next[k] == u;
    if HasPrice(next, x) && x != u.price {
      var i :| 0 <= i < |next| && next[i].price == x;
      assert book[if i < k then i else i - 1].price == x;
    }
    if HasPrice(book, x) {
      var i :| 0 <= i < |book| && book[i].price == x;
      assert next[if i < k then i else i + 1].price == x;
    }
  }

  /** Inserting a price not listed, at its place. */
  lemma Insert(side: Side, book: seq<Level>, k: nat, u: Level, m: map<real, real>)
    requires IsListing(side, book, m) && k <= |book| && u.quantity != 0.0
    requires forall j :: 0 <= j < k ==> Before(side, book[j].price, u.price)
    requires forall j :: k <= j < |book| ==> Before(side, u.price, book[j].price)
    ensures IsListing(side, book[..k] + [u] + book[k..], m[u.price := u.quantity])
  {
    hide HasPrice;
    var next := book[..k] + [u] + book[k..];
    forall x
      ensures HasPrice(next, x) <==> HasPrice(book, x) || x == u.price
    {
      InsertPrices(book, k, u, x);
    }
    assert forall i :: 0 <= i < |next| ==> next[i] == if i < k then book[i] else if i == k then u else book[i - 1];
  }

  /** When the search can reach the place, and a delete names a listed price, the edit is the map's write. */
  lemma UpdateIsWrite(side: Side, book: seq<Level>, it: nat, u: Level, m: map<real, real>)
    requires IsListing(side, book, m) && it <= |book| && InReach(side, book, it, u.price)
    requires u.quantity == 0.0 ==> u.price in m
    ensures IsListing(side, UpdateOne(side, book, it, u).0, Write(m, u))
  {
    SearchSplits(side, book, it, u.price);
    hide LowerBound;
    EditIsWrite(side, book, LowerBound(side, book, it, u.price), u, m);
  }

  lemma EditIsWrite(side: Side, book: seq<Level>, k: nat, u: Level, m: map<real, real>)
    requires IsListing(side, book, m) && k <= |book| && (u.quantity == 0.0 ==> u.price in m)
    requires forall j :: 0 <= j < k ==> Before(side, book[j].price, u.price)
    requires forall j :: k <= j < |book| ==> book[j].price == u.price || Before(side, u.price, book[j].price)
    requires forall j :: k < j < |book| ==> Before(side, u.price, book[j].price)
    ensures IsListing(side, Edited(book, k, u), Write(m, u))
  {
    assert u.price in m ==> HasPrice(book, u.price);
    hide IsListing, HasPrice, Strict;
    if k < |book| && book[k].price == u.price {
      if u.quantity == 0.0 { Erase(side, book, k, m); } else { Overwrite(side, book, k, u.quantity, m); }
    } else {
      SearchMisses(side, book, k, u.price);
      Insert(side, book, k, u, m);
      assert k == |book| ==> book + [u] == book[..k] + [u] + book[k..];
    }
  }

  lemma SearchMisses(side: Side, book: seq<Level>, k: nat, price: real)
    requires k <= |book| && (k < |book| ==> Before(side, price, book[k].price))
    requires forall j :: 0 <= j < k ==> Before(side, book[j].price, price)
    requires forall j :: k < j < |book| ==> Before(side, price, book[j].price)
    ensures !HasPrice(book, price)
  {
  }

  lemma BreakAt(side: Side, book: seq<Level>, it: nat, u: Level, m: map<real, real>)
    requires IsListing(side, book, m) && it <= |book| && !InReach(side, book, it, u.price)
    ensures var (next, place) := UpdateOne(side, book, it, u);
            && place == it > 0 && it < |next| && next[it - 1] == book[it - 1] && next[it] == u
  {
    if it < |book| {
      assert Before(side, book[it - 1].price, book[it].price);
      assert LowerBound(side, book, it, u.price) == it;
      assert book[it].price != u.price;
    }
  }

  /** Started past the price's place, the search puts the level where it breaks the order. */
  lemma OutOfReachBreaks(side: Side, book: seq<Level>, it: nat, u: Level, m: map<real, real>)
    requires IsListing(side, book, m) && it <= |book| && !InReach(side, book, it, u.price)
    ensures !Strict(side, UpdateOne(side, book, it, u).0)
  {
    BreakAt(side, book, it, u, m);
  }

  /** Told to delete a price that is not listed, the edit inserts a level of zero quantity. */
  lemma AbsentDeleteLeavesZero(side: Side, book: seq<Level>, it: nat, u: Level, m: map<real, real>)
    requires IsListing(side, book, m) && it <= |book| && u.quantity == 0.0 && u.price !in m
    ensures u in UpdateOne(side, book, it, u).0
  {
    var k := LowerBound(side, book, it, u.price);
    if k < |book| {
      HasPriceAt(book, k);
      assert (book[..k] + [u] + book[k..])[k] == u;
    } else {
      assert (book + [u])[k] == u;
    }
  }

  /** One update keeps the book the listing of its map if and only if both guards hold. */
  lemma UpdateCorrectExactly(side: Side, book: seq<Level>, it: nat, u: Level, m: map<real, real>)
    requires IsListing(side, book, m) && it <= |book|
    ensures IsListing(side, UpdateOne(side, book, it, u).0, Write(m, u)) <==>
            InReach(side, book, it, u.price) && (u.quantity == 0.0 ==> u.price in m)
  {
    var next := UpdateOne(side, book, it, u).0;
    if !InReach(side, book, it, u.price) {
      OutOfReachBreaks(side, book, it, u, m);
    } else if u.quantity == 0.0 && u.price !in m {
      AbsentDeleteLeavesZero(side, book, it, u, m);
      var i :| 0 <= i < |next| && next[i] == u;
      assert next[i].quantity == 0.0;
    } else {
      UpdateIsWrite(side, book, it, u, m);
    }
  }

  // ---------------------------------------------------------------- whole messages and runs

  /** The prices of a message run in book order; the same price may come again. */
  ghost predicate InOrder(side: Side, updates: seq<Level>) {
    forall i, j :: 0 <= i < j < |updates| ==> !Before(side, updates[j].price, updates[i].price)
  }

  /** Every delete names a price that is listed by then. */
  ghost predicate DeletesListed(m: map<real, real>, updates: seq<Level>)
    decreases |updates|
  {
    updates != [] ==>
      && (updates[0].quantity == 0.0 ==> updates[0].price in m)
      && DeletesListed(Write(m, updates[0]), updates[1..])
  }

  /** The place an update leaves is within reach of every later price of an ordered message. */
  lemma StaysInReach(side: Side, book: seq<Level>, it: nat, u: Level, m: map<real, real>, q: real)
    requires IsListing(side, book, m) && it <= |book| && InReach(side, book, it, u.price) && !Before(side, q, u.price)
    ensures InReach(side, UpdateOne(side, book, it, u).0, UpdateOne(side, book, it, u).1, q)
  {
    SearchSplits(side, book, it, u.price);
  }

  /** A message in order leaves the listing of the map with all its writes and deletes applied. */
  lemma {:induction false} MessageIsWrites(side: Side, book: seq<Level>, it: nat, updates: seq<Level>, m: map<real, real>)
    requires IsListing(side, book, m) && it <= |book| && InOrder(side, updates) && DeletesListed(m, updates)
    requires updates != [] ==> InReach(side, book, it, updates[0].price)
    ensures IsListing(side, UpdateFrom(side, book, it, updates), WriteAll(m, updates))
    decreases |updates|
  {
    if updates != [] {
      var (next, place) := UpdateOne(side, book, it, updates[0]);
      UpdateIsWrite(side, book, it, updates[0], m);
      if |updates| > 1 { StaysInReach(side, book, it, updates[0], m, updates[1].price); }
      MessageIsWrites(side, next, place, updates[1..], Write(m, updates[0]));
    }
  }

  ghost predicate DistinctPrices(updates: seq<Level>) {
    forall i, j :: 0 <= i < j < |updates| ==> updates[i].price != updates[j].price
  }

  ghost predicate NotAmong(price: real, updates: seq<Level>) {
    forall i :: 0 <= i < |updates| ==> updates[i].price != price
  }

  /** Both guards hold for every update of a message in turn. */
  ghost predicate Proper(side: Side, book: seq<Level>, it: nat, m: map<real, real>, updates: seq<Level>)
    requires it <= |book|
    decreases |updates|
  {
    updates != [] ==>
      var u := updates[0];
      var (next, place) := UpdateOne(side, book, it, u);
      && InReach(side, book, it, u.price) && (u.quantity == 0.0 ==> u.price in m)
      && Proper(side, next, place, Write(m, u), updates[1..])
  }

  /** A level stays in the book as long as no update has its price. */
  lemma {:induction false} LevelStays(side: Side, book: seq<Level>, it: nat, updates: seq<Level>, z: Level)
    requires it <= |book| && z in book && NotAmong(z.price, updates)
    ensures z in UpdateFrom(side, book, it, updates)
    decreases |updates|
  {
    if updates != [] {
      var (next, place) := UpdateOne(side, book, it, updates[0]);
      EditKeeps(book, place, updates[0], z);
      LevelStays(side, next, place, updates[1..], z);
    }
  }

  lemma EditKeeps(book: seq<Level>, k: nat, u: Level, z: Level)
    requires k <= |book| && z in book && z.price != u.price
    ensures z in Edited(book, k, u)
  {
    var i :| 0 <= i < |book| && book[i] == z;
    var next := Edited(book, k, u);
    if i < k {
      assert next[i] == z;
    } else if i > k && |next| < |book| {
      assert next[i - 1] == z;
    } else if |next| == |book| {
      assert next[i] == z;
    } else {
      assert next[i + 1] == z;
    }
  }

  /** Two levels out of order stay so, or the first stays out of order with one inserted between them. */
  lemma {:induction false} BreakStays(side: Side, book: seq<Level>, it: nat, updates: seq<Level>, i: nat)
    requires 0 < i <= it <= |book| && i < |book| && !Before(side, book[i - 1].price, book[i].price)
    requires DistinctPrices(updates) && (i == it ==> NotAmong(book[i].price, updates))
    ensures !Strict(side, UpdateFrom(side, book, it, updates))
    decreases |updates|
  {
    if updates != [] {
      var u := updates[0];
      var (next, place) := UpdateOne(side, book, it, u);
      assert place >= it && next[i - 1] == book[i - 1];
      assert place > i ==> next[i] == book[i];
      assert place == i ==> next[i] == u;
      BreakStays(side, next, place, updates[1..], i);
    }
  }

  /** A message of distinct prices leaves the listing of its map if and only if every update in turn is proper. */
  lemma {:induction false} MessageCorrectExactly(side: Side, book: seq<Level>, it: nat, updates: seq<Level>,
      m: map<real, real>)
    requires IsListing(side, book, m) && it <= |book| && DistinctPrices(updates)
    ensures IsListing(side, UpdateFrom(side, book, it, updates), WriteAll(m, updates)) <==>
            Proper(side, book, it, m, updates)
    decreases |updates|
  {
    if updates != [] {
      var u := updates[0];
      var (next, place) := UpdateOne(side, book, it, u);
      if !InReach(side, book, it, u.price) {
        BreakAt(side, book, it, u, m);
        BreakStays(side, next, place, updates[1..], it);
      } else if u.quantity == 0.0 && u.price !in m {
        AbsentDeleteLeavesZero(side, book, it, u, m);
        LevelStays(side, next, place, updates[1..], u);
        ZeroIsNoListing(side, UpdateFrom(side, book, it, updates), WriteAll(m, updates), u);
      } else {
        UpdateIsWrite(side, book, it, u, m);
        MessageCorrectExactly(side, next, place, updates[1..], Write(m, u));
      }
    }
  }

  lemma ZeroIsNoListing(side: Side, book: seq<Level>, m: map<real, real>, z: Level)
    requires z in book && z.quantity == 0.0
    ensures !IsListing(side, book, m)
  {
    var i :| 0 <= i < |book| && book[i] == z;
  }

  /** For a message in strict book order that is so if and only if its deletes name listed prices. */
  lemma {:induction false} OrderedMessageExactly(side: Side, book: seq<Level>, it: nat, updates: seq<Level>,
      m: map<real, real>)
    requires IsListing(side, book, m) && it <= |book| && InOrder(side, updates) && DistinctPrices(updates)
    requires updates != [] ==> InReach(side, book, it, updates[0].price)
    ensures IsListing(side, UpdateFrom(side, book, it, updates), WriteAll(m, updates)) <==> DeletesListed(m, updates)
    decreases |updates|
  {
    MessageCorrectExactly(side, book, it, updates, m);
    if updates != [] && (updates[0].quantity == 0.0 ==> updates[0].price in m) {
      var u := updates[0];
      var (next, place) := UpdateOne(side, book, it, u);
      UpdateIsWrite(side, book, it, u, m);
      if |updates| > 1 { StaysInReach(side, book, it, u, m, updates[1].price); }
      MessageCorrectExactly(side, next, place, updates[1..], Write(m, u));
      OrderedMessageExactly(side, next, place, updates[1..], Write(m, u));
    }
  }

  datatype Message = Message(bids: seq<Level>, asks: seq<Level>, checksum: bv32) {
    function Get(side: Side): seq<Level> {
      if side == Bid then bids else asks
    }
  }

  datatype Event = Snapshot(message: Message) | Update(message: Message)

  function MapOf(book: seq<Level>): map<real, real>
    decreases |book|
  {
    if book == [] then map[] else MapOf(book[1..])[book[0].price := book[0].quantity]
  }

  /** One side of the book, and of the map it should list, after an event. */
  function SideAfter(side: Side, book: seq<Level>, e: Event): seq<Level> {
    match e
    case Snapshot(message) => message.Get(side)
    case Update(message) => UpdateFrom(side, book, 0, message.Get(side))
  }

  function MapAfter(side: Side, m: map<real, real>, e: Event): map<real, real> {
    match e
    case Snapshot(message) => MapOf(message.Get(side))
    case Update(message) => WriteAll(m, message.Get(side))
  }

  function BookAfterAll(side: Side, book: seq<Level>, events: seq<Event>): seq<Level>
    decreases |events|
  {
    if events == [] then book else BookAfterAll(side, SideAfter(side, book, events[0]), events[1..])
  }

  function MapAfterAll(side: Side, m: map<real, real>, events: seq<Event>): map<real, real>
    decreases |events|
  {
    if events == [] then m else MapAfterAll(side, MapAfter(side, m, events[0]), events[1..])
  }

  /** Snapshots list strictly ordered nonzero levels; updates are in order and delete only what is listed. */
  ghost predicate Acceptable(side: Side, m: map<real, real>, events: seq<Event>)
    decreases |events|
  {
    events != [] ==>
      && (match events[0]
          case Snapshot(message) =>
            Strict(side, message.Get(side)) && forall u :: u in message.Get(side) ==> u.quantity != 0.0
          case Update(message) => InOrder(side, message.Get(side)) && DeletesListed(m, message.Get(side)))
      && Acceptable(side, MapAfter(side, m, events[0]), events[1..])
  }

  lemma {:induction false} SnapshotLists(side: Side, book: seq<Level>)
    requires Strict(side, book) && forall u :: u in book ==> u.quantity != 0.0
    ensures IsListing(side, book, MapOf(book))
    decreases |book|
  {
    if book != [] {
      SnapshotLists(side, book[1..]);
      SearchMisses(side, book[1..], 0, book[0].price);
      Insert(side, book[1..], 0, book[0], MapOf(book[1..]));
      assert book[1..][..0] + [book[0]] + book[1..][0..] == book;
    }
  }

  /** Over any acceptable run the vector stays the sorted, zero-free listing of the map. */
  lemma {:induction false} BookRefinesMap(side: Side, book: seq<Level>, m: map<real, real>, events: seq<Event>)
    requires IsListing(side, book, m) && Acceptable(side, m, events)
    ensures IsListing(side, BookAfterAll(side, book, events), MapAfterAll(side, m, events))
    decreases |events|
  {
    if events != [] {
      match events[0] {
        case Snapshot(message) => SnapshotLists(side, message.Get(side));
        case Update(message) => MessageIsWrites(side, book, 0, message.Get(side), m);
      }
      BookRefinesMap(side, SideAfter(side, book, events[0]), MapAfter(side, m, events[0]), events[1..]);
    }
  }

  // ---------------------------------------------------------------- the client

  /** The stored book of one trading pair, with the text a checksum is taken of as a parameter. */
  class MarketDataClient {
    const serialize: (seq<Level>, seq<Level>) -> seq<bv8>
    var bids: seq<Level>
    var asks: seq<Level>

    constructor (serialize: (seq<Level>, seq<Level>) -> seq<bv8>)
      ensures bids == [] && asks == [] && this.serialize == serialize
    {
      this.serialize, bids, asks := serialize, [], [];
    }

    function SideBook(side: Side): seq<Level>
      reads this
    {
      if side == Bid then bids else asks
    }

    function Checksum(): bv32
      reads this
    {
      !Crc32.Register(0xFFFF_FFFF, serialize(bids, asks))
    }

    /** update_side: one pass over the message with a moving iterator. */
    method UpdateSide(side: Side, updates: seq<Level>)
      modifies this
      ensures SideBook(side) == UpdateFrom(side, old(SideBook(side)), 0, updates)
      ensures SideBook(Flip(side)) == old(SideBook(Flip(side)))
    {
      var bookSide := SideBook(side);
      var bookSideIt: nat := 0;
      for n := 0 to |updates|
        invariant bookSideIt <= |bookSide|
        invariant UpdateFrom(side, bookSide, bookSideIt, updates[n..]) ==
                  UpdateFrom(side, old(SideBook(side)), 0, updates)
      {
        var u := updates[n];
        assert updates[n..][1..] == updates[n + 1..];
        bookSideIt := LowerBound(side, bookSide, bookSideIt, u.price);
        if bookSideIt == |bookSide| {
          bookSide := bookSide + [u];
        } else if bookSide[bookSideIt].price == u.price {
          if u.quantity == 0.0 {
            bookSide := bookSide[..bookSideIt] + bookSide[bookSideIt + 1..];
          } else {
            bookSide := bookSide[bookSideIt := bookSide[bookSideIt].(quantity := u.quantity)];
          }
        } else {
          bookSide := bookSide[..bookSideIt] + [u] + bookSide[bookSideIt..];
        }
      }
      if side == Bid { bids := bookSide; } else { asks := bookSide; }
    }

    /** do_on_orderbook_snapshot: replace both sides; publish when the checksum agrees. */
    method OnSnapshot(message: Message) returns (published: bool)
      modifies this
      ensures bids == message.bids && asks == message.asks
      ensures forall side :: SideBook(side) == SideAfter(side, old(SideBook(side)), Snapshot(message))
      ensures published <==> Checksum() == message.checksum
    {
      bids, asks := message.bids, message.asks;
      var bookChecksum := Crc32.Crc32Checksum(serialize(bids, asks));
      published := bookChecksum == message.checksum;
    }

    /** do_on_orderbook_update: edit both sides; publish when the checksum agrees. */
    method OnUpdate(message: Message) returns (published: bool)
      modifies this
      ensures bids == UpdateFrom(Bid, old(bids), 0, message.bids) && asks == UpdateFrom(Ask, old(asks), 0, message.asks)
      ensures forall side :: SideBook(side) == SideAfter(side, old(SideBook(side)), Update(message))
      ensures published <==> Checksum() == message.checksum
    {
      UpdateSide(Bid, message.bids);
      UpdateSide(Ask, message.asks);
      var bookChecksum := Crc32.Crc32Checksum(serialize(bids, asks));
      published := bookChecksum == message.checksum;
    }
  }
}
