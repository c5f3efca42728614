/**
 * What two opposite sides of a market add up to, pair of levels by pair of levels, in the prices and fees themselves:
 * the reference for what the take strategy reports, with no walk in it.
 */
module CrossedBooks {
  import opened Trading
  import opened ArbitrageWalk
  import opened ArbitrageReport

  /** What one unit earns between two prices after both fees: sold on Serum when `side` is Bid, else bought there. */
  function NetMargin(side: Side, serum: real, ftx: real): real {
    if side == Bid then (serum - serum * 0.0003) - (ftx + ftx * 0.002)
    else (ftx - ftx * 0.002) - (serum + serum * 0.0003)
  }

  /** Two levels that pay after both fees and cover a common stretch of cumulative volume. */
  predicate Crossed(v: Venues, i: nat, j: nat) {
    && i < |v.serum| && j < |v.ftx|
    && NetMargin(v.side, v.serum[i].price, v.ftx[j].price) > 0.0 && Overlap(v, i, j) > 0.0
  }

  function PairVolume(v: Venues, i: nat, j: nat): real {
    if Crossed(v, i, j) then Min(v.serum[i].quantity, v.ftx[j].quantity) else 0.0
  }

  function PairProfit(v: Venues, i: nat, j: nat): real {
    if Crossed(v, i, j) then
      NetMargin(v.side, v.serum[i].price, v.ftx[j].price) * Min(v.serum[i].quantity, v.ftx[j].quantity)
    else 0.0
  }

  /** The sum of `f` over the columns `j` to `n` of row `i`. */
  function RowSum(f: (nat, nat) -> real, i: nat, j: nat, n: nat): real
    decreases n - j
  {
    if j >= n then 0.0 else f(i, j) + RowSum(f, i, j + 1, n)
  }

  /** The sum of `f` over the rows `i` to `m` and the columns `j` to `n`. */
  function GridSum(f: (nat, nat) -> real, i: nat, j: nat, m: nat, n: nat): real
    decreases m - i
  {
    if i >= m then 0.0 else RowSum(f, i, j, n) + GridSum(f, i + 1, j, m, n)
  }

  function Volumes(v: Venues): (nat, nat) -> real {
    (i: nat, j: nat) => PairVolume(v, i, j)
  }

  function Profits(v: Venues): (nat, nat) -> real {
    (i: nat, j: nat) => PairProfit(v, i, j)
  }

  /** The smaller level sizes of all crossed pairs. */
  function CrossedVolume(v: Venues): real {
    GridSum(Volumes(v), 0, 0, |v.serum|, |v.ftx|)
  }

  /** What those sizes earn. */
  function CrossedProfit(v: Venues): real {
    GridSum(Profits(v), 0, 0, |v.serum|, |v.ftx|)
  }

  /** The worst Serum price of a crossed pair, 0 if there is none. */
  ghost predicate WorstCrossed(v: Venues, price: real) {
    && ((forall i: nat, j: nat :: !Crossed(v, i, j)) ==> price == 0.0)
    && (forall i: nat, j: nat :: Crossed(v, i, j) ==>
          && !Before(v.side, price, v.serum[i].price)
          && exists a: nat, b: nat :: Crossed(v, a, b) && v.serum[a].price == price)
  }

  // ---------------------------------------------------------------- sums with zeros

  lemma {:induction false} RowZero(f: (nat, nat) -> real, i: nat, j: nat, n: nat)
    requires forall b :: j <= b < n ==> f(i, b) == 0.0
    ensures RowSum(f, i, j, n) == 0.0
    decreases n - j
  {
    if j < n { RowZero(f, i, j + 1, n); }
  }

  lemma {:induction false} GridZero(f: (nat, nat) -> real, i: nat, j: nat, m: nat, n: nat)
    requires forall a, b :: i <= a < m && j <= b < n ==> f(a, b) == 0.0
    ensures GridSum(f, i, j, m, n) == 0.0
    decreases m - i
  {
    if i < m {
      RowZero(f, i, j, n);
      GridZero(f, i + 1, j, m, n);
    }
  }

  /** A first column of zeros may be left out. */
  lemma {:induction false} DropColumn(f: (nat, nat) -> real, i: nat, j: nat, m: nat, n: nat)
    requires forall a :: i <= a < m ==> f(a, j) == 0.0
    ensures GridSum(f, i, j, m, n) == GridSum(f, i, j + 1, m, n)
    decreases m - i
  {
    if i < m { DropColumn(f, i + 1, j, m, n); }
  }

  /** The corner, and what lies beyond its row and its column where those are zero. */
  lemma GridStep(f: (nat, nat) -> real, i: nat, j: nat, m: nat, n: nat, down: bool, right: bool)
    requires i < m && j < n && (down || right)
    requires down ==> forall b :: j < b < n ==> f(i, b) == 0.0
    requires right ==> forall a :: i < a < m ==> f(a, j) == 0.0
    ensures GridSum(f, i, j, m, n) ==
            f(i, j) + GridSum(f, if down then i + 1 else i, if right then j + 1 else j, m, n)
  {
    if down { RowZero(f, i, j + 1, n); }
    if right { DropColumn(f, i + 1, j, m, n); }
  }

  // ---------------------------------------------------------------- the report is the reference

  lemma CrossedIsMeet(v: Venues, i: nat, j: nat)
    ensures Crossed(v, i, j) <==> Meet(v, i, j)
    ensures i < |v.serum| && j < |v.ftx| ==> NetMargin(v.side, v.serum[i].price, v.ftx[j].price) == v.Margin(i, j)
  {
  }

  /** The levels a step leaves behind cross nothing that is still to come. */
  lemma LeftBehind(v: Venues, c: Cursor, a: nat, b: nat)
    requires v.Valid() && At(v, c) && InStep(v, c) && !Stopped(v, c)
    ensures Advance(v, c).i > c.i && a == c.i && b > c.j ==> !Crossed(v, a, b)
    ensures Advance(v, c).j > c.j && b == c.j && a > c.i ==> !Crossed(v, a, b)
  {
    if a == c.i && b > c.j { CumFtxGrows(v, c.j + 1, b); }
    if b == c.j && a > c.i { CumSerumGrows(v, c.i + 1, a); }
    StaysInStep(v, c);
  }

  ghost function VolumeFrom(v: Venues, c: Cursor): real {
    GridSum(Volumes(v), c.i, c.j, |v.serum|, |v.ftx|)
  }

  ghost function ProfitFrom(v: Venues, c: Cursor): real {
    GridSum(Profits(v), c.i, c.j, |v.serum|, |v.ftx|)
  }

  lemma NothingFrom(v: Venues, c: Cursor)
    requires v.Valid() && At(v, c) && Stopped(v, c)
    ensures VolumeFrom(v, c) == 0.0 && ProfitFrom(v, c) == 0.0
  {
    forall a: nat, b: nat | c.i <= a && c.j <= b
      ensures !Crossed(v, a, b)
    {
      NoneMeet(v, c, a, b);
      CrossedIsMeet(v, a, b);
    }
    hide Crossed;
    GridZero(Volumes(v), c.i, c.j, |v.serum|, |v.ftx|);
    GridZero(Profits(v), c.i, c.j, |v.serum|, |v.ftx|);
  }

  lemma StepFrom(v: Venues, c: Cursor)
    requires v.Valid() && At(v, c) && InStep(v, c) && !Stopped(v, c)
    ensures var d := Advance(v, c);
            && VolumeFrom(v, c) == PairVolume(v, c.i, c.j) + VolumeFrom(v, d)
            && ProfitFrom(v, c) == PairProfit(v, c.i, c.j) + ProfitFrom(v, d)
  {
    var m, n, d := |v.serum|, |v.ftx|, Advance(v, c);
    ZerosBehind(v, c, d);
    AdvanceMoves(v, c);
    TermsAre(v, c);
    TermsAre(v, d);
    hide *;
    GridStep(Volumes(v), c.i, c.j, m, n, d.i > c.i, d.j > c.j);
    GridStep(Profits(v), c.i, c.j, m, n, d.i > c.i, d.j > c.j);
  }

  lemma AdvanceMoves(v: Venues, c: Cursor)
    requires !Stopped(v, c)
    ensures var d := Advance(v, c);
            && (d.i == c.i || d.i == c.i + 1) && (d.j == c.j || d.j == c.j + 1) && (d.i > c.i || d.j > c.j)
            && c.i < |v.serum| && c.j < |v.ftx|
  {
  }

  lemma ZerosBehind(v: Venues, c: Cursor, d: Cursor)
    requires v.Valid() && At(v, c) && InStep(v, c) && !Stopped(v, c) && d == Advance(v, c)
    ensures forall b: nat :: d.i > c.i && b > c.j ==> Volumes(v)(c.i, b) == 0.0 == Profits(v)(c.i, b)
    ensures forall a: nat :: d.j > c.j && a > c.i ==> Volumes(v)(a, c.j) == 0.0 == Profits(v)(a, c.j)
  {
    forall a: nat, b: nat
      ensures d.i > c.i && a == c.i && b > c.j ==> !Crossed(v, a, b)
      ensures d.j > c.j && b == c.j && a > c.i ==> !Crossed(v, a, b)
    {
      LeftBehind(v, c, a, b);
    }
    hide Crossed;
  }

  lemma TermsAre(v: Venues, c: Cursor)
    ensures Volumes(v)(c.i, c.j) == PairVolume(v, c.i, c.j) && Profits(v)(c.i, c.j) == PairProfit(v, c.i, c.j)
    ensures VolumeFrom(v, c) == GridSum(Volumes(v), c.i, c.j, |v.serum|, |v.ftx|)
    ensures ProfitFrom(v, c) == GridSum(Profits(v), c.i, c.j, |v.serum|, |v.ftx|)
  {
  }

  /** From a cursor on, the reported totals are the sums over the levels ahead. */
  lemma {:induction false} WalkIsGrid(v: Venues, c: Cursor)
    requires v.Valid() && At(v, c) && InStep(v, c)
    ensures ReportedVolume(v, Walk(v, c)) == VolumeFrom(v, c)
    ensures ReportedProfit(v, Walk(v, c)) == ProfitFrom(v, c)
    decreases |v.serum| - c.i + (|v.ftx| - c.j)
  {
    if Stopped(v, c) {
      NothingFrom(v, c);
    } else {
      var d := Advance(v, c);
      StaysInStep(v, c);
      WalkIsGrid(v, d);
      StepFrom(v, c);
      PairIsReported(v, c.i, c.j);
      var step := Fill(c.i, c.j, Min(c.rs, c.rf));
      assert Walk(v, c) == [step] + Walk(v, d);
      hide *;
      ReportedStep(v, step, Walk(v, d));
    }
  }

  lemma PairIsReported(v: Venues, i: nat, j: nat)
    requires i < |v.serum| && j < |v.ftx| && v.Margin(i, j) > 0.0 && Overlap(v, i, j) > 0.0
    ensures PairVolume(v, i, j) == v.LevelSize(i, j)
    ensures PairProfit(v, i, j) == Earned(v.Margin(i, j), v.LevelSize(i, j))
  {
    CrossedIsMeet(v, i, j);
    hide Overlap, NetMargin, Venues.Margin;
  }

  lemma ReportedStep(v: Venues, f: Fill, rest: seq<Fill>)
    requires Indexed(v, rest) && f.i < |v.serum| && f.j < |v.ftx|
    ensures Indexed(v, [f] + rest)
    ensures ReportedVolume(v, [f] + rest) == v.LevelSize(f.i, f.j) + ReportedVolume(v, rest)
    ensures ReportedProfit(v, [f] + rest) == Earned(v.Margin(f.i, f.j), v.LevelSize(f.i, f.j)) + ReportedProfit(v, rest)
  {
    hide Venues.Margin, Venues.LevelSize;
    assert ([f] + rest)[1..] == rest;
  }

  /** For books in order: the reported volume and profit are the sums over all crossed pairs. */
  lemma ReportIsCrossed(v: Venues)
    requires v.Valid()
    ensures ReportedVolume(v, Match(v)) == CrossedVolume(v)
    ensures ReportedProfit(v, Match(v)) == CrossedProfit(v)
  {
    StartInStep(v);
    WalkIsGrid(v, Start(v));
  }
}
