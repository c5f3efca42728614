/**
 * The cross-venue walk of the take strategy (and its copy in the backtest strategy): two iterators move down a
 * Serum side and the opposite FTX side while the next pair of levels is profitable after fees.
 */
module ArbitrageWalk {
  import opened Trading
  import opened Matching

  const SERUM_TAKER_FEE: real := 0.0003
  const FTX_TAKER_FEE: real := 0.002

  /** What one unit brings on Serum net of the fee; negative when `side` is Ask, where the unit is bought. */
  function SerumValue(side: Side, level: Level): real {
    if side == Bid then level.price - level.price * SERUM_TAKER_FEE
    else -(level.price + level.price * SERUM_TAKER_FEE)
  }

  /** What one unit costs on FTX with the fee; negative when `side` is Ask, where the unit is sold. */
  function FtxCost(side: Side, level: Level): real {
    if side == Bid then level.price + level.price * FTX_TAKER_FEE
    else -(level.price - level.price * FTX_TAKER_FEE)
  }

  /** The two books a walk reads, each best first with positive quantities. */
  datatype Venues = Venues(side: Side, serum: seq<Level>, ftx: seq<Level>) {
    ghost predicate Valid() {
      && BestFirst(side, serum) && BestFirst(Flip(side), ftx)
      && Positive(serum) && Positive(ftx)
    }

    function Gain(i: nat): real
      requires i < |serum|
    {
      SerumValue(side, serum[i])
    }

    function Cost(j: nat): real
      requires j < |ftx|
    {
      FtxCost(side, ftx[j])
    }

    /** Net profit per unit matched between Serum level `i` and FTX level `j`. */
    function Margin(i: nat, j: nat): real
      requires i < |serum| && j < |ftx|
    {
      Gain(i) - Cost(j)
    }

    function SerumQuantity(i: nat): real {
      if i < |serum| then serum[i].quantity else 0.0
    }

    function FtxQuantity(j: nat): real {
      if j < |ftx| then ftx[j].quantity else 0.0
    }

    /** The step size the source reports: the smaller of the two full levels. */
    function LevelSize(i: nat, j: nat): real {
      Min(SerumQuantity(i), FtxQuantity(j))
    }
  }

  function Min(x: real, y: real): real {
    if x < y then x else y
  }

  function Max(x: real, y: real): real {
    if x < y then y else x
  }

  /** A volume matched between two levels. */
  datatype Fill = Fill(i: nat, j: nat, volume: real)

  ghost predicate Indexed(v: Venues, fills: seq<Fill>) {
    forall k :: 0 <= k < |fills| ==> fills[k].i < |v.serum| && fills[k].j < |v.ftx|
  }

  ghost predicate InBooks(v: Venues, fills: seq<Fill>) {
    Indexed(v, fills) && forall k :: 0 <= k < |fills| ==> fills[k].volume >= 0.0
  }

  /** The loop's state: both iterators and what is left of the levels they stand on. */
  datatype Cursor = Cursor(i: nat, j: nat, rs: real, rf: real)

  /** Past the end of a book the source reads one level too far; that value is never used, and is 0 here. */
  function Start(v: Venues): Cursor {
    Cursor(0, 0, v.SerumQuantity(0), v.FtxQuantity(0))
  }

  predicate Stopped(v: Venues, c: Cursor) {
    c.i >= |v.serum| || c.j >= |v.ftx| || v.Margin(c.i, c.j) <= 0.0
  }

  function Advance(v: Venues, c: Cursor): Cursor {
    if c.rs < c.rf then Cursor(c.i + 1, c.j, v.SerumQuantity(c.i + 1), c.rf - c.rs)
    else if c.rs > c.rf then Cursor(c.i, c.j + 1, c.rs - c.rf, v.FtxQuantity(c.j + 1))
    else Cursor(c.i + 1, c.j + 1, v.SerumQuantity(c.i + 1), v.FtxQuantity(c.j + 1))
  }

  /** The fills the walk makes from a cursor on. */
  function Walk(v: Venues, c: Cursor): (fills: seq<Fill>)
    ensures Indexed(v, fills)
    decreases |v.serum| - c.i + (|v.ftx| - c.j)
  {
    if Stopped(v, c) then [] else [Fill(c.i, c.j, Min(c.rs, c.rf))] + Walk(v, Advance(v, c))
  }

  /** The whole match, from the top of both books. */
  function Match(v: Venues): (fills: seq<Fill>)
    ensures Indexed(v, fills)
  {
    Walk(v, Start(v))
  }

  // ---------------------------------------------------------------- totals over fills

  function Volume(fills: seq<Fill>): real {
    if fills == [] then 0.0 else fills[0].volume + Volume(fills[1..])
  }

  function Profit(v: Venues, fills: seq<Fill>): real
    requires Indexed(v, fills)
  {
    if fills == [] then 0.0
    else v.Margin(fills[0].i, fills[0].j) * fills[0].volume + Profit(v, fills[1..])
  }

  function ReportedVolume(v: Venues, fills: seq<Fill>): real {
    if fills == [] then 0.0 else v.LevelSize(fills[0].i, fills[0].j) + ReportedVolume(v, fills[1..])
  }

  function ReportedProfit(v: Venues, fills: seq<Fill>): real
    requires Indexed(v, fills)
  {
    if fills == [] then 0.0
    else v.Margin(fills[0].i, fills[0].j) * v.LevelSize(fills[0].i, fills[0].j) + ReportedProfit(v, fills[1..])
  }

  /** What a list of fills takes from each venue. */
  function SerumTakes(fills: seq<Fill>): (takes: seq<Take>)
    ensures |takes| == |fills| && forall k :: 0 <= k < |fills| ==> takes[k] == Take(fills[k].i, fills[k].volume)
  {
    seq(|fills|, k requires 0 <= k < |fills| => Take(fills[k].i, fills[k].volume))
  }

  function FtxTakes(fills: seq<Fill>): (takes: seq<Take>)
    ensures |takes| == |fills| && forall k :: 0 <= k < |fills| ==> takes[k] == Take(fills[k].j, fills[k].volume)
  {
    seq(|fills|, k requires 0 <= k < |fills| => Take(fills[k].j, fills[k].volume))
  }

  function SerumCaps(v: Venues): (caps: seq<real>)
    ensures |caps| == |v.serum|
  {
    seq(|v.serum|, i requires 0 <= i < |v.serum| => v.serum[i].quantity)
  }

  function FtxCaps(v: Venues): (caps: seq<real>)
    ensures |caps| == |v.ftx|
  {
    seq(|v.ftx|, j requires 0 <= j < |v.ftx| => v.ftx[j].quantity)
  }

  /** An allocation of volume between the books that takes no more of any level than it offers. */
  ghost predicate Feasible(v: Venues, fills: seq<Fill>) {
    InBooks(v, fills) && Within(SerumTakes(fills), SerumCaps(v)) && Within(FtxTakes(fills), FtxCaps(v))
  }

  // ---------------------------------------------------------------- the state of a walk

  /** A cursor as the loop meets it: nothing left over is larger than its level. */
  ghost predicate At(v: Venues, c: Cursor) {
    && c.i <= |v.serum| && c.j <= |v.ftx|
    && (c.i < |v.serum| ==> 0.0 < c.rs <= v.serum[c.i].quantity)
    && (c.j < |v.ftx| ==> 0.0 < c.rf <= v.ftx[c.j].quantity)
  }

  /** What a cursor leaves of Serum level `k`. */
  function SerumLeft(v: Venues, c: Cursor, k: nat): real {
    if k < c.i then 0.0 else if k == c.i then c.rs else v.SerumQuantity(k)
  }

  function FtxLeft(v: Venues, c: Cursor, k: nat): real {
    if k < c.j then 0.0 else if k == c.j then c.rf else v.FtxQuantity(k)
  }

  lemma {:induction false} WalkInBooks(v: Venues, c: Cursor)
    requires v.Valid() && At(v, c)
    ensures InBooks(v, Walk(v, c))
    decreases |v.serum| - c.i + (|v.ftx| - c.j)
  {
    if !Stopped(v, c) {
      WalkInBooks(v, Advance(v, c));
    }
  }

  lemma UsedCons(f: Fill, rest: seq<Fill>, k: nat)
    ensures Used(SerumTakes([f] + rest), k) == (if f.i == k then f.volume else 0.0) + Used(SerumTakes(rest), k)
    ensures Used(FtxTakes([f] + rest), k) == (if f.j == k then f.volume else 0.0) + Used(FtxTakes(rest), k)
  {
    assert SerumTakes([f] + rest)[1..] == SerumTakes(rest);
    assert FtxTakes([f] + rest)[1..] == FtxTakes(rest);
  }

  /** The walk takes no more of any level than its cursor leaves. */
  lemma {:induction false} WalkLimits(v: Venues, c: Cursor, k: nat)
    requires v.Valid() && At(v, c)
    ensures k < |v.serum| ==> 0.0 <= Used(SerumTakes(Walk(v, c)), k) <= SerumLeft(v, c, k)
    ensures k < |v.ftx| ==> 0.0 <= Used(FtxTakes(Walk(v, c)), k) <= FtxLeft(v, c, k)
    decreases |v.serum| - c.i + (|v.ftx| - c.j)
  {
    if !Stopped(v, c) {
      var d := Advance(v, c);
      WalkLimits(v, d, k);
      UsedCons(Fill(c.i, c.j, Min(c.rs, c.rf)), Walk(v, d), k);
    }
  }

  // ---------------------------------------------------------------- optimality

  lemma GainsFall(v: Venues, i: nat, k: nat)
    requires v.Valid() && i <= k < |v.serum|
    ensures v.Gain(k) <= v.Gain(i)
  {
    if i < k { assert !Before(v.side, v.serum[k].price, v.serum[i].price); }
  }

  lemma CostsRise(v: Venues, j: nat, k: nat)
    requires v.Valid() && j <= k < |v.ftx|
    ensures v.Cost(j) <= v.Cost(k)
  {
    if j < k { assert !Before(Flip(v.side), v.ftx[k].price, v.ftx[j].price); }
  }

  /** Worth taking means exhausted, taken means worth taking, measured against the price `t`. */
  ghost predicate SerumBalanced(v: Venues, c: Cursor, fills: seq<Fill>, t: real, k: nat)
    requires k < |v.serum|
  {
    var used := Used(SerumTakes(fills), k);
    (v.Gain(k) > t ==> used == SerumLeft(v, c, k)) && (used > 0.0 ==> v.Gain(k) >= t)
  }

  ghost predicate FtxBalanced(v: Venues, c: Cursor, fills: seq<Fill>, t: real, k: nat)
    requires k < |v.ftx|
  {
    var used := Used(FtxTakes(fills), k);
    (v.Cost(k) < t ==> used == FtxLeft(v, c, k)) && (used > 0.0 ==> v.Cost(k) <= t)
  }

  ghost predicate Balanced(v: Venues, c: Cursor, fills: seq<Fill>, t: real) {
    && (forall k: nat :: c.i <= k < |v.serum| ==> SerumBalanced(v, c, fills, t, k))
    && (forall k: nat :: c.j <= k < |v.ftx| ==> FtxBalanced(v, c, fills, t, k))
  }

  /** A price that separates what the walk matches from what it leaves, between any two given bounds. */
  lemma {:induction false} Threshold(v: Venues, c: Cursor, lo: real, hi: real) returns (t: real)
    requires v.Valid() && At(v, c) && lo <= hi
    requires c.j < |v.ftx| ==> lo <= v.Cost(c.j)
    requires c.i < |v.serum| ==> v.Gain(c.i) <= hi
    ensures lo <= t <= hi && Balanced(v, c, Walk(v, c), t)
    decreases |v.serum| - c.i + (|v.ftx| - c.j)
  {
    if Stopped(v, c) {
      t := if c.i < |v.serum| then Max(lo, v.Gain(c.i)) else lo;
      forall k: nat | c.i <= k < |v.serum| ensures SerumBalanced(v, c, [], t, k) { GainsFall(v, c.i, k); }
      forall k: nat | c.j <= k < |v.ftx| ensures FtxBalanced(v, c, [], t, k) { CostsRise(v, c.j, k); }
    } else {
      var d := Advance(v, c);
      if d.i < |v.serum| { GainsFall(v, c.i, d.i); }
      if d.j < |v.ftx| { CostsRise(v, c.j, d.j); }
      t := Threshold(v, d, v.Cost(c.j), v.Gain(c.i));
      BalanceStep(v, c, t);
    }
  }

  lemma BalanceStep(v: Venues, c: Cursor, t: real)
    requires v.Valid() && At(v, c) && !Stopped(v, c)
    requires v.Cost(c.j) <= t <= v.Gain(c.i)
    requires Balanced(v, Advance(v, c), Walk(v, Advance(v, c)), t)
    ensures Balanced(v, c, Walk(v, c), t)
  {
    hide SerumBalanced, FtxBalanced, Walk, Advance;
    forall k: nat | c.i <= k < |v.serum| ensures SerumBalanced(v, c, Walk(v, c), t, k) {
      SerumBalanceStep(v, c, t, k);
    }
    forall k: nat | c.j <= k < |v.ftx| ensures FtxBalanced(v, c, Walk(v, c), t, k) {
      FtxBalanceStep(v, c, t, k);
    }
  }

  /** What a step leaves of the levels from the cursor on. */
  lemma LeftStep(v: Venues, c: Cursor, k: nat)
    requires v.Valid() && At(v, c) && !Stopped(v, c)
    ensures var d, x := Advance(v, c), Min(c.rs, c.rf);
            && At(v, d) && 0.0 < x
            && (c.i <= k < |v.serum| ==> SerumLeft(v, c, k) == SerumLeft(v, d, k) + (if k == c.i then x else 0.0))
            && (c.j <= k < |v.ftx| ==> FtxLeft(v, c, k) == FtxLeft(v, d, k) + (if k == c.j then x else 0.0))
            && (c.i <= k < d.i ==> k == c.i) && (c.j <= k < d.j ==> k == c.j)
            && (k < d.i ==> SerumLeft(v, d, k) == 0.0) && (k < d.j ==> FtxLeft(v, d, k) == 0.0)
  {
  }

  lemma SerumBalanceStep(v: Venues, c: Cursor, t: real, k: nat)
    requires v.Valid() && At(v, c) && !Stopped(v, c) && t <= v.Gain(c.i) && c.i <= k < |v.serum|
    requires Balanced(v, Advance(v, c), Walk(v, Advance(v, c)), t)
    ensures SerumBalanced(v, c, Walk(v, c), t, k)
  {
    var d, f := Advance(v, c), Fill(c.i, c.j, Min(c.rs, c.rf));
    assert Walk(v, c) == [f] + Walk(v, d);
    LeftStep(v, c, k);
    hide Walk, FtxBalanced, SerumTakes, FtxTakes, Venues.Gain, Venues.Valid, At, Advance, SerumLeft, FtxLeft, Used;
    UsedCons(f, Walk(v, d), k);
    WalkLimits(v, d, k);
    assert k >= d.i ==> SerumBalanced(v, d, Walk(v, d), t, k);
  }

  lemma FtxBalanceStep(v: Venues, c: Cursor, t: real, k: nat)
    requires v.Valid() && At(v, c) && !Stopped(v, c) && v.Cost(c.j) <= t && c.j <= k < |v.ftx|
    requires Balanced(v, Advance(v, c), Walk(v, Advance(v, c)), t)
    ensures FtxBalanced(v, c, Walk(v, c), t, k)
  {
    var d, f := Advance(v, c), Fill(c.i, c.j, Min(c.rs, c.rf));
    assert Walk(v, c) == [f] + Walk(v, d);
    LeftStep(v, c, k);
    hide Walk, SerumBalanced, SerumTakes, FtxTakes, Venues.Cost, Venues.Valid, At, Advance, SerumLeft, FtxLeft, Used;
    UsedCons(f, Walk(v, d), k);
    WalkLimits(v, d, k);
    assert k >= d.j ==> FtxBalanced(v, d, Walk(v, d), t, k);
  }

  /** Per-level worth of taking from Serum, and from FTX, against a price `t`. */
  function SerumWeights(v: Venues, t: real): (w: seq<real>)
    ensures |w| == |v.serum|
  {
    seq(|v.serum|, i requires 0 <= i < |v.serum| => v.Gain(i) - t)
  }

  function FtxWeights(v: Venues, t: real): (w: seq<real>)
    ensures |w| == |v.ftx|
  {
    seq(|v.ftx|, j requires 0 <= j < |v.ftx| => t - v.Cost(j))
  }

  /** At any price `t`, profit is what Serum pays above it plus what FTX costs below it. */
  lemma {:induction false} ProfitSplit(v: Venues, fills: seq<Fill>, t: real)
    requires InBooks(v, fills)
    ensures Profit(v, fills) ==
            Value(SerumTakes(fills), SerumWeights(v, t)) + Value(FtxTakes(fills), FtxWeights(v, t))
  {
    if fills != [] {
      var f := fills[0];
      assert SerumTakes(fills)[1..] == SerumTakes(fills[1..]);
      assert FtxTakes(fills)[1..] == FtxTakes(fills[1..]);
      ProfitSplit(v, fills[1..], t);
      SplitArithmetic(v.Gain(f.i), v.Cost(f.j), t, f.volume);
    }
  }

  lemma SplitArithmetic(gain: real, cost: real, t: real, volume: real)
    ensures (gain - cost) * volume == volume * (gain - t) + volume * (t - cost)
  {
  }

  /** The walk never takes more of a level than it offers. */
  lemma MatchFeasible(v: Venues)
    requires v.Valid()
    ensures Feasible(v, Match(v))
  {
    WalkInBooks(v, Start(v));
    forall k: nat | k < |v.serum| ensures Used(SerumTakes(Match(v)), k) <= SerumCaps(v)[k] {
      WalkLimits(v, Start(v), k);
    }
    forall k: nat | k < |v.ftx| ensures Used(FtxTakes(Match(v)), k) <= FtxCaps(v)[k] {
      WalkLimits(v, Start(v), k);
    }
  }

  /** Balanced against `t`, the match exhausts exactly what is worth having at both venues. */
  lemma MatchTight(v: Venues, t: real)
    requires v.Valid() && Balanced(v, Start(v), Match(v), t)
    ensures Tight(SerumTakes(Match(v)), SerumCaps(v), SerumWeights(v, t))
    ensures Tight(FtxTakes(Match(v)), FtxCaps(v), FtxWeights(v, t))
  {
    hide Used, Walk, Match;
    var c, ws, wf := Start(v), SerumWeights(v, t), FtxWeights(v, t);
    var takes, caps := SerumTakes(Match(v)), SerumCaps(v);
    forall k: nat | k < |caps|
      ensures (ws[k] > 0.0 ==> Used(takes, k) == caps[k]) && (Used(takes, k) > 0.0 ==> ws[k] >= 0.0)
    {
      assert SerumBalanced(v, c, Match(v), t, k);
    }
    var ftxTakes, ftxCaps := FtxTakes(Match(v)), FtxCaps(v);
    forall k: nat | k < |ftxCaps|
      ensures (wf[k] > 0.0 ==> Used(ftxTakes, k) == ftxCaps[k]) && (Used(ftxTakes, k) > 0.0 ==> wf[k] >= 0.0)
    {
      assert FtxBalanced(v, c, Match(v), t, k);
    }
  }

  lemma MatchThreshold(v: Venues) returns (t: real)
    requires v.Valid()
    ensures Balanced(v, Start(v), Match(v), t)
  {
    var lo := if |v.ftx| > 0 then v.Cost(0) else 0.0;
    var hi := if |v.serum| > 0 then v.Gain(0) else 0.0;
    t := Threshold(v, Start(v), Min(lo, hi), Max(lo, hi));
  }

  /** Greedy is optimal: no feasible allocation of volume between the two books earns more net of fees. */
  lemma MatchOptimal(v: Venues, other: seq<Fill>)
    requires v.Valid() && Feasible(v, other)
    ensures Feasible(v, Match(v)) && Profit(v, other) <= Profit(v, Match(v))
  {
    hide Used, Walk, Match, Profit, Value, Bound, Tight, Balanced, Within;
    MatchFeasible(v);
    var t := MatchThreshold(v);
    var ws, wf := SerumWeights(v, t), FtxWeights(v, t);
    MatchTight(v, t);
    ProfitSplit(v, other, t);
    ProfitSplit(v, Match(v), t);
    ValueBounded(SerumTakes(other), SerumCaps(v), ws);
    ValueBounded(FtxTakes(other), FtxCaps(v), wf);
    ValueBounded(SerumTakes(Match(v)), SerumCaps(v), ws);
    ValueBounded(FtxTakes(Match(v)), FtxCaps(v), wf);
  }
}
