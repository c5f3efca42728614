/**
 * What the walk reports against what it matched. The matched volume has a closed form, the overlap of the two
 * books' cumulative quantities; the report sizes every step from full levels instead.
 */
module ArbitrageReport {
  import opened Trading
  import opened ArbitrageWalk

  /** The quantity offered by the first `k` levels. */
  function CumSerum(v: Venues, k: nat): real {
    if k == 0 then 0.0 else CumSerum(v, k - 1) + v.SerumQuantity(k - 1)
  }

  function CumFtx(v: Venues, k: nat): real {
    if k == 0 then 0.0 else CumFtx(v, k - 1) + v.FtxQuantity(k - 1)
  }

  /** How far Serum level `i` and FTX level `j` cover the same stretch of cumulative volume. */
  function Overlap(v: Venues, i: nat, j: nat): real {
    Min(CumSerum(v, i + 1), CumFtx(v, j + 1)) - Max(CumSerum(v, i), CumFtx(v, j))
  }

  /** Two levels that meet and are profitable against each other. */
  ghost predicate Meet(v: Venues, i: nat, j: nat) {
    i < |v.serum| && j < |v.ftx| && v.Margin(i, j) > 0.0 && Overlap(v, i, j) > 0.0
  }

  /** Both iterators stand at the same cumulative volume: equal amounts have been consumed of each book. */
  ghost predicate InStep(v: Venues, c: Cursor) {
    var consumed := CumSerum(v, c.i) + (v.SerumQuantity(c.i) - c.rs);
    && consumed == CumFtx(v, c.j) + (v.FtxQuantity(c.j) - c.rf)
    && consumed == Max(CumSerum(v, c.i), CumFtx(v, c.j))
  }

  lemma {:induction false} CumSerumGrows(v: Venues, a: nat, b: nat)
    requires v.Valid() && a <= b
    ensures CumSerum(v, a) <= CumSerum(v, b)
  {
    if a < b { CumSerumGrows(v, a, b - 1); }
  }

  lemma {:induction false} CumFtxGrows(v: Venues, a: nat, b: nat)
    requires v.Valid() && a <= b
    ensures CumFtx(v, a) <= CumFtx(v, b)
  {
    if a < b { CumFtxGrows(v, a, b - 1); }
  }

  /** Every step consumes the same volume from both books. */
  lemma StaysInStep(v: Venues, c: Cursor)
    requires v.Valid() && At(v, c) && InStep(v, c) && !Stopped(v, c)
    ensures At(v, Advance(v, c)) && InStep(v, Advance(v, c))
    ensures Min(c.rs, c.rf) == Overlap(v, c.i, c.j) > 0.0
  {
  }

  /** From a cursor on, the fills are exactly the meeting pairs, each with its overlap. */
  lemma {:induction false} WalkIsOverlaps(v: Venues, c: Cursor, a: nat, b: nat, x: real)
    requires v.Valid() && At(v, c) && InStep(v, c)
    ensures Fill(a, b, x) in Walk(v, c) <==>
            c.i <= a && c.j <= b && Meet(v, a, b) && x == Overlap(v, a, b)
    decreases |v.serum| - c.i + (|v.ftx| - c.j)
  {
    if Stopped(v, c) {
      NoneMeet(v, c, a, b);
    } else {
      var d := Advance(v, c);
      StaysInStep(v, c);
      hide Venues.Valid, Venues.Margin;
      WalkIsOverlaps(v, d, a, b, x);
      if c.i == a && d.i > a && c.j < b {
        CumFtxGrows(v, c.j + 1, b);
      }
      if c.j == b && d.j > b && c.i < a {
        CumSerumGrows(v, c.i + 1, a);
      }
    }
  }

  /** Where the walk stops no two levels from there on are profitable. */
  lemma NoneMeet(v: Venues, c: Cursor, a: nat, b: nat)
    requires v.Valid() && Stopped(v, c) && c.i <= |v.serum| && c.j <= |v.ftx|
    ensures !(c.i <= a && c.j <= b && Meet(v, a, b))
  {
    if c.i <= a < |v.serum| && c.j <= b < |v.ftx| {
      GainsFall(v, c.i, a);
      CostsRise(v, c.j, b);
    }
  }

  lemma StartInStep(v: Venues)
    requires v.Valid()
    ensures At(v, Start(v)) && InStep(v, Start(v))
  {
  }

  /** The match in closed form, with no reference to the loop. */
  lemma MatchIsOverlaps(v: Venues, a: nat, b: nat, x: real)
    requires v.Valid()
    ensures Fill(a, b, x) in Match(v) <==> Meet(v, a, b) && x == Overlap(v, a, b)
  {
    StartInStep(v);
    WalkIsOverlaps(v, Start(v), a, b, x);
  }

  /** No pair of levels is visited twice: the iterators only move forward. */
  lemma {:induction false} WalkAdvances(v: Venues, c: Cursor)
    requires v.Valid() && At(v, c)
    ensures forall k :: 0 <= k < |Walk(v, c)| ==> Walk(v, c)[k].i >= c.i && Walk(v, c)[k].j >= c.j
    ensures forall k, l :: 0 <= k < l < |Walk(v, c)| ==>
              Walk(v, c)[k].i + Walk(v, c)[k].j < Walk(v, c)[l].i + Walk(v, c)[l].j
    decreases |v.serum| - c.i + (|v.ftx| - c.j)
  {
    if !Stopped(v, c) {
      WalkAdvances(v, Advance(v, c));
    }
  }

  // ---------------------------------------------------------------- the overestimate

  /** Every volume is at most its level size, at a profit. */
  ghost predicate Sized(v: Venues, fills: seq<Fill>) {
    InBooks(v, fills) && forall f :: f in fills ==> f.volume <= v.LevelSize(f.i, f.j) && v.Margin(f.i, f.j) > 0.0
  }

  ghost predicate Exact(v: Venues, fills: seq<Fill>) {
    forall f :: f in fills ==> f.volume == v.LevelSize(f.i, f.j)
  }

  lemma ExactCons(v: Venues, fills: seq<Fill>)
    requires fills != []
    ensures Exact(v, fills) <==> fills[0].volume == v.LevelSize(fills[0].i, fills[0].j) && Exact(v, fills[1..])
    ensures Sized(v, fills) ==> fills[0] in fills && Sized(v, fills[1..])
  {
    assert forall g :: g in fills <==> g == fills[0] || g in fills[1..];
  }

  lemma {:induction false} VolumeBound(v: Venues, fills: seq<Fill>)
    requires Sized(v, fills)
    ensures Volume(fills) <= ReportedVolume(v, fills)
    ensures Volume(fills) == ReportedVolume(v, fills) <==> Exact(v, fills)
  {
    if fills != [] {
      ExactCons(v, fills);
      hide Venues.Margin, Venues.LevelSize, Exact;
      VolumeBound(v, fills[1..]);
    } else {
      assert Exact(v, fills);
    }
  }

  /** A margin times a volume, under a name so that it can be kept folded. */
  function Earned(m: real, x: real): real {
    m * x
  }

  lemma ProfitsCons(v: Venues, fills: seq<Fill>)
    requires Indexed(v, fills) && fills != []
    ensures var f, m := fills[0], v.Margin(fills[0].i, fills[0].j);
            && Profit(v, fills) == Earned(m, f.volume) + Profit(v, fills[1..])
            && ReportedProfit(v, fills) == Earned(m, v.LevelSize(f.i, f.j)) + ReportedProfit(v, fills[1..])
  {
    hide Venues.Margin, Venues.LevelSize;
  }

  lemma {:induction false} ProfitBound(v: Venues, fills: seq<Fill>)
    requires Sized(v, fills)
    ensures Profit(v, fills) <= ReportedProfit(v, fills)
    ensures Profit(v, fills) == ReportedProfit(v, fills) <==> Exact(v, fills)
  {
    if fills != [] {
      var f := fills[0];
      ExactCons(v, fills);
      ProfitsCons(v, fills);
      hide Venues.Margin, Venues.LevelSize, Exact, Earned, Profit, ReportedProfit;
      ProfitBound(v, fills[1..]);
      ScaleStrict(v.Margin(f.i, f.j), f.volume, v.LevelSize(f.i, f.j));
    } else {
      assert Exact(v, fills);
    }
  }

  lemma ScaleStrict(m: real, x: real, y: real)
    requires m > 0.0 && x <= y
    ensures Earned(m, x) <= Earned(m, y) && (Earned(m, x) == Earned(m, y) <==> x == y)
  {
    assert m * (y - x) >= 0.0;
    if x < y { assert m * (y - x) > 0.0; }
  }

  /**
   * The report is never below what was matched, and it is exact if and only if wherever two profitable levels
   * meet, the smaller lies wholly within the larger's stretch of volume.
   */
  lemma ReportIsUpperBound(v: Venues)
    requires v.Valid()
    ensures InBooks(v, Match(v))
    ensures Volume(Match(v)) <= ReportedVolume(v, Match(v)) && Profit(v, Match(v)) <= ReportedProfit(v, Match(v))
    ensures Volume(Match(v)) == ReportedVolume(v, Match(v)) <==>
            forall a: nat, b: nat :: Meet(v, a, b) ==> Overlap(v, a, b) == v.LevelSize(a, b)
    ensures Profit(v, Match(v)) == ReportedProfit(v, Match(v)) <==>
            forall a: nat, b: nat :: Meet(v, a, b) ==> Overlap(v, a, b) == v.LevelSize(a, b)
  {
    var fills := Match(v);
    WalkInBooks(v, Start(v));
    forall f | f in fills
      ensures Meet(v, f.i, f.j) && f.volume == Overlap(v, f.i, f.j) <= v.LevelSize(f.i, f.j)
    {
      MatchIsOverlaps(v, f.i, f.j, f.volume);
    }
    forall a: nat, b: nat | Meet(v, a, b)
      ensures Fill(a, b, Overlap(v, a, b)) in fills
    {
      MatchIsOverlaps(v, a, b, Overlap(v, a, b));
    }
    VolumeBound(v, fills);
    ProfitBound(v, fills);
  }

  /** A bid of 10 against asks of 6 and 6: the report is 12, more than the bid holds. */
  lemma ReportCanExceedBook() returns (v: Venues)
    ensures v.Valid() && CumSerum(v, |v.serum|) == 10.0 && ReportedVolume(v, Match(v)) == 12.0
  {
    v := Venues(Bid, [Level(100.0, 10.0)], [Level(90.0, 6.0), Level(91.0, 6.0)]);
    var c1 := Advance(v, Start(v));
    assert c1 == Cursor(0, 1, 4.0, 6.0);
    assert Stopped(v, Advance(v, c1));
    assert Walk(v, c1) == [Fill(0, 1, 4.0)];
    assert Match(v) == [Fill(0, 0, 6.0)] + Walk(v, c1);
    assert ReportedVolume(v, [Fill(0, 1, 4.0)]) == 6.0;
    assert Match(v)[1..] == [Fill(0, 1, 4.0)];
    assert CumSerum(v, 1) == CumSerum(v, 0) + 10.0;
  }
}
