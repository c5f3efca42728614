/**
 * Volume taken from the levels of a book, its value under per-level weights, and the linear-programming bound
 * on that value. A strategy's profit is two such sums, one per venue.
 */
module Matching {

  datatype Take = Take(index: nat, volume: real)

  ghost predicate InRange(takes: seq<Take>, n: nat) {
    forall i :: 0 <= i < |takes| ==> takes[i].index < n && takes[i].volume >= 0.0
  }

  /** The volume taken from level `k`. */
  ghost function Used(takes: seq<Take>, k: nat): real {
    if takes == [] then 0.0
    else (if takes[0].index == k then takes[0].volume else 0.0) + Used(takes[1..], k)
  }

  ghost function Value(takes: seq<Take>, w: seq<real>): real
    requires InRange(takes, |w|)
  {
    if takes == [] then 0.0
    else takes[0].volume * w[takes[0].index] + Value(takes[1..], w)
  }

  /** The same value, level by level. */
  ghost function ByLevel(takes: seq<Take>, w: seq<real>, n: nat): real
    requires n <= |w|
  {
    if n == 0 then 0.0 else ByLevel(takes, w, n - 1) + Used(takes, n - 1) * w[n - 1]
  }

  function PositivePart(x: real): real {
    if x > 0.0 then x else 0.0
  }

  /** No taking within the capacities can be worth more than this. */
  ghost function Bound(cap: seq<real>, w: seq<real>, n: nat): real
    requires n <= |w| == |cap|
  {
    if n == 0 then 0.0 else Bound(cap, w, n - 1) + cap[n - 1] * PositivePart(w[n - 1])
  }

  ghost predicate Within(takes: seq<Take>, cap: seq<real>) {
    InRange(takes, |cap|) && forall k: nat :: k < |cap| ==> Used(takes, k) <= cap[k]
  }

  /** Levels worth taking are exhausted, and nothing of negative worth is taken. */
  ghost predicate Tight(takes: seq<Take>, cap: seq<real>, w: seq<real>)
    requires |cap| == |w|
  {
    forall k: nat :: k < |cap| ==>
      (w[k] > 0.0 ==> Used(takes, k) == cap[k]) && (Used(takes, k) > 0.0 ==> w[k] >= 0.0)
  }

  lemma {:induction false} UsedNonNegative(takes: seq<Take>, n: nat, k: nat)
    requires InRange(takes, n)
    ensures Used(takes, k) >= 0.0
    ensures k >= n ==> Used(takes, k) == 0.0
  {
    if takes != [] { UsedNonNegative(takes[1..], n, k); }
  }

  lemma {:induction false} ByLevelNone(w: seq<real>, n: nat)
    requires n <= |w|
    ensures ByLevel([], w, n) == 0.0
  {
    if n > 0 { ByLevelNone(w, n - 1); }
  }

  lemma {:induction false} ByLevelCons(takes: seq<Take>, w: seq<real>, n: nat)
    requires takes != [] && n <= |w| && takes[0].index < |w|
    ensures ByLevel(takes, w, n) ==
            ByLevel(takes[1..], w, n) + (if takes[0].index < n then takes[0].volume * w[takes[0].index] else 0.0)
  {
    if n > 0 {
      ByLevelCons(takes, w, n - 1);
      var u, v := Used(takes[1..], n - 1), takes[0].volume;
      assert (v + u) * w[n - 1] == v * w[n - 1] + u * w[n - 1];
    }
  }

  lemma {:induction false} ValueByLevel(takes: seq<Take>, w: seq<real>)
    requires InRange(takes, |w|)
    ensures Value(takes, w) == ByLevel(takes, w, |w|)
  {
    if takes == [] {
      ByLevelNone(w, |w|);
    } else {
      ByLevelCons(takes, w, |w|);
      ValueByLevel(takes[1..], w);
    }
  }

  lemma TermBounded(used: real, cap: real, w: real)
    requires 0.0 <= used <= cap
    ensures used * w <= cap * PositivePart(w)
    ensures (w > 0.0 ==> used == cap) && (used > 0.0 ==> w >= 0.0) ==> used * w == cap * PositivePart(w)
  {
    if w > 0.0 { assert used * w <= cap * w; } else { assert used * w <= 0.0; }
  }

  lemma {:induction false} ByLevelBounded(takes: seq<Take>, cap: seq<real>, w: seq<real>, n: nat)
    requires n <= |w| == |cap| && Within(takes, cap)
    ensures ByLevel(takes, w, n) <= Bound(cap, w, n)
    ensures Tight(takes, cap, w) ==> ByLevel(takes, w, n) == Bound(cap, w, n)
  {
    hide Used, PositivePart;
    if n > 0 {
      ByLevelBounded(takes, cap, w, n - 1);
      UsedNonNegative(takes, |cap|, n - 1);
      TermBounded(Used(takes, n - 1), cap[n - 1], w[n - 1]);
    }
  }

  /** Weak duality for one venue, with equality for a tight taking. */
  lemma ValueBounded(takes: seq<Take>, cap: seq<real>, w: seq<real>)
    requires |w| == |cap| && Within(takes, cap)
    ensures Value(takes, w) <= Bound(cap, w, |w|)
    ensures Tight(takes, cap, w) ==> Value(takes, w) == Bound(cap, w, |w|)
  {
    ValueByLevel(takes, w);
    ByLevelBounded(takes, cap, w, |w|);
  }
}
