/** Positional notation: big-endian digit strings, their values, and the minimal string of a value. */
module Radix {
  function Pow(b: nat, e: nat): nat {
    if e == 0 then 1 else b * Pow(b, e - 1)
  }

  /** Every element is a digit of base `b`. */
  ghost predicate AreDigits(b: nat, s: seq<nat>) {
    forall i :: 0 <= i < |s| ==> s[i] < b
  }

  /** The value of `s` read big-endian in base `b`. */
  ghost function Val(b: nat, s: seq<nat>): nat {
    if s == [] then 0 else Val(b, s[..|s| - 1]) * b + s[|s| - 1]
  }

  /** `s` is the shortest string of base-`b` digits worth `v`; zero has the empty string. */
  ghost predicate IsMinimal(b: nat, s: seq<nat>, v: nat) {
    AreDigits(b, s) && Val(b, s) == v && (s != [] ==> s[0] != 0)
  }

  /** The shortest digit string of `v`: it exists and, by MinimalUnique, is the only one. */
  ghost function Digits(b: nat, v: nat): (s: seq<nat>)
    requires b >= 2
    ensures IsMinimal(b, s, v)
  {
    MinimalExists(b, v);
    var s :| IsMinimal(b, s, v);
    s
  }

  function Zeros(n: nat): (s: seq<nat>)
    ensures |s| == n && forall i :: 0 <= i < n ==> s[i] == 0
  {
    seq(n, _ => 0)
  }

  lemma MulMonotone(x: nat, y: nat, k: nat)
    requires x <= y
    ensures x * k <= y * k
  {
  }

  lemma {:induction false} PowPositive(b: nat, e: nat)
    requires b > 0
    ensures Pow(b, e) > 0
  {
    if e > 0 { PowPositive(b, e - 1); }
  }

  lemma PowStep(b: nat, e: nat)
    ensures Pow(b, e + 1) == b * Pow(b, e)
  {
  }

  lemma MulAssociates(x: nat, y: nat, z: nat)
    ensures x * (y * z) == (x * y) * z
  {
  }

  lemma {:induction false} PowAdd(b: nat, x: nat, y: nat)
    ensures Pow(b, x + y) == Pow(b, x) * Pow(b, y)
  {
    if x > 0 {
      PowAdd(b, x - 1, y);
      PowStep(b, x - 1);
      PowStep(b, x - 1 + y);
      MulAssociates(b, Pow(b, x - 1), Pow(b, y));
      hide Pow;
    }
  }

  lemma {:induction false} PowMul(b: nat, x: nat, y: nat)
    ensures Pow(b, x * y) == Pow(Pow(b, x), y)
  {
    if y == 0 {
      assert x * y == 0;
    } else {
      PowMul(b, x, y - 1);
      PowAdd(b, x, x * (y - 1));
      assert x * y == x + x * (y - 1);
    }
  }

  lemma {:induction false} PowMonotone(b: nat, c: nat, e: nat)
    requires b <= c
    ensures Pow(b, e) <= Pow(c, e)
  {
    if e > 0 {
      PowMonotone(b, c, e - 1);
      MulMonotone(b, c, Pow(b, e - 1));
      MulMonotone(Pow(b, e - 1), Pow(c, e - 1), c);
    }
  }

  lemma MulStrict(b: nat, c: nat, p: nat, q: nat)
    requires b < c && p <= q && q > 0
    ensures b * p < c * q
  {
    MulMonotone(p, q, b);
    MulMonotone(b + 1, c, q);
    assert (b + 1) * q == b * q + q;
  }

  lemma PowStrict(b: nat, c: nat, e: nat)
    requires b < c && e > 0
    ensures Pow(b, e) < Pow(c, e)
  {
    PowMonotone(b, c, e - 1);
    PowPositive(c, e - 1);
    MulStrict(b, c, Pow(b, e - 1), Pow(c, e - 1));
  }

  lemma PowGrows(b: nat, x: nat, y: nat)
    requires b > 0 && x <= y
    ensures Pow(b, x) <= Pow(b, y)
  {
    var d := y - x;
    var p, q := Pow(b, x), Pow(b, d);
    PowPositive(b, d);
    assert Pow(b, y) == p * q by { PowAdd(b, x, d); }
    assert p <= p * q by { MulMonotone(1, q, p); }
  }

  lemma {:induction false} ValBound(b: nat, s: seq<nat>)
    requires AreDigits(b, s)
    ensures Val(b, s) < Pow(b, |s|)
  {
    if s != [] {
      ValBound(b, s[..|s| - 1]);
      MulMonotone(Val(b, s[..|s| - 1]) + 1, Pow(b, |s| - 1), b);
    }
  }

  /** A digit in front weighs b^|s|. */
  lemma {:induction false} ValCons(b: nat, d: nat, s: seq<nat>)
    ensures Val(b, [d] + s) == d * Pow(b, |s|) + Val(b, s)
  {
    if s == [] {
      assert ([d] + s)[..0] == [];
      assert Val(b, [d]) == Val(b, []) * b + d;
    } else {
      var t := s[..|s| - 1];
      assert ([d] + s)[..|s|] == [d] + t;
      ValCons(b, d, t);
      var p, v := Pow(b, |t|), Val(b, t);
      assert (d * p + v) * b == d * (b * p) + v * b;
    }
  }

  lemma {:induction false} ValZeros(b: nat, n: nat, s: seq<nat>)
    ensures Val(b, Zeros(n) + s) == Val(b, s)
  {
    if n == 0 {
      assert Zeros(0) + s == s;
    } else {
      assert Zeros(n) + s == [0] + (Zeros(n - 1) + s);
      ValCons(b, 0, Zeros(n - 1) + s);
      ValZeros(b, n - 1, s);
    }
  }

  /** A leading nonzero digit puts the value at b^(|s|-1) or more. */
  lemma ValLowerBound(b: nat, s: seq<nat>)
    requires s != [] && s[0] != 0
    ensures Pow(b, |s| - 1) <= Val(b, s)
  {
    assert s == [s[0]] + s[1..];
    ValCons(b, s[0], s[1..]);
    MulMonotone(1, s[0], Pow(b, |s| - 1));
  }

  /** A string is worth nothing exactly when it is all zeros. */
  lemma {:induction false} ValPositive(b: nat, s: seq<nat>)
    requires b > 0
    ensures Val(b, s) == 0 <==> s == Zeros(|s|)
  {
    if s != [] {
      ValPositive(b, s[..|s| - 1]);
      var v, d := Val(b, s[..|s| - 1]), s[|s| - 1];
      assert v * b == 0 <==> v == 0;
      assert s == s[..|s| - 1] + [d];
      assert Zeros(|s|) == Zeros(|s| - 1) + [0];
    }
  }

  /** The value of a prefix never exceeds the value of the whole string. */
  lemma {:induction false} ValPrefix(b: nat, s: seq<nat>, k: nat)
    requires b > 0 && k <= |s|
    ensures Val(b, s[..k]) <= Val(b, s)
  {
    if k == |s| {
      assert s[..k] == s;
    } else {
      ValPrefix(b, s[..|s| - 1], k);
      assert s[..|s| - 1][..k] == s[..k];
      MulMonotone(1, b, Val(b, s[..|s| - 1]));
    }
  }

  lemma ValSnoc(b: nat, t: seq<nat>, d: nat)
    ensures Val(b, t + [d]) == Val(b, t) * b + d
  {
    var s := t + [d];
    assert s[..|s| - 1] == t;
  }

  lemma MinimalSnoc(b: nat, t: seq<nat>, q: nat, d: nat)
    requires IsMinimal(b, t, q) && d < b && (q > 0 || d > 0)
    ensures IsMinimal(b, t + [d], q * b + d)
  {
    ValSnoc(b, t, d);
    assert t == [] ==> q == 0;
    hide Val;
  }

  lemma {:induction false} MinimalExists(b: nat, v: nat)
    requires b >= 2
    ensures exists s :: IsMinimal(b, s, v)
    decreases v
  {
    if v == 0 {
      assert IsMinimal(b, [], 0);
    } else {
      var q, d := DivMod(b, v);
      MinimalExists(b, q);
      var t :| IsMinimal(b, t, q);
      NotNothing(b, q, d);
      hide IsMinimal;
      MinimalSnoc(b, t, q, d);
      assert IsMinimal(b, t + [d], v);
    }
  }

  lemma NotNothing(b: nat, q: nat, d: nat)
    ensures q * b + d > 0 ==> q > 0 || d > 0
  {
  }

  lemma DivMod(b: nat, v: nat) returns (q: nat, d: nat)
    requires b >= 2 && v > 0
    ensures v == q * b + d && d < b && q < v
  {
    q, d := v / b, v % b;
    assert v == q * b + d;
    MulMonotone(2, b, q);
  }

  /** Minimal strings are unique. */
  lemma {:induction false} MinimalUnique(b: nat, s: seq<nat>, t: seq<nat>)
    requires b >= 2 && AreDigits(b, s) && AreDigits(b, t)
    requires s != [] ==> s[0] != 0
    requires t != [] ==> t[0] != 0
    requires Val(b, s) == Val(b, t)
    ensures s == t
  {
    if s == [] || t == [] {
      NonEmptyIsPositive(b, s);
      NonEmptyIsPositive(b, t);
    } else {
      var s', t' := s[..|s| - 1], t[..|t| - 1];
      SameQuotient(b, Val(b, s'), s[|s| - 1], Val(b, t'), t[|t| - 1]);
      MinimalUnique(b, s', t');
      assert s == s' + [s[|s| - 1]] && t == t' + [t[|t| - 1]];
    }
  }

  lemma NonEmptyIsPositive(b: nat, s: seq<nat>)
    requires b > 0
    requires s != [] ==> s[0] != 0
    ensures s != [] ==> Val(b, s) > 0
  {
    if s != [] {
      ValLowerBound(b, s);
      PowPositive(b, |s| - 1);
    }
  }

  lemma SameQuotient(b: nat, q: nat, d: nat, r: nat, e: nat)
    requires d < b && e < b && q * b + d == r * b + e
    ensures q == r && d == e
  {
    if q < r {
      MulMonotone(q + 1, r, b);
    } else if r < q {
      MulMonotone(r + 1, q, b);
    }
  }
}
