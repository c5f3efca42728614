/**
 * How many base-58 digits the encoder reserves: `int size = 1 + iFactor * count`, computed in double precision. The
 * estimate is proved adequate for every count whose estimate is an int, roundings included.
 */
module Base58Size {
  import opened Radix

  // ---------------------------------------------------------------- double precision

  /** 1.0, in units of 2^-52. */
  const ONE: nat := 0x10_0000_0000_0000

  /** The double nearest to the source's decimal constant, log 256 / log 58, in units of 2^-52. */
  const I_FACTOR: nat := 0x15_D9BC_73AC_2288

  /** The most bytes whose estimate is an int, by IntLimit. */
  const MAX_BYTES: nat := 1572489798

  /** `p` as a multiple of the spacing of doubles around it, which have 53 significant bits, and a rest. */
  function Split(p: nat): (s: (nat, nat, nat))
    ensures p == s.0 * s.2 + s.1 && s.1 < s.2
  {
    if p < 2 * ONE then (p, 0, 1)
    else
      var (q, r, u) := Split(p / 2);
      SplitTwice(p, q, r, u);
      (q, 2 * r + p % 2, 2 * u)
  }

  lemma SplitTwice(p: nat, q: nat, r: nat, u: nat)
    requires p / 2 == q * u + r
    ensures p == q * (2 * u) + (2 * r + p % 2)
  {
    assert q * (2 * u) == 2 * (q * u);
  }

  function Grain(p: nat): (u: nat)
    ensures u > 0
  {
    Split(p).2
  }

  /** The nearest double, a tie going to the even one. */
  function Rounded(p: nat): nat {
    var (q, r, u) := Split(p);
    if 2 * r < u || (2 * r == u && q % 2 == 0) then q * u else (q + 1) * u
  }

  /** Rounding to nearest: a double at most half the spacing away, and the even one if exactly half. */
  lemma RoundedIsNearest(p: nat) returns (k: nat)
    ensures var u := Grain(p);
            && Rounded(p) == k * u
            && 2 * (p - Rounded(p)) <= u && 2 * (Rounded(p) - p) <= u
            && (2 * (p - Rounded(p)) == u || 2 * (Rounded(p) - p) == u ==> k % 2 == 0)
  {
    var (q, r, u) := Split(p);
    k := if 2 * r < u || (2 * r == u && q % 2 == 0) then q else q + 1;
    hide Split;
    Distance(q, q, u);
  }

  /** The digit count reserved for `m` bytes: a product and a sum, each rounded, and the fraction dropped. */
  function EncodedSize(m: nat): (size: nat) {
    Rounded(ONE + Rounded(I_FACTOR * m)) / ONE
  }

  /** A double closer to `p` than half the spacing is not passed over. */
  lemma RoundReaches(p: nat, j: nat)
    requires 2 * (j * Grain(p) - p) < Grain(p)
    ensures j * Grain(p) <= Rounded(p)
  {
    var (q, r, u) := Split(p);
    hide Split;
    Distance(j, q, u);
    Distance(j, q + 1, u);
  }

  /** A double that `p` does not exceed is not exceeded by rounding. */
  lemma RoundStays(p: nat, j: nat)
    requires p <= j * Grain(p)
    ensures Rounded(p) <= j * Grain(p)
  {
    var (q, r, u) := Split(p);
    hide Split;
    Distance(j, q, u);
    Distance(q, j, u);
    Distance(q + 1, j, u);
  }

  /** Different multiples lie at least one spacing apart. */
  lemma Distance(j: nat, q: nat, u: nat)
    ensures j > q ==> j * u >= q * u + u
    ensures (q + 1) * u == q * u + u
    ensures j <= q ==> j * u <= q * u
  {
    if j > q { MulMonotone(q + 1, j, u); } else { MulMonotone(j, q, u); }
  }

  /** The spacing of numbers up to 2^(53 + n) divides 2^n. */
  lemma {:induction false} GrainDivides(p: nat, n: nat) returns (w: nat)
    requires p < 2 * ONE * Pow(2, n)
    ensures Pow(2, n) == w * Grain(p)
  {
    if p < 2 * ONE {
      w := Pow(2, n);
    } else {
      w := GrainDivides(p / 2, n - 1);
      assert 2 * (w * Grain(p / 2)) == w * (2 * Grain(p / 2));
    }
  }

  lemma {:induction false} GrainAt(p: nat, n: nat)
    requires ONE * Pow(2, n) <= p < 2 * ONE * Pow(2, n) && n > 0
    ensures Grain(p) == Pow(2, n)
  {
    if n > 1 {
      GrainAt(p / 2, n - 1);
    } else {
      assert Pow(2, 1) == 2;
      assert Split(p / 2).2 == 1;
    }
  }

  // ---------------------------------------------------------------- whole numbers of digits

  lemma PowersOfTwo()
    ensures Pow(2, 52) == ONE && Pow(2, 30) == 0x4000_0000
  {
    assert Pow(2, 10) == 1024;
    PowAdd(2, 10, 10);
    PowAdd(2, 20, 10);
    PowAdd(2, 20, 20);
    PowAdd(2, 40, 10);
    PowStep(2, 50);
    PowStep(2, 51);
  }

  /** A whole number closer above `p` than half the spacing is not passed over, one below `p` even less so. */
  lemma RoundReachesWhole(p: nat, k: nat)
    requires p < 2 * ONE * ONE && 2 * (k * ONE - p) < Grain(p)
    ensures k * ONE <= Rounded(p)
  {
    hide Grain, Rounded, Pow;
    PowersOfTwo();
    var w := GrainDivides(p, 52);
    assert k * (w * Grain(p)) == (k * w) * Grain(p);
    RoundReaches(p, k * w);
  }

  lemma RoundStaysWhole(p: nat, k: nat)
    requires p < 2 * ONE * ONE && p <= k * ONE
    ensures Rounded(p) <= k * ONE
  {
    hide Grain, Rounded, Pow;
    PowersOfTwo();
    var w := GrainDivides(p, 52);
    assert k * (w * Grain(p)) == (k * w) * Grain(p);
    RoundStays(p, k * w);
  }

  lemma SizeAtLeast(m: nat, k: nat)
    requires m <= MAX_BYTES && k * ONE <= Rounded(I_FACTOR * m)
    ensures EncodedSize(m) >= k + 1
  {
    var p := I_FACTOR * m;
    hide Grain, Rounded;
    RoundStaysWhole(p, MAX_BYTES * 2);
    RoundReachesWhole(ONE + Rounded(p), k + 1);
  }

  lemma SizeAtMost(m: nat, k: nat)
    requires m <= MAX_BYTES && I_FACTOR * m <= k * ONE
    ensures EncodedSize(m) <= k + 1
  {
    var p := I_FACTOR * m;
    hide Grain, Rounded;
    RoundStaysWhole(p, MAX_BYTES * 2);
    RoundStaysWhole(p, k);
    RoundStaysWhole(ONE + Rounded(p), k + 1);
  }

  /** The size exceeds the product with the double, before any rounding. */
  lemma SizeExceeds(m: nat)
    requires m <= MAX_BYTES
    ensures EncodedSize(m) * ONE > I_FACTOR * m
  {
    hide Rounded, EncodedSize;
    var k := I_FACTOR * m / ONE;
    RoundReachesWhole(I_FACTOR * m, k);
    SizeAtLeast(m, k);
  }

  /** Up to this count, and not beyond it, the estimate is an int. */
  lemma IntLimit()
    ensures EncodedSize(MAX_BYTES) <= 0x7FFF_FFFF
    ensures forall m :: 0 <= m <= MAX_BYTES ==> EncodedSize(m) <= 0x7FFF_FFFF
    ensures EncodedSize(MAX_BYTES + 1) > 0x7FFF_FFFF
  {
    hide Rounded, EncodedSize;
    forall m | 0 <= m <= MAX_BYTES ensures EncodedSize(m) <= 0x7FFF_FFFF {
      SizeAtMost(m, 0x7FFF_FFFE);
    }
    BeyondLimit();
  }

  lemma BeyondLimit()
    ensures EncodedSize(MAX_BYTES + 1) > 0x7FFF_FFFF
  {
    var p := I_FACTOR * (MAX_BYTES + 1);
    hide Grain, Rounded;
    RoundReachesWhole(p, 0x7FFF_FFFF);
    RoundStaysWhole(p, MAX_BYTES * 2);
    RoundReachesWhole(ONE + Rounded(p), 0x8000_0000);
  }

  /** Numbers with three low bits clear are exact up to three more binary places. */
  lemma EightsAreExact(t: nat)
    requires t < 2 * ONE
    ensures Rounded(8 * t) == 8 * t
  {
    var p := 8 * t;
    hide Grain, Rounded;
    assert Pow(2, 3) == 8;
    var w := GrainDivides(p, 3);
    assert t * (w * Grain(p)) == (t * w) * Grain(p);
    RoundReaches(p, t * w);
    RoundStays(p, t * w);
  }

  lemma SmallSizes()
    ensures EncodedSize(1) == 2 && EncodedSize(2) == 3 && EncodedSize(3) == 5
  {
    hide Rounded;
    forall m | 1 <= m <= 3
      ensures EncodedSize(m) == (ONE + I_FACTOR * m) / ONE
    {
      EightsAreExact(I_FACTOR / 8 * m);
      EightsAreExact(ONE / 8 + I_FACTOR / 8 * m);
    }
    assert EncodedSize(1) == (ONE + I_FACTOR * 1) / ONE;
    assert EncodedSize(2) == (ONE + I_FACTOR * 2) / ONE;
    assert EncodedSize(3) == (ONE + I_FACTOR * 3) / ONE;
  }

  // ---------------------------------------------------------------- the estimate suffices

  /**
   * Two neighbouring fractions a/b and p/q: a size above the lower one is not below the upper one, for all counts
   * before their mediant's denominator.
   */
  lemma Between(a: nat, b: nat, p: nat, q: nat, m: nat, n: nat)
    requires p * b == a * q + 1 && b * n > a * m && m < b + q
    ensures q * n >= p * m
  {
    if q * n < p * m {
      MulMonotone(q * n + 1, p * m, b);
      MulMonotone(a * m + 1, b * n, q);
      Cross(a, b, p, q, m, n);
    }
  }

  lemma Cross(a: nat, b: nat, p: nat, q: nat, m: nat, n: nat)
    requires p * b == a * q + 1
    ensures p * m * b == a * m * q + m
    ensures (q * n + 1) * b == q * b * n + b && (a * m + 1) * q == a * m * q + q && b * n * q == q * b * n
  {
    assert p * m * b == (p * b) * m;
    assert a * m * q == (a * q) * m;
  }


  /** 58^k is at least a * 256^e. */
  ghost predicate PowerBound(k: nat, a: nat, e: nat) {
    a * Pow(256, e) <= Pow(58, k)
  }

  /** From one bound to the next: square, multiply by 58 for an odd exponent, and drop `s` bytes of the factor. */
  lemma BoundStep(k: nat, a: nat, e: nat, odd: nat, s: nat, next: nat)
    requires PowerBound(k, a, e) && odd < 2 && next * Pow(256, s) <= a * a * (if odd == 1 then 58 else 1)
    ensures PowerBound(2 * k + odd, next, 2 * e + s)
  {
    var w, x := Pow(256, e), Pow(58, k);
    var y := if odd == 1 then 58 else 1;
    assert Pow(58, 2 * k + odd) == x * x * y by {
      PowAdd(58, k, k);
      if odd == 1 { PowStep(58, 2 * k); }
    }
    assert Pow(256, 2 * e + s) == w * w * Pow(256, s) by {
      PowAdd(256, e, e);
      PowAdd(256, 2 * e, s);
    }
    hide Pow;
    BoundArithmetic(a, w, x, y, Pow(256, s), next);
  }

  lemma BoundArithmetic(a: nat, w: nat, x: nat, y: nat, z: nat, next: nat)
    requires a * w <= x && next * z <= a * a * y
    ensures next * (w * w * z) <= x * x * y
  {
    assert next * (w * w * z) == (next * z) * (w * w);
    MulMonotone(next * z, a * a * y, w * w);
    assert (a * a * y) * (w * w) == (a * w) * (a * w) * y;
    MulMonotone(a * w, x, a * w);
    MulMonotone(a * w, x, x);
    MulMonotone((a * w) * (a * w), x * x, y);
  }

  lemma ByteShifts()
    ensures Pow(256, 2) == 0x10000
    ensures Pow(256, 11) == 0x10000000000000000000000 && Pow(256, 12) == 0x1000000000000000000000000
    ensures Pow(256, 13) == 0x100000000000000000000000000
  {
    PowStep(256, 11);
    PowStep(256, 12);
  }

  lemma StartPower()
    ensures PowerBound(9, 7427658739644928, 0)
  {
    assert Pow(58, 9) == 7427658739644928;
  }

  lemma FirstPowers()
    ensures PowerBound(10207, 411783721816937540899839233, 7463)
  {
    hide Pow, PowerBound;
    ByteShifts();
    StartPower();
    BoundStep(9, 7427658739644928, 0, 1, 2, 48826089972719931916630797352);
    BoundStep(19, 48826089972719931916630797352, 2, 1, 13, 6817298945215350557663889216);
    BoundStep(39, 6817298945215350557663889216, 17, 1, 12, 34023037757613968618166375652);
    BoundStep(79, 34023037757613968618166375652, 46, 1, 13, 3310202930068117899130641803);
    BoundStep(159, 3310202930068117899130641803, 105, 0, 11, 35405409278326287919309604247);
    BoundStep(318, 35405409278326287919309604247, 221, 1, 13, 3584657630843133012841029350);
    BoundStep(637, 3584657630843133012841029350, 455, 1, 12, 9406840389953610788212636526);
    BoundStep(1275, 9406840389953610788212636526, 922, 1, 12, 64779256670954569088977738000);
    BoundStep(2551, 64779256670954569088977738000, 1856, 1, 13, 11999975656589734889379070843);
    BoundStep(5103, 11999975656589734889379070843, 3725, 1, 13, 411783721816937540899839233);
  }

  lemma MorePowers()
    ensures PowerBound(2613246, 818772518551862594357330301, 1913532)
  {
    hide Pow, PowerBound;
    ByteShifts();
    FirstPowers();
    BoundStep(10207, 411783721816937540899839233, 7463, 1, 11, 31778011968253391947007689473);
    BoundStep(20415, 31778011968253391947007689473, 14937, 1, 13, 2887765296851773977547275607);
    BoundStep(40831, 2887765296851773977547275607, 29887, 1, 12, 6104810618012262353404227530);
    BoundStep(81663, 6104810618012262353404227530, 59786, 1, 12, 27283042632156849339506919627);
    BoundStep(163327, 27283042632156849339506919627, 119584, 1, 13, 2128599950854762677840972292);
    BoundStep(326655, 2128599950854762677840972292, 239181, 1, 12, 3316931520377772967857015308);
    BoundStep(653311, 3316931520377772967857015308, 478374, 1, 12, 8054181656881131081331160339);
    BoundStep(1306623, 8054181656881131081331160339, 956760, 0, 12, 818772518551862594357330301);
  }

  lemma LastPowers()
    ensures PowerBound(1337982041, 309485010133542808991182564, 979734160)
  {
    hide Pow, PowerBound;
    ByteShifts();
    MorePowers();
    BoundStep(2613246, 818772518551862594357330301, 1913532, 0, 11, 2166141867493847610641846378);
    BoundStep(5226492, 2166141867493847610641846378, 3827075, 0, 11, 15161220870821370419935133107);
    BoundStep(10452984, 15161220870821370419935133107, 7654161, 1, 13, 657319920146065686282463810);
    BoundStep(20905969, 657319920146065686282463810, 15308335, 0, 11, 1396091777337612736071944403);
    BoundStep(41811938, 1396091777337612736071944403, 30616681, 1, 12, 1426843523262694636871449740);
    BoundStep(83623877, 1426843523262694636871449740, 61233374, 1, 12, 1490394043804677475270258686);
    BoundStep(167247755, 1490394043804677475270258686, 122466760, 0, 11, 7177324701738295280713721834);
    BoundStep(334495510, 7177324701738295280713721834, 244933531, 0, 12, 650197962939100929740025405);
    BoundStep(668991020, 650197962939100929740025405, 489867074, 1, 12, 309485010133542808991182564);
  }

  /** The fraction 1337982041 / 979734171 is above log 256 / log 58. */
  lemma UpperFraction()
    ensures Pow(256, 979734171) <= Pow(58, 1337982041)
  {
    hide Pow;
    LastPowers();
    ByteShifts();
    PowAdd(256, 11, 979734160);
    MulMonotone(Pow(256, 11), 309485010133542808991182564, Pow(256, 979734160));
  }

  lemma RootsCompare(p: nat, q: nat, m: nat, n: nat)
    requires q > 0 && q * n >= p * m && Pow(256, q) <= Pow(58, p)
    ensures Pow(256, m) <= Pow(58, n)
  {
    hide Pow;
    var x, y := Pow(256, m), Pow(58, n);
    assert Pow(x, q) <= Pow(y, q) by {
      PowMul(256, m, q);
      PowMul(256, q, m);
      assert m * q == q * m;
      PowMonotone(Pow(256, q), Pow(58, p), m);
      PowMul(58, p, m);
      PowGrows(58, p * m, q * n);
      assert n * q == q * n;
      PowMul(58, n, q);
    }
    if x > y { PowStrict(y, x, q); }
  }

  /**
   * The double is below the fraction 1352782877 / 990572048, which is below log 256 / log 58. The size is not: were
   * it, the product would be rounded up to it.
   */
  lemma SizeExceedsFar(m: nat)
    requires 990572048 <= m <= MAX_BYTES
    ensures 990572048 * EncodedSize(m) > 1352782877 * m
  {
    var n, p := EncodedSize(m), I_FACTOR * m;
    hide EncodedSize, Rounded, Grain, Pow;
    if 990572048 * n <= 1352782877 * m {
      PowersOfTwo();
      GrainAt(p, 30);
      assert 990572048 * (n * ONE - p) <= 198403968 * m;
      RoundReachesWhole(p, n);
      SizeAtLeast(m, n);
      assert false;
    }
  }

  /** The estimate leaves room for `m` bytes, whenever it is an int. */
  lemma SizeEstimate(m: nat)
    requires m <= MAX_BYTES
    ensures Pow(256, m) <= Pow(58, EncodedSize(m))
  {
    hide Pow, EncodedSize;
    var n := EncodedSize(m);
    if m < 990572048 {
      SizeExceeds(m);
      Between(14800836, 10837877, 1337982041, 979734171, m, n);
    } else {
      SizeExceedsFar(m);
      Between(1352782877, 990572048, 1337982041, 979734171, m, n);
    }
    UpperFraction();
    RootsCompare(1337982041, 979734171, m, n);
  }
}
