/**
 * The order-book checksum, src/synthfi/Ftx/FtxUtils.cpp: a bit-serial register loop. Its meaning is the remainder
 * of a polynomial division over GF(2), read with bits reflected.
 */
module Crc32 {
  const POLY: bv32 := 0xEDB88320

  // ---------------------------------------------------------------- the register

  /** One shift of the register. */
  function Shift(crc: bv32): bv32 {
    if crc & 1 == 1 then (crc >> 1) ^ POLY else crc >> 1
  }

  function Shifts(crc: bv32, n: nat): bv32
    decreases n
  {
    if n == 0 then crc else Shifts(Shift(crc), n - 1)
  }

  /** A signed `char` widened to 32 bits: bytes from 128 on carry their sign into the upper 24 bits. */
  function Widen(c: bv8): bv32 {
    if c < 128 then c as bv32 else (c as bv32) | 0xFFFF_FF00
  }

  /** The register after all of `data`. */
  function Register(crc: bv32, data: seq<bv8>): bv32
    decreases |data|
  {
    if data == [] then crc else Register(Shifts(crc ^ Widen(data[0]), 8), data[1..])
  }

  /** The inner loop: eight shifts. */
  method ByteLoop(start: bv32) returns (crc: bv32)
    ensures crc == Shifts(start, 8)
  {
    crc := start;
    for bit := 0 to 8
      invariant Shifts(crc, 8 - bit) == Shifts(start, 8)
    {
      ShiftsStep(crc, 8 - bit);
      crc := if crc & 1 == 1 then (crc >> 1) ^ POLY else crc >> 1;
    }
  }

  lemma ShiftsStep(crc: bv32, n: nat)
    requires n > 0
    ensures Shifts(crc, n) == Shifts(Shift(crc), n - 1)
  {
  }

  method Crc32Checksum(data: seq<bv8>) returns (checksum: bv32)
    ensures checksum == !Register(0xFFFF_FFFF, data)
  {
    hide Shifts, Widen, Register;
    var crc: bv32 := 0xFFFF_FFFF;
    assert data[0..] == data;
    for i := 0 to |data|
      invariant Register(crc, data[i..]) == Register(0xFFFF_FFFF, data)
    {
      RegisterStep(crc, data, i);
      crc := ByteLoop(crc ^ Widen(data[i]));
    }
    RegisterEnd(crc, data);
    checksum := !crc;
  }

  lemma RegisterStep(crc: bv32, data: seq<bv8>, i: nat)
    requires i < |data|
    ensures Register(crc, data[i..]) == Register(Shifts(crc ^ Widen(data[i]), 8), data[i + 1..])
  {
    hide Shifts, Widen;
    assert data[i..][1..] == data[i + 1..];
  }

  lemma RegisterEnd(crc: bv32, data: seq<bv8>)
    ensures Register(crc, data[|data|..]) == crc
  {
  }

  // ---------------------------------------------------------------- polynomials over GF(2)

  /** Coefficients from the highest power down. */
  type Poly = seq<bool>

  function Zero(n: nat): (p: Poly)
    ensures |p| == n && forall i :: 0 <= i < n ==> !p[i]
  {
    seq(n, _ => false)
  }

  function Ones(n: nat): (p: Poly)
    ensures |p| == n && forall i :: 0 <= i < n ==> p[i]
  {
    seq(n, _ => true)
  }

  /** The sum of two polynomials given to the same length. */
  function Add(p: Poly, q: Poly): (r: Poly)
    requires |p| == |q|
    ensures |r| == |p| && forall i :: 0 <= i < |p| ==> r[i] == (p[i] != q[i])
  {
    seq(|p|, i requires 0 <= i < |p| => p[i] != q[i])
  }

  function Mask(i: nat): bv32 {
    if i == 0 then 1 else Mask(i - 1) << 1
  }

  lemma {:induction false} MaskIsOneBit(i: nat)
    ensures Mask(i) & (Mask(i) - 1) == 0
  {
    if i > 0 {
      MaskIsOneBit(i - 1);
      DoubleBit(Mask(i - 1));
    }
  }

  lemma DoubleBit(m: bv32)
    requires m & (m - 1) == 0
    ensures (m << 1) & ((m << 1) - 1) == 0
  {
  }

  /** The bits of a word from bit 0 up: the reflected reading, in which bit 0 is the highest power. */
  function Bits(w: bv32): (p: Poly)
    ensures |p| == 32 && forall i :: 0 <= i < 32 ==> p[i] == (w & Mask(i) != 0)
  {
    seq(32, i requires 0 <= i < 32 => w & Mask(i) != 0)
  }

  lemma XorBit(v: bv32, w: bv32, m: bv32)
    requires m & (m - 1) == 0
    ensures ((v ^ w) & m != 0) == ((v & m != 0) != (w & m != 0))
  {
  }

  lemma BitsOfXor(v: bv32, w: bv32)
    ensures Bits(v ^ w) == Add(Bits(v), Bits(w))
  {
    forall i | 0 <= i < 32
      ensures Bits(v ^ w)[i] == Add(Bits(v), Bits(w))[i]
    {
      MaskIsOneBit(i);
      hide Mask;
      XorBit(v, w, Mask(i));
    }
  }

  lemma ShiftBit(w: bv32, m: bv32)
    ensures ((w >> 1) & m != 0) == (w & (m << 1) != 0)
    ensures (w >> 1) & 0x8000_0000 == 0
  {
  }

  lemma BitsOfShift(w: bv32)
    ensures Bits(w >> 1) == Bits(w)[1..] + [false]
  {
    forall i | 0 <= i < 32
      ensures Bits(w >> 1)[i] == (Bits(w)[1..] + [false])[i]
    {
      MaskStep(i);
      hide Mask;
      ShiftBit(w, Mask(i));
    }
  }

  lemma MaskStep(i: nat)
    ensures Mask(i + 1) == Mask(i) << 1
    ensures i == 31 ==> Mask(i) == 0x8000_0000
  {
    MaskTable();
  }

  lemma MaskTable()
    ensures && Mask(0) == 0x1 && Mask(1) == 0x2 && Mask(2) == 0x4 && Mask(3) == 0x8
            && Mask(4) == 0x10 && Mask(5) == 0x20 && Mask(6) == 0x40 && Mask(7) == 0x80
            && Mask(8) == 0x100 && Mask(9) == 0x200 && Mask(10) == 0x400 && Mask(11) == 0x800
            && Mask(12) == 0x1000 && Mask(13) == 0x2000 && Mask(14) == 0x4000 && Mask(15) == 0x8000
            && Mask(16) == 0x10000 && Mask(17) == 0x20000 && Mask(18) == 0x40000 && Mask(19) == 0x80000
            && Mask(20) == 0x100000 && Mask(21) == 0x200000 && Mask(22) == 0x400000 && Mask(23) == 0x800000
            && Mask(24) == 0x1000000 && Mask(25) == 0x2000000 && Mask(26) == 0x4000000 && Mask(27) == 0x8000000
            && Mask(28) == 0x10000000 && Mask(29) == 0x20000000 && Mask(30) == 0x40000000 && Mask(31) == 0x80000000
  {
    assert Mask(0) == 0x1; assert Mask(1) == 0x2; assert Mask(2) == 0x4; assert Mask(3) == 0x8;
    assert Mask(4) == 0x10; assert Mask(5) == 0x20; assert Mask(6) == 0x40; assert Mask(7) == 0x80;
    assert Mask(8) == 0x100; assert Mask(9) == 0x200; assert Mask(10) == 0x400; assert Mask(11) == 0x800;
    assert Mask(12) == 0x1000; assert Mask(13) == 0x2000; assert Mask(14) == 0x4000; assert Mask(15) == 0x8000;
    assert Mask(16) == 0x10000; assert Mask(17) == 0x20000; assert Mask(18) == 0x40000; assert Mask(19) == 0x80000;
    assert Mask(20) == 0x100000; assert Mask(21) == 0x200000; assert Mask(22) == 0x400000; assert Mask(23) == 0x800000;
    assert Mask(24) == 0x1000000; assert Mask(25) == 0x2000000; assert Mask(26) == 0x4000000; assert Mask(27) == 0x8000000;
    assert Mask(28) == 0x10000000; assert Mask(29) == 0x20000000; assert Mask(30) == 0x40000000; assert Mask(31) == 0x80000000;
  }

  // ---------------------------------------------------------------- division

  /** The divisor's coefficients below x^32: the CRC-32 polynomial. */
  function Generator(): (g: Poly)
    ensures |g| == 32
  {
    seq(32, i requires 0 <= i < 32 => 31 - i in {26, 23, 22, 16, 12, 11, 10, 8, 7, 5, 4, 2, 1, 0})
  }

  /** Cancel the leading coefficient against the divisor, or drop it when it is 0. */
  function Reduce(p: Poly): (r: Poly)
    requires |p| > 32
    ensures |r| == |p| - 1
    ensures forall i :: 0 <= i < |r| ==> r[i] == (p[i + 1] != (p[0] && i < 32 && Generator()[i]))
  {
    if p[0] then Add(p[1..33], Generator()) + p[33..] else p[1..]
  }

  /** Schoolbook long division. */
  function Remainder(p: Poly): (r: Poly)
    requires |p| >= 32
    ensures |r| == 32
    decreases |p|
  {
    if |p| == 32 then p else Remainder(Reduce(p))
  }

  function Quotient(p: Poly): (q: Poly)
    requires |p| >= 32
    ensures |q| == |p| - 32
    decreases |p|
  {
    if |p| == 32 then [] else [p[0]] + Quotient(Reduce(p))
  }

  /** Coefficient `i` of c * (x^32 + Generator) * x^n, counted from the highest. */
  predicate LeadAt(c: bool, i: nat) {
    c && (i == 0 || (i <= 32 && Generator()[i - 1]))
  }

  /** The product of `q` and the divisor x^32 + Generator, one shifted copy for each coefficient of `q`. */
  function Times(q: Poly): (p: Poly)
    ensures |p| == |q| + 32
    decreases |q|
  {
    if q == [] then Zero(32) else
      var rest := [false] + Times(q[1..]);
      seq(|q| + 32, i requires 0 <= i < |q| + 32 => LeadAt(q[0], i) != rest[i])
  }

  lemma TimesAt(q: Poly, i: nat)
    requires q != [] && i < |q| + 32
    ensures Times(q)[i] == (LeadAt(q[0], i) != (i > 0 && Times(q[1..])[i - 1]))
  {
    hide LeadAt, Generator;
    TimesUnfold(q);
  }

  lemma TimesUnfold(q: Poly)
    requires q != []
    ensures var rest := [false] + Times(q[1..]);
            Times(q) == seq(|q| + 32, i requires 0 <= i < |q| + 32 => LeadAt(q[0], i) != rest[i])
  {
  }

  /** quotient * divisor + remainder. */
  function Recombine(q: Poly, r: Poly): (p: Poly)
    requires |r| == 32
    ensures |p| == |q| + 32
  {
    Add(Times(q), Zero(|q|) + r)
  }

  lemma RecombineIndex(q: Poly, r: Poly, i: nat)
    requires |r| == 32 && i < |q| + 32
    ensures Recombine(q, r)[i] == (Times(q)[i] != (i >= |q| && r[i - |q|]))
  {
    hide Times;
    assert (Zero(|q|) + r)[i] == (i >= |q| && r[i - |q|]);
  }

  lemma RecombineAt(q: Poly, r: Poly, i: nat)
    requires |r| == 32 && q != [] && i < |q| + 32
    ensures Recombine(q, r)[i] == (LeadAt(q[0], i) != (i > 0 && Recombine(q[1..], r)[i - 1]))
  {
    hide Times, LeadAt, Recombine;
    TimesAt(q, i);
    RecombineIndex(q, r, i);
    if i > 0 { RecombineIndex(q[1..], r, i - 1); }
  }

  lemma RecombineHead(q: Poly, r: Poly)
    requires |r| == 32 && q != []
    ensures Recombine(q, r)[0] == q[0]
  {
    hide Recombine, Generator;
    RecombineAt(q, r, 0);
  }

  lemma RecombineNothing(r: Poly)
    requires |r| == 32
    ensures Recombine([], r) == r
  {
    assert Times([]) == Zero(32);
    hide Times;
  }

  /** The division identity: p = quotient * divisor + remainder. */
  lemma {:induction false} DivisionIdentity(p: Poly)
    requires |p| >= 32
    ensures p == Recombine(Quotient(p), Remainder(p))
    decreases |p|
  {
    if |p| == 32 {
      RecombineNothing(p);
    } else {
      var next := Reduce(p);
      DivisionIdentity(next);
      var q, r := Quotient(p), Remainder(p);
      assert q[1..] == Quotient(next) && q[0] == p[0];
      hide Quotient, Remainder, Times, Reduce, Generator, Recombine;
      forall i | 0 <= i < |p|
        ensures p[i] == Recombine(q, r)[i]
      {
        RecombineAt(q, r, i);
        if i > 0 { assert next[i - 1] == Recombine(q[1..], r)[i - 1]; }
      }
    }
  }

  /** The identity determines the remainder: no other polynomial below x^32 fits, whatever the quotient. */
  lemma {:induction false} RemainderUnique(q: Poly, r: Poly, q': Poly, r': Poly)
    requires |q| == |q'| && |r| == |r'| == 32
    requires Recombine(q, r) == Recombine(q', r')
    ensures q == q' && r == r'
    decreases |q|
  {
    hide Times, Recombine, Generator, LeadAt;
    if q == [] {
      RecombineNothing(r);
      RecombineNothing(r');
    } else {
      RecombineHead(q, r);
      RecombineHead(q', r');
      forall i | 0 <= i < |q| - 1 + 32
        ensures Recombine(q[1..], r)[i] == Recombine(q'[1..], r')[i]
      {
        RecombineAt(q, r, i + 1);
        RecombineAt(q', r', i + 1);
      }
      RemainderUnique(q[1..], r, q'[1..], r');
      assert q == [q[0]] + q[1..] && q' == [q'[0]] + q'[1..];
    }
  }

  // ---------------------------------------------------------------- the register divides

  /** One message bit through the register, as polynomials. */
  function Step(r: Poly, b: bool): (s: Poly)
    requires |r| == 32
    ensures |s| == 32
  {
    var tail := r[1..] + [false];
    if r[0] != b then Add(tail, Generator()) else tail
  }

  function Feed(r: Poly, bits: Poly): (s: Poly)
    requires |r| == 32
    ensures |s| == 32
    decreases |bits|
  {
    if bits == [] then r else Feed(Step(r, bits[0]), bits[1..])
  }

  /** The message, followed by 32 zeros, with the register added over its top 32 powers. */
  function Augmented(r: Poly, bits: Poly): (p: Poly)
    requires |r| == 32
    ensures |p| == |bits| + 32
  {
    Add(r + Zero(|bits|), bits + Zero(32))
  }

  lemma AugmentedStep(r: Poly, bits: Poly)
    requires |r| == 32 && bits != []
    ensures Augmented(Step(r, bits[0]), bits[1..]) == Reduce(Augmented(r, bits))
  {
    hide Generator, Reduce;
    var p, s := Augmented(r, bits), Step(r, bits[0]);
    assert p[0] == (r[0] != bits[0]);
    forall i | 0 <= i < |bits| - 1 + 32
      ensures Augmented(s, bits[1..])[i] == Reduce(p)[i]
    {
      assert Augmented(s, bits[1..])[i] == ((i < 32 && s[i]) != (i + 1 < |bits| && bits[i + 1]));
      assert p[i + 1] == ((i + 1 < 32 && r[i + 1]) != (i + 1 < |bits| && bits[i + 1]));
    }
  }

  /** Feeding a message to the register divides: what is left is the remainder of the augmented message. */
  lemma {:induction false} FeedIsRemainder(r: Poly, bits: Poly)
    requires |r| == 32
    ensures Feed(r, bits) == Remainder(Augmented(r, bits))
    decreases |bits|
  {
    if bits == [] {
      assert Augmented(r, bits) == r;
    } else {
      FeedIsRemainder(Step(r, bits[0]), bits[1..]);
      AugmentedStep(r, bits);
    }
  }

  lemma PolyIsGenerator()
    ensures Bits(POLY) == Generator()
  {
    MaskTable();
    forall i | 0 <= i < 32
      ensures Bits(POLY)[i] == Generator()[i]
    {
      hide Mask;
    }
  }

  lemma BitsOfRegisterShift(w: bv32)
    ensures Bits(Shift(w)) ==
            if Bits(w)[0] then Add(Bits(w)[1..] + [false], Generator()) else Bits(w)[1..] + [false]
  {
    assert Mask(0) == 1;
    LowBit(w);
    hide Mask;
    BitsOfShift(w);
    BitsOfXor(w >> 1, POLY);
    PolyIsGenerator();
  }

  lemma LowBit(w: bv32)
    ensures w & 1 == 1 <==> w & 1 != 0
  {
  }

  /** `n` shifts of a register into which `n` message bits were added first feed those bits one by one. */
  lemma {:induction false} ShiftsFeed(w: bv32, r: Poly, bits: Poly)
    requires |r| == 32 && |bits| <= 32
    requires Bits(w) == Add(r, bits + Zero(32 - |bits|))
    ensures Bits(Shifts(w, |bits|)) == Feed(r, bits)
    decreases |bits|
  {
    if bits == [] {
      assert Bits(w) == r;
    } else {
      ShiftFeeds(w, r, bits);
      hide Bits, Generator, Shift, Add, Step, Zero;
      ShiftsFeed(Shift(w), Step(r, bits[0]), bits[1..]);
    }
  }

  lemma ShiftFeeds(w: bv32, r: Poly, bits: Poly)
    requires |r| == 32 && 0 < |bits| <= 32
    requires Bits(w) == Add(r, bits + Zero(32 - |bits|))
    ensures Bits(Shift(w)) == Add(Step(r, bits[0]), bits[1..] + Zero(33 - |bits|))
  {
    hide Bits, Generator, Shift;
    BitsOfRegisterShift(w);
  }

  /** The bits of a message, each byte from its lowest bit up. */
  function MessageBits(data: seq<bv8>): (bits: Poly)
    ensures |bits| == 8 * |data|
  {
    if data == [] then [] else Bits(data[0] as bv32)[..8] + MessageBits(data[1..])
  }

  predicate Ascii(data: seq<bv8>) {
    forall i :: 0 <= i < |data| ==> data[i] < 128
  }

  lemma HighMasks(i: nat)
    requires i >= 8
    ensures Mask(i) & 0xFF == 0
  {
    if i > 8 { HighMasks(i - 1); } else { MaskTable(); }
  }

  lemma NoHighBit(c: bv8, m: bv32)
    requires m & 0xFF == 0
    ensures (c as bv32) & m == 0
  {
  }

  lemma ByteHasEightBits(c: bv8)
    ensures Bits(c as bv32) == Bits(c as bv32)[..8] + Zero(24)
  {
    var p := Bits(c as bv32);
    forall i | 8 <= i < 32
      ensures !p[i]
    {
      HighMasks(i);
      NoHighBit(c, Mask(i));
    }
  }

  lemma {:induction false} FeedAppend(r: Poly, a: Poly, b: Poly)
    requires |r| == 32
    ensures Feed(r, a + b) == Feed(Feed(r, a), b)
    decreases |a|
  {
    if a == [] {
      assert a + b == b;
    } else {
      assert (a + b)[1..] == a[1..] + b;
      FeedAppend(Step(r, a[0]), a[1..], b);
    }
  }

  lemma WidenAscii(c: bv8)
    requires c < 128
    ensures Widen(c) == c as bv32
  {
  }

  lemma ByteFeed(crc: bv32, c: bv8)
    requires c < 128
    ensures Bits(Shifts(crc ^ Widen(c), 8)) == Feed(Bits(crc), Bits(c as bv32)[..8])
  {
    hide Bits, Widen, Shifts, Feed, Add, Zero, Mask;
    WidenAscii(c);
    var w := c as bv32;
    BitsOfXor(crc, w);
    ByteHasEightBits(c);
    ShiftsFeed(crc ^ w, Bits(crc), Bits(w)[..8]);
  }

  lemma {:induction false} RegisterFeeds(crc: bv32, data: seq<bv8>)
    requires Ascii(data)
    ensures Bits(Register(crc, data)) == Feed(Bits(crc), MessageBits(data))
    decreases |data|
  {
    if data == [] {
    } else {
      var next := Shifts(crc ^ Widen(data[0]), 8);
      RegisterFeeds(next, data[1..]);
      ByteFeed(crc, data[0]);
      FeedAppend(Bits(crc), Bits(data[0] as bv32)[..8], MessageBits(data[1..]));
    }
  }

  lemma AllOnes()
    ensures Bits(0xFFFF_FFFF) == Ones(32)
  {
    MaskTable();
    forall i | 0 <= i < 32
      ensures Bits(0xFFFF_FFFF)[i]
    {
      hide Mask;
    }
  }

  lemma Complement(w: bv32)
    ensures !w == w ^ 0xFFFF_FFFF
  {
  }

  /**
   * The checksum of an ASCII message: the complement of the remainder of message * x^32, its first 32 coefficients
   * complemented, modulo x^32 + Generator.
   */
  lemma ChecksumIsRemainder(data: seq<bv8>)
    requires Ascii(data)
    ensures Bits(!Register(0xFFFF_FFFF, data)) == Add(Remainder(Augmented(Ones(32), MessageBits(data))), Ones(32))
  {
    hide Bits, Register, Feed, Remainder, Augmented;
    var crc := Register(0xFFFF_FFFF, data);
    Complement(crc);
    BitsOfXor(crc, 0xFFFF_FFFF);
    AllOnes();
    RegisterFeeds(0xFFFF_FFFF, data);
    FeedIsRemainder(Ones(32), MessageBits(data));
  }

  // ---------------------------------------------------------------- the table form

  /** Exclusive or and the two halves of a shift, under names so that they can be kept folded. */
  function Xor(a: bv32, b: bv32): bv32 {
    a ^ b
  }

  function Half(a: bv32): bv32 {
    a >> 1
  }

  predicate Odd(a: bv32) {
    a & 1 == 1
  }

  /** Entry `n` of the table of section 8 of RFC 1952. */
  function TableEntry(n: bv8): bv32 {
    Shifts(n as bv32, 8)
  }

  function Mixed(crc: bv32, c: bv8): bv32 {
    crc ^ (c as bv32)
  }

  function LowByte(x: bv32): bv32 {
    x & 0xFF
  }

  function HighBytes(x: bv32): bv32 {
    x & 0xFFFF_FF00
  }

  function DropByte(x: bv32): bv32 {
    x >> 8
  }

  function TableIndex(crc: bv32, c: bv8): bv8 {
    ((crc ^ (c as bv32)) & 0xFF) as bv8
  }

  /** The update of section 8 of RFC 1952 for one byte. */
  function TableStep(crc: bv32, c: bv8): bv32 {
    Xor(TableEntry(TableIndex(crc, c)), DropByte(crc))
  }

  function TableRegister(crc: bv32, data: seq<bv8>): bv32
    decreases |data|
  {
    if data == [] then crc else TableRegister(TableStep(crc, data[0]), data[1..])
  }

  lemma XorHalf(a: bv32, b: bv32)
    ensures Half(Xor(a, b)) == Xor(Half(a), Half(b))
  {
  }

  lemma XorOdd(a: bv32, b: bv32)
    ensures Odd(Xor(a, b)) == (Odd(a) != Odd(b))
  {
  }

  lemma XorRight(x: bv32, y: bv32, p: bv32)
    ensures Xor(x, Xor(y, p)) == Xor(Xor(x, y), p)
  {
  }

  lemma XorSwap(x: bv32, y: bv32)
    ensures Xor(x, y) == Xor(y, x)
  {
  }

  lemma XorLeft(x: bv32, y: bv32, p: bv32)
    ensures Xor(Xor(x, p), y) == Xor(Xor(x, y), p)
  {
    hide Xor;
    XorRight(x, p, y);
    XorSwap(p, y);
    XorRight(x, y, p);
  }

  lemma XorSelf(x: bv32, p: bv32)
    ensures Xor(Xor(x, p), p) == x
  {
  }

  lemma XorTwice(x: bv32, y: bv32, p: bv32)
    ensures Xor(Xor(x, p), Xor(y, p)) == Xor(x, y)
  {
    hide Xor;
    XorRight(Xor(x, p), y, p);
    XorLeft(x, y, p);
    XorSelf(Xor(x, y), p);
  }

  lemma ShiftIs(a: bv32)
    ensures Shift(a) == if Odd(a) then Xor(Half(a), POLY) else Half(a)
  {
  }

  lemma ShiftLinear(a: bv32, b: bv32)
    ensures Shift(Xor(a, b)) == Xor(Shift(a), Shift(b))
  {
    hide Shift, Xor, Half, Odd, POLY;
    ShiftIs(Xor(a, b));
    ShiftIs(a);
    ShiftIs(b);
    XorHalf(a, b);
    XorOdd(a, b);
    XorTwice(Half(a), Half(b), POLY);
    XorLeft(Half(a), Half(b), POLY);
    XorRight(Half(a), Half(b), POLY);
  }

  lemma {:induction false} ShiftsLinear(a: bv32, b: bv32, n: nat)
    ensures Shifts(Xor(a, b), n) == Xor(Shifts(a, n), Shifts(b, n))
    decreases n
  {
    hide Shift, Xor;
    if n > 0 {
      ShiftLinear(a, b);
      ShiftsLinear(Shift(a), Shift(b), n - 1);
    }
  }

  lemma ShiftInjective(a: bv32, b: bv32)
    requires Shift(a) == Shift(b)
    ensures a == b
  {
  }

  lemma {:induction false} ShiftsInjective(a: bv32, b: bv32, n: nat)
    requires Shifts(a, n) == Shifts(b, n)
    ensures a == b
    decreases n
  {
    if n > 0 {
      ShiftsInjective(Shift(a), Shift(b), n - 1);
      ShiftInjective(a, b);
    }
  }

  /** A register whose low byte is 0 only moves. */
  lemma EightPlainShifts(w: bv32)
    requires w & 0xFF == 0
    ensures Shifts(w, 8) == DropByte(w)
  {
    hide Shift;
    EightOnes();
    PlainShifts(w, 8, 0xFF);
    ShiftTogether(w);
  }

  /** `n` right shifts. */
  function Moved(w: bv32, n: nat): bv32
    decreases n
  {
    if n == 0 then w else Moved(w >> 1, n - 1)
  }

  lemma ShiftTogether(w: bv32)
    ensures Moved(w, 8) == DropByte(w)
  {
    assert Moved(w, 8) == Moved(w >> 1 >> 1, 6) == Moved(w >> 1 >> 1 >> 1 >> 1, 4);
    assert Moved(w, 8) == Moved(w >> 1 >> 1 >> 1 >> 1 >> 1 >> 1, 2);
    hide Moved;
    assert w >> 1 >> 1 >> 1 >> 1 >> 1 >> 1 >> 1 >> 1 == w >> 8;
  }

  /** While the bits under a mask of `n` ones are clear, `n` shifts are plain. */
  lemma {:induction false} PlainShifts(w: bv32, n: nat, m: bv32)
    requires w & m == 0 && LowMask(m, n)
    ensures Shifts(w, n) == Moved(w, n)
    decreases n
  {
    hide Shift;
    if n > 0 {
      PlainShift(w, m);
      PlainShifts(w >> 1, n - 1, m >> 1);
    }
  }

  lemma EightOnes()
    ensures LowMask(0xFF, 8)
  {
    assert LowMask(0x3, 2);
    assert LowMask(0xF, 4);
    assert LowMask(0x3F, 6);
  }

  predicate LowMask(m: bv32, n: nat)
    decreases n
  {
    n == 0 || (m & 1 == 1 && LowMask(m >> 1, n - 1))
  }

  lemma PlainShift(w: bv32, m: bv32)
    requires w & m == 0 && m & 1 == 1
    ensures Shift(w) == w >> 1
    ensures (w >> 1) & (m >> 1) == 0
  {
  }

  lemma SplitBytes(x: bv32)
    ensures x == Xor(LowByte(x), HighBytes(x))
  {
  }

  lemma HighPart(crc: bv32, c: bv8)
    ensures DropByte(HighBytes(Mixed(crc, c))) == DropByte(crc)
  {
  }

  lemma HighShifts(x: bv32)
    ensures Shifts(HighBytes(x), 8) == DropByte(HighBytes(x))
  {
    HighClear(x);
    hide Shifts, HighBytes, DropByte;
    EightPlainShifts(HighBytes(x));
  }

  lemma HighClear(x: bv32)
    ensures HighBytes(x) & 0xFF == 0
  {
  }

  lemma TableIndexIs(crc: bv32, c: bv8)
    ensures TableIndex(crc, c) as bv32 == LowByte(Mixed(crc, c))
  {
  }

  lemma PlainByteStep(crc: bv32, c: bv8)
    ensures Shifts(Mixed(crc, c), 8) == TableStep(crc, c)
  {
    hide Shifts, Xor, TableIndex, Mixed, LowByte, HighBytes, DropByte;
    var x := Mixed(crc, c);
    SplitBytes(x);
    HighPart(crc, c);
    TableIndexIs(crc, c);
    ShiftsLinear(LowByte(x), HighBytes(x), 8);
    HighShifts(x);
  }

  lemma WidenExact(crc: bv32, c: bv8)
    ensures crc ^ Widen(c) == Mixed(crc, c) <==> c < 128
  {
  }

  /** For each byte the source's step is the table step exactly when the byte is ASCII. */
  lemma ByteStepIsTableStep(crc: bv32, c: bv8)
    ensures Shifts(crc ^ Widen(c), 8) == TableStep(crc, c) <==> c < 128
  {
    PlainByteStep(crc, c);
    WidenExact(crc, c);
    hide Shifts, TableStep, Mixed;
    if Shifts(crc ^ Widen(c), 8) == Shifts(Mixed(crc, c), 8) {
      ShiftsInjective(crc ^ Widen(c), Mixed(crc, c), 8);
    }
  }

  /** What sign extension adds to the upper bytes. */
  function Sign(c: bv8): bv32 {
    if c < 128 then 0 else 0xFFFF_FF00
  }

  /** What sign extension has made of the register, apart from what belongs there: it depends on the bytes alone. */
  function Drift(d: bv32, data: seq<bv8>): bv32
    decreases |data|
  {
    if data == [] then d else Drift(Shifts(Xor(d, Sign(data[0])), 8), data[1..])
  }

  /** A byte widened the way the table loop does it. */
  function Plain(c: bv8): bv32 {
    c as bv32
  }

  lemma WidenIsSigned(x: bv32, d: bv32, c: bv8)
    ensures Xor(Xor(x, d), Widen(c)) == Xor(Mixed(x, c), Xor(d, Sign(c)))
  {
    WidenSplit(c);
    MixedIsXor(x, c);
    hide Widen, Sign, Plain, Mixed, Xor;
    XorRegroup(x, d, Plain(c), Sign(c));
  }

  lemma WidenSplit(c: bv8)
    ensures Widen(c) == Xor(Plain(c), Sign(c))
  {
  }

  lemma MixedIsXor(x: bv32, c: bv8)
    ensures Mixed(x, c) == Xor(x, Plain(c))
  {
  }

  lemma XorRegroup(x: bv32, d: bv32, a: bv32, b: bv32)
    ensures Xor(Xor(x, d), Xor(a, b)) == Xor(Xor(x, a), Xor(d, b))
  {
    hide Xor;
    XorRight(x, d, Xor(a, b));
    XorRight(d, a, b);
    XorSwap(d, a);
    XorRight(a, d, b);
    XorRight(x, a, Xor(d, b));
  }

  lemma RegisterFirst(crc: bv32, data: seq<bv8>)
    requires data != []
    ensures Register(crc, data) == Register(Shifts(Xor(crc, Widen(data[0])), 8), data[1..])
  {
  }

  /** The two loops run side by side, apart by the drift. */
  lemma {:induction false} RegisterDrifts(x: bv32, d: bv32, data: seq<bv8>)
    ensures Register(Xor(x, d), data) == Xor(TableRegister(x, data), Drift(d, data))
    decreases |data|
  {
    hide Shifts, Xor, TableStep, Mixed, Widen, Sign;
    if data != [] {
      var c := data[0];
      WidenIsSigned(x, d, c);
      RegisterFirst(Xor(x, d), data);
      ShiftsLinear(Mixed(x, c), Xor(d, Sign(c)), 8);
      PlainByteStep(x, c);
      RegisterDrifts(TableStep(x, c), Shifts(Xor(d, Sign(c)), 8), data[1..]);
    }
  }

  lemma XorZero(x: bv32, d: bv32)
    ensures Xor(x, 0) == x
    ensures Xor(x, d) == x <==> d == 0
  {
  }

  /** On any message the bit-serial loop and the table loop agree if and only if the sign extensions cancel out. */
  lemma RegisterIsTableExactly(crc: bv32, data: seq<bv8>)
    ensures Register(crc, data) == TableRegister(crc, data) <==> Drift(0, data) == 0
  {
    hide Xor, Register, TableRegister, Drift;
    RegisterDrifts(crc, 0, data);
    XorZero(crc, 0);
    XorZero(TableRegister(crc, data), Drift(0, data));
  }

  lemma {:induction false} AsciiHasNoDrift(data: seq<bv8>)
    requires Ascii(data)
    ensures Drift(0, data) == 0
    decreases |data|
  {
    if data != [] {
      ZeroShifts(8);
      AsciiHasNoDrift(data[1..]);
    }
  }

  lemma {:induction false} ZeroShifts(n: nat)
    ensures Shifts(0, n) == 0
    decreases n
  {
    if n > 0 { ZeroShifts(n - 1); }
  }

  /** In particular they agree on ASCII messages. */
  lemma RegisterIsTable(crc: bv32, data: seq<bv8>)
    requires Ascii(data)
    ensures Register(crc, data) == TableRegister(crc, data)
  {
    AsciiHasNoDrift(data);
    RegisterIsTableExactly(crc, data);
  }
}
