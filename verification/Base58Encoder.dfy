/** enc_base58: bytes to digits by repeated multiply-and-add on an array, then digits to text. */
module Base58Encoder {
  import opened Bytes
  import opened Radix
  import opened Base58Size
  import opened Base58

  /** `digits` and the carry out of them hold 256 times the value of `was`, plus the byte. */
  ghost predicate Carried(digits: seq<nat>, was: seq<nat>, carry: nat, byte: nat) {
    && |digits| == |was| && AreDigits(58, digits)
    && carry * Pow(58, |digits|) + Val(58, digits) == 256 * Val(58, was) + byte
  }

  /** One digit of a round. */
  method ShiftDigit(b58: array<Byte>, it1: nat, carry: nat) returns (newCarry: nat)
    requires it1 < b58.Length && carry < 256
    modifies b58
    ensures newCarry * 58 + b58[it1] as nat == carry + 256 * old(b58[it1]) as nat && b58[it1] < 58
    ensures old(b58[it1]) < 58 ==> newCarry < 256
    ensures b58[..it1] == old(b58[..it1]) && b58[it1..] == [b58[it1]] + old(b58[it1 + 1..])
  {
    ghost var before := b58[it1 + 1..];
    var digit: nat := b58[it1];
    var sum := carry + 256 * digit;
    b58[it1] := sum % 58;
    newCarry := sum / 58;
    assert b58[it1..] == [b58[it1]] + before;
  }

  /** One round of the conversion loop: multiply the digits by 256 and add `byte`, in place. */
  method ShiftIn(b58: array<Byte>, length: nat, byte: Byte) returns (newLength: nat, carry: nat)
    requires length <= b58.Length && AreDigits(58, b58[..])
    requires b58[..b58.Length - length] == Zeros(b58.Length - length)
    modifies b58
    ensures newLength <= b58.Length && AreDigits(58, b58[..])
    ensures b58[..b58.Length - newLength] == Zeros(b58.Length - newLength)
    ensures carry * Pow(58, b58.Length) + Val(58, b58[..]) == 256 * Val(58, old(b58[..])) + byte
  {
    hide Pow, Val, Carried;
    var size := b58.Length;
    ghost var was: seq<nat> := b58[..];
    carry := byte;
    var i, it1 := 0, size - 1;
    ShiftStart(byte);
    assert b58[size..] == [] && was[size..] == [];
    while (carry != 0 || i < length) && it1 != -1
      invariant it1 == size - 1 - i && 0 <= i <= size
      invariant b58[..it1 + 1] == was[..it1 + 1] && AreDigits(58, was)
      invariant carry < 256 && Carried(b58[it1 + 1..], was[it1 + 1..], carry, byte)
    {
      ghost var before, carryBefore := b58[it1 + 1..], carry;
      SamePrefix(b58[..], was, it1);
      carry := ShiftDigit(b58, it1, carry);
      ShiftStep(before, was[it1 + 1..], carryBefore, was[it1], byte, carry, b58[it1]);
      it1, i := it1 - 1, i + 1;
    }
    newLength := i;
    ShiftEnd(b58[..], was, it1 + 1, size - length, carry, byte);
  }

  /** One element taken off a common prefix. */
  lemma SamePrefix(s: seq<nat>, t: seq<nat>, k: nat)
    requires k < |s| == |t| && s[..k + 1] == t[..k + 1]
    ensures s[k] == t[k] && s[..k] == t[..k] && t[k..] == [t[k]] + t[k + 1..]
  {
    assert s[k] == s[..k + 1][k] && t[k] == t[..k + 1][k];
    assert s[..k] == s[..k + 1][..k] && t[..k] == t[..k + 1][..k];
  }

  lemma ShiftStart(byte: nat)
    ensures Carried([], [], byte, byte)
  {
  }

  /** The carry identity for one more digit. */
  lemma ShiftStep(digits: seq<nat>, was: seq<nat>, carry: nat, d: nat, byte: nat, q: nat, r: nat)
    requires Carried(digits, was, carry, byte)
    requires carry + 256 * d == 58 * q + r && r < 58
    ensures Carried([r] + digits, [d] + was, q, byte)
  {
    hide Val, Pow;
    ValCons(58, r, digits);
    ValCons(58, d, was);
    PowStep(58, |digits|);
    ShiftArithmetic(Pow(58, |digits|), carry, d, q, r);
  }

  lemma ShiftArithmetic(p: nat, carry: nat, d: nat, q: nat, r: nat)
    requires carry + 256 * d == 58 * q + r
    ensures carry * p + 256 * (d * p) == q * (58 * p) + r * p
  {
    assert (carry + 256 * d) * p == (58 * q + r) * p;
  }

  /** Where the loop stopped early nothing was left but zeros, which weigh nothing. */
  lemma ShiftEnd(now: seq<nat>, was: seq<nat>, k: nat, zeros: nat, carry: nat, byte: nat)
    requires |now| == |was| && k <= |was| && zeros <= |was| && (k == 0 || (carry == 0 && k <= zeros))
    requires now[..k] == was[..k] && was[..zeros] == Zeros(zeros)
    requires Carried(now[k..], was[k..], carry, byte)
    ensures now[..k] == Zeros(k) && Carried(now, was, carry, byte)
  {
    if k == 0 {
      assert now[0..] == now && was[0..] == was;
    } else {
      assert was[..k] == was[..zeros][..k] == Zeros(k);
      assert now == Zeros(k) + now[k..] && was == Zeros(k) + was[k..];
      ValZeros(58, k, now[k..]);
      ValZeros(58, k, was[k..]);
    }
  }

  /** The conversion loop over the bytes after the leading zeros; it gives up on a carry out of the top. */
  method Convert(source: seq<Byte>, zeros: nat, b58: array<Byte>) returns (ok: bool, length: nat)
    requires zeros <= |source| && b58[..] == Zeros(b58.Length)
    requires forall k :: 0 <= k < zeros ==> source[k] == 0
    modifies b58
    ensures ok <==> Val(256, source) < Pow(58, b58.Length)
    ensures ok ==> length <= b58.Length && AreDigits(58, b58[..])
    ensures ok ==> b58[..b58.Length - length] == Zeros(b58.Length - length)
    ensures ok ==> Val(58, b58[..]) == Val(256, source)
  {
    hide Pow, Val;
    var size, pbegin := b58.Length, zeros;
    length := 0;
    EncodeStart(source, zeros, b58[..]);
    while pbegin != |source|
      invariant zeros <= pbegin <= |source| && length <= size && AreDigits(58, b58[..])
      invariant b58[..size - length] == Zeros(size - length)
      invariant Val(58, b58[..]) == Val(256, source[..pbegin])
    {
      var newLength, carry := ShiftIn(b58, length, source[pbegin]);
      PrefixGrows(source, pbegin);
      if carry != 0 {
        Overflow(source, pbegin + 1, size, carry, Val(58, b58[..]));
        return false, 0;
      }
      NoCarry(size);
      length := newLength;
      pbegin := pbegin + 1;
    }
    assert source[..pbegin] == source;
    ValBound(58, b58[..]);
    ok := true;
  }

  /** The output loops: '1' for each leading zero, then the digits through the alphabet, then the terminator. */
  method WriteText(zeros: nat, digits: seq<Byte>, result: array<char>) returns (ri: nat)
    requires AreDigits(58, digits) && zeros + |digits| < result.Length
    modifies result
    ensures ri == zeros + |digits|
    ensures result[..ri] == Repeat('1', zeros) + ToText(digits)
  {
    ri := 0;
    while ri < zeros
      invariant ri <= zeros && forall k :: 0 <= k < ri ==> result[k] == '1'
    {
      result[ri] := '1';
      ri := ri + 1;
    }
    var it2 := 0;
    while it2 < |digits|
      invariant it2 <= |digits| && ri == zeros + it2
      invariant forall k :: 0 <= k < zeros ==> result[k] == '1'
      invariant forall k :: 0 <= k < it2 ==> result[zeros + k] == ALPHABET[digits[k]]
    {
      result[ri] := ALPHABET[digits[it2]];
      ri, it2 := ri + 1, it2 + 1;
    }
    result[ri] := 0 as char;
  }

  /** Past the leading zeros of the digits. */
  method SkipZeros(b58: array<Byte>, start: nat) returns (it2: nat)
    requires start <= b58.Length && b58[..start] == Zeros(start)
    ensures it2 <= b58.Length && b58[..it2] == Zeros(it2)
    ensures it2 < b58.Length ==> b58[it2] != 0
  {
    it2 := start;
    while it2 != b58.Length && b58[it2] == 0
      invariant it2 <= b58.Length && b58[..it2] == Zeros(it2)
    {
      it2 := it2 + 1;
    }
  }

  /** enc_base58; its template requires at least one byte. */
  method EncBase58(source: seq<Byte>) returns (text: string)
    requires |source| > 0
    ensures text == EncodeResult(source)
  {
    hide Pow, Val, Rounded;
    var result := new char[2 * |source|];
    var zeros := 0;
    while zeros != |source| && source[zeros] == 0
      invariant zeros <= |source|
      invariant forall k :: 0 <= k < zeros ==> source[k] == 0
    {
      zeros := zeros + 1;
    }
    LeadingZerosIs(source, zeros);
    var size := EncodedSize(|source| - zeros);
    var b58: array<Byte> := new Byte[size];
    for i := 0 to size
      invariant forall k :: 0 <= k < i ==> b58[k] == 0
    {
      b58[i] := 0;
    }
    var ok, length := Convert(source, zeros, b58);
    if !ok {
      return "";
    }
    var it2 := SkipZeros(b58, size - length);
    MinimalSuffix(b58[..], it2, Val(256, source));
    assert b58[..][it2..] == b58[it2..];
    AsIntBelow(result.Length);
    hide Zeros, Repeat, ToText, AreDigits, EncodedSize, AsInt, IsMinimal;
    if zeros + size - it2 + 1 > AsInt(result.Length) {
      return "";
    }
    var ri := WriteText(zeros, b58[it2..], result);
    text := result[..ri];
  }

  lemma AsIntBelow(n: nat)
    ensures AsInt(n) <= n
  {
  }

  lemma NoCarry(size: nat)
    ensures 0 * Pow(58, size) == 0
  {
  }

  lemma LeadingZerosIs(source: seq<Byte>, z: nat)
    requires z <= |source| && forall k :: 0 <= k < z ==> source[k] == 0
    requires z < |source| ==> source[z] != 0
    ensures LeadingZeros(source) == z
  {
  }

  lemma EncodeStart(source: seq<Byte>, zeros: nat, b58: seq<Byte>)
    requires zeros <= |source| && forall k :: 0 <= k < zeros ==> source[k] == 0
    requires forall k :: 0 <= k < |b58| ==> b58[k] == 0
    ensures b58 == Zeros(|b58|) && Val(58, b58) == Val(256, source[..zeros]) == 0
  {
    ValPositive(58, b58);
    assert source[..zeros] == Zeros(zeros);
    ValPositive(256, source[..zeros]);
  }

  lemma PrefixGrows(source: seq<Byte>, k: nat)
    requires k < |source|
    ensures Val(256, source[..k + 1]) == 256 * Val(256, source[..k]) + source[k]
  {
    assert source[..k + 1][..k] == source[..k];
  }

  /** A carry out of the top digit means the number does not fit the estimate. */
  lemma Overflow(source: seq<Byte>, k: nat, size: nat, carry: nat, rest: nat)
    requires k <= |source| && carry > 0
    requires carry * Pow(58, size) + rest == Val(256, source[..k])
    ensures Val(256, source) >= Pow(58, size)
  {
    ValPrefix(256, source, k);
    MulMonotone(1, carry, Pow(58, size));
  }

  /** Dropping the zeros in front leaves the minimal digits. */
  lemma MinimalSuffix(b58: seq<nat>, k: nat, v: nat)
    requires k <= |b58| && AreDigits(58, b58) && Val(58, b58) == v
    requires b58[..k] == Zeros(k) && (k < |b58| ==> b58[k] != 0)
    ensures b58[k..] == Digits(58, v) && v < Pow(58, |b58|)
  {
    hide Val, Pow, IsMinimal;
    ZerosAndRest(b58, k);
    ValZeros(58, k, b58[k..]);
    ValBound(58, b58);
    Shortest(b58[k..], v);
  }

  lemma ZerosAndRest(s: seq<nat>, k: nat)
    requires k <= |s| && s[..k] == Zeros(k)
    ensures s == Zeros(k) + s[k..]
  {
  }

  lemma Shortest(rest: seq<nat>, v: nat)
    requires AreDigits(58, rest) && Val(58, rest) == v && (rest != [] ==> rest[0] != 0)
    ensures rest == Digits(58, v)
  {
    hide Val, AreDigits;
    MinimalUnique(58, rest, Digits(58, v));
  }
}
