/** dec_base58: text to bytes, least significant byte first, then reversed in place. */
module Base58Decoder {
  import opened Bytes
  import opened Radix
  import opened Base58

  function Reversed<T>(s: seq<T>): (r: seq<T>)
    ensures |r| == |s| && forall i :: 0 <= i < |s| ==> r[i] == s[|s| - 1 - i]
  {
    seq(|s|, i requires 0 <= i < |s| => s[|s| - 1 - i])
  }

  /** The value of a little-endian byte string. */
  ghost function LeVal(s: seq<nat>): nat {
    Val(256, Reversed(s))
  }

  lemma ReversedAppend<T>(s: seq<T>, d: T)
    ensures Reversed(s + [d]) == [d] + Reversed(s)
  {
  }

  lemma LeValAppend(s: seq<nat>, d: nat)
    ensures LeVal(s + [d]) == LeVal(s) + d * Pow(256, |s|)
  {
    hide Val, Pow;
    var r := Reversed(s);
    ReversedAppend(s, d);
    ValCons(256, d, r);
    assert |r| == |s|;
  }

  /** `bytes` and the carry out of them hold 58 times the value of `was`, plus the digit. */
  ghost predicate Multiplied(bytes: seq<nat>, was: seq<nat>, carry: nat, digit: nat) {
    && AreDigits(256, bytes)
    && carry * Pow(256, |bytes|) + LeVal(bytes) == 58 * LeVal(was) + digit
  }

  lemma MultiplyStart(digit: nat)
    ensures Multiplied([], [], digit, digit)
  {
  }

  lemma MultiplyStep(bytes: seq<nat>, was: seq<nat>, carry: nat, b: nat, digit: nat, q: nat, r: nat)
    requires Multiplied(bytes, was, carry, digit) && |bytes| == |was|
    requires carry + 58 * b == 256 * q + r && r < 256
    ensures Multiplied(bytes + [r], was + [b], q, digit)
  {
    hide Val, LeVal, Pow;
    LeValAppend(bytes, r);
    LeValAppend(was, b);
    PowStep(256, |bytes|);
    MultiplyArithmetic(Pow(256, |bytes|), carry, b, q, r);
  }

  lemma MultiplyArithmetic(p: nat, carry: nat, b: nat, q: nat, r: nat)
    requires carry + 58 * b == 256 * q + r
    ensures carry * p + 58 * (b * p) == q * (256 * p) + r * p
  {
    assert (carry + 58 * b) * p == (256 * q + r) * p;
  }

  /** A carry left over becomes the new top byte. */
  lemma MultiplyEnd(bytes: seq<nat>, was: seq<nat>, carry: nat, digit: nat)
    requires Multiplied(bytes, was, carry, digit) && carry < 256
    ensures Multiplied(bytes + [carry], was, 0, digit)
  {
    LeValAppend(bytes, carry);
    NoCarryBytes(|bytes| + 1);
  }

  lemma NoCarryBytes(size: nat)
    ensures 0 * Pow(256, size) == 0
  {
  }

  /** One round of the decoding loop: multiply the bytes by 58 and add `digit`, in place. */
  method MultiplyIn(result: array<Byte>, resultSize: nat, digit: nat) returns (newSize: nat)
    requires 0 < resultSize < result.Length && digit < 58
    requires resultSize > 1 ==> result[resultSize - 1] != 0
    modifies result
    ensures resultSize <= newSize <= resultSize + 1
    ensures newSize > 1 ==> result[newSize - 1] != 0
    ensures LeVal(result[..newSize]) == 58 * LeVal(old(result[..resultSize])) + digit
  {
    hide Pow, Val, LeVal, Multiplied;
    ghost var was: seq<nat> := result[..resultSize];
    var carry: nat := digit;
    MultiplyStart(digit);
    assert was[..0] == [];
    for j := 0 to resultSize
      invariant carry < 58 && Multiplied(result[..j], was[..j], carry, digit)
      invariant result[j..resultSize] == was[j..]
      invariant j == resultSize > 1 ==> result[j - 1] != 0 || carry > 0
    {
      ghost var before, carryBefore := result[..j], carry;
      var b: nat := result[j];
      assert b == was[j] by { assert result[j..resultSize][0] == was[j..][0]; }
      carry := carry + b * 58;
      result[j] := carry % 256;
      carry := carry / 256;
      assert result[..j + 1] == before + [result[j]] && was[..j + 1] == was[..j] + [b];
      MultiplyStep(before, was[..j], carryBefore, b, digit, carry, result[j]);
      assert result[j + 1..resultSize] == was[j + 1..];
    }
    newSize := resultSize;
    assert was[..resultSize] == was;
    while carry > 0
      invariant carry < 58 && resultSize <= newSize
      invariant newSize == resultSize || (newSize == resultSize + 1 && carry == 0)
      invariant newSize > 1 ==> result[newSize - 1] != 0 || carry > 0
      invariant Multiplied(result[..newSize], was, carry, digit)
    {
      MultiplyEnd(result[..newSize], was, carry, digit);
      result[newSize] := carry % 256;
      assert result[..newSize + 1] == result[..newSize] + [result[newSize]];
      carry := carry / 256;
      newSize := newSize + 1;
    }
    Multiplied0(result[..newSize], was, digit);
  }

  lemma Multiplied0(bytes: seq<nat>, was: seq<nat>, digit: nat)
    requires Multiplied(bytes, was, 0, digit)
    ensures LeVal(bytes) == 58 * LeVal(was) + digit
  {
    NoCarryBytes(|bytes|);
  }

  /** The closing loop: swap from both ends; `n / 2 + n % 2` is the first index past the middle. */
  method ReverseInPlace(result: array<Byte>, n: nat)
    requires n <= result.Length
    modifies result
    ensures result[..n] == Reversed(old(result[..n]))
  {
    var i, z := n - 1, n / 2 + n % 2;
    ghost var was := result[..n];
    while i >= z
      invariant z - 1 <= i <= n - 1
      invariant forall k :: i < k < n ==> result[k] == was[n - 1 - k] && result[n - 1 - k] == was[k]
      invariant forall k :: n - 1 - i <= k <= i ==> result[k] == was[k]
    {
      var k := result[i];
      result[i] := result[n - i - 1];
      result[n - i - 1] := k;
      i := i - 1;
    }
    assert forall k :: 0 <= k < n ==> result[k] == was[n - 1 - k];
  }

  /** The conversion loop: it stops at the first character outside the alphabet. */
  method DecodeDigits(text: string, result: array<Byte>) returns (resultSize: nat)
    requires result.Length == |text| + 1 && text != [] && result[0] == 0
    modifies result
    ensures 0 < resultSize <= result.Length
    ensures resultSize > 1 ==> result[resultSize - 1] != 0
    ensures LeVal(result[..resultSize]) == Val(58, DigitsOf(text))
  {
    hide Pow, Val, LeVal;
    resultSize := 1;
    var i := 0;
    ghost var digits := DigitsOf(text);
    DecodeStart(result[..1]);
    assert digits[..0] == [];
    while i < |text|
      invariant i <= |digits| && 0 < resultSize <= i + 1
      invariant resultSize > 1 ==> result[resultSize - 1] != 0
      invariant LeVal(result[..resultSize]) == Val(58, digits[..i])
    {
      var digit := DigitOf(text[i]);
      if digit == -1 {
        break;
      }
      ValAppend(58, digits, i);
      resultSize := MultiplyIn(result, resultSize, digit);
      i := i + 1;
    }
    assert digits[..i] == digits;
  }

  /** dec_base58. The source's buffer has |text| bytes; here it has one more, which DecodeLength accounts for. */
  method DecBase58(text: string) returns (bytes: seq<Byte>)
    requires text != []
    ensures bytes == DecodeResult(text)
  {
    hide Pow, Val, LeVal, IsMinimal, DigitsOf, DigitOf, LeadingOnes, DecodeResult, Reversed, Zeros;
    var result: array<Byte> := new Byte[|text| + 1];
    result[0] := 0;
    var resultSize := DecodeDigits(text, result);
    ghost var value: seq<nat> := result[..resultSize];
    DecodedText(text, value);
    DecodeLength(text);
    resultSize := AppendZeros(text, result, resultSize);
    ReverseInPlace(result, resultSize);
    bytes := result[..resultSize];
    ReversedZeros(value, LeadingOnes(text));
  }

  lemma ReversedZeros(value: seq<nat>, n: nat)
    ensures Reversed(value + Zeros(n)) == Zeros(n) + Reversed(value)
  {
  }

  /** One zero byte for each leading '1'. */
  method AppendZeros(text: string, result: array<Byte>, resultSize: nat) returns (newSize: nat)
    requires resultSize + LeadingOnes(text) <= result.Length
    modifies result
    ensures newSize == resultSize + LeadingOnes(text)
    ensures result[..newSize] == old(result[..resultSize]) + Zeros(LeadingOnes(text))
  {
    hide DigitOf;
    newSize := resultSize;
    var i := 0;
    while i < |text| && text[i] == '1'
      invariant i <= LeadingOnes(text) && newSize == resultSize + i
      invariant result[..newSize] == old(result[..resultSize]) + Zeros(i)
    {
      result[newSize] := 0;
      assert result[..newSize + 1] == result[..newSize] + [0];
      newSize, i := newSize + 1, i + 1;
    }
  }

  lemma DecodedText(text: string, value: seq<nat>)
    requires |value| >= 1 && AreDigits(256, value) && LeVal(value) == Val(58, DigitsOf(text))
    requires |value| > 1 ==> value[|value| - 1] != 0
    ensures DecodeResult(text) == Zeros(LeadingOnes(text)) + Reversed(value)
    ensures |DecodeResult(text)| == LeadingOnes(text) + |value|
  {
    hide Pow, Val, LeVal, DigitsOf, DigitOf, LeadingOnes;
    DecodedValue(value, Val(58, DigitsOf(text)));
  }

  lemma DecodeStart(one: seq<nat>)
    requires one == [0]
    ensures LeVal(one) == Val(58, [])
  {
    assert Reversed(one) == one;
    assert Val(256, one) == Val(256, one[..0]) * 256 + one[0];
  }

  lemma ValAppend(b: nat, s: seq<nat>, k: nat)
    requires k < |s|
    ensures Val(b, s[..k + 1]) == b * Val(b, s[..k]) + s[k]
  {
    assert s[..k + 1][..k] == s[..k];
  }

  /** The bytes built so far are the minimal ones, save that zero has one. */
  lemma DecodedValue(value: seq<nat>, v: nat)
    requires |value| >= 1 && AreDigits(256, value) && LeVal(value) == v
    requires |value| > 1 ==> value[|value| - 1] != 0
    ensures Reversed(value) == if v == 0 then [0] else Digits(256, v)
  {
    var r := Reversed(value);
    hide Val, Pow;
    ValPositive(256, r);
    assert r[0] == value[|value| - 1];
    if v == 0 {
      assert r == Zeros(|r|);
      assert |r| == 1;
    } else {
      if |value| == 1 { assert r != Zeros(1); }
      MinimalUnique(256, r, Digits(256, v));
    }
  }
}
