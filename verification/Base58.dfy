/** Base-58 text, src/synthfi/Util/StringEncode.hpp: radix conversion on digit arrays changed in place. */
module Base58 {
  import opened Bytes
  import opened Radix
  import opened Base58Size

  const ALPHABET: string := "123456789" + "ABCDEFGH" + "JKLMN" + "PQRSTUVWXYZ" + "abcdefghijk" + "mnopqrstuvwxyz"

  /** The alphabet map, by its runs; -1 marks a character outside the alphabet. */
  function DigitOf(c: char): (d: int)
    ensures -1 <= d < 58
  {
    if '1' <= c <= '9' then c as int - '1' as int
    else if 'A' <= c <= 'H' then 9 + (c as int - 'A' as int)
    else if 'J' <= c <= 'N' then 17 + (c as int - 'J' as int)
    else if 'P' <= c <= 'Z' then 22 + (c as int - 'P' as int)
    else if 'a' <= c <= 'k' then 33 + (c as int - 'a' as int)
    else if 'm' <= c <= 'z' then 44 + (c as int - 'm' as int)
    else -1
  }

  lemma DigitOfAlphabet(c: char)
    requires DigitOf(c) >= 0
    ensures ALPHABET[DigitOf(c)] == c
  {
  }

  /** The alphabet and its map are inverse to each other. */
  lemma AlphabetOfDigit(d: nat)
    requires d < 58
    ensures DigitOf(ALPHABET[d]) == d
  {
    var c := (if d < 9 then d + '1' as int
              else if d < 17 then d - 9 + 'A' as int
              else if d < 22 then d - 17 + 'J' as int
              else if d < 33 then d - 22 + 'P' as int
              else if d < 44 then d - 33 + 'a' as int
              else d - 44 + 'm' as int) as char;
    assert DigitOf(c) == d;
    DigitOfAlphabet(c);
  }

  /** The alphabet is the digits and letters without 0, O, I and l, in ascending order. */
  lemma AlphabetIs(c: char, i: nat, j: nat)
    ensures |ALPHABET| == 58
    ensures c in ALPHABET <==>
              ('0' < c <= '9' || 'A' <= c <= 'Z' || 'a' <= c <= 'z') && c != 'O' && c != 'I' && c != 'l'
    ensures i < j < 58 ==> ALPHABET[i] < ALPHABET[j]
  {
    if DigitOf(c) >= 0 { DigitOfAlphabet(c); }
    if k :| 0 <= k < 58 && ALPHABET[k] == c { AlphabetOfDigit(k); }
    if i < j < 58 {
      AlphabetOfDigit(i);
      AlphabetOfDigit(j);
    }
  }

  function LeadingZeros(source: seq<Byte>): (z: nat)
    ensures z <= |source|
    ensures forall i :: 0 <= i < z ==> source[i] == 0
    ensures z < |source| ==> source[z] != 0
  {
    if source != [] && source[0] == 0 then 1 + LeadingZeros(source[1..]) else 0
  }

  function Repeat(c: char, n: nat): (t: string)
    ensures |t| == n && forall i :: 0 <= i < n ==> t[i] == c
  {
    seq(n, _ => c)
  }

  function ToText(digits: seq<nat>): (t: string)
    requires AreDigits(58, digits)
    ensures |t| == |digits|
  {
    seq(|digits|, i requires 0 <= i < |digits| => ALPHABET[digits[i]])
  }

  /** The Base58 text of a byte string: one '1' per leading zero byte, then the number in base 58. */
  ghost function Encoding(source: seq<Byte>): string {
    Repeat('1', LeadingZeros(source)) + ToText(Digits(58, Val(256, source)))
  }

  /** A count converted to a 32-bit int: reduced modulo 2^32, its upper half read as negative. */
  function AsInt(n: nat): int {
    var low := n % 0x1_0000_0000;
    if low < 0x8000_0000 then low else low - 0x1_0000_0000
  }

  /**
   * The two guards of the encoder: the digits fit the estimate, and the text and its terminator fit the buffer of 2n
   * characters, whose size is converted to an int for the comparison.
   */
  ghost predicate Fits(source: seq<Byte>) {
    var zeros := LeadingZeros(source);
    && Val(256, source) < Pow(58, EncodedSize(|source| - zeros))
    && zeros + |Digits(58, Val(256, source))| + 1 <= AsInt(2 * |source|)
  }

  ghost function EncodeResult(source: seq<Byte>): string {
    if Fits(source) then Encoding(source) else ""
  }

  /** The digits of the longest prefix inside the alphabet; decoding stops at the first other character. */
  function DigitsOf(text: string): (digits: seq<nat>)
    ensures |digits| <= |text| && AreDigits(58, digits)
    ensures forall i :: 0 <= i < |digits| ==> digits[i] == DigitOf(text[i])
    ensures |digits| < |text| ==> DigitOf(text[|digits|]) == -1
  {
    hide DigitOf;
    if text == [] || DigitOf(text[0]) == -1 then [] else [DigitOf(text[0])] + DigitsOf(text[1..])
  }

  function LeadingOnes(text: string): (n: nat)
    ensures n <= |text|
    ensures forall i :: 0 <= i < n ==> text[i] == '1'
    ensures n < |text| ==> text[n] != '1'
  {
    if text != [] && text[0] == '1' then 1 + LeadingOnes(text[1..]) else 0
  }

  /** What decoding returns: a zero per leading '1', then the number's bytes, zero taking one byte of its own. */
  ghost function DecodeResult(text: string): seq<nat> {
    var v := Val(58, DigitsOf(text));
    Zeros(LeadingOnes(text)) + (if v == 0 then [0] else Digits(256, v))
  }

  /**
   * Decoding gives at most as many bytes as the text has characters, which is what its buffer holds, except that
   * a text of nothing but '1's gives one more.
   */
  lemma DecodeLength(text: string)
    requires text != []
    ensures 0 < |DecodeResult(text)| <= |text| + 1
    ensures |DecodeResult(text)| == |text| + 1 <==> LeadingOnes(text) == |text|
  {
    hide Val, Pow, DigitsOf, DigitOf, LeadingOnes;
    OnesAreZeros(text);
    LongValue(DigitsOf(text), LeadingOnes(text));
  }

  /** The bytes of a number need no more room than its base-58 digits, counted after the leading zeros. */
  lemma LongValue(digits: seq<nat>, ones: nat)
    requires ones <= |digits| && digits[..ones] == Zeros(ones) && AreDigits(58, digits)
    ensures Val(58, digits) > 0 ==> 0 < |Digits(256, Val(58, digits))| + ones <= |digits|
    ensures ones == |digits| ==> Val(58, digits) == 0
  {
    hide Val, Pow;
    var rest, v := digits[ones..], Val(58, digits);
    var r := Digits(256, v);
    assert digits == Zeros(ones) + rest;
    ValZeros(58, ones, rest);
    NothingIsZero();
    if r != [] {
      ValLowerBound(256, r);
      PowerGap(rest, |r| - 1);
    }
  }

  lemma NothingIsZero()
    ensures Val(256, []) == 0 && Val(58, []) == 0
  {
  }

  lemma OnesAreZeros(text: string)
    ensures LeadingOnes(text) <= |DigitsOf(text)|
    ensures DigitsOf(text)[..LeadingOnes(text)] == Zeros(LeadingOnes(text))
  {
    var digits, ones := DigitsOf(text), LeadingOnes(text);
    assert |digits| < |text| ==> text[|digits|] != '1';
  }

  /** A number of at least 256^k needs more than k base-58 digits. */
  lemma PowerGap(digits: seq<nat>, k: nat)
    requires AreDigits(58, digits) && Pow(256, k) <= Val(58, digits)
    ensures k < |digits|
  {
    ValBound(58, digits);
    PowMonotone(58, 256, |digits|);
    if |digits| <= k {
      PowGrows(256, |digits|, k);
    }
  }
}
