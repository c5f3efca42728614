/** What the Base58 printer and parser are for: they undo each other, with the exceptions stated exactly. */
module Base58RoundTrip {
  import opened Bytes
  import opened Radix
  import opened Base58Size
  import opened Base58

  ghost predicate AllZero(source: seq<Byte>) {
    forall i :: 0 <= i < |source| ==> source[i] == 0
  }

  ghost predicate AllOnes(text: string) {
    forall i :: 0 <= i < |text| ==> text[i] == '1'
  }

  ghost predicate InAlphabet(text: string) {
    forall i :: 0 <= i < |text| ==> DigitOf(text[i]) >= 0
  }

  // ---------------------------------------------------------------- when the encoder gives up

  lemma AllZeroLeads(source: seq<Byte>)
    ensures AllZero(source) <==> LeadingZeros(source) == |source|
  {
  }

  lemma ZerosLead(source: seq<Byte>)
    ensures source == Zeros(LeadingZeros(source)) + source[LeadingZeros(source)..]
    ensures AreDigits(256, source[LeadingZeros(source)..])
  {
  }

  /** A byte string is its leading zeros and the minimal digits of its number. */
  lemma BytesSplit(source: seq<Byte>)
    ensures source == Zeros(LeadingZeros(source)) + Digits(256, Val(256, source))
    ensures Val(256, source) < Pow(256, |source| - LeadingZeros(source))
    ensures Val(256, source) == 0 <==> AllZero(source)
    ensures AllZero(source) <==> LeadingZeros(source) == |source|
  {
    hide *;
    AllZeroLeads(source);
    ZerosLead(source);
    SplitAt(source, LeadingZeros(source), source[LeadingZeros(source)..]);
  }

  lemma SplitAt(s: seq<nat>, z: nat, rest: seq<nat>)
    requires s == Zeros(z) + rest && |s| == z + |rest| && AreDigits(256, rest) && (rest != [] ==> rest[0] != 0)
    ensures s == Zeros(z) + Digits(256, Val(256, s)) && Val(256, s) < Pow(256, |s| - z)
    ensures Val(256, s) == 0 <==> z == |s|
  {
    hide *;
    MinimalAfterZeros(z, rest);
  }

  lemma MinimalAfterZeros(z: nat, rest: seq<nat>)
    requires AreDigits(256, rest) && (rest != [] ==> rest[0] != 0)
    ensures rest == Digits(256, Val(256, Zeros(z) + rest))
    ensures Val(256, Zeros(z) + rest) < Pow(256, |rest|)
    ensures Val(256, Zeros(z) + rest) == 0 <==> rest == []
  {
    hide Pow, Val;
    ValZeros(256, z, rest);
    ValBound(256, rest);
    MinimalUnique(256, rest, Digits(256, Val(256, rest)));
    NonEmptyIsPositive(256, rest);
    NothingIsZero();
  }

  /** The digit count is within the estimate whenever the number is. */
  lemma DigitCount(v: nat, size: nat)
    requires v < Pow(58, size)
    ensures |Digits(58, v)| <= size
  {
    hide Val, Pow;
    var d := Digits(58, v);
    if |d| > size {
      ValLowerBound(58, d);
      PowGrows(58, size, |d| - 1);
    }
  }

  lemma OneByte(source: seq<Byte>)
    requires |source| == 1
    ensures Val(256, source) == source[0]
    ensures source[0] < 58 ==> |Digits(58, Val(256, source))| <= 1
    ensures source[0] >= 58 ==> |Digits(58, Val(256, source))| >= 2
  {
    NothingIsZero();
    assert source[..0] == [];
    var v, d := source[0], Digits(58, source[0]);
    assert Pow(58, 1) == 58;
    if v < 58 {
      DigitCount(v, 1);
    } else if |d| < 2 {
      hide Val;
      ValBound(58, d);
      PowGrows(58, |d|, 1);
    }
  }

  /** From this many bytes on, up to MAX_BYTES, twice their number is negative as an int. */
  const TOO_LONG: nat := 0x4000_0000

  lemma DoubleAsInt(n: nat)
    requires n <= MAX_BYTES
    ensures AsInt(2 * n) == if n < TOO_LONG then 2 * n else 2 * n - 0x1_0000_0000
  {
  }

  /** enc_base58 returns the empty string for single bytes of 58 or more, for 2^30 bytes or more, and not otherwise. */
  lemma EncodeFailsExactly(source: seq<Byte>)
    requires 0 < |source| <= MAX_BYTES
    ensures Fits(source) <==> |source| < TOO_LONG && !(|source| == 1 && source[0] >= 58)
    ensures EncodeResult(source) == "" <==> |source| >= TOO_LONG || (|source| == 1 && source[0] >= 58)
  {
    hide *;
    FitsExactly(source);
    EncodingNotEmpty(source);
    EncodeResultIs(source);
  }

  lemma FitsExactly(source: seq<Byte>)
    requires 0 < |source| <= MAX_BYTES
    ensures Fits(source) <==> |source| < TOO_LONG && !(|source| == 1 && source[0] >= 58)
  {
    hide Val, Pow, AsInt, EncodedSize, LeadingZeros, IsMinimal, Digits;
    var n, z, v := |source|, LeadingZeros(source), Val(256, source);
    DoubleAsInt(n);
    NumberFits(source);
    OneByteDigits(source);
    Guard(n, z, |Digits(58, v)|, EncodedSize(n - z));
  }

  /** The number of a byte string fits the estimate, and so do its digits. */
  lemma NumberFits(source: seq<Byte>)
    requires |source| <= MAX_BYTES
    ensures var z, v := LeadingZeros(source), Val(256, source);
            var m := |source| - z;
            && v < Pow(58, EncodedSize(m)) && |Digits(58, v)| <= EncodedSize(m)
            && (m == 0 ==> Digits(58, v) == [])
            && (m == 1 ==> EncodedSize(m) == 2) && (m > 1 ==> EncodedSize(m) + 1 <= 2 * m)
  {
    hide Val, Pow, EncodedSize, LeadingZeros, IsMinimal;
    var m := |source| - LeadingZeros(source);
    BytesSplit(source);
    SizeEstimate(m);
    EstimateFits(m);
    DigitCount(Val(256, source), EncodedSize(m));
    NoDigits();
  }

  lemma OneByteDigits(source: seq<Byte>)
    ensures |source| == 1 ==> (|Digits(58, Val(256, source))| >= 2 <==> source[0] >= 58)
  {
    if |source| == 1 { OneByte(source); }
  }

  /** The second guard without its conversion: only a single byte of two digits does not fit. */
  lemma Guard(n: nat, z: nat, digits: nat, size: nat)
    requires 0 < n && z <= n && digits <= size && (n == z ==> digits == 0)
    requires (n - z == 1 ==> size == 2) && (n - z > 1 ==> size + 1 <= 2 * (n - z))
    ensures z + digits + 1 <= 2 * n <==> !(n == 1 && digits >= 2)
  {
  }

  lemma NoDigits()
    ensures Digits(58, 0) == []
  {
    hide Val;
    MinimalUnique(58, Digits(58, 0), []) by { NothingIsZero(); }
  }

  lemma EncodingNotEmpty(source: seq<Byte>)
    requires source != []
    ensures Encoding(source) != ""
  {
    hide Val, LeadingZeros;
    BytesSplit(source);
    if LeadingZeros(source) == 0 && Digits(58, Val(256, source)) == [] { NothingIsZero(); }
  }

  /** No string of 2^30 bytes or more is accepted, whatever its length. */
  lemma AcceptedIsShort(source: seq<Byte>)
    requires Fits(source)
    ensures |source| < TOO_LONG
  {
    var z, v := LeadingZeros(source), Val(256, source);
    BytesSplit(source);
    hide Val, Pow, EncodedSize, LeadingZeros;
    MoreDigits(v);
    AsIntBound(|source|);
    assert |source| == z + |Digits(256, v)|;
  }

  /** A number has at least as many base-58 digits as bytes. */
  lemma MoreDigits(v: nat)
    ensures |Digits(256, v)| <= |Digits(58, v)|
  {
    hide Val, Pow;
    var d := Digits(58, v);
    assert d[..0] == Zeros(0);
    LongValue(d, 0);
    if v == 0 {
      NonEmptyIsPositive(256, Digits(256, v));
    }
  }

  lemma AsIntBound(n: nat)
    ensures n >= TOO_LONG ==> AsInt(2 * n) < n
  {
  }

  lemma EstimateFits(m: nat)
    requires m <= MAX_BYTES
    ensures m > 1 ==> EncodedSize(m) + 1 <= 2 * m
    ensures EncodedSize(1) == 2
  {
    SmallSizes();
    hide EncodedSize;
    if m > 3 { SizeAtMost(m, 2 * m - 2); }
  }

  // ---------------------------------------------------------------- bytes -> text -> bytes

  /** Reading back the digits of an encoding gives the same number behind the same count of zeros. */
  lemma DigitsOfText(z: nat, d: seq<nat>)
    requires AreDigits(58, d) && (d != [] ==> d[0] != 0)
    ensures DigitsOf(Repeat('1', z) + ToText(d)) == Zeros(z) + d
    ensures LeadingOnes(Repeat('1', z) + ToText(d)) == z
  {
    var t, e := Repeat('1', z) + ToText(d), Zeros(z) + d;
    forall i | 0 <= i < |t|
      ensures DigitOf(t[i]) == e[i]
    {
      if i >= z { AlphabetOfDigit(d[i - z]); }
    }
    if d != [] {
      AlphabetOfDigit(d[0]);
      assert t[z] == ALPHABET[d[0]] != '1';
    }
    assert |DigitsOf(t)| == |t|;
  }

  /** Decoding an encoding gives the bytes back; an all-zero string comes back one zero byte too long. */
  lemma DecodeOfEncoding(source: seq<Byte>)
    ensures DecodeResult(Encoding(source)) == if AllZero(source) then source + [0] else source
  {
    hide Val, LeadingZeros, DigitsOf, LeadingOnes, DigitOf, ToText;
    var z, v := LeadingZeros(source), Val(256, source);
    var d := Digits(58, v);
    BytesSplit(source);
    DigitsOfText(z, d);
    ValZeros(58, z, d);
  }

  /**
   * Bytes to text to bytes, for every byte string the encoder accepts: the identity exactly when some byte
   * is nonzero.
   */
  lemma RoundTripBytes(source: seq<Byte>)
    requires source != [] && EncodeResult(source) != ""
    ensures DecodeResult(EncodeResult(source)) == source <==> !AllZero(source)
  {
    DecodeOfEncoding(source);
  }

  /** Every key and signature of the program, 32 or 64 bytes, is accepted; so is anything of two bytes up to 2^30. */
  lemma RoundTripKeys(source: seq<Byte>)
    requires 2 <= |source| < TOO_LONG
    ensures DecodeResult(EncodeResult(source)) == if AllZero(source) then source + [0] else source
  {
    EncodeFailsExactly(source);
    DecodeOfEncoding(source);
  }

  // ---------------------------------------------------------------- text -> bytes -> text

  lemma WholeTextDigits(text: string)
    requires InAlphabet(text)
    ensures |DigitsOf(text)| == |text| && ToText(DigitsOf(text)) == text
  {
    var d := DigitsOf(text);
    forall i | 0 <= i < |text|
      ensures ToText(d)[i] == text[i]
    {
      DigitOfAlphabet(text[i]);
    }
  }

  lemma AllOnesLead(text: string)
    ensures AllOnes(text) <==> LeadingOnes(text) == |text|
    ensures text[..LeadingOnes(text)] == Repeat('1', LeadingOnes(text))
  {
  }

  /** A text in the alphabet is its leading '1's and the minimal digits of its number. */
  lemma TextSplit(text: string)
    requires InAlphabet(text)
    ensures var n := LeadingOnes(text);
            text == Repeat('1', n) + ToText(Digits(58, Val(58, DigitsOf(text))))
    ensures AllOnes(text) <==> Val(58, DigitsOf(text)) == 0
    ensures AllOnes(text) <==> LeadingOnes(text) == |text|
  {
    hide *;
    DigitsSplit(text);
    WholeTextDigits(text);
    AllOnesLead(text);
    LeadingOnesIn(text);
    ToTextSuffix(DigitsOf(text), LeadingOnes(text));
    assert text == text[..LeadingOnes(text)] + text[LeadingOnes(text)..];
  }

  lemma LeadingOnesIn(text: string)
    ensures LeadingOnes(text) <= |text|
  {
  }

  /** The digits after the leading ones are the shortest numeral of the whole. */
  lemma DigitsSplit(text: string)
    requires InAlphabet(text)
    ensures var n, d := LeadingOnes(text), DigitsOf(text);
            && n <= |d| == |text| && d[n..] == Digits(58, Val(58, d))
            && (n == |d| <==> Val(58, d) == 0)
  {
    hide Val, LeadingOnes, DigitsOf, DigitOf, ALPHABET, ToText, IsMinimal, Zeros;
    WholeTextDigits(text);
    OnesAreZeros(text);
    FirstDigit(text);
    MinimalDigits(LeadingOnes(text), DigitsOf(text));
  }

  lemma ToTextSuffix(d: seq<nat>, n: nat)
    requires AreDigits(58, d) && n <= |d|
    ensures ToText(d[n..]) == ToText(d)[n..]
  {
  }

  lemma FirstCharacter()
    ensures ALPHABET[0] == '1' && DigitOf('1') == 0
  {
  }

  lemma FirstDigit(text: string)
    requires InAlphabet(text)
    ensures LeadingOnes(text) < |text| ==> |DigitsOf(text)| == |text| && DigitsOf(text)[LeadingOnes(text)] != 0
  {
    hide LeadingOnes, DigitOf, ALPHABET;
    var n := LeadingOnes(text);
    WholeTextDigits(text);
    if n < |text| {
      DigitOfAlphabet(text[n]);
      FirstCharacter();
    }
  }

  lemma MinimalDigits(n: nat, d: seq<nat>)
    requires n <= |d| && d[..n] == Zeros(n) && AreDigits(58, d) && (n < |d| ==> d[n] != 0)
    ensures d[n..] == Digits(58, Val(58, d))
    ensures n == |d| <==> Val(58, d) == 0
  {
    hide Val;
    var rest := d[n..];
    assert d == Zeros(n) + rest;
    ValZeros(58, n, rest);
    MinimalUnique(58, rest, Digits(58, Val(58, d)));
    NonEmptyIsPositive(58, rest);
    NothingIsZero();
  }

  lemma LeadingZerosOf(z: nat, rest: seq<Byte>)
    requires rest != [] ==> rest[0] != 0
    ensures LeadingZeros(Zeros(z) + rest) == z
  {
    var s: seq<Byte> := Zeros(z) + rest;
    assert s[..z] == Zeros(z) && s[z..] == rest;
  }

  /** Encoding what an alphabet-only text decodes to gives the text back; all '1' comes back one '1' too long. */
  lemma EncodingOfDecode(text: string)
    requires InAlphabet(text)
    ensures Encoding(DecodeResult(text)) == if AllOnes(text) then text + "1" else text
  {
    hide Val, LeadingZeros, DigitsOf, LeadingOnes, DigitOf, ToText;
    var n, v := LeadingOnes(text), Val(58, DigitsOf(text));
    TextSplit(text);
    if v == 0 {
      var s: seq<Byte> := Zeros(n) + [0];
      assert s == Zeros(n + 1) + [] && DecodeResult(text) == s;
      LeadingZerosOf(n + 1, []);
      ZeroText(n + 1);
      assert Zeros(n + 1) + [] == Zeros(n + 1);
      assert Encoding(s) == Repeat('1', n + 1) + ToText([]);
      assert Repeat('1', n + 1) == Repeat('1', n) + "1";
    } else {
      LeadingZerosOf(n, Digits(256, v));
      ValZeros(256, n, Digits(256, v));
    }
  }

  lemma ZeroText(n: nat)
    ensures Val(256, Zeros(n)) == 0 && Digits(58, 0) == []
  {
    ValPositive(256, Zeros(n));
    NonEmptyIsPositive(58, Digits(58, 0));
  }

  /** Two characters whose number is below 256: they decode to one byte of 58 or more, which cannot be re-encoded. */
  ghost predicate OneLargeByte(text: string) {
    |text| == 2 && text[0] != '1' && Val(58, DigitsOf(text)) < 256
  }

  /**
   * Text to bytes to text, for every nonempty alphabet-only text: the identity exactly when the text is neither
   * all '1' nor one of the two-character texts worth less than 256, and decodes to less than 2^30 bytes.
   */
  lemma RoundTripText(text: string)
    requires 0 < |text| < MAX_BYTES && InAlphabet(text)
    ensures EncodeResult(DecodeResult(text)) == text <==>
              !AllOnes(text) && !OneLargeByte(text) && |DecodeResult(text)| < TOO_LONG
  {
    hide Val, DigitsOf, LeadingOnes, DigitOf, Encoding, Fits, EncodeResult;
    var s, v := DecodeResult(text), Val(58, DigitsOf(text));
    DecodeLength(text);
    EncodingOfDecode(text);
    EncodeFailsExactly(s);
    EncodeResultIs(s);
    TextSplit(text);
    OneByteDecodes(text);
  }

  /** Without a bound on its length: every alphabet-only text whose bytes the encoder accepts. */
  lemma RoundTripAcceptedText(text: string)
    requires InAlphabet(text) && EncodeResult(DecodeResult(text)) != ""
    ensures EncodeResult(DecodeResult(text)) == text <==> !AllOnes(text)
  {
    hide Encoding, Fits, Val, DigitsOf, LeadingOnes, DigitOf;
    EncodingOfDecode(text);
    EncodeResultIs(DecodeResult(text));
  }

  lemma EncodeResultIs(s: seq<Byte>)
    ensures Fits(s) ==> EncodeResult(s) == Encoding(s)
    ensures !Fits(s) ==> EncodeResult(s) == ""
  {
  }

  lemma OneByteDecodes(text: string)
    requires InAlphabet(text) && text != []
    ensures |DecodeResult(text)| == 1 && DecodeResult(text)[0] >= 58 <==> OneLargeByte(text)
  {
    hide Val, DigitsOf, LeadingOnes, DigitOf;
    var n, d := LeadingOnes(text), DigitsOf(text);
    var v := Val(58, d);
    TextSplit(text);
    WholeTextDigits(text);
    OneDigit(v);
    if n == 0 {
      DigitOfAlphabet(text[0]);
      assert d[0] != 0;
      ShortValue(d);
    }
  }

  lemma OneDigit(v: nat)
    ensures 0 < v < 256 ==> Digits(256, v) == [v]
    ensures |Digits(256, v)| == 1 ==> Digits(256, v)[0] == v && v < 256
    ensures v > 0 ==> |Digits(256, v)| > 0
  {
    var d := Digits(256, v);
    NothingIsZero();
    if |d| == 1 { assert d[..0] == []; }
    if 0 < v < 256 {
      assert Val(256, [v]) == v by { assert [v][..0] == []; }
      MinimalUnique(256, [v], d);
    }
  }

  /** Without a leading zero digit, a number from 58 to 255 has exactly two base-58 digits. */
  lemma ShortValue(d: seq<nat>)
    requires AreDigits(58, d) && d != [] && d[0] != 0
    ensures Val(58, d) < 256 ==> (|d| == 2 <==> Val(58, d) >= 58) && |d| <= 2
    ensures |d| == 2 ==> Val(58, d) >= 58
  {
    assert Pow(58, 1) == 58 && Pow(58, 2) == 3364;
    hide Val;
    ValLowerBound(58, d);
    ValBound(58, d);
    if |d| > 2 { PowGrows(58, 2, |d| - 1); }
  }
}
