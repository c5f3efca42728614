/**
 * Base64 text, src/synthfi/Util/StringEncode.hpp, as in section 4 of RFC 4648. Masks and shifts on bytes are written
 * as division and remainder by powers of two.
 */
module Base64 {
  import opened Bytes

  /** The alphabet, by its runs. */
  function AlphabetAt(d: nat): (c: char)
    requires d < 64
  {
    if d < 26 then (d + 'A' as int) as char
    else if d < 52 then (d - 26 + 'a' as int) as char
    else if d < 62 then (d - 52 + '0' as int) as char
    else if d == 62 then '+' else '/'
  }

  /** b64_lookup; -1 becomes 255 when stored in a byte. */
  function Lookup(c: char): (b: Byte)
    ensures b < 64 || b == 255
  {
    if 'A' <= c <= 'Z' then c as int - 'A' as int
    else if 'a' <= c <= 'z' then c as int - 71
    else if '0' <= c <= '9' then c as int + 4
    else if c == '+' then 62
    else if c == '/' then 63
    else 255
  }

  predicate InAlphabet(c: char) {
    Lookup(c) < 64
  }

  lemma AlphabetInverse(d: nat, c: char)
    ensures d < 64 ==> Lookup(AlphabetAt(d)) == d && AlphabetAt(d) != '='
    ensures InAlphabet(c) ==> AlphabetAt(Lookup(c)) == c && c != '='
  {
  }

  /** The alphabet of table 1 in section 4 of RFC 4648. */
  lemma AlphabetIs(d: nat)
    requires d < 64
    ensures AlphabetAt(d) == ("ABCDEFGHIJKLMNOPQRSTUVWXYZ" + "abcdefghijklmnopqrstuvwxyz" + "0123456789+/")[d]
  {
  }

  // ---------------------------------------------------------------- groups

  /** a3_to_a4: three bytes as four sextets. */
  function Sextets(x: Byte, y: Byte, z: Byte): (q: seq<Byte>)
    ensures |q| == 4 && forall i :: 0 <= i < 4 ==> q[i] < 64
  {
    [x / 4, (x % 4) * 16 + y / 16, (y % 16) * 4 + z / 64, z % 64]
  }

  /** a4_to_a3: four values, of which a byte each, as three bytes; overflowing bits are dropped. */
  function Octets(p: Byte, q: Byte, r: Byte, s: Byte): (t: seq<Byte>)
    ensures |t| == 3
  {
    [(p * 4 + (q / 16) % 4) % 256, (q % 16) * 16 + (r / 4) % 16, ((r % 4) * 64 + s) % 256]
  }

  /** Two numbers packed into one come apart again. */
  lemma Unpack(high: nat, low: nat, k: nat)
    requires low < k && (k == 4 || k == 16 || k == 64)
    ensures (high * k + low) / k == high && (high * k + low) % k == low
  {
    if k == 4 {} else if k == 16 {}
  }

  lemma FirstComesBack(x: Byte, y: Byte, z: Byte)
    ensures var q := Sextets(x, y, z); (q[0] * 4 + (q[1] / 16) % 4) % 256 == x
  {
    Unpack(x % 4, y / 16, 16);
  }

  lemma MiddleComesBack(x: Byte, y: Byte, z: Byte)
    ensures var q := Sextets(x, y, z); (q[1] % 16) * 16 + (q[2] / 4) % 16 == y
  {
    Unpack(x % 4, y / 16, 16);
    Unpack(y % 16, z / 64, 4);
  }

  lemma LastComesBack(x: Byte, y: Byte, z: Byte)
    ensures var q := Sextets(x, y, z); ((q[2] % 4) * 64 + q[3]) % 256 == z
  {
    Unpack(y % 16, z / 64, 4);
  }

  lemma OctetsOfSextets(x: Byte, y: Byte, z: Byte, p: Byte)
    ensures var q := Sextets(x, y, z); Octets(q[0], q[1], q[2], q[3]) == [x, y, z]
    ensures var q := Sextets(x, y, z); Octets(q[0], q[1], q[2], p)[..2] == [x, y]
    ensures var q := Sextets(x, y, z); Octets(q[0], q[1], p, p)[0] == x
  {
    hide Sextets;
    FirstComesBack(x, y, z);
    MiddleComesBack(x, y, z);
    LastComesBack(x, y, z);
  }

  lemma SextetsOfOctets(p: Byte, q: Byte, r: Byte, s: Byte)
    requires p < 64 && q < 64 && r < 64 && s < 64
    ensures var t := Octets(p, q, r, s); Sextets(t[0], t[1], t[2]) == [p, q, r, s]
    ensures var t := Octets(p, q, r, 255); Sextets(t[0], t[1], 0) == [p, q, r - r % 4, 0]
    ensures var t := Octets(p, q, 255, 255); Sextets(t[0], 0, 0) == [p, q - q % 16, 0, 0]
  {
    FirstOctet(p, q);
    MiddleOctet(q, r);
    LastOctet(r, s);
  }

  lemma FirstOctet(p: nat, q: nat)
    requires p < 64 && q < 64
    ensures var t := (p * 4 + (q / 16) % 4) % 256; t / 4 == p && t % 4 == q / 16
  {
    Unpack(p, q / 16, 4);
  }

  lemma MiddleOctet(q: nat, r: nat)
    requires q < 64 && r < 64
    ensures var t := (q % 16) * 16 + (r / 4) % 16; t / 16 == q % 16 && t % 16 == r / 4
  {
    Unpack(q % 16, r / 4, 16);
  }

  lemma LastOctet(r: nat, s: nat)
    requires r < 64 && s < 64
    ensures var t := ((r % 4) * 64 + s) % 256; t / 64 == r % 4 && t % 64 == s
  {
    Unpack(r % 4, s, 64);
  }

  // ---------------------------------------------------------------- specification

  function Quad(b: seq<Byte>): (t: string)
    requires 0 < |b| <= 3
    ensures |t| == 4
  {
    var q := Sextets(b[0], if |b| > 1 then b[1] else 0, if |b| > 2 then b[2] else 0);
    [AlphabetAt(q[0]), AlphabetAt(q[1]),
     if |b| > 1 then AlphabetAt(q[2]) else '=', if |b| > 2 then AlphabetAt(q[3]) else '=']
  }

  function Encode(b: seq<Byte>): string {
    if b == [] then "" else if |b| <= 3 then Quad(b) else Quad(b[..3]) + Encode(b[3..])
  }

  /** The text before the first '='. */
  function Clean(text: string): (c: string)
    ensures |c| <= |text| && c == text[..|c|]
    ensures forall i :: 0 <= i < |c| ==> c[i] != '='
    ensures |c| < |text| ==> text[|c|] == '='
  {
    if text == "" || text[0] == '=' then "" else [text[0]] + Clean(text[1..])
  }

  /** The bytes of up to four characters; a character that is missing counts as 255, like any outside the alphabet. */
  function Triple(t: string): (b: seq<Byte>)
    requires |t| <= 4
    ensures |b| == if |t| == 0 then 0 else |t| - 1
  {
    if t == "" then [] else
      Octets(Lookup(t[0]), if |t| > 1 then Lookup(t[1]) else 255, if |t| > 2 then Lookup(t[2]) else 255,
             if |t| > 3 then Lookup(t[3]) else 255)[..|t| - 1]
  }

  function DecodeClean(t: string): seq<Byte> {
    if |t| <= 4 then Triple(t) else Triple(t[..4]) + DecodeClean(t[4..])
  }

  function Decode(text: string): seq<Byte> {
    DecodeClean(Clean(text))
  }

  function EncodedLength(size: nat): nat {
    (size + 2 - (size + 2) % 3) / 3 * 4
  }

  // ---------------------------------------------------------------- round trips

  lemma {:induction false} EncodeLength(b: seq<Byte>)
    ensures |Encode(b)| == EncodedLength(|b|)
  {
    hide Quad;
    if |b| > 3 {
      EncodeLength(b[3..]);
      LengthStep(|b| - 3);
    }
  }

  lemma LengthStep(n: nat)
    ensures EncodedLength(n + 3) == EncodedLength(n) + 4
  {
  }

  /** The encoder's buffer of two characters per byte is too small for exactly one input length. */
  lemma BufferSuffices(b: seq<Byte>)
    ensures |Encode(b)| <= 2 * |b| <==> |b| != 1
  {
    EncodeLength(b);
  }

  lemma CleanIs(text: string, k: nat)
    requires k <= |text| && (k < |text| ==> text[k] == '=')
    requires forall i :: 0 <= i < k ==> text[i] != '='
    ensures Clean(text) == text[..k]
  {
    hide Clean;
  }

  lemma QuadClean(b: seq<Byte>)
    requires 0 < |b| <= 3
    ensures Clean(Quad(b)) == Quad(b)[..|b| + 1]
    ensures Triple(Quad(b)[..|b| + 1]) == b
  {
    var y, z := if |b| > 1 then b[1] else 0, if |b| > 2 then b[2] else 0;
    var q := Sextets(b[0], y, z);
    OctetsOfSextets(b[0], y, z, 255);
    AlphabetInverse(q[0], '=');
    AlphabetInverse(q[1], '=');
    AlphabetInverse(q[2], '=');
    AlphabetInverse(q[3], '=');
    hide AlphabetAt, Lookup, Sextets, Octets, Clean;
    CleanIs(Quad(b), |b| + 1);
  }

  lemma CleanAppend(a: string, b: string)
    requires forall i :: 0 <= i < |a| ==> a[i] != '='
    ensures Clean(a + b) == a + Clean(b)
  {
    hide Clean;
    CleanIs(a + b, |a| + |Clean(b)|);
    assert (a + b)[..|a| + |Clean(b)|] == a + Clean(b);
  }

  lemma DecodeStep(t: string, rest: string)
    requires |t| == 4
    ensures DecodeClean(t + rest) == Triple(t) + DecodeClean(rest)
  {
    if rest == "" { assert t + rest == t; } else { assert (t + rest)[..4] == t && (t + rest)[4..] == rest; }
  }

  /** Bytes to text to bytes is the identity, on every byte string. */
  lemma {:induction false} RoundTripBytes(b: seq<Byte>)
    ensures Decode(Encode(b)) == b
  {
    hide Quad, Triple;
    if |b| == 0 {
      assert Triple("") == [];
    } else if |b| <= 3 {
      QuadClean(b);
    } else {
      var t, rest := Quad(b[..3]), Encode(b[3..]);
      QuadClean(b[..3]);
      assert t[..4] == t;
      CleanAppend(t, rest);
      DecodeStep(t, Clean(rest));
      RoundTripBytes(b[3..]);
      assert b == b[..3] + b[3..];
    }
  }

  // ---------------------------------------------------------------- which texts come back

  /** One to three bytes in canonical form: padding only at the end, unused bits zero (sections 3.2 and 3.5). */
  predicate CanonicalQuad(t: string)
    requires |t| == 4
  {
    && InAlphabet(t[0]) && InAlphabet(t[1])
    && (if t[3] != '=' then InAlphabet(t[2]) && InAlphabet(t[3])
        else if t[2] != '=' then InAlphabet(t[2]) && Lookup(t[2]) % 4 == 0
        else Lookup(t[1]) % 16 == 0)
  }

  predicate Canonical(t: string) {
    t == "" || (|t| >= 4
                && (if |t| == 4 then CanonicalQuad(t)
                    else (forall i :: 0 <= i < 4 ==> InAlphabet(t[i])) && Canonical(t[4..])))
  }

  lemma QuadIsCanonical(b: seq<Byte>)
    requires 0 < |b| <= 3
    ensures CanonicalQuad(Quad(b))
    ensures |b| == 3 ==> forall i :: 0 <= i < 4 ==> InAlphabet(Quad(b)[i])
  {
    var y, z := if |b| > 1 then b[1] else 0, if |b| > 2 then b[2] else 0;
    var q := Sextets(b[0], y, z);
    assert |b| == 1 ==> q[1] % 16 == 0;
    assert |b| == 2 ==> q[2] % 4 == 0;
    AlphabetInverse(q[0], '=');
    AlphabetInverse(q[1], '=');
    AlphabetInverse(q[2], '=');
    AlphabetInverse(q[3], '=');
    hide AlphabetAt, Lookup, Sextets;
  }

  lemma {:induction false} EncodeIsCanonical(b: seq<Byte>)
    ensures Canonical(Encode(b))
  {
    if |b| > 3 {
      var t, rest := Quad(b[..3]), Encode(b[3..]);
      QuadIsCanonical(b[..3]);
      EncodeIsCanonical(b[3..]);
      EncodeLength(b[3..]);
      assert (t + rest)[4..] == rest;
      assert forall i :: 0 <= i < 4 ==> (t + rest)[i] == t[i];
    } else if |b| > 0 {
      QuadIsCanonical(b);
      var t := Quad(b);
    }
  }

  lemma QuadBack(t: string)
    requires |t| == 4 && CanonicalQuad(t)
    ensures 2 <= |Clean(t)| <= 4 && |Triple(Clean(t))| == |Clean(t)| - 1
    ensures Quad(Triple(Clean(t))) == t
  {
    AlphabetInverse(0, t[0]);
    AlphabetInverse(0, t[1]);
    AlphabetInverse(0, t[2]);
    AlphabetInverse(0, t[3]);
    hide Lookup, AlphabetAt, Clean, Quad, Triple;
    var n := if t[3] != '=' then 4 else if t[2] != '=' then 3 else 2;
    CleanIs(t, n);
    assert t[..4] == t;
    if n == 4 { QuadOfThree(t); } else if n == 3 { QuadOfTwo(t); } else { QuadOfOne(t); }
  }

  lemma QuadOfThree(t: string)
    requires |t| == 4 && forall i :: 0 <= i < 4 ==> InAlphabet(t[i]) && AlphabetAt(Lookup(t[i])) == t[i]
    ensures Quad(Triple(t)) == t
  {
    var p, q, r, s := Lookup(t[0]), Lookup(t[1]), Lookup(t[2]), Lookup(t[3]);
    SextetsOfOctets(p, q, r, s);
    hide Lookup, AlphabetAt, Sextets, Octets;
    assert Triple(t) == Octets(p, q, r, s)[..3] == Octets(p, q, r, s);
  }

  lemma QuadOfTwo(t: string)
    requires |t| == 4 && (forall i :: 0 <= i < 3 ==> InAlphabet(t[i]) && AlphabetAt(Lookup(t[i])) == t[i])
    requires Lookup(t[2]) % 4 == 0 && t[3] == '='
    ensures Quad(Triple(t[..3])) == t
  {
    var p, q, r := Lookup(t[0]), Lookup(t[1]), Lookup(t[2]);
    SextetsOfOctets(p, q, r, 0);
    hide Lookup, AlphabetAt, Sextets, Octets;
    assert Triple(t[..3]) == Octets(p, q, r, 255)[..2];
  }

  lemma QuadOfOne(t: string)
    requires |t| == 4 && (forall i :: 0 <= i < 2 ==> InAlphabet(t[i]) && AlphabetAt(Lookup(t[i])) == t[i])
    requires Lookup(t[1]) % 16 == 0 && t[2] == '=' && t[3] == '='
    ensures Quad(Triple(t[..2])) == t
  {
    var p, q := Lookup(t[0]), Lookup(t[1]);
    SextetsOfOctets(p, q, 0, 0);
    hide Lookup, AlphabetAt, Sextets, Octets;
    assert Triple(t[..2]) == Octets(p, q, 255, 255)[..1];
  }

  lemma FullQuad(t: string)
    requires |t| == 4 && forall i :: 0 <= i < 4 ==> InAlphabet(t[i])
    ensures CanonicalQuad(t) && Clean(t) == t
  {
    AlphabetInverse(0, t[0]);
    AlphabetInverse(0, t[1]);
    AlphabetInverse(0, t[2]);
    AlphabetInverse(0, t[3]);
    hide Clean, Lookup, AlphabetAt;
    CleanIs(t, 4);
  }

  lemma {:induction false} EncodeOfDecode(t: string)
    requires Canonical(t)
    ensures Encode(Decode(t)) == t
    ensures t != "" ==> Decode(t) != []
  {
    hide Quad, Triple, CanonicalQuad;
    if t == "" {
      assert Clean(t) == "" && Triple("") == [];
    } else if |t| == 4 {
      QuadBack(t);
    } else {
      var head, rest := t[..4], t[4..];
      FullQuad(head);
      QuadBack(head);
      CleanAppend(head, rest);
      assert t == head + rest;
      DecodeStep(head, Clean(rest));
      EncodeOfDecode(rest);
      var b, more := Triple(head), Decode(rest);
      assert (b + more)[..3] == b && (b + more)[3..] == more;
      assert rest != "";
    }
  }

  /** Text to bytes to text is the identity exactly on canonical text. */
  lemma RoundTripText(t: string)
    ensures Encode(Decode(t)) == t <==> Canonical(t)
  {
    if Canonical(t) { EncodeOfDecode(t); }
    EncodeIsCanonical(Decode(t));
  }
}
