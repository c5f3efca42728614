/** enc_base64 and dec_base64: a buffer of three bytes, or four characters, carried from one turn to the next. */
module Base64Codec {
  import opened Bytes
  import opened Base64

  /** a3_to_a4, on the two buffers in place. */
  method A3ToA4(a4: array<Byte>, a3: array<Byte>)
    requires a4.Length == 4 && a3.Length == 3 && a4 != a3
    modifies a4
    ensures a4[..] == Sextets(a3[0], a3[1], a3[2])
  {
    a4[0] := a3[0] / 4;
    a4[1] := (a3[0] % 4) * 16 + a3[1] / 16;
    a4[2] := (a3[1] % 16) * 4 + a3[2] / 64;
    a4[3] := a3[2] % 64;
  }

  /** a4_to_a3, likewise. */
  method A4ToA3(a3: array<Byte>, a4: array<Byte>)
    requires a4.Length == 4 && a3.Length == 3 && a4 != a3
    modifies a3
    ensures a3[..] == Octets(a4[0], a4[1], a4[2], a4[3])
  {
    var p: nat, q: nat, r: nat, s: nat := a4[0], a4[1], a4[2], a4[3];
    a3[0] := (p * 4 + (q / 16) % 4) % 256;
    a3[1] := (q % 16) * 16 + (r / 4) % 16;
    a3[2] := ((r % 4) * 64 + s) % 256;
  }

  /** Sextets through the alphabet. */
  function Chars(sextets: seq<Byte>): (t: string)
    requires forall k :: 0 <= k < |sextets| ==> sextets[k] < 64
    ensures |t| == |sextets| && forall k :: 0 <= k < |t| ==> t[k] == AlphabetAt(sextets[k])
  {
    seq(|sextets|, k requires 0 <= k < |sextets| => AlphabetAt(sextets[k]))
  }

  /** The output loops of the encoder: the first `count` sextets through the alphabet. */
  method PutSextets(result: array<char>, encSize: nat, a4: array<Byte>, count: nat) returns (newSize: nat)
    requires a4.Length == 4 && count <= 4 && encSize + count <= result.Length
    requires forall k :: 0 <= k < 4 ==> a4[k] < 64
    modifies result
    ensures newSize == encSize + count
    ensures result[..newSize] == old(result[..encSize]) + Chars(a4[..count])
  {
    hide AlphabetAt;
    newSize := encSize;
    for j := 0 to count
      invariant newSize == encSize + j
      invariant result[..newSize] == old(result[..encSize]) + Chars(a4[..j])
    {
      ghost var before := result[..newSize];
      result[newSize] := AlphabetAt(a4[j]);
      newSize := newSize + 1;
      assert result[..newSize] == before + [AlphabetAt(a4[j])];
      assert Chars(a4[..j + 1]) == Chars(a4[..j]) + [AlphabetAt(a4[j])];
    }
  }

  /** Whole groups, encoded one after the other. */
  lemma {:induction false} EncodeAppend(b: seq<Byte>, group: seq<Byte>)
    requires |b| % 3 == 0 && 0 < |group| <= 3
    ensures Encode(b + group) == Encode(b) + Quad(group)
  {
    hide Quad;
    if b == [] {
      assert b + group == group;
    } else if |b| == 3 {
      assert (b + group)[..3] == b && (b + group)[3..] == group;
    } else {
      assert (b + group)[..3] == b[..3] && (b + group)[3..] == b[3..] + group;
      EncodeAppend(b[3..], group);
    }
  }

  lemma QuadIsChars(b: seq<Byte>, a4: seq<Byte>)
    requires 0 < |b| <= 3 && |a4| == 4 && forall k :: 0 <= k < 4 ==> a4[k] < 64
    requires a4 == Sextets(b[0], if |b| > 1 then b[1] else 0, if |b| > 2 then b[2] else 0)
    ensures Quad(b) == Chars(a4[..|b| + 1]) + seq(3 - |b|, _ => '=')
  {
    hide Sextets, AlphabetAt;
  }

  /** The bytes left over at the end: padded with zeros, written short, and filled up with '='. */
  method PutTail(result: array<char>, encSize: nat, a3: array<Byte>, a4: array<Byte>, count: nat) returns (newSize: nat)
    requires a4.Length == 4 && a3.Length == 3 && a4 != a3 && 0 < count < 3 && encSize + 4 <= result.Length
    modifies result, a3, a4
    ensures newSize == encSize + 4
    ensures result[..newSize] == old(result[..encSize]) + Quad(old(a3[..count]))
  {
    hide Sextets, AlphabetAt, Quad;
    ghost var b, start := a3[..count], result[..encSize];
    var j, i := count, count;
    while j < 3
      invariant result[..encSize] == start
      invariant count <= j <= 3 && a3[..count] == b && forall k :: count <= k < j ==> a3[k] == 0
    {
      a3[j] := 0;
      j := j + 1;
    }
    A3ToA4(a4, a3);
    assert forall k :: 0 <= k < count ==> a3[k] == b[k];
    QuadIsChars(b, a4[..]);
    assert a4[..][..count + 1] == a4[..count + 1];
    newSize := PutSextets(result, encSize, a4, i + 1);
    ghost var head, chars := result[..newSize], Chars(a4[..count + 1]);
    assert Quad(b) == chars + seq(3 - count, _ => '=');
    while i < 3
      invariant count <= i <= 3 && newSize == encSize + 1 + i
      invariant result[..newSize] == head + seq(i - count, _ => '=')
    {
      result[newSize] := '=';
      newSize := newSize + 1;
      i := i + 1;
      assert result[..newSize] == result[..newSize - 1] + ['='];
    }
    assert head + seq(3 - count, _ => '=') == start + (chars + seq(3 - count, _ => '='));
  }

  /** A full group of three bytes. */
  method PutGroup(result: array<char>, encSize: nat, a3: array<Byte>, a4: array<Byte>) returns (newSize: nat)
    requires a4.Length == 4 && a3.Length == 3 && a4 != a3 && encSize + 4 <= result.Length
    modifies result, a4
    ensures newSize == encSize + 4
    ensures result[..newSize] == old(result[..encSize]) + Quad(a3[..])
  {
    hide Sextets, AlphabetAt, Quad;
    A3ToA4(a4, a3);
    QuadIsChars(a3[..], a4[..]);
    assert a4[..][..4] == a4[..4];
    newSize := PutSextets(result, encSize, a4, 4);
  }

  /** Whole groups read, and the characters put out for them. */
  ghost predicate Grouped(base: nat, encSize: nat) {
    base % 3 == 0 && 3 * encSize == 4 * base
  }

  /** Hold one more element back. */
  method Keep<T>(a: array<T>, i: nat, x: T)
    requires i < a.Length
    modifies a
    ensures a[..i + 1] == old(a[..i]) + [x]
  {
    a[i] := x;
  }

  lemma Slice<T>(s: seq<T>, from: nat, to: nat)
    requires from <= to < |s|
    ensures s[from..to + 1] == s[from..to] + [s[to]]
  {
  }

  /** enc_base64. The source's buffer has 2n characters; here it has two more, which BufferSuffices accounts for. */
  method EncBase64(source: seq<Byte>) returns (text: string)
    ensures text == Encode(source)
  {
    hide Encode, Sextets, AlphabetAt, Quad;
    var i: nat, encSize: nat := 0, 0;
    var a3, a4 := new Byte[3](_ => 0), new Byte[4](_ => 0);
    var result := new char[2 * |source| + 2](_ => 'A');
    EncodeNothing();
    assert source[..0] == [];
    ghost var base := 0;
    for n := 0 to |source|
      invariant base + i == n && i < 3 && Grouped(base, encSize)
      invariant a3[..i] == source[base..n]
      invariant result[..encSize] == Encode(source[..base])
    {
      Slice(source, base, n);
      Keep(a3, i, source[n]);
      i := i + 1;
      if i == 3 {
        assert a3[..] == a3[..3];
        encSize := PutGroup(result, encSize, a3, a4);
        GroupStep(source, base);
        i := 0;
        base := base + 3;
      }
    }
    assert source[base..|source|] == source[base..];
    if i == 0 {
      assert source[..base] == source;
    } else {
      TailStep(source, base);
      encSize := PutTail(result, encSize, a3, a4, i);
    }
    text := result[..encSize];
  }

  lemma TailStep(source: seq<Byte>, k: nat)
    requires k % 3 == 0 && k < |source| <= k + 3
    ensures Encode(source) == Encode(source[..k]) + Quad(source[k..])
  {
    hide Quad, Encode;
    EncodeAppend(source[..k], source[k..]);
    assert source[..k] + source[k..] == source;
  }

  lemma GroupStep(source: seq<Byte>, k: nat)
    requires k % 3 == 0 && k + 3 <= |source|
    ensures Encode(source[..k + 3]) == Encode(source[..k]) + Quad(source[k..k + 3])
  {
    hide Quad, Encode;
    EncodeAppend(source[..k], source[k..k + 3]);
    assert source[..k] + source[k..k + 3] == source[..k + 3];
  }

  lemma EncodeNothing()
    ensures Encode([]) == ""
  {
  }

  // ---------------------------------------------------------------- decoder

  lemma {:induction false} DecodeAppend(t: string, group: string)
    requires |t| % 4 == 0 && 0 < |group| <= 4
    ensures DecodeClean(t + group) == DecodeClean(t) + Triple(group)
  {
    hide Triple;
    if t == "" {
      assert t + group == group;
      TripleOfNothing();
    } else if |t| == 4 {
      assert (t + group)[..4] == t && (t + group)[4..] == group;
    } else {
      assert (t + group)[..4] == t[..4] && (t + group)[4..] == t[4..] + group;
      DecodeAppend(t[4..], group);
    }
  }

  lemma TripleOfNothing()
    ensures Triple("") == []
  {
  }

  lemma TripleIs(t: string, a4: seq<Byte>)
    requires 0 < |t| <= 4 && |a4| == 4
    requires forall k :: 0 <= k < 4 ==> a4[k] == if k < |t| then Lookup(t[k]) else 255
    ensures Triple(t) == Octets(a4[0], a4[1], a4[2], a4[3])[..|t| - 1]
  {
    hide Lookup, Octets;
  }

  /** Characters held back: looked up in place, those missing read as '\0', and all but the last byte put out. */
  method PutBytes(result: array<Byte>, decLen: nat, held: array<char>, a3: array<Byte>, count: nat)
      returns (newLen: nat)
    requires held.Length == 4 && a3.Length == 3 && a3 != result && 0 < count <= 4
    requires decLen + count - 1 <= result.Length
    modifies result, a3
    ensures newLen == decLen + count - 1
    ensures result[..newLen] == old(result[..decLen]) + Triple(held[..count])
  {
    hide Lookup, Octets, Triple;
    ghost var start := result[..decLen];
    var a4 := new Byte[4](_ => 255);
    assert Lookup(0 as char) == 255 by { MissingCharacter(); }
    for j := 0 to 4
      invariant result[..decLen] == start
      invariant forall k :: 0 <= k < j ==> a4[k] == if k < count then Lookup(held[k]) else 255
    {
      a4[j] := if j < count then Lookup(held[j]) else Lookup(0 as char);
    }
    TripleIs(held[..count], a4[..]);
    A4ToA3(a3, a4);
    ghost var octets := a3[..];
    newLen := decLen;
    for j := 0 to count - 1
      invariant newLen == decLen + j && a3[..] == octets
      invariant result[..newLen] == start + octets[..j]
    {
      result[newLen] := a3[j];
      newLen := newLen + 1;
      assert result[..newLen] == result[..newLen - 1] + [octets[j]];
      assert octets[..j + 1] == octets[..j] + [octets[j]];
    }
  }

  lemma MissingCharacter()
    ensures Lookup(0 as char) == 255
  {
  }

  lemma DecodeGroup(c: string, k: nat)
    requires k % 4 == 0 && k + 4 <= |c|
    ensures DecodeClean(c[..k + 4]) == DecodeClean(c[..k]) + Triple(c[k..k + 4])
  {
    hide Triple, DecodeClean;
    DecodeAppend(c[..k], c[k..k + 4]);
    assert c[..k] + c[k..k + 4] == c[..k + 4];
  }

  lemma DecodeTail(c: string, k: nat)
    requires k % 4 == 0 && k < |c| <= k + 4
    ensures DecodeClean(c) == DecodeClean(c[..k]) + Triple(c[k..])
  {
    hide Triple, DecodeClean;
    DecodeAppend(c[..k], c[k..]);
    assert c[..k] + c[k..] == c;
  }

  /** Whole groups read, and the bytes put out for them. */
  ghost predicate Whole(base: nat, decLen: nat) {
    base % 4 == 0 && 4 * decLen == 3 * base
  }

  /** dec_base64: characters up to the first '=', four at a time. */
  method DecBase64(text: string) returns (bytes: seq<Byte>)
    ensures bytes == Decode(text)
  {
    hide DecodeClean, Triple, Clean, Lookup, Octets;
    var i: nat, decLen: nat := 0, 0;
    var a3, a4 := new Byte[3](_ => 0), new char[4](_ => 'A');
    var result := new Byte[|text|](_ => 0);
    ghost var c, base := Clean(text), 0;
    assert DecodeClean(c[..0]) == [] by { DecodeNothing(); }
    var it := 0;
    while it < |text|
      invariant it <= |c| && base + i == it && i < 4 && Whole(base, decLen)
      invariant a4[..i] == c[base..it]
      invariant result[..decLen] == DecodeClean(c[..base])
    {
      if text[it] == '=' {
        break;
      }
      Slice(c, base, it);
      Keep(a4, i, text[it]);
      i, it := i + 1, it + 1;
      if i == 4 {
        assert a4[..4] == c[base..base + 4];
        decLen := PutBytes(result, decLen, a4, a3, 4);
        DecodeGroup(c, base);
        i := 0;
        base := base + 4;
      }
    }
    assert c[..|c|] == c && c[base..it] == c[base..];
    if i != 0 {
      DecodeTail(c, base);
      decLen := PutBytes(result, decLen, a4, a3, i);
    }
    bytes := result[..decLen];
  }

  lemma DecodeNothing()
    ensures DecodeClean("") == []
  {
  }
}
