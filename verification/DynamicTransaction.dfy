/** The run-time transaction: a 1232-byte buffer written front to back, then signed in place. */
module DynamicTransaction {
  import opened Bytes
  import opened Transaction

  /** Between two states of a buffer, exactly [it, end) was written, with `bytes`. */
  ghost predicate Wrote(was: seq<Byte>, now: seq<Byte>, it: nat, end: nat, bytes: seq<Byte>) {
    && |was| == |now| && end == it + |bytes| <= |was|
    && now[..it] == was[..it] && now[it..end] == bytes && now[end..] == was[end..]
  }

  /** Consecutive writes are one write. */
  lemma Then(was: seq<Byte>, mid: seq<Byte>, now: seq<Byte>, it: nat, k: nat, end: nat, b: seq<Byte>, c: seq<Byte>)
    requires Wrote(was, mid, it, k, b) && Wrote(mid, now, k, end, c)
    ensures Wrote(was, now, it, end, b + c)
  {
    assert now[..it] == now[..k][..it] && mid[..it] == mid[..k][..it];
    assert now[it..k] == now[..k][it..] && mid[it..k] == mid[..k][it..];
    assert now[it..end] == now[it..k] + now[k..end];
    assert mid[end..] == mid[k..][end - k..] && was[end..] == was[k..][end - k..];
  }

  /** Copies `bytes` into the buffer at `it` and touches nothing else. */
  method WriteAt(a: array<Byte>, it: nat, bytes: seq<Byte>) returns (end: nat)
    requires it + |bytes| <= a.Length
    modifies a
    ensures Wrote(old(a[..]), a[..], it, end, bytes)
  {
    for k := 0 to |bytes|
      invariant forall j :: 0 <= j < k ==> a[it + j] == bytes[j]
      invariant forall j :: 0 <= j < it || it + k <= j < a.Length ==> a[j] == old(a[j])
    {
      a[it + k] := bytes[k];
    }
    end := it + |bytes|;
  }

  /** encode_compact_u16: one or two bytes at the output position. */
  method EncodeCompactU16(a: array<Byte>, start: nat, value: nat) returns (it: nat)
    requires start + SizeofCompactU16(value) <= a.Length
    modifies a
    ensures Wrote(old(a[..]), a[..], start, it, CompactU16(value))
  {
    var v := value % 0x10000;
    it := start;
    if v < 0x80 {
      a[it] := v;
      it := it + 1;
    } else {
      a[it] := 0x80 + v % 0x80;
      it := it + 1;
      a[it] := (v / 0x80) % 0x80;
      it := it + 1;
    }
  }

  lemma {:induction false} ConcatAppend(a: seq<seq<Byte>>, b: seq<seq<Byte>>)
    ensures Concat(a + b) == Concat(a) + Concat(b)
  {
    if a == [] {
      assert a + b == b;
    } else {
      assert (a + b)[1..] == a[1..] + b;
      ConcatAppend(a[1..], b);
    }
  }

  lemma ConcatOne(part: seq<Byte>)
    ensures Concat([part]) == part
  {
    assert Concat([part]) == part + Concat([]);
  }

  lemma ConcatNext(parts: seq<seq<Byte>>, k: nat)
    requires k < |parts|
    ensures Concat(parts[..k + 1]) == Concat(parts[..k]) + parts[k]
    ensures |Concat(parts[..k + 1])| <= |Concat(parts)|
  {
    assert parts[..k + 1] == parts[..k] + [parts[k]];
    ConcatAppend(parts[..k], [parts[k]]);
    assert parts == parts[..k + 1] + parts[k + 1..];
    ConcatAppend(parts[..k + 1], parts[k + 1..]);
    ConcatOne(parts[k]);
  }

  /** Consecutive fields, one after the other. */
  method WriteAll(a: array<Byte>, start: nat, parts: seq<seq<Byte>>) returns (it: nat)
    requires start + |Concat(parts)| <= a.Length
    modifies a
    ensures Wrote(old(a[..]), a[..], start, it, Concat(parts))
  {
    hide Concat;
    it := start;
    ConcatNothing();
    assert parts[..0] == [];
    for k := 0 to |parts|
      invariant it == start + |Concat(parts[..k])| <= a.Length
      invariant Wrote(old(a[..]), a[..], start, it, Concat(parts[..k]))
    {
      ConcatNext(parts, k);
      ghost var mid, before := a[..], it;
      it := WriteAt(a, it, parts[k]);
      Then(old(a[..]), mid, a[..], start, before, it, Concat(parts[..k]), parts[k]);
    }
    assert parts[..|parts|] == parts;
  }

  lemma ConcatNothing()
    ensures Concat([]) == []
  {
  }

  /** The dynamic instruction: its own byte vector, copied whole into the transaction. */
  function InstructionVectors(instructions: seq<Instruction>): (v: seq<seq<Byte>>)
    ensures |v| == |instructions|
    ensures forall k :: 0 <= k < |v| ==> v[k] == InstructionBytes(instructions[k])
  {
    seq(|instructions|, k requires 0 <= k < |instructions| => InstructionBytes(instructions[k]))
  }

  lemma {:induction false} VectorsConcat(instructions: seq<Instruction>)
    ensures Concat(InstructionVectors(instructions)) == AllInstructions(instructions)
  {
    if instructions != [] {
      assert InstructionVectors(instructions)[1..] == InstructionVectors(instructions[1..]);
      VectorsConcat(instructions[1..]);
    }
  }

  lemma AccountsConcat(r: Request)
    ensures Concat(Accounts(r)) == Concat(PublicKeys(r.signingWritable)) + Concat(PublicKeys(r.signingReadOnly))
                                   + Concat(r.writable) + Concat(r.readOnly)
  {
    var a, b := PublicKeys(r.signingWritable), PublicKeys(r.signingReadOnly);
    ConcatAppend(a, b);
    ConcatAppend(a + b, r.writable);
    ConcatAppend(a + b + r.writable, r.readOnly);
  }

  /** The account table: a length, then the four roles in turn. */
  method WriteAccounts(a: array<Byte>, start: nat, r: Request) returns (it: nat)
    requires start + |CompactU16(|Accounts(r)|)| + |Concat(Accounts(r))| <= a.Length
    modifies a
    ensures Wrote(old(a[..]), a[..], start, it, CompactU16(|Accounts(r)|) + Concat(Accounts(r)))
  {
    AccountsConcat(r);
    ghost var a1, a2 := Concat(PublicKeys(r.signingWritable)), Concat(PublicKeys(r.signingReadOnly));
    ghost var a3, a4, size := Concat(r.writable), Concat(r.readOnly), CompactU16(|Accounts(r)|);
    assert Concat(Accounts(r)) == a1 + a2 + a3 + a4;
    hide Concat, CompactU16, PublicKeys, Wrote, Accounts;
    ghost var s0 := a[..];
    it := EncodeCompactU16(a, start, |Accounts(r)|);
    WroteEnd(s0, a[..], start, it, size);
    ghost var s1, i1 := a[..], it;
    it := WriteAll(a, it, PublicKeys(r.signingWritable));
    WroteEnd(s1, a[..], i1, it, a1);
    ghost var s2, i2 := a[..], it;
    it := WriteAll(a, it, PublicKeys(r.signingReadOnly));
    WroteEnd(s2, a[..], i2, it, a2);
    ghost var s3, i3 := a[..], it;
    it := WriteAll(a, it, r.writable);
    WroteEnd(s3, a[..], i3, it, a3);
    ghost var s4, i4 := a[..], it;
    it := WriteAll(a, it, r.readOnly);
    Then(s1, s2, s3, i1, i2, i3, a1, a2);
    Then(s1, s3, s4, i1, i3, i4, a1 + a2, a3);
    Then(s1, s4, a[..], i1, i4, it, a1 + a2 + a3, a4);
    Then(s0, s1, a[..], start, i1, it, size, a1 + a2 + a3 + a4);
  }

  lemma WroteStretch(was: seq<Byte>, now: seq<Byte>, it: nat, end: nat, bytes: seq<Byte>)
    requires Wrote(was, now, it, end, bytes)
    ensures it <= end <= |now| && now[it..end] == bytes
  {
  }

  lemma WroteEnd(was: seq<Byte>, now: seq<Byte>, it: nat, end: nat, bytes: seq<Byte>)
    requires Wrote(was, now, it, end, bytes)
    ensures end == it + |bytes|
  {
  }

  /** The message, from the header on: the source's sequence of writes through one iterator. */
  method WriteMessage(a: array<Byte>, messageBegin: nat, r: Request) returns (it: nat)
    requires messageBegin + |MessageOf(r)| <= a.Length
    modifies a
    ensures Wrote(old(a[..]), a[..], messageBegin, it, MessageOf(r))
  {
    VectorsConcat(r.instructions);
    ghost var accounts, hash := CompactU16(|Accounts(r)|) + Concat(Accounts(r)), r.recentBlockhash;
    ghost var count, all := CompactU16(|r.instructions|), AllInstructions(r.instructions);
    assert MessageOf(r) == Header(r) + accounts + hash + (count + all);
    hide Concat, AllInstructions, CompactU16, Accounts, Wrote, Header;
    ghost var s0 := a[..];
    it := WriteAt(a, messageBegin, Header(r));
    WroteEnd(s0, a[..], messageBegin, it, Header(r));
    ghost var s1, i1 := a[..], it;
    it := WriteAccounts(a, it, r);
    WroteEnd(s1, a[..], i1, it, accounts);
    ghost var s2, i2 := a[..], it;
    it := WriteAt(a, it, r.recentBlockhash);
    WroteEnd(s2, a[..], i2, it, hash);
    ghost var s3, i3 := a[..], it;
    it := EncodeCompactU16(a, it, |r.instructions|);
    WroteEnd(s3, a[..], i3, it, count);
    ghost var s4, i4 := a[..], it;
    it := WriteAll(a, it, InstructionVectors(r.instructions));
    Then(s3, s4, a[..], i3, i4, it, count, all);
    Then(s0, s1, s2, messageBegin, i1, i2, Header(r), accounts);
    Then(s0, s2, s3, messageBegin, i2, i3, Header(r) + accounts, hash);
    Then(s0, s3, a[..], messageBegin, i3, it, Header(r) + accounts + hash, count + all);
  }

  /** The transaction object: its buffer, how much of it is used, and where the signed message begins. */
  class DynamicTransaction {
    const data: array<Byte>
    var messageBegin: nat
    var length: nat

    /** Reserve the signatures, write the message, then sign it into the reserved place. */
    constructor (r: Request, sign: Signer)
      requires |Packed(r, sign)| <= 1232
      ensures fresh(data) && data.Length == 1232 && messageBegin <= length <= data.Length
      ensures data[..length] == Packed(r, sign)
      ensures data[messageBegin..length] == MessageOf(r)
    {
      data := new Byte[MAX_TRANSACTION_SIZE];
      messageBegin, length := 0, 0;
      new;
      ghost var count, signatures, message := CompactU16(|Signers(r)|), Concat(Signatures(r, sign)), MessageOf(r);
      ConcatLength(Signatures(r, sign), SIGNATURE_SIZE);
      assert Packed(r, sign) == count + signatures + message;
      hide Concat, MessageOf, CompactU16, Signers, Wrote;
      var signatureLength := |Signers(r)|;
      ghost var s0 := data[..];
      var it := EncodeCompactU16(data, 0, signatureLength);
      WroteEnd(s0, data[..], 0, it, count);
      messageBegin := it + signatureLength * SIGNATURE_SIZE;
      ghost var s1 := data[..];
      length := WriteMessage(data, messageBegin, r);
      ghost var s2 := data[..];
      WroteStretch(s1, s2, messageBegin, length, message);
      var end := SignMessage(data, it, Signers(r), data[messageBegin..length], sign);
      WroteEnd(s2, data[..], it, end, signatures);
      Assembled(s0, s1, s2, data[..], it, messageBegin, length, count, signatures, message);
    }
  }

  /** A count, then the message past a gap, then signatures that fill the gap. */
  lemma Assembled(s0: seq<Byte>, s1: seq<Byte>, s2: seq<Byte>, now: seq<Byte>, it: nat, begin: nat, end: nat,
      count: seq<Byte>, signatures: seq<Byte>, message: seq<Byte>)
    requires Wrote(s0, s1, 0, it, count) && Wrote(s1, s2, begin, end, message) && Wrote(s2, now, it, begin, signatures)
    ensures end <= |now| && now[..end] == count + signatures + message && now[begin..end] == message
  {
    assert now[..it] == s2[..it] == s2[..begin][..it] == s1[..begin][..it] == s1[..it] == count;
    assert now[begin..end] == now[begin..][..end - begin] && s2[begin..end] == s2[begin..][..end - begin];
    assert now[..end] == now[..it] + now[it..begin] + now[begin..end];
  }

  /** sign_message: each signer's signature of the message, in the signers' order. */
  method SignMessage(a: array<Byte>, start: nat, signers: seq<KeyPair>, message: seq<Byte>, sign: Signer)
      returns (end: nat)
    requires start + |Concat(SignAll(signers, message, sign))| <= a.Length
    modifies a
    ensures Wrote(old(a[..]), a[..], start, end, Concat(SignAll(signers, message, sign)))
  {
    end := WriteAll(a, start, SignAll(signers, message, sign));
  }
}
