/**
 * Compact arrays and instructions, src/synthfi/Solana/Transaction.hpp, in their static form, members of a packed
 * object, and in their dynamic form, a vector of bytes.
 */
module CompactArrays {
  import opened Bytes
  import opened Transaction

  /** compact_u16: an array of one or of two bytes, chosen at compile time. */
  method CompactU16Array(value: nat) returns (length: array<Byte>)
    requires value < 0x10000
    ensures fresh(length) && length[..] == CompactU16(value)
  {
    if value < 0x80 {
      length := new Byte[1];
      length[0] := value;
    } else {
      length := new Byte[2];
      length[0] := 0x80 + value % 0x80;
      length[1] := (value / 0x80) % 0x80;
    }
  }

  /** dynamic_compact_u16: the same as a vector. */
  method DynamicCompactU16(value: nat) returns (bytes: seq<Byte>)
    requires value < 0x10000
    ensures bytes == CompactU16(value)
  {
    if value < 0x80 {
      return [value];
    }
    bytes := [0x80 + value % 0x80, (value / 0x80) % 0x80];
  }

  /** Two lengths below 2^14 whose encodings begin two texts alike are the same length. */
  lemma CompactPrefixFree(a: nat, b: nat, rest: seq<Byte>, other: seq<Byte>)
    requires a < 0x4000 && b < 0x4000 && CompactU16(a) + rest == CompactU16(b) + other
    ensures a == b && rest == other
  {
    CompactRoundTrip(a, rest);
    CompactRoundTrip(b, other);
  }

  /** Copies `items` into the array from `it` on and touches nothing else. */
  method Fill<T>(a: array<T>, it: nat, items: seq<T>) returns (end: nat)
    requires it + |items| <= a.Length
    modifies a
    ensures end == it + |items|
    ensures a[..end] == old(a[..it]) + items && a[end..] == old(a[end..])
  {
    ghost var head := a[..it];
    end := it;
    for k := 0 to |items|
      invariant end == it + k && a[..end] == head + items[..k]
      invariant a[it + |items|..] == old(a[it + |items|..])
    {
      a[end] := items[k];
      end := end + 1;
      assert a[..end] == a[..end - 1] + [items[k]];
    }
    assert items[..|items|] == items;
  }

  /** A compact array of bytes as one vector: the length, then the elements. */
  method DynamicCompactArray(elements: seq<Byte>) returns (data: array<Byte>)
    requires |elements| < 0x10000
    ensures fresh(data) && data[..] == CompactU16(|elements|) + elements
  {
    data := new Byte[SizeofCompactU16(|elements|) + |elements|](_ => 0);
    var encodedLength := DynamicCompactU16(|elements|);
    var it := Fill(data, 0, encodedLength);
    it := Fill(data, it, elements);
    assert data[..it] == data[..];
  }

  /** A dynamic instruction: its program, the vector of its account indices, and its data. */
  method DynamicInstruction(i: Instruction) returns (data: array<Byte>)
    requires |i.accountIndices| < 0x10000 && |i.data| < 0x10000
    ensures fresh(data) && data[..] == InstructionBytes(i)
  {
    hide CompactU16;
    var accountIndices := DynamicCompactArray(i.accountIndices);
    var size := CompactU16Array(|i.data|);
    data := new Byte[1 + accountIndices.Length + size.Length + |i.data|](_ => 0);
    data[0] := i.programId;
    var it := Fill(data, 1, accountIndices[..]);
    it := Fill(data, it, size[..]);
    it := Fill(data, it, i.data);
    assert data[..it] == data[..];
  }

  /** A static instruction's members, in order. */
  method StaticInstruction(i: Instruction) returns (bytes: seq<Byte>)
    requires |i.accountIndices| < 0x10000 && |i.data| < 0x10000
    ensures bytes == InstructionBytes(i)
  {
    var indicesLength := CompactU16Array(|i.accountIndices|);
    var indices := new Byte[|i.accountIndices|](_ => 0);
    var end := Fill(indices, 0, i.accountIndices);
    var dataLength := CompactU16Array(|i.data|);
    var data := new Byte[|i.data|](_ => 0);
    end := Fill(data, 0, i.data);
    assert indices[..] == indices[..|i.accountIndices|] && data[..] == data[..end];
    bytes := [i.programId] + indicesLength[..] + indices[..] + dataLength[..] + data[..];
  }
}
