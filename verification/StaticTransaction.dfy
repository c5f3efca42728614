/**
 * The compile-time transaction: packed members filled one by one, whose bytes in memory are the transaction. Its
 * counts are template arguments, which the compiler holds to the width of the fields they go into.
 */
module StaticTransaction {
  import opened Bytes
  import opened CompactArrays
  import opened Transaction

  /** Counts that the fields of the static transaction can hold. */
  ghost predicate Compiles(r: Request) {
    && |Signers(r)| < 256 && |r.readOnly| < 256 && |Accounts(r)| < 0x10000 && |r.instructions| < 0x10000
    && forall k :: 0 <= k < |r.instructions| ==>
         |r.instructions[k].accountIndices| < 0x10000 && |r.instructions[k].data| < 0x10000
  }

  lemma {:induction false} InstructionsAppend(a: seq<Instruction>, b: seq<Instruction>)
    ensures AllInstructions(a + b) == AllInstructions(a) + AllInstructions(b)
  {
    if a == [] {
      assert a + b == b;
    } else {
      assert (a + b)[1..] == a[1..] + b;
      InstructionsAppend(a[1..], b);
    }
  }

  lemma NextInstruction(instructions: seq<Instruction>, k: nat)
    requires k < |instructions|
    ensures AllInstructions(instructions[..k + 1]) == AllInstructions(instructions[..k]) + InstructionBytes(instructions[k])
  {
    assert instructions[..k + 1] == instructions[..k] + [instructions[k]];
    InstructionsAppend(instructions[..k], [instructions[k]]);
    assert [instructions[k]][1..] == [];
  }

  /** The instruction array: each instruction's bytes copied behind the last. */
  method InstructionArray(instructions: seq<Instruction>) returns (data: seq<Byte>)
    requires forall k :: 0 <= k < |instructions| ==>
               |instructions[k].accountIndices| < 0x10000 && |instructions[k].data| < 0x10000
    ensures data == AllInstructions(instructions)
  {
    hide AllInstructions, InstructionBytes;
    data := [];
    assert AllInstructions(instructions[..0]) == [] by { NoInstructions(); }
    for k := 0 to |instructions|
      invariant data == AllInstructions(instructions[..k])
    {
      NextInstruction(instructions, k);
      var bytes := StaticInstruction(instructions[k]);
      data := data + bytes;
    }
    assert instructions[..|instructions|] == instructions;
  }

  lemma NoInstructions()
    ensures AllInstructions([]) == []
  {
  }

  /** The transaction's members. */
  class StaticTransaction {
    const signaturesLength: array<Byte>
    const signatures: array<Signature>
    const messageHeader: seq<Byte>
    const accountsLength: array<Byte>
    const accounts: array<Hash>
    const recentBlockhash: Hash
    const instructionsLength: array<Byte>
    var instructions: seq<Byte>

    /** The members from the header on, as they lie in memory: what is signed. */
    function MessageBytes(): seq<Byte>
      reads this, accountsLength, accounts, instructionsLength
    {
      messageHeader + (accountsLength[..] + Concat(accounts[..])) + recentBlockhash
      + (instructionsLength[..] + instructions)
    }

    /** The whole object. */
    function Contents(): seq<Byte>
      reads this, signaturesLength, signatures, accountsLength, accounts, instructionsLength
    {
      signaturesLength[..] + Concat(signatures[..]) + MessageBytes()
    }

    /** Fill the account table by role, copy blockhash and instructions, then sign the bytes behind the signatures. */
    constructor (r: Request, sign: Signer)
      requires Compiles(r)
      ensures Contents() == Packed(r, sign) && MessageBytes() == MessageOf(r)
    {
      var noSignature: Signature := seq(SIGNATURE_SIZE, _ => 0);
      var noHash: Hash := seq(HASH_SIZE, _ => 0);
      var signers, n := |Signers(r)|, |Accounts(r)|;
      var length0, length1, length2 := Lengths(signers, n, |r.instructions|);
      var data := InstructionArray(r.instructions);
      signaturesLength, accountsLength, instructionsLength := length0, length1, length2;
      signatures, accounts := new Signature[signers](_ => noSignature), new Hash[n](_ => noHash);
      messageHeader := [signers, |r.signingReadOnly|, |r.readOnly|];
      recentBlockhash, instructions := r.recentBlockhash, data;
      new;
      HeaderIs(r);
      hide Concat, CompactU16, AllInstructions, Accounts, Signers, Header, MessageOf, SignAll;
      FillAccounts(accounts, r);
      MessageIs(r);
      var message := MessageBytes();
      SignInto(signatures, r, message, sign);
      assert Signatures(r, sign) == signatures[..];
    }
  }

  lemma HeaderIs(r: Request)
    requires Compiles(r)
    ensures [|Signers(r)|, |r.signingReadOnly|, |r.readOnly|] == Header(r)
  {
  }

  lemma MessageIs(r: Request)
    ensures MessageOf(r) == Header(r) + (CompactU16(|Accounts(r)|) + Concat(Accounts(r))) + r.recentBlockhash
                            + (CompactU16(|r.instructions|) + AllInstructions(r.instructions))
  {
  }

  /** The three length members. */
  method Lengths(signers: nat, accounts: nat, instructions: nat)
      returns (length0: array<Byte>, length1: array<Byte>, length2: array<Byte>)
    requires signers < 0x10000 && accounts < 0x10000 && instructions < 0x10000
    ensures fresh(length0) && fresh(length1) && fresh(length2)
    ensures length0[..] == CompactU16(signers) && length1[..] == CompactU16(accounts)
    ensures length2[..] == CompactU16(instructions)
  {
    length0 := CompactU16Array(signers);
    length1 := CompactU16Array(accounts);
    length2 := CompactU16Array(instructions);
  }

  /** The account array's four loops. */
  method FillAccounts(accounts: array<Hash>, r: Request)
    requires accounts.Length == |Accounts(r)|
    modifies accounts
    ensures accounts[..] == Accounts(r)
  {
    var it := Fill(accounts, 0, PublicKeys(r.signingWritable));
    it := Fill(accounts, it, PublicKeys(r.signingReadOnly));
    it := Fill(accounts, it, r.writable);
    it := Fill(accounts, it, r.readOnly);
    assert accounts[..it] == accounts[..];
  }

  /** sign: first the writable signers' signatures, then the read-only ones'. */
  method SignInto(signatures: array<Signature>, r: Request, message: seq<Byte>, sign: Signer)
    requires signatures.Length == |Signers(r)|
    modifies signatures
    ensures signatures[..] == SignAll(Signers(r), message, sign)
  {
    var it := 0;
    for k := 0 to |r.signingWritable|
      invariant it == k && forall j :: 0 <= j < it ==> signatures[j] == sign(Signers(r)[j], message)
    {
      signatures[it] := sign(r.signingWritable[k], message);
      it := it + 1;
    }
    for k := 0 to |r.signingReadOnly|
      invariant it == |r.signingWritable| + k
      invariant forall j :: 0 <= j < it ==> signatures[j] == sign(Signers(r)[j], message)
    {
      signatures[it] := sign(r.signingReadOnly[k], message);
      it := it + 1;
    }
  }
}
