/**
 * The wire format of a Solana transaction, src/synthfi/Solana/Transaction.hpp, which StaticTransaction lays out as the
 * members of an object and DynamicTransaction writes into a fixed buffer.
 */
module Transaction {
  import opened Bytes
  import opened Trading

  const MAX_TRANSACTION_SIZE := 1232
  const HASH_SIZE := 32
  const SIGNATURE_SIZE := 64

  type Hash = h: seq<Byte> | |h| == HASH_SIZE witness seq(32, _ => 0)
  type Signature = s: seq<Byte> | |s| == SIGNATURE_SIZE witness seq(64, _ => 0)

  datatype KeyPair = KeyPair(publicKey: Hash, privateKey: Hash)

  datatype Instruction = Instruction(programId: Byte, accountIndices: seq<Byte>, data: seq<Byte>)

  datatype Request = Request(
    recentBlockhash: Hash,
    signingWritable: seq<KeyPair>,
    signingReadOnly: seq<KeyPair>,
    writable: seq<Hash>,
    readOnly: seq<Hash>,
    instructions: seq<Instruction>)

  /** Ed25519 signing is not part of this model: any function of key and message will do. */
  type Signer = (KeyPair, seq<Byte>) -> Signature

  // ---------------------------------------------------------------- compact lengths

  /** A compact length: one byte below 0x80, else two; no third byte. */
  function CompactU16(value: nat): (bytes: seq<Byte>)
    ensures |bytes| == SizeofCompactU16(value)
  {
    var v := value % 0x10000;
    if v < 0x80 then [v] else [0x80 + v % 0x80, (v / 0x80) % 0x80]
  }

  function SizeofCompactU16(value: nat): nat {
    if value % 0x10000 < 0x80 then 1 else 2
  }

  /** The reading of a one- or two-byte length, and what follows it. */
  function ReadCompact(s: seq<Byte>): (r: Option<(nat, seq<Byte>)>) {
    if s == [] then None
    else if s[0] < 0x80 then Some((s[0], s[1..]))
    else if |s| < 2 then None
    else
      var low: nat, high: nat := s[0] - 0x80, s[1];
      Some((low + 0x80 * high, s[2..]))
  }

  /** A 16-bit length reads back, whatever follows it, exactly when it is below 2^14. */
  lemma CompactRoundTrip(value: nat, rest: seq<Byte>)
    requires value < 0x10000
    ensures ReadCompact(CompactU16(value) + rest) == Some((value, rest)) <==> value < 0x4000
  {
    if value < 0x80 {
      assert CompactU16(value) == [value];
      assert ([value] + rest)[1..] == rest;
    } else {
      var low, high := 0x80 + value % 0x80, (value / 0x80) % 0x80;
      assert CompactU16(value) == [low, high];
      SevenBits(value);
      hide CompactU16;
      assert ([low, high] + rest)[2..] == rest;
    }
  }

  lemma SevenBits(value: nat)
    requires value < 0x10000
    ensures value % 0x80 + 0x80 * ((value / 0x80) % 0x80) == value <==> value < 0x4000
  {
  }

  // ---------------------------------------------------------------- the packed layout

  function Concat(parts: seq<seq<Byte>>): seq<Byte> {
    if parts == [] then [] else parts[0] + Concat(parts[1..])
  }

  function PublicKeys(pairs: seq<KeyPair>): (keys: seq<Hash>)
    ensures |keys| == |pairs|
  {
    seq(|pairs|, i requires 0 <= i < |pairs| => pairs[i].publicKey)
  }

  /** The account table, by role: signing writable, signing read-only, writable, read-only. */
  function Accounts(r: Request): seq<Hash> {
    PublicKeys(r.signingWritable) + PublicKeys(r.signingReadOnly) + r.writable + r.readOnly
  }

  function Signers(r: Request): seq<KeyPair> {
    r.signingWritable + r.signingReadOnly
  }

  /** Required signatures, read-only among them, read-only without signature, each cut to a byte. */
  function Header(r: Request): (h: seq<Byte>)
    ensures |h| == 3
  {
    [(|r.signingWritable| + |r.signingReadOnly|) % 256, |r.signingReadOnly| % 256, |r.readOnly| % 256]
  }

  function InstructionBytes(i: Instruction): seq<Byte> {
    [i.programId] + CompactU16(|i.accountIndices|) + i.accountIndices + CompactU16(|i.data|) + i.data
  }

  function AllInstructions(instructions: seq<Instruction>): seq<Byte> {
    if instructions == [] then [] else InstructionBytes(instructions[0]) + AllInstructions(instructions[1..])
  }

  /** Everything after the signatures: what is signed. */
  function MessageOf(r: Request): seq<Byte> {
    Header(r)
    + (CompactU16(|Accounts(r)|) + Concat(Accounts(r)))
    + r.recentBlockhash
    + (CompactU16(|r.instructions|) + AllInstructions(r.instructions))
  }

  /** One signature of the message per signer, in order. */
  function SignAll(signers: seq<KeyPair>, message: seq<Byte>, sign: Signer): (s: seq<seq<Byte>>)
    ensures |s| == |signers|
    ensures forall i :: 0 <= i < |s| ==> s[i] == sign(signers[i], message) && |s[i]| == SIGNATURE_SIZE
  {
    seq(|signers|, i requires 0 <= i < |signers| => sign(signers[i], message))
  }

  function Signatures(r: Request, sign: Signer): seq<seq<Byte>> {
    SignAll(Signers(r), MessageOf(r), sign)
  }

  /** The bytes of a transaction. */
  function Packed(r: Request, sign: Signer): seq<Byte> {
    CompactU16(|Signers(r)|) + Concat(Signatures(r, sign)) + MessageOf(r)
  }

  // ---------------------------------------------------------------- reading it back

  /** `count` fields of `size` bytes. */
  function ReadFields(count: nat, size: nat, s: seq<Byte>): (r: Option<(seq<seq<Byte>>, seq<Byte>)>)
    ensures r.Some? ==> |r.value.0| == count
    decreases count
  {
    if count == 0 then Some(([], s))
    else if |s| < size then None
    else match ReadFields(count - 1, size, s[size..])
      case None => None
      case Some((fields, rest)) => Some(([s[..size]] + fields, rest))
  }

  /** A length and that many bytes. */
  function ReadBytes(s: seq<Byte>): Option<(seq<Byte>, seq<Byte>)> {
    match ReadCompact(s)
    case None => None
    case Some((n, rest)) => if |rest| < n then None else Some((rest[..n], rest[n..]))
  }

  function ReadInstruction(s: seq<Byte>): Option<(Instruction, seq<Byte>)> {
    if s == [] then None else
      match ReadBytes(s[1..])
      case None => None
      case Some((indices, rest)) =>
        match ReadBytes(rest)
        case None => None
        case Some((data, rest')) => Some((Instruction(s[0], indices, data), rest'))
  }

  function ReadInstructions(count: nat, s: seq<Byte>): Option<(seq<Instruction>, seq<Byte>)>
    decreases count
  {
    if count == 0 then Some(([], s)) else
      match ReadInstruction(s)
      case None => None
      case Some((i, rest)) =>
        match ReadInstructions(count - 1, rest)
        case None => None
        case Some((more, rest')) => Some(([i] + more, rest'))
  }

  /** What a receiver learns from a transaction's bytes. */
  datatype Parsed = Parsed(
    signatures: seq<seq<Byte>>,
    message: seq<Byte>,
    signingWritable: seq<seq<Byte>>,
    signingReadOnly: seq<seq<Byte>>,
    writable: seq<seq<Byte>>,
    readOnly: seq<seq<Byte>>,
    recentBlockhash: seq<Byte>,
    instructions: seq<Instruction>)

  /** The message, its accounts split by the three header counts; nothing may be left over. */
  function ParseMessage(signatures: seq<seq<Byte>>, message: seq<Byte>): Option<Parsed> {
    if |message| < 3 then None else
      match ReadCompact(message[3..])
      case None => None
      case Some((n, s)) =>
        match ReadFields(n, HASH_SIZE, s)
        case None => None
        case Some((accounts, s)) =>
          if |s| < HASH_SIZE then None else
            match ReadCompact(s[HASH_SIZE..])
            case None => None
            case Some((k, t)) =>
              match ReadInstructions(k, t)
              case None => None
              case Some((instructions, t)) =>
                var signing, signingRo, ro: nat := message[0], message[1], message[2];
                if t != [] || signingRo > signing || signing + ro > n then None
                else Some(Parsed(signatures, message,
                    accounts[..signing - signingRo], accounts[signing - signingRo..signing],
                    accounts[signing..n - ro], accounts[n - ro..], s[..HASH_SIZE], instructions))
  }

  function Parse(bytes: seq<Byte>): Option<Parsed> {
    match ReadCompact(bytes)
    case None => None
    case Some((n, s)) =>
      match ReadFields(n, SIGNATURE_SIZE, s)
      case None => None
      case Some((signatures, message)) => ParseMessage(signatures, message)
  }

  // ---------------------------------------------------------------- round trip

  /** All fields have the same size. */
  ghost predicate Sized(fields: seq<seq<Byte>>, size: nat) {
    forall i :: 0 <= i < |fields| ==> |fields[i]| == size
  }

  lemma {:induction false} ConcatLength(fields: seq<seq<Byte>>, size: nat)
    requires Sized(fields, size)
    ensures |Concat(fields)| == |fields| * size
  {
    if fields != [] {
      ConcatLength(fields[1..], size);
      assert |fields| * size == size + (|fields| - 1) * size;
    }
  }

  lemma ReadOneMore(first: seq<Byte>, s: seq<Byte>, count: nat, size: nat)
    requires count > 0 && |first| == size
    ensures ReadFields(count, size, first + s) ==
            match ReadFields(count - 1, size, s)
            case None => None
            case Some((fields, rest)) => Some(([first] + fields, rest))
  {
    assert (first + s)[..size] == first && (first + s)[size..] == s;
  }

  lemma {:induction false} FieldsRoundTrip(fields: seq<seq<Byte>>, size: nat, rest: seq<Byte>)
    requires Sized(fields, size)
    ensures ReadFields(|fields|, size, Concat(fields) + rest) == Some((fields, rest))
  {
    if fields == [] {
      assert Concat(fields) + rest == rest;
    } else {
      assert Concat(fields) + rest == fields[0] + (Concat(fields[1..]) + rest);
      ReadOneMore(fields[0], Concat(fields[1..]) + rest, |fields|, size);
      hide ReadFields, Concat;
      FieldsRoundTrip(fields[1..], size, rest);
      assert fields == [fields[0]] + fields[1..];
    }
  }

  lemma BytesRoundTrip(b: seq<Byte>, rest: seq<Byte>)
    requires |b| < 0x4000
    ensures ReadBytes(CompactU16(|b|) + b + rest) == Some((b, rest))
  {
    assert CompactU16(|b|) + b + rest == CompactU16(|b|) + (b + rest);
    CompactRoundTrip(|b|, b + rest);
  }

  lemma InstructionRoundTrip(i: Instruction, rest: seq<Byte>)
    requires |i.accountIndices| < 0x4000 && |i.data| < 0x4000
    ensures ReadInstruction(InstructionBytes(i) + rest) == Some((i, rest))
  {
    hide ReadBytes, CompactU16;
    var s := InstructionBytes(i) + rest;
    var tail := CompactU16(|i.data|) + i.data + rest;
    assert s == [i.programId] + (CompactU16(|i.accountIndices|) + i.accountIndices + tail);
    assert s[1..] == CompactU16(|i.accountIndices|) + i.accountIndices + tail;
    BytesRoundTrip(i.accountIndices, tail);
    BytesRoundTrip(i.data, rest);
  }

  ghost predicate Short(instructions: seq<Instruction>) {
    forall k :: 0 <= k < |instructions| ==>
      |instructions[k].accountIndices| < 0x4000 && |instructions[k].data| < 0x4000
  }

  lemma {:induction false} InstructionsRoundTrip(instructions: seq<Instruction>, rest: seq<Byte>)
    requires Short(instructions)
    ensures ReadInstructions(|instructions|, AllInstructions(instructions) + rest) == Some((instructions, rest))
  {
    hide ReadInstruction, InstructionBytes;
    if instructions == [] {
      assert AllInstructions(instructions) + rest == rest;
    } else {
      var first, others := instructions[0], instructions[1..];
      assert AllInstructions(instructions) + rest == InstructionBytes(first) + (AllInstructions(others) + rest);
      InstructionRoundTrip(first, AllInstructions(others) + rest);
      InstructionsRoundTrip(others, rest);
      assert instructions == [first] + others;
    }
  }

  /** Each instruction takes at least three bytes, and no part of it more than the whole. */
  lemma {:induction false} InstructionsFit(instructions: seq<Instruction>)
    ensures 3 * |instructions| <= |AllInstructions(instructions)|
    ensures forall k :: 0 <= k < |instructions| ==>
              |instructions[k].accountIndices| <= |AllInstructions(instructions)|
              && |instructions[k].data| <= |AllInstructions(instructions)|
  {
    if instructions != [] { InstructionsFit(instructions[1..]); }
  }

  /** Counts that fit the one-byte header fields and the two-byte lengths. */
  ghost predicate CountsFit(r: Request) {
    && |Signers(r)| < 256 && |r.readOnly| < 256
    && |Accounts(r)| < 0x4000 && |r.instructions| < 0x4000 && Short(r.instructions)
  }

  /** A transaction that fits the buffer has such counts. */
  lemma BufferMeansCountsFit(r: Request, sign: Signer)
    requires |Packed(r, sign)| <= 1232
    ensures CountsFit(r)
  {
    ConcatLength(Signatures(r, sign), SIGNATURE_SIZE);
    ConcatLength(Accounts(r), HASH_SIZE);
    InstructionsFit(r.instructions);
  }

  /** The public keys of the pairs, in order. */
  ghost predicate KeysOf(fields: seq<seq<Byte>>, pairs: seq<KeyPair>) {
    |fields| == |pairs| && forall k :: 0 <= k < |fields| ==> fields[k] == pairs[k].publicKey
  }

  lemma FourParts<T>(a: seq<T>, b: seq<T>, c: seq<T>, d: seq<T>)
    ensures var all := a + b + c + d;
            && all[..|a|] == a && all[|a|..|a| + |b|] == b
            && all[|a| + |b|..|all| - |d|] == c && all[|all| - |d|..] == d
  {
  }

  lemma RoleCuts(r: Request)
    requires |Signers(r)| < 256 && |r.readOnly| < 256
    ensures var accounts, signing, signingRo, ro: nat := Accounts(r), Header(r)[0], Header(r)[1], Header(r)[2];
            && signingRo <= signing && signing + ro <= |accounts|
            && accounts[..signing - signingRo] == PublicKeys(r.signingWritable)
            && accounts[signing - signingRo..signing] == PublicKeys(r.signingReadOnly)
            && accounts[signing..|accounts| - ro] == r.writable
            && accounts[|accounts| - ro..] == r.readOnly
  {
    var a, b := PublicKeys(r.signingWritable), PublicKeys(r.signingReadOnly);
    assert Header(r)[0] == |a| + |b| && Header(r)[1] == |b| && Header(r)[2] == |r.readOnly|;
    assert Accounts(r) == a + b + r.writable + r.readOnly;
    hide Header, Accounts, PublicKeys, Signers;
    FourParts(a, b, r.writable, r.readOnly);
  }

  lemma PublicKeysAreKeys(pairs: seq<KeyPair>)
    ensures KeysOf(PublicKeys(pairs), pairs)
  {
  }

  /** The three header counts cut the account table by role. */
  lemma AccountRoles(r: Request)
    requires |r.signingWritable| + |r.signingReadOnly| < 256 && |r.readOnly| < 256
    ensures var accounts, signing, signingRo, ro: nat := Accounts(r), Header(r)[0], Header(r)[1], Header(r)[2];
            && signingRo <= signing && signing + ro <= |accounts|
            && KeysOf(accounts[..signing - signingRo], r.signingWritable)
            && KeysOf(accounts[signing - signingRo..signing], r.signingReadOnly)
            && accounts[signing..|accounts| - ro] == r.writable
            && accounts[|accounts| - ro..] == r.readOnly
  {
    RoleCuts(r);
    PublicKeysAreKeys(r.signingWritable);
    PublicKeysAreKeys(r.signingReadOnly);
    hide KeysOf;
  }

  lemma MessageRoundTrip(r: Request, signatures: seq<seq<Byte>>)
    requires CountsFit(r)
    ensures ParseMessage(signatures, MessageOf(r)) ==
            Some(Parsed(signatures, MessageOf(r), PublicKeys(r.signingWritable), PublicKeys(r.signingReadOnly),
                        r.writable, r.readOnly, r.recentBlockhash, r.instructions))
    ensures var p := ParseMessage(signatures, MessageOf(r)).value;
            KeysOf(p.signingWritable, r.signingWritable) && KeysOf(p.signingReadOnly, r.signingReadOnly)
  {
    PublicKeysAreKeys(r.signingWritable);
    PublicKeysAreKeys(r.signingReadOnly);
    hide KeysOf, PublicKeys;
    hide ReadCompact, CompactU16, ReadFields, ReadInstructions, AllInstructions, Concat, Accounts;
    var m, accounts := MessageOf(r), Accounts(r);
    var s3 := CompactU16(|r.instructions|) + AllInstructions(r.instructions);
    var s2 := r.recentBlockhash + s3;
    var s1 := Concat(accounts) + s2;
    var s0 := CompactU16(|accounts|) + s1;
    assert m == Header(r) + s0;
    assert m[..3] == Header(r) && m[3..] == s0;
    CompactRoundTrip(|accounts|, s1);
    FieldsRoundTrip(accounts, HASH_SIZE, s2);
    assert s2[..HASH_SIZE] == r.recentBlockhash && s2[HASH_SIZE..] == s3;
    CompactRoundTrip(|r.instructions|, AllInstructions(r.instructions));
    assert AllInstructions(r.instructions) + [] == AllInstructions(r.instructions);
    InstructionsRoundTrip(r.instructions, []);
    RoleCuts(r);
  }

  /**
   * Every request whose counts fit is read back whole: signatures, accounts by role, blockhash, instructions; and
   * the signed message is exactly what follows the signatures.
   */
  lemma TransactionRoundTrip(r: Request, sign: Signer)
    requires CountsFit(r)
    ensures Parse(Packed(r, sign)) ==
            Some(Parsed(Signatures(r, sign), MessageOf(r),
                        PublicKeys(r.signingWritable), PublicKeys(r.signingReadOnly), r.writable, r.readOnly,
                        r.recentBlockhash, r.instructions))
    ensures var p := Parse(Packed(r, sign)).value;
            KeysOf(p.signingWritable, r.signingWritable) && KeysOf(p.signingReadOnly, r.signingReadOnly)
  {
    MessageRoundTrip(r, Signatures(r, sign));
    PackedShape(Signatures(r, sign), MessageOf(r));
    assert |Signers(r)| < 0x4000;
    hide ParseMessage, MessageOf, Accounts, Signers, ReadCompact, ReadFields, KeysOf;
  }

  lemma PackedShape(signatures: seq<seq<Byte>>, message: seq<Byte>)
    requires |signatures| < 0x4000 && Sized(signatures, SIGNATURE_SIZE)
    ensures var s := CompactU16(|signatures|) + Concat(signatures) + message;
            && ReadCompact(s) == Some((|signatures|, Concat(signatures) + message))
            && ReadFields(|signatures|, SIGNATURE_SIZE, Concat(signatures) + message) == Some((signatures, message))
  {
    hide ReadCompact, CompactU16, ReadFields, Concat;
    var rest := Concat(signatures) + message;
    assert CompactU16(|signatures|) + Concat(signatures) + message == CompactU16(|signatures|) + rest;
    CompactRoundTrip(|signatures|, rest);
    FieldsRoundTrip(signatures, SIGNATURE_SIZE, message);
  }

  /**
   * What a validator checks: the message asks for as many signatures as there are, and each is a signature of the
   * message as received, by a key pair of the request whose public key is the account at its place in the table.
   */
  lemma SignaturesMatchAccounts(r: Request, sign: Signer, k: nat)
    requires CountsFit(r) && k < |r.signingWritable| + |r.signingReadOnly|
    ensures Parse(Packed(r, sign)).Some?
    ensures var p := Parse(Packed(r, sign)).value;
            var table := p.signingWritable + p.signingReadOnly + p.writable + p.readOnly;
            && p.message != [] && |p.signatures| == p.message[0] == |r.signingWritable| + |r.signingReadOnly|
            && k < |table|
            && exists pair ::
                 && (pair in r.signingWritable || pair in r.signingReadOnly)
                 && pair.publicKey == table[k] && p.signatures[k] == sign(pair, p.message)
  {
    TransactionRoundTrip(r, sign);
    FirstByte(r);
    hide Parse, Packed, MessageOf, Accounts, PublicKeys, KeysOf;
    var p, pair := Parse(Packed(r, sign)).value, Signers(r)[k];
    assert p.signatures[k] == sign(pair, p.message);
    SignerKey(r, p, k);
  }

  lemma SignerKey(r: Request, p: Parsed, k: nat)
    requires k < |Signers(r)| && KeysOf(p.signingWritable, r.signingWritable)
    requires KeysOf(p.signingReadOnly, r.signingReadOnly)
    ensures var table, pair := p.signingWritable + p.signingReadOnly + p.writable + p.readOnly, Signers(r)[k];
            && k < |table| && table[k] == pair.publicKey && (pair in r.signingWritable || pair in r.signingReadOnly)
  {
    var n := |r.signingWritable|;
    var pair := Signers(r)[k];
    if k < n { assert pair == r.signingWritable[k]; } else { assert pair == r.signingReadOnly[k - n]; }
  }

  lemma FirstByte(r: Request)
    requires CountsFit(r)
    ensures MessageOf(r) != [] && MessageOf(r)[0] == |r.signingWritable| + |r.signingReadOnly|
  {
    assert MessageOf(r)[..3] == Header(r);
  }
}
