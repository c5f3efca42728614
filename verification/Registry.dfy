/**
 * The on-chain registry, program/src/synthesizer: a table of products, each with its deposit accounts. The program's
 * state is the accounts themselves; a run is any sequence of instructions over any accounts.
 */
module Registry {
  type Key = nat

  const MAGIC := 0x464e5953
  const VERSION_1 := 1
  const TABLE := 1
  const PRODUCT := 2
  const DEPOSIT := 3
  const MAX_PRODUCTS := 8
  const MAX_DEPOSIT_ACCTS := 64

  // Struct sizes in bytes, and the fixed part of the two structs that end in an array of 32-byte keys.
  const SIZEOF_KEY := 32
  const SIZEOF_TABLE := 280
  const SIZEOF_PRODUCT := 2208
  const SIZEOF_DEPOSIT := 96
  const SIZEOF_HEADER := 8

  /**
   * An account: who owns it and how long its data is, as the runtime says, then the fields the program keeps there.
   * `links` is the filled part of the key array at the end of a table or a product.
   */
  datatype Account = Account(owned: bool, dataLen: nat,
                             magic: nat, version: nat, kind: nat, size: nat, links: seq<Key>)

  type Accounts = map<Key, Account>

  /** One entry of an instruction's account list. */
  datatype Meta = Meta(key: Key, isSigner: bool, isWritable: bool)

  datatype Instruction = Instruction(dataLen: nat, version: nat, command: int, ka: seq<Meta>)

  datatype Status = Success | InvalidArgument

  datatype Result = Result(status: Status, accounts: Accounts)

  function Zeroed(owned: bool, dataLen: nat): Account {
    Account(owned, dataLen, 0, 0, 0, 0, [])
  }

  /** What the runtime hands over for a key: an account nobody made is empty and not the program's. */
  function At(m: Accounts, key: Key): Account {
    if key in m then m[key] else Zeroed(false, 0)
  }

  predicate ValidFunding(meta: Meta) {
    meta.isSigner && meta.isWritable
  }

  predicate ValidSignable(m: Accounts, meta: Meta, length: nat) {
    meta.isSigner && meta.isWritable && At(m, meta.key).owned && At(m, meta.key).dataLen >= length
  }

  /** Stored into a 32-bit field. */
  function Truncate32(n: int): (r: nat)
    ensures r < 0x1_0000_0000
  {
    n % 0x1_0000_0000
  }

  lemma Wraps(n: int)
    requires -0x1_0000_0000 <= n < 0x1_0000_0000
    ensures Truncate32(n) == if n < 0 then n + 0x1_0000_0000 else n
  {
  }

  function TableSize(count: nat): nat {
    Truncate32(SIZEOF_TABLE - SIZEOF_KEY * MAX_PRODUCTS + count * SIZEOF_KEY)
  }

  /** The size written into a product: it starts from the size of the deposit struct, not of the product's own. */
  function ProductSize(count: nat): nat {
    Truncate32(SIZEOF_DEPOSIT - SIZEOF_KEY * MAX_DEPOSIT_ACCTS + count * SIZEOF_KEY)
  }

  // ---------------------------------------------------------------- instructions

  /** init_synthfi may go ahead. */
  predicate MayInitTable(m: Accounts, ka: seq<Meta>) {
    && |ka| >= 2 && ValidFunding(ka[0]) && ValidSignable(m, ka[1], SIZEOF_TABLE)
    && At(m, ka[1].key).magic == 0 && At(m, ka[1].key).version == 0
  }

  /** init_product or init_deposit_account may link ka[2] into ka[1]. */
  predicate MayLink(m: Accounts, version: nat, ka: seq<Meta>, parent: nat, parentLen: nat, childLen: nat, most: nat) {
    && |ka| >= 3 && ValidFunding(ka[0])
    && ValidSignable(m, ka[1], parentLen) && ValidSignable(m, ka[2], childLen)
    && At(m, ka[1].key).magic == MAGIC && At(m, ka[1].key).version == version && At(m, ka[1].key).kind == parent
    && At(m, ka[2].key).magic == 0 && |At(m, ka[1].key).links| < most
  }

  predicate MayAddProduct(m: Accounts, version: nat, ka: seq<Meta>) {
    MayLink(m, version, ka, TABLE, SIZEOF_TABLE, SIZEOF_PRODUCT, MAX_PRODUCTS)
  }

  predicate MayAddDeposit(m: Accounts, version: nat, ka: seq<Meta>) {
    MayLink(m, version, ka, PRODUCT, SIZEOF_PRODUCT, SIZEOF_DEPOSIT, MAX_DEPOSIT_ACCTS)
  }

  /** A parent with one more link, a child just initialised, nothing else. */
  function Linked(m: Accounts, p: Key, c: Key, version: nat, kind: nat, childSize: nat, parentSize: nat): Accounts {
    var child := At(m, c).(magic := MAGIC, version := version, kind := kind, size := childSize, links := []);
    var parent := At(m, p).(links := At(m, p).links + [c], size := parentSize);
    m[c := child][p := parent]
  }

  function TableMade(m: Accounts, key: Key, version: nat): Accounts {
    m[key := At(m, key).(magic := MAGIC, version := version, kind := TABLE, size := TableSize(0), links := [])]
  }

  function ProductAdded(m: Accounts, version: nat, ka: seq<Meta>): Accounts
    requires |ka| >= 3
  {
    Linked(m, ka[1].key, ka[2].key, version, PRODUCT, SIZEOF_PRODUCT, TableSize(|At(m, ka[1].key).links| + 1))
  }

  function DepositAdded(m: Accounts, version: nat, ka: seq<Meta>): Accounts
    requires |ka| >= 3
  {
    Linked(m, ka[1].key, ka[2].key, version, DEPOSIT, SIZEOF_DEPOSIT, ProductSize(|At(m, ka[1].key).links| + 1))
  }

  /** What an instruction does: one of three changes, or none. */
  function Execute(m: Accounts, i: Instruction): Result {
    if i.dataLen < SIZEOF_HEADER || i.version != VERSION_1 then
      Result(InvalidArgument, m)
    else if i.command == 0 && MayInitTable(m, i.ka) then
      Result(Success, TableMade(m, i.ka[1].key, i.version))
    else if i.command == 1 && MayAddProduct(m, i.version, i.ka) then
      Result(Success, ProductAdded(m, i.version, i.ka))
    else if i.command == 2 && MayAddDeposit(m, i.version, i.ka) then
      Result(Success, DepositAdded(m, i.version, i.ka))
    else
      Result(if i.command == 3 || i.command == 4 then Success else InvalidArgument, m)
  }

  /** The program over the accounts it overwrites. */
  class Program {
    var accounts: Accounts

    constructor (accounts: Accounts)
      ensures this.accounts == accounts
    {
      this.accounts := accounts;
    }

    method InitSynthfi(version: nat, ka: seq<Meta>) returns (status: Status)
      modifies this
      ensures status == (if MayInitTable(old(accounts), ka) then Success else InvalidArgument)
      ensures accounts == if status.Success? then TableMade(old(accounts), ka[1].key, version) else old(accounts)
    {
      if |ka| < 2 || !ValidFunding(ka[0]) || !ValidSignable(accounts, ka[1], SIZEOF_TABLE) {
        return InvalidArgument;
      }
      var tptr := At(accounts, ka[1].key);
      if tptr.magic != 0 || tptr.version != 0 {
        return InvalidArgument;
      }
      tptr := Zeroed(tptr.owned, tptr.dataLen);
      tptr := tptr.(magic := MAGIC, version := version, kind := TABLE,
                    size := Truncate32(SIZEOF_TABLE - SIZEOF_KEY * MAX_PRODUCTS));
      accounts := accounts[ka[1].key := tptr];
      return Success;
    }

    method InitProduct(version: nat, ka: seq<Meta>) returns (status: Status)
      modifies this
      ensures status == (if MayAddProduct(old(accounts), version, ka) then Success else InvalidArgument)
      ensures accounts == if status.Success? then ProductAdded(old(accounts), version, ka) else old(accounts)
    {
      if |ka| < 3 || !ValidFunding(ka[0]) || !ValidSignable(accounts, ka[1], SIZEOF_TABLE)
         || !ValidSignable(accounts, ka[2], SIZEOF_PRODUCT) {
        return InvalidArgument;
      }
      var tptr, sptr := At(accounts, ka[1].key), At(accounts, ka[2].key);
      if tptr.magic != MAGIC || tptr.version != version || tptr.kind != TABLE || sptr.magic != 0
         || |tptr.links| >= MAX_PRODUCTS {
        return InvalidArgument;
      }
      sptr := Zeroed(sptr.owned, sptr.dataLen);
      sptr := sptr.(magic := MAGIC, version := version, kind := PRODUCT, size := SIZEOF_PRODUCT);
      accounts := accounts[ka[2].key := sptr];
      tptr := tptr.(links := tptr.links + [ka[2].key]);
      tptr := tptr.(size := Truncate32(SIZEOF_TABLE - SIZEOF_KEY * MAX_PRODUCTS + |tptr.links| * SIZEOF_KEY));
      accounts := accounts[ka[1].key := tptr];
      return Success;
    }

    method InitDepositAccount(version: nat, ka: seq<Meta>) returns (status: Status)
      modifies this
      ensures status == (if MayAddDeposit(old(accounts), version, ka) then Success else InvalidArgument)
      ensures accounts == if status.Success? then DepositAdded(old(accounts), version, ka) else old(accounts)
    {
      if |ka| < 3 || !ValidFunding(ka[0]) || !ValidSignable(accounts, ka[1], SIZEOF_PRODUCT)
         || !ValidSignable(accounts, ka[2], SIZEOF_DEPOSIT) {
        return InvalidArgument;
      }
      var tptr, sptr := At(accounts, ka[1].key), At(accounts, ka[2].key);
      if tptr.magic != MAGIC || tptr.version != version || tptr.kind != PRODUCT || sptr.magic != 0
         || |tptr.links| >= MAX_DEPOSIT_ACCTS {
        return InvalidArgument;
      }
      sptr := Zeroed(sptr.owned, sptr.dataLen);
      sptr := sptr.(magic := MAGIC, version := version, kind := DEPOSIT, size := SIZEOF_DEPOSIT);
      accounts := accounts[ka[2].key := sptr];
      tptr := tptr.(links := tptr.links + [ka[2].key]);
      tptr := tptr.(size := Truncate32(SIZEOF_DEPOSIT - SIZEOF_KEY * MAX_DEPOSIT_ACCTS + |tptr.links| * SIZEOF_KEY));
      accounts := accounts[ka[1].key := tptr];
      return Success;
    }

    method Dispatch1(i: Instruction) returns (status: Status)
      requires i.dataLen >= SIZEOF_HEADER && i.version == VERSION_1
      modifies this
      ensures Result(status, accounts) == Execute(old(accounts), i)
    {
      if i.command == 0 {
        status := InitSynthfi(i.version, i.ka);
      } else if i.command == 1 {
        status := InitProduct(i.version, i.ka);
      } else if i.command == 2 {
        status := InitDepositAccount(i.version, i.ka);
      } else if i.command == 3 || i.command == 4 {
        status := Success;
      } else {
        status := InvalidArgument;
      }
    }

    method Dispatch(i: Instruction) returns (status: Status)
      modifies this
      ensures Result(status, accounts) == Execute(old(accounts), i)
    {
      if i.dataLen < SIZEOF_HEADER {
        return InvalidArgument;
      }
      if i.version == VERSION_1 {
        status := Dispatch1(i);
      } else {
        status := InvalidArgument;
      }
    }
  }

  // ---------------------------------------------------------------- the invariant

  /** The size field of an initialised account. */
  predicate SizeOk(a: Account) {
    && (a.kind == TABLE ==> a.size == TableSize(|a.links|))
    && (a.kind == PRODUCT ==> a.size == if a.links == [] then SIZEOF_PRODUCT else ProductSize(|a.links|))
    && (a.kind == DEPOSIT ==> a.size == SIZEOF_DEPOSIT)
  }

  /** An account is all zero, or the program's, tagged as one of the three kinds, and within its bounds. */
  predicate AccountOk(a: Account) {
    if a.magic == 0 then a == Zeroed(a.owned, a.dataLen)
    else
      && a.owned && a.magic == MAGIC && a.version == VERSION_1 && SizeOk(a)
      && ( || (a.kind == TABLE && |a.links| <= MAX_PRODUCTS && a.dataLen >= SIZEOF_TABLE)
           || (a.kind == PRODUCT && |a.links| <= MAX_DEPOSIT_ACCTS && a.dataLen >= SIZEOF_PRODUCT)
           || (a.kind == DEPOSIT && a.links == [] && a.dataLen >= SIZEOF_DEPOSIT))
  }

  /** Account `p` names `c` at place `i` of its links. */
  predicate LinkAt(m: Accounts, p: Key, i: nat, c: Key) {
    p in m && i < |m[p].links| && m[p].links[i] == c
  }

  predicate Initialised(m: Accounts, c: Key) {
    c in m && m[c].magic == MAGIC
  }

  /** A link leads from a table to a product, or from a product to a deposit account. */
  ghost predicate LinksTyped(m: Accounts) {
    forall p, i, c :: LinkAt(m, p, i, c) ==>
      Initialised(m, c) && ((m[p].kind == TABLE && m[c].kind == PRODUCT) || (m[p].kind == PRODUCT && m[c].kind == DEPOSIT))
  }

  ghost predicate LinksUnique(m: Accounts) {
    forall p, i, q, j, c :: LinkAt(m, p, i, c) && LinkAt(m, q, j, c) ==> p == q && i == j
  }

  /** Every product and deposit account is linked somewhere. */
  ghost predicate NoOrphans(m: Accounts) {
    forall c :: Initialised(m, c) && m[c].kind != TABLE ==> exists p, i :: LinkAt(m, p, i, c)
  }

  ghost predicate Inv(m: Accounts) {
    (forall k :: k in m ==> AccountOk(m[k])) && LinksTyped(m) && LinksUnique(m) && NoOrphans(m)
  }

  // ---------------------------------------------------------------- making a table

  lemma TableMadeKeeps(m: Accounts, ka: seq<Meta>)
    requires Inv(m) && MayInitTable(m, ka)
    ensures Inv(TableMade(m, ka[1].key, VERSION_1))
  {
    var k := ka[1].key;
    var t := TableMade(m, k, VERSION_1);
    assert AccountOk(m[k]);
    forall p, i, c
      ensures LinkAt(t, p, i, c) <==> LinkAt(m, p, i, c)
    {
      assert p != k && p in m ==> t[p] == m[p];
    }
    forall c | Initialised(t, c) && t[c].kind != TABLE
      ensures exists p, i :: LinkAt(t, p, i, c)
    {
      assert Initialised(m, c);
      var p, i :| LinkAt(m, p, i, c);
      assert LinkAt(t, p, i, c);
    }
  }

  // ---------------------------------------------------------------- adding a link

  /** One account linked: a parent that names `c` last, a child that was zero, all other accounts as they were. */
  ghost predicate Extends(m: Accounts, t: Accounts, p: Key, c: Key) {
    && p in m && c in m && p != c && t.Keys == m.Keys
    && m[p].magic == MAGIC && m[c].magic == 0 && m[c].links == []
    && t[p].links == m[p].links + [c] && t[p].kind == m[p].kind && t[p].magic == MAGIC
    && t[c].magic == MAGIC && t[c].links == []
    && ((t[p].kind == TABLE && t[c].kind == PRODUCT) || (t[p].kind == PRODUCT && t[c].kind == DEPOSIT))
    && forall k :: k in m && k != p && k != c ==> t[k] == m[k]
  }

  /** The links of the extended registry are the old ones and the new one. */
  lemma ExtendsLinks(m: Accounts, t: Accounts, p: Key, c: Key, q: Key, i: nat, d: Key)
    requires Extends(m, t, p, c)
    ensures LinkAt(t, q, i, d) <==> LinkAt(m, q, i, d) || (q == p && i == |m[p].links| && d == c)
  {
    if q in m && q != p && q != c {
      assert t[q] == m[q];
    }
  }

  lemma ExtendsInitialised(m: Accounts, t: Accounts, p: Key, c: Key, d: Key)
    requires Extends(m, t, p, c)
    ensures Initialised(t, d) <==> Initialised(m, d) || d == c
    ensures Initialised(m, d) ==> t[d].kind == m[d].kind
  {
  }

  /** Nothing linked the child before: links lead to initialised accounts only. */
  lemma ChildWasFree(m: Accounts, t: Accounts, p: Key, c: Key, q: Key, i: nat)
    requires Extends(m, t, p, c) && LinksTyped(m)
    ensures !LinkAt(m, q, i, c)
  {
  }

  lemma ExtendsKeepsTyped(m: Accounts, t: Accounts, p: Key, c: Key)
    requires Extends(m, t, p, c) && LinksTyped(m)
    ensures LinksTyped(t)
  {
    forall q, i, d | LinkAt(t, q, i, d)
      ensures Initialised(t, d)
      ensures (t[q].kind == TABLE && t[d].kind == PRODUCT) || (t[q].kind == PRODUCT && t[d].kind == DEPOSIT)
    {
      ExtendsLinks(m, t, p, c, q, i, d);
      ExtendsInitialised(m, t, p, c, d);
    }
  }

  lemma ExtendsKeepsUnique(m: Accounts, t: Accounts, p: Key, c: Key)
    requires Extends(m, t, p, c) && LinksTyped(m) && LinksUnique(m)
    ensures LinksUnique(t)
  {
    forall q, i, r, j, d | LinkAt(t, q, i, d) && LinkAt(t, r, j, d)
      ensures q == r && i == j
    {
      ExtendsLinks(m, t, p, c, q, i, d);
      ExtendsLinks(m, t, p, c, r, j, d);
      ChildWasFree(m, t, p, c, q, i);
      ChildWasFree(m, t, p, c, r, j);
    }
  }

  lemma ExtendsKeepsParents(m: Accounts, t: Accounts, p: Key, c: Key)
    requires Extends(m, t, p, c) && NoOrphans(m)
    ensures NoOrphans(t)
  {
    forall d | Initialised(t, d) && t[d].kind != TABLE
      ensures exists q, i :: LinkAt(t, q, i, d)
    {
      ExtendsInitialised(m, t, p, c, d);
      if d == c {
        ExtendsLinks(m, t, p, c, p, |m[p].links|, c);
        assert LinkAt(t, p, |m[p].links|, c);
      } else {
        var q, i :| LinkAt(m, q, i, d);
        ExtendsLinks(m, t, p, c, q, i, d);
        assert LinkAt(t, q, i, d);
      }
    }
  }

  lemma ExtendsKeeps(m: Accounts, t: Accounts, p: Key, c: Key)
    requires Inv(m) && Extends(m, t, p, c) && AccountOk(t[p]) && AccountOk(t[c])
    ensures Inv(t)
  {
    ExtendsKeepsTyped(m, t, p, c);
    ExtendsKeepsUnique(m, t, p, c);
    ExtendsKeepsParents(m, t, p, c);
    hide LinksTyped, LinksUnique, NoOrphans, AccountOk;
  }

  lemma ProductAddedExtends(m: Accounts, ka: seq<Meta>)
    requires Inv(m) && MayAddProduct(m, VERSION_1, ka)
    ensures var t, p, c := ProductAdded(m, VERSION_1, ka), ka[1].key, ka[2].key;
            Extends(m, t, p, c) && AccountOk(t[p]) && AccountOk(t[c])
  {
    hide LinksTyped, LinksUnique, NoOrphans;
    assert AccountOk(m[ka[1].key]) && AccountOk(m[ka[2].key]);
  }

  lemma DepositAddedExtends(m: Accounts, ka: seq<Meta>)
    requires Inv(m) && MayAddDeposit(m, VERSION_1, ka)
    ensures var t, p, c := DepositAdded(m, VERSION_1, ka), ka[1].key, ka[2].key;
            Extends(m, t, p, c) && AccountOk(t[p]) && AccountOk(t[c])
  {
    hide LinksTyped, LinksUnique, NoOrphans;
    assert AccountOk(m[ka[1].key]) && AccountOk(m[ka[2].key]);
  }

  // ---------------------------------------------------------------- steps and runs

  /** Between the program's instructions the runtime may add zeroed accounts of any owner and length. */
  datatype Event = Create(key: Key, owned: bool, dataLen: nat) | Run(instruction: Instruction)

  function Next(m: Accounts, e: Event): Accounts {
    match e
    case Create(key, owned, dataLen) => if key in m then m else m[key := Zeroed(owned, dataLen)]
    case Run(i) => Execute(m, i).accounts
  }

  function After(m: Accounts, events: seq<Event>): Accounts
    decreases |events|
  {
    if events == [] then m else After(Next(m, events[0]), events[1..])
  }

  lemma CreateKeeps(m: Accounts, key: Key, owned: bool, dataLen: nat)
    requires Inv(m)
    ensures Inv(Next(m, Create(key, owned, dataLen)))
  {
    var t := Next(m, Create(key, owned, dataLen));
    forall p, i, c
      ensures LinkAt(t, p, i, c) <==> LinkAt(m, p, i, c)
    {
    }
    forall c | Initialised(t, c) && t[c].kind != TABLE
      ensures exists p, i :: LinkAt(t, p, i, c)
    {
      assert Initialised(m, c);
      var p, i :| LinkAt(m, p, i, c);
      assert LinkAt(t, p, i, c);
    }
  }

  lemma StepKeepsInv(m: Accounts, e: Event)
    requires Inv(m)
    ensures Inv(Next(m, e))
  {
    hide Inv, MayInitTable, At, TableMade, Extends, AccountOk, Linked;
    match e {
      case Create(key, owned, dataLen) =>
        CreateKeeps(m, key, owned, dataLen);
      case Run(i) =>
        if i.dataLen >= SIZEOF_HEADER && i.version == VERSION_1 {
          if i.command == 0 && MayInitTable(m, i.ka) {
            TableMadeKeeps(m, i.ka);
          } else if i.command == 1 && MayAddProduct(m, i.version, i.ka) {
            ProductAddedExtends(m, i.ka);
            ExtendsKeeps(m, ProductAdded(m, i.version, i.ka), i.ka[1].key, i.ka[2].key);
          } else if i.command == 2 && MayAddDeposit(m, i.version, i.ka) {
            DepositAddedExtends(m, i.ka);
            ExtendsKeeps(m, DepositAdded(m, i.version, i.ka), i.ka[1].key, i.ka[2].key);
          }
        }
    }
  }

  lemma {:induction false} RunKeepsInv(m: Accounts, events: seq<Event>)
    requires Inv(m)
    ensures Inv(After(m, events))
    decreases |events|
  {
    hide Inv, Next;
    if events != [] {
      StepKeepsInv(m, events[0]);
      RunKeepsInv(Next(m, events[0]), events[1..]);
    }
  }

  /** From zeroed accounts. */
  ghost predicate Blank(m: Accounts) {
    forall k :: k in m ==> m[k] == Account(m[k].owned, m[k].dataLen, 0, 0, 0, 0, [])
  }

  lemma BlankIsInv(m: Accounts)
    requires Blank(m)
    ensures Inv(m)
  {
    forall p, i, c
      ensures !LinkAt(m, p, i, c)
    {
    }
  }

  /**
   * In every reachable registry: an account is linked exactly when it is an initialised product or deposit account,
   * by exactly one place of exactly one account, which is a table for a product and a product for a deposit account.
   */
  lemma LinkedExactlyOnce(m: Accounts, events: seq<Event>, c: Key)
    requires Blank(m)
    ensures var t := After(m, events);
            && (Initialised(t, c) && t[c].kind != TABLE <==> exists p, i :: LinkAt(t, p, i, c))
            && (forall p, i, q, j :: LinkAt(t, p, i, c) && LinkAt(t, q, j, c) ==> p == q && i == j)
            && (forall p, i :: LinkAt(t, p, i, c) ==> Initialised(t, p) && t[p].kind + 1 == t[c].kind)
  {
    BlankIsInv(m);
    RunKeepsInv(m, events);
    var t := After(m, events);
    hide After, NoOrphans;
    if Initialised(t, c) && t[c].kind != TABLE {
      ParentOf(t, c);
    }
    if p, i :| LinkAt(t, p, i, c) {
      assert AccountOk(t[p]) && Initialised(t, c);
    }
    forall p, i | LinkAt(t, p, i, c)
      ensures Initialised(t, p) && t[p].kind + 1 == t[c].kind
    {
      assert AccountOk(t[p]) && Initialised(t, c);
    }
  }

  lemma ParentOf(t: Accounts, c: Key)
    requires Inv(t) && Initialised(t, c) && t[c].kind != TABLE
    ensures exists p, i :: LinkAt(t, p, i, c)
  {
  }

  // ---------------------------------------------------------------- what never changes

  /** Nothing is lost: a tagged account keeps its tags, its owner and its links in place. */
  ghost predicate Grows(a: Account, b: Account) {
    && a.owned == b.owned && a.dataLen == b.dataLen
    && (a.magic != 0 ==> b.magic == a.magic && b.version == a.version && b.kind == a.kind && a.links <= b.links)
  }

  lemma StepGrows(m: Accounts, e: Event, k: Key)
    requires k in m
    ensures k in Next(m, e) && Grows(m[k], Next(m, e)[k])
  {
  }

  lemma {:induction false} RunGrows(m: Accounts, events: seq<Event>, k: Key)
    requires k in m
    ensures k in After(m, events) && Grows(m[k], After(m, events)[k])
    decreases |events|
  {
    hide Next;
    if events != [] {
      StepGrows(m, events[0], k);
      RunGrows(Next(m, events[0]), events[1..], k);
    }
  }

  /** A failed instruction changes nothing; one that changes an account was signed for that account. */
  lemma ChangesAreSigned(m: Accounts, i: Instruction, k: Key)
    requires At(m, k) != At(Execute(m, i).accounts, k)
    ensures Execute(m, i).status == Success && k in m && m[k].owned
    ensures exists n :: 0 <= n < |i.ka| && i.ka[n] == Meta(k, true, true)
  {
    var t := Execute(m, i).accounts;
    assert k == i.ka[1].key || (|i.ka| >= 3 && k == i.ka[2].key);
    if k == i.ka[1].key {
      assert i.ka[1] == Meta(k, true, true);
    } else {
      assert i.ka[2] == Meta(k, true, true);
    }
  }

  lemma FailureChangesNothing(m: Accounts, i: Instruction)
    ensures Execute(m, i).status == InvalidArgument ==> Execute(m, i).accounts == m
    ensures Execute(m, i).status == Success && i.command in {0, 1, 2} ==> Execute(m, i).accounts != m
  {
    if Execute(m, i).status == Success && i.command == 0 {
      assert Execute(m, i).accounts[i.ka[1].key].magic != At(m, i.ka[1].key).magic;
    } else if Execute(m, i).status == Success && i.command in {1, 2} {
      assert |Execute(m, i).accounts[i.ka[1].key].links| != |At(m, i.ka[1].key).links|;
    }
  }

  /** Bytes of an account the program has filled: the fixed part and the keys. */
  function Populated(a: Account): nat {
    if a.kind == TABLE then SIZEOF_TABLE - SIZEOF_KEY * MAX_PRODUCTS + SIZEOF_KEY * |a.links|
    else if a.kind == PRODUCT then SIZEOF_PRODUCT - SIZEOF_KEY * MAX_DEPOSIT_ACCTS + SIZEOF_KEY * |a.links|
    else SIZEOF_DEPOSIT
  }

  lemma AccountSize(a: Account)
    requires AccountOk(a) && a.magic != 0
    ensures a.size == Populated(a) <==> a.kind != PRODUCT
    ensures a.kind == PRODUCT && a.links != [] ==>
              a.size == 32 * |a.links| - 1952 + (if |a.links| < 61 then 0x1_0000_0000 else 0)
  {
    Wraps(SIZEOF_TABLE - SIZEOF_KEY * MAX_PRODUCTS + |a.links| * SIZEOF_KEY);
    Wraps(SIZEOF_DEPOSIT - SIZEOF_KEY * MAX_DEPOSIT_ACCTS + |a.links| * SIZEOF_KEY);
    hide Truncate32;
  }

  /**
   * The size field is the populated size exactly for tables and deposit accounts. A product's never is: it is the
   * whole struct's before its first deposit account, and after that a number below zero, wrapped around 2^32, or too
   * small from the 61st deposit account on.
   */
  lemma SizeIsPopulated(m: Accounts, events: seq<Event>, k: Key)
    requires Blank(m) && Initialised(After(m, events), k)
    ensures var a := After(m, events)[k]; a.size == Populated(a) <==> a.kind != PRODUCT
    ensures var a := After(m, events)[k];
            a.kind == PRODUCT && a.links != [] ==>
              a.size == 32 * |a.links| - 1952 + (if |a.links| < 61 then 0x1_0000_0000 else 0)
  {
    BlankIsInv(m);
    RunKeepsInv(m, events);
    AccountSize(After(m, events)[k]);
  }

  /** Counts stay within the arrays. */
  lemma CountsAreBounded(m: Accounts, events: seq<Event>, k: Key)
    requires Blank(m) && k in After(m, events)
    ensures var a := After(m, events)[k];
            |a.links| <= if a.kind == TABLE then MAX_PRODUCTS else if a.kind == PRODUCT then MAX_DEPOSIT_ACCTS else 0
  {
    BlankIsInv(m);
    RunKeepsInv(m, events);
    assert AccountOk(After(m, events)[k]);
  }

  /** Whoever funds a successful init command has signed for it and may be charged. */
  lemma FunderSigns(m: Accounts, i: Instruction)
    requires Execute(m, i).status == Success && i.command in {0, 1, 2}
    ensures i.ka != [] && i.ka[0].isSigner && i.ka[0].isWritable
  {
  }

  // ---------------------------------------------------------------- progress

  /** An init command of this program over three accounts, all of them signers and writable. */
  function Command(command: int, funder: Key, parent: Key, child: Key): Event {
    Run(Instruction(8, 1, command, [Meta(funder, true, true), Meta(parent, true, true), Meta(child, true, true)]))
  }

  function MakeTable(funder: Key, table: Key): Event {
    Run(Instruction(8, 1, 0, [Meta(funder, true, true), Meta(table, true, true)]))
  }

  /** One instruction for each child, in order. */
  function AddAll(command: int, funder: Key, parent: Key, children: seq<Key>): seq<Event> {
    if children == [] then [] else
      var n := |children| - 1;
      AddAll(command, funder, parent, children[..n]) + [Command(command, funder, parent, children[n])]
  }

  /** Every instruction of a run is answered Success. */
  ghost predicate AllSucceed(m: Accounts, events: seq<Event>)
    decreases |events|
  {
    events != [] ==>
      && (events[0].Run? ==> Execute(m, events[0].instruction).status == Success)
      && AllSucceed(Next(m, events[0]), events[1..])
  }

  lemma {:induction false} RunOn(m: Accounts, a: seq<Event>, b: seq<Event>)
    ensures After(m, a + b) == After(After(m, a), b)
    ensures AllSucceed(m, a + b) <==> AllSucceed(m, a) && AllSucceed(After(m, a), b)
    decreases |a|
  {
    hide Next, Execute;
    if a == [] {
      assert a + b == b;
    } else {
      assert (a + b)[1..] == a[1..] + b;
      RunOn(Next(m, a[0]), a[1..], b);
    }
  }

  lemma RunOne(m: Accounts, e: Event)
    ensures After(m, [e]) == Next(m, e)
    ensures AllSucceed(m, [e]) <==> (e.Run? ==> Execute(m, e.instruction).status == Success)
  {
    hide Next, Execute;
    assert [e][1..] == [];
  }

  /** An account of the program that nobody has initialised, at least this long. */
  predicate Free(m: Accounts, k: Key, length: nat) {
    k in m && m[k].dataLen >= length && m[k] == Account(true, m[k].dataLen, 0, 0, 0, 0, [])
  }

  ghost predicate AllFree(m: Accounts, keys: seq<Key>, length: nat) {
    forall i :: 0 <= i < |keys| ==> Free(m, keys[i], length)
  }

  predicate Tagged(m: Accounts, k: Key, kind: nat, length: nat) {
    k in m && m[k].owned && m[k].dataLen >= length
    && m[k].magic == 0x464e5953 && m[k].version == 1 && m[k].kind == kind
  }

  ghost predicate Different(keys: seq<Key>) {
    forall i, j :: 0 <= i < j < |keys| ==> keys[i] != keys[j]
  }

  /** A zeroed account of 280 bytes becomes a table. */
  lemma TableCanBeMade(m: Accounts, funder: Key, table: Key)
    requires Free(m, table, 280)
    ensures AllSucceed(m, [MakeTable(funder, table)])
    ensures After(m, [MakeTable(funder, table)]) ==
            m[table := Account(true, m[table].dataLen, 0x464e5953, 1, 1, 24, [])]
  {
    RunOne(m, MakeTable(funder, table));
    Wraps(SIZEOF_TABLE - SIZEOF_KEY * MAX_PRODUCTS);
  }

  /** One more link. */
  lemma LinkSucceeds(m: Accounts, command: nat, funder: Key, parent: Key, child: Key)
    requires command in {1, 2} && parent != child
    requires Tagged(m, parent, command, if command == 1 then 280 else 2208)
    requires Free(m, child, if command == 1 then 2208 else 96)
    requires |m[parent].links| < if command == 1 then 8 else 64
    ensures var e := Command(command, funder, parent, child);
            && AllSucceed(m, [e]) && After(m, [e]).Keys == m.Keys
            && Tagged(After(m, [e]), parent, command, m[parent].dataLen)
            && After(m, [e])[parent].links == m[parent].links + [child]
            && Tagged(After(m, [e]), child, command + 1, if command == 1 then 2208 else 96)
            && After(m, [e])[child].links == []
            && forall k :: k in m && k != parent && k != child ==> After(m, [e])[k] == m[k]
  {
    RunOne(m, Command(command, funder, parent, child));
    hide Truncate32;
  }

  /** `t` is `m` with these children linked into an empty parent, in order, and nothing else changed. */
  ghost predicate LinkedAll(m: Accounts, t: Accounts, command: nat, parent: Key, children: seq<Key>) {
    && parent in m && t.Keys == m.Keys
    && Tagged(t, parent, command, m[parent].dataLen) && t[parent].links == children
    && (forall i :: 0 <= i < |children| ==>
          Tagged(t, children[i], command + 1, if command == 1 then 2208 else 96) && t[children[i]].links == [])
    && (forall k :: k in m && k != parent && k !in children ==> t[k] == m[k])
  }

  lemma LinkedOneMore(m: Accounts, t: Accounts, command: nat, funder: Key, parent: Key, children: seq<Key>, c: Key)
    requires command in {1, 2} && parent != c && c !in children && LinkedAll(m, t, command, parent, children)
    requires m[parent].dataLen >= if command == 1 then 280 else 2208
    requires Free(m, c, if command == 1 then 2208 else 96) && |children| < if command == 1 then 8 else 64
    ensures AllSucceed(t, [Command(command, funder, parent, c)])
    ensures LinkedAll(m, After(t, [Command(command, funder, parent, c)]), command, parent, children + [c])
  {
    hide AllSucceed, After;
    LinkSucceeds(t, command, funder, parent, c);
  }

  /** Fresh accounts up to the limit can all be linked, one instruction each. */
  lemma {:induction false} AllCanBeLinked(m: Accounts, command: nat, funder: Key, parent: Key, children: seq<Key>)
    requires command in {1, 2} && parent !in children && Different(children)
    requires Tagged(m, parent, command, if command == 1 then 280 else 2208) && m[parent].links == []
    requires AllFree(m, children, if command == 1 then 2208 else 96)
    requires |children| <= if command == 1 then 8 else 64
    ensures var events := AddAll(command, funder, parent, children);
            |events| == |children| && AllSucceed(m, events) && LinkedAll(m, After(m, events), command, parent, children)
  {
    hide AllSucceed, After, Command, LinkedAll;
    if children == [] {
      NoEvents(m);
      NoneLinked(m, command, parent);
    } else {
      var n := |children| - 1;
      var before, c := children[..n], children[n];
      AllCanBeLinked(m, command, funder, parent, before);
      var t := After(m, AddAll(command, funder, parent, before));
      assert c !in before && children == before + [c];
      LinkedOneMore(m, t, command, funder, parent, before, c);
      RunOn(m, AddAll(command, funder, parent, before), [Command(command, funder, parent, c)]);
    }
  }

  lemma NoneLinked(m: Accounts, command: nat, parent: Key)
    requires parent in m && Tagged(m, parent, command, 0) && m[parent].links == []
    ensures LinkedAll(m, m, command, parent, [])
  {
  }

  lemma NoEvents(m: Accounts)
    ensures AllSucceed(m, []) && After(m, []) == m
  {
  }

  /** From zeroed accounts, a table of any number of products up to eight can be made, every instruction succeeding. */
  lemma ProductsCanBeAdded(m: Accounts, funder: Key, table: Key, products: seq<Key>)
    requires |products| <= 8 && table !in products && Different(products)
    requires Free(m, table, 280) && AllFree(m, products, 2208)
    ensures var events := [MakeTable(funder, table)] + AddAll(1, funder, table, products);
            var t := After(m, events);
            && |events| == 1 + |products| && AllSucceed(m, events)
            && Tagged(t, table, 1, 280) && t[table].links == products
            && forall i :: 0 <= i < |products| ==> Tagged(t, products[i], 2, 2208) && t[products[i]].links == []
  {
    TableCanBeMade(m, funder, table);
    var t := After(m, [MakeTable(funder, table)]);
    AllCanBeLinked(t, 1, funder, table, products);
    RunOn(m, [MakeTable(funder, table)], AddAll(1, funder, table, products));
    hide AllSucceed, After, AddAll, MakeTable;
  }

  /** And a product in it can be given any number of deposit accounts up to sixty-four. */
  lemma DepositsCanBeAdded(m: Accounts, funder: Key, table: Key, product: Key, deposits: seq<Key>)
    requires |deposits| <= 64 && table != product && table !in deposits && product !in deposits && Different(deposits)
    requires Free(m, table, 280) && Free(m, product, 2208) && AllFree(m, deposits, 96)
    ensures var made := [MakeTable(funder, table)] + AddAll(1, funder, table, [product]);
            var events := made + AddAll(2, funder, product, deposits);
            var t := After(m, events);
            && |events| == 2 + |deposits| && AllSucceed(m, events)
            && Tagged(t, product, 2, 2208) && t[product].links == deposits
            && forall i :: 0 <= i < |deposits| ==> Tagged(t, deposits[i], 3, 96) && t[deposits[i]].links == []
  {
    var made := [MakeTable(funder, table)] + AddAll(1, funder, table, [product]);
    ProductsCanBeAdded(m, funder, table, [product]);
    OthersStay(m, funder, table, product, deposits);
    assert [product][0] == product;
    AllCanBeLinked(After(m, made), 2, funder, product, deposits);
    RunOn(m, made, AddAll(2, funder, product, deposits));
    hide AllSucceed, After, AddAll, MakeTable;
  }

  lemma OthersStay(m: Accounts, funder: Key, table: Key, product: Key, deposits: seq<Key>)
    requires table != product && table !in deposits && product !in deposits
    requires Free(m, table, 280) && Free(m, product, 2208) && AllFree(m, deposits, 96)
    ensures var t := After(m, [MakeTable(funder, table)] + AddAll(1, funder, table, [product]));
            AllFree(t, deposits, 96)
  {
    TableCanBeMade(m, funder, table);
    AllCanBeLinked(After(m, [MakeTable(funder, table)]), 1, funder, table, [product]);
    RunOn(m, [MakeTable(funder, table)], AddAll(1, funder, table, [product]));
    hide AllSucceed, After, AddAll, MakeTable;
  }

  /** A ninth product and a sixty-fifth deposit account are refused. */
  lemma FullIsRefused(m: Accounts, i: Instruction)
    requires i.command in {1, 2} && |i.ka| >= 2 && i.ka[1].key in m
    requires |m[i.ka[1].key].links| >= if i.command == 1 then 8 else 64
    ensures Execute(m, i) == Result(InvalidArgument, m)
  {
  }
}
