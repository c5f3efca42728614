/**
 * The account batcher, src/synthfi/Solana/AccountBatcher: a request for many accounts is cut into chunks, whose
 * replies may come in any order and interleave with those of other requests.
 */
module AccountBatcher {
  import opened Trading

  type PublicKey = nat
  datatype AccountInfo = Unset | Account(lamports: nat, data: seq<bv8>)
  datatype Error = Remote(code: nat) | InvalidResponseSize | TimedOut
  datatype Reply = Failed(code: nat) | Accounts(infos: seq<AccountInfo>)

  /** A chunk sent out: where it starts in the request, and its keys. */
  datatype Chunk = Chunk(index: nat, keys: seq<PublicKey>)

  /** A request being answered. */
  datatype Batch = Batch(error: Option<Error>, pending: nat, response: seq<AccountInfo>)

  datatype Outcome = Response(infos: seq<AccountInfo>) | Throws(error: Error)

  function Min(a: nat, b: nat): nat {
    if a < b then a else b
  }

  // ---------------------------------------------------------------- chunking

  /** The source's count: the quotient, and one more for a remainder. */
  function ChunkCount(n: nat, size: nat): nat
    requires size > 0
  {
    n / size + (if n % size > 0 then 1 else 0)
  }

  function ChunkAt(keys: seq<PublicKey>, size: nat, k: nat): Chunk
    requires k * size < |keys|
  {
    var index := k * size;
    Chunk(index, keys[index..index + Min(size, |keys| - index)])
  }

  /** The count is the number of turns the chunking loop makes. */
  lemma CountIsTurns(n: nat, size: nat, k: nat)
    requires size > 0
    ensures k * size < n <==> k < ChunkCount(n, size)
  {
    var q, r := n / size, n % size;
    assert n == q * size + r;
    if k < q {
      assert (k + 1) * size <= q * size by { Scale(k + 1, q, size); }
    } else if k > q {
      assert (q + 1) * size <= k * size by { Scale(q + 1, k, size); }
    }
  }

  lemma Scale(a: nat, b: nat, c: nat)
    requires a <= b
    ensures a * c <= b * c
  {
  }

  lemma NextStart(k: nat, size: nat)
    requires k > 0
    ensures k * size == (k - 1) * size + size
  {
  }

  /** The chunks of a request. */
  function Chunks(keys: seq<PublicKey>, size: nat): (chunks: seq<Chunk>)
    requires size > 0
    ensures |chunks| == ChunkCount(|keys|, size)
  {
    seq(ChunkCount(|keys|, size), k requires 0 <= k < ChunkCount(|keys|, size) =>
      CountIsTurns(|keys|, size, k);
      ChunkAt(keys, size, k))
  }

  /** All keys that chunks ask for, in order. */
  ghost function KeysOf(chunks: seq<Chunk>): seq<PublicKey> {
    if chunks == [] then []
    else KeysOf(chunks[..|chunks| - 1]) + chunks[|chunks| - 1].keys
  }

  /** The keys cut up in order: nothing lost or repeated, each chunk within the size, starting where the last ended. */
  ghost predicate Cuts(chunks: seq<Chunk>, keys: seq<PublicKey>, size: nat) {
    && KeysOf(chunks) == keys
    && (forall k :: 0 <= k < |chunks| ==> chunks[k].index == |KeysOf(chunks[..k])| && 0 < |chunks[k].keys| <= size)
  }

  /** Each chunk goes from its start to the next one's, or to the end. */
  lemma ChunkSpan(keys: seq<PublicKey>, size: nat, n: nat)
    requires size > 0 && 0 < n <= ChunkCount(|keys|, size)
    ensures var start, end := (n - 1) * size, Min(n * size, |keys|);
            0 <= start < end <= |keys| && Chunks(keys, size)[n - 1] == Chunk(start, keys[start..end])
  {
    CountIsTurns(|keys|, size, n - 1);
    NextStart(n, size);
    hide ChunkCount;
  }

  lemma {:induction false} KeysSoFar(keys: seq<PublicKey>, size: nat, n: nat)
    requires size > 0 && n <= ChunkCount(|keys|, size)
    ensures KeysOf(Chunks(keys, size)[..n]) == keys[..Min(n * size, |keys|)]
  {
    var chunks := Chunks(keys, size);
    if n > 0 {
      KeysSoFar(keys, size, n - 1);
      ChunkSpan(keys, size, n);
      hide Chunks, ChunkCount;
      var start, end := (n - 1) * size, Min(n * size, |keys|);
      assert chunks[..n][..n - 1] == chunks[..n - 1];
      assert keys[..start] + keys[start..end] == keys[..end];
    }
  }

  lemma ChunksCut(keys: seq<PublicKey>, size: nat)
    requires size > 0
    ensures Cuts(Chunks(keys, size), keys, size)
  {
    var chunks := Chunks(keys, size);
    forall k: nat | k < |chunks|
      ensures chunks[k].index == |KeysOf(chunks[..k])| && 0 < |chunks[k].keys| <= size
    {
      KeysSoFar(keys, size, k);
      ChunkSpan(keys, size, k + 1);
    }
    KeysSoFar(keys, size, |chunks|);
    CountIsTurns(|keys|, size, |chunks|);
    assert chunks[..|chunks|] == chunks;
  }

  /** The places where chunks start. */
  ghost function Starts(count: nat, size: nat): set<nat> {
    set k | 0 <= k < count :: k * size
  }

  lemma {:induction false} StartsCount(count: nat, size: nat)
    requires size > 0
    ensures |Starts(count, size)| == count
  {
    if count > 0 {
      StartsCount(count - 1, size);
      forall k | 0 <= k < count - 1
        ensures k * size != (count - 1) * size
      {
        Scale(k + 1, count - 1, size);
      }
      assert (count - 1) * size !in Starts(count - 1, size);
      assert Starts(count, size) == Starts(count - 1, size) + {(count - 1) * size};
    } else {
      assert Starts(0, size) == {};
    }
  }

  // ---------------------------------------------------------------- one reply

  /** do_handle_multiple_account_batch on the batch it finds: record an error or copy the accounts, and count down. */
  function Handle(b: Batch, index: nat, reply: Reply): Batch
    requires b.pending > 0
  {
    var next := match reply
      case Failed(code) => b.(error := Some(Remote(code)))
      case Accounts(infos) =>
        if |infos| + index > |b.response| then b.(error := Some(InvalidResponseSize))
        else b.(response := b.response[..index] + infos + b.response[index + |infos|..]);
    next.(pending := b.pending - 1)
  }

  /** What the waiting caller gets once nothing is pending. */
  function OutcomeOf(b: Batch): Outcome {
    match b.error
    case Some(e) => Throws(e)
    case None => Response(b.response)
  }

  class Batcher {
    const batchSize: nat
    var nextBatchId: nat
    var batches: map<nat, Batch>

    constructor (batchSize: nat)
      requires batchSize > 0
      ensures this.batchSize == batchSize && nextBatchId == 0 && batches == map[]
    {
      this.batchSize, nextBatchId, batches := batchSize, 0, map[];
    }

    /**
     * The first half of do_get_multiple_accounts, up to the wait: open a batch and send its chunks. An empty
     * request is answered at once, with no accounts and no batch.
     */
    method Begin(keys: seq<PublicKey>) returns (batchId: Option<nat>, sent: seq<Chunk>)
      requires batchSize > 0
      modifies this
      ensures keys == [] ==> batchId == None && sent == [] && nextBatchId == old(nextBatchId) && batches == old(batches)
      ensures keys != [] ==> batchId == Some(old(nextBatchId)) && nextBatchId == old(nextBatchId) + 1
                             && batches == old(batches)[old(nextBatchId) := NewBatch(keys, batchSize)]
      ensures sent == Chunks(keys, batchSize) && Cuts(sent, keys, batchSize)
    {
      if keys == [] {
        ChunksCut(keys, batchSize);
        return None, [];
      }
      var id := nextBatchId;
      nextBatchId := nextBatchId + 1;
      var requestCount := |keys| / batchSize + (if |keys| % batchSize > 0 then 1 else 0);
      batches := batches[id := Batch(None, requestCount, seq(|keys|, _ => Unset))];
      sent := CutIntoChunks(keys, batchSize);
      batchId := Some(id);
    }

    /** The chunking loop. */
    static method CutIntoChunks(keys: seq<PublicKey>, batchSize: nat) returns (sent: seq<Chunk>)
      requires batchSize > 0
      ensures sent == Chunks(keys, batchSize) && Cuts(sent, keys, batchSize)
    {
      sent := [];
      var batchIndex := 0;
      while batchIndex < |keys|
        invariant batchIndex == |sent| * batchSize && |sent| <= ChunkCount(|keys|, batchSize)
        invariant forall k :: 0 <= k < |sent| ==> k * batchSize < |keys| && sent[k] == ChunkAt(keys, batchSize, k)
        decreases ChunkCount(|keys|, batchSize) - |sent|
      {
        CountIsTurns(|keys|, batchSize, |sent|);
        var batchRequestSize := Min(batchSize, |keys| - batchIndex);
        sent := sent + [Chunk(batchIndex, keys[batchIndex..batchIndex + batchRequestSize])];
        batchIndex := batchIndex + batchSize;
        NextStart(|sent|, batchSize);
      }
      CountIsTurns(|keys|, batchSize, |sent|);
      ChunksCut(keys, batchSize);
      assert sent == Chunks(keys, batchSize);
    }

    /** A chunk's reply. A batch that is gone is only logged. */
    method OnReply(id: nat, index: nat, reply: Reply) returns (cancelTimer: bool)
      requires id in batches ==> batches[id].pending > 0
      modifies this`batches
      ensures id !in old(batches) ==> batches == old(batches) && !cancelTimer
      ensures id in old(batches) ==> batches == old(batches)[id := Handle(old(batches)[id], index, reply)]
                                     && (cancelTimer <==> batches[id].pending == 0)
    {
      if id !in batches {
        return false;
      }
      var b := batches[id];
      match reply {
        case Failed(code) =>
          b := b.(error := Some(Remote(code)));
        case Accounts(infos) =>
          if |infos| + index > |b.response| {
            b := b.(error := Some(InvalidResponseSize));
          } else {
            b := b.(response := b.response[..index] + infos + b.response[index + |infos|..]);
          }
      }
      b := b.(pending := b.pending - 1);
      batches := batches[id := b];
      cancelTimer := b.pending == 0;
    }

    /** The second half, after the timer was cancelled: take the batch out and answer, or rethrow. */
    method Finish(id: nat) returns (outcome: Outcome)
      requires id in batches
      modifies this`batches
      ensures outcome == OutcomeOf(old(batches)[id]) && batches == old(batches) - {id}
    {
      var b := batches[id];
      batches := batches - {id};
      outcome := match b.error case Some(e) => Throws(e) case None => Response(b.response);
    }
  }

  function NewBatch(keys: seq<PublicKey>, size: nat): Batch
    requires size > 0
  {
    Batch(None, ChunkCount(|keys|, size), seq(|keys|, _ => Unset))
  }

  // ---------------------------------------------------------------- every interleaving

  /**
   * What has become of a request: the chunks sent for it, which of them are still out, and the replies that came back,
   * by starting place.
   */
  datatype Ledger = Ledger(keys: seq<PublicKey>, chunks: seq<Chunk>, outstanding: set<nat>, replies: map<nat, Reply>)

  /** The batcher and its surroundings; `waiting` are the callers still suspended on their timers. */
  datatype State = State(size: nat, nextId: nat, batches: map<nat, Batch>,
                         ledgers: map<nat, Ledger>, waiting: set<nat>, outcomes: map<nat, Outcome>)

  datatype Event =
    | Request(keys: seq<PublicKey>)
    | Arrive(id: nat, index: nat, reply: Reply)
    | Resume(id: nat)
    | Expire(id: nat)

  function Init(size: nat): State {
    State(size, 0, map[], map[], {}, map[])
  }

  /** Anything may happen next: a new request, any chunk's reply, a cancelled or an expired timer. */
  ghost predicate Enabled(s: State, e: Event) {
    match e
    case Request(_) => true
    case Arrive(id, index, _) => id in s.ledgers && index in s.ledgers[id].outstanding
    case Resume(id) => id in s.waiting && id in s.batches && s.batches[id].pending == 0
    case Expire(id) => id in s.waiting
  }

  /** A ledger with one more reply in it. */
  function Recorded(l: Ledger, index: nat, reply: Reply): Ledger {
    l.(outstanding := l.outstanding - {index}, replies := l.replies[index := reply])
  }

  ghost function NewLedger(keys: seq<PublicKey>, size: nat): Ledger
    requires size > 0
  {
    Ledger(keys, Chunks(keys, size), set c | c in Chunks(keys, size) :: c.index, map[])
  }

  /** Batches change as the methods of Batcher say; an expired caller throws and leaves its batch behind. */
  ghost function Next(s: State, e: Event): State
    requires s.size > 0 && Enabled(s, e)
  {
    match e
    case Request(keys) =>
      if keys == [] then s else
      s.(nextId := s.nextId + 1,
         batches := s.batches[s.nextId := NewBatch(keys, s.size)],
         ledgers := s.ledgers[s.nextId := NewLedger(keys, s.size)],
         waiting := s.waiting + {s.nextId})
    case Arrive(id, index, reply) =>
      s.(batches := if id in s.batches && s.batches[id].pending > 0
                    then s.batches[id := Handle(s.batches[id], index, reply)] else s.batches,
         ledgers := s.ledgers[id := Recorded(s.ledgers[id], index, reply)])
    case Resume(id) =>
      s.(batches := s.batches - {id}, waiting := s.waiting - {id},
         outcomes := s.outcomes[id := OutcomeOf(s.batches[id])])
    case Expire(id) =>
      s.(waiting := s.waiting - {id}, outcomes := s.outcomes[id := Throws(TimedOut)])
  }

  /** A reply that makes the whole batch fail: an error, or accounts past the end of the request. */
  predicate ReplyBad(n: nat, index: nat, reply: Reply) {
    reply.Failed? || |reply.infos| + index > n
  }

  /** A successful reply has as many accounts as its chunk asked for. */
  predicate ReplyFits(c: Chunk, reply: Reply) {
    reply.Accounts? ==> |reply.infos| == |c.keys|
  }

  ghost predicate AnyBad(l: Ledger) {
    exists i :: i in l.replies && ReplyBad(|l.keys|, i, l.replies[i])
  }

  ghost predicate Honest(l: Ledger) {
    forall c :: c in l.chunks && c.index in l.replies ==> ReplyFits(c, l.replies[c.index])
  }

  /** Some successful reply spans place `j` of the request. */
  ghost predicate Covered(l: Ledger, j: nat) {
    exists i :: i in l.replies && Spans(i, l.replies[i], j)
  }

  predicate Spans(index: nat, reply: Reply, j: nat) {
    reply.Accounts? && index <= j < index + |reply.infos|
  }

  /** Some successful reply gives `info` for place `j` of the request. */
  ghost predicate AnswerAt(l: Ledger, j: nat, info: AccountInfo) {
    exists i :: i in l.replies && Spans(i, l.replies[i], j) && l.replies[i].infos[j - i] == info
  }

  /** Place `j` of the response is what some reply gave for it, and unset when none did. */
  ghost predicate Answered(l: Ledger, j: nat, info: AccountInfo) {
    if Covered(l, j) then AnswerAt(l, j, info) else info == Unset
  }

  ghost predicate Tracks(l: Ledger, response: seq<AccountInfo>) {
    |response| == |l.keys| && forall j :: 0 <= j < |response| ==> Answered(l, j, response[j])
  }

  ghost predicate LedgerOk(l: Ledger, size: nat)
    requires size > 0
  {
    && l.keys != [] && l.chunks == Chunks(l.keys, size)
    && l.outstanding !! l.replies.Keys
    && l.outstanding + l.replies.Keys == Starts(ChunkCount(|l.keys|, size), size)
  }

  /** A batch in step with its ledger: the countdown, the error, and the accounts copied so far. */
  ghost predicate BatchOk(b: Batch, l: Ledger) {
    && b.pending == |l.outstanding| && |b.response| == |l.keys|
    && (b.error.Some? <==> AnyBad(l)) && b.error != Some(TimedOut)
    && (b.error == None ==> Tracks(l, b.response))
  }

  /** An answer is given only when every chunk has replied and none badly; it then agrees with the replies. */
  ghost predicate OutcomeOk(o: Outcome, l: Ledger) {
    && l.outstanding == {}
    && match o
       case Response(r) => !AnyBad(l) && Tracks(l, r)
       case Throws(e) => AnyBad(l)
  }

  function Get<V>(m: map<nat, V>, id: nat): Option<V> {
    if id in m then Some(m[id]) else None
  }

  /** One request: open, given up by its caller with the batch left behind, or done. */
  ghost predicate Consistent(size: nat, l: Ledger, b: Option<Batch>, waiting: bool, o: Option<Outcome>) {
    && size > 0 && LedgerOk(l, size)
    && match b
       case Some(b) => BatchOk(b, l) && o == (if waiting then None else Some(Throws(TimedOut)))
       case None => !waiting && o.Some? && OutcomeOk(o.value, l)
  }

  ghost predicate RequestOk(s: State, id: nat)
    requires id in s.ledgers
  {
    && id < s.nextId
    && Consistent(s.size, s.ledgers[id], Get(s.batches, id), id in s.waiting, Get(s.outcomes, id))
  }

  ghost predicate Inv(s: State) {
    && s.size > 0
    && s.batches.Keys <= s.ledgers.Keys && s.waiting <= s.ledgers.Keys && s.outcomes.Keys <= s.ledgers.Keys
    && (forall id :: id in s.ledgers ==> RequestOk(s, id))
  }

  lemma StartsApart(i: nat, j: nat, count: nat, size: nat)
    requires size > 0 && i in Starts(count, size) && j in Starts(count, size) && i < j
    ensures i + size <= j
  {
    var k :| 0 <= k < count && k * size == i;
    var m :| 0 <= m < count && m * size == j;
    if m <= k { Scale(m, k, size); }
    Scale(k + 1, m, size);
    assert (k + 1) * size == i + size;
  }

  lemma HandleError(b: Batch, index: nat, reply: Reply)
    requires b.pending > 0
    ensures var b' := Handle(b, index, reply);
            && b'.pending == b.pending - 1 && |b'.response| == |b.response|
            && (b'.error == None <==> b.error == None && !ReplyBad(|b.response|, index, reply))
  {
  }

  lemma RecordedBad(l: Ledger, index: nat, reply: Reply)
    requires index !in l.replies
    ensures AnyBad(Recorded(l, index, reply)) <==> AnyBad(l) || ReplyBad(|l.keys|, index, reply)
  {
    var l' := Recorded(l, index, reply);
    assert index in l'.replies && l'.replies[index] == reply;
    if i :| i in l.replies && ReplyBad(|l.keys|, i, l.replies[i]) {
      assert i in l'.replies && l'.replies[i] == l.replies[i];
    }
    if i :| i in l'.replies && ReplyBad(|l'.keys|, i, l'.replies[i]) {
      assert i != index ==> l'.replies[i] == l.replies[i];
    }
  }

  lemma RecordedOk(l: Ledger, size: nat, index: nat, reply: Reply)
    requires size > 0 && LedgerOk(l, size) && index in l.outstanding
    ensures LedgerOk(Recorded(l, index, reply), size)
    ensures |Recorded(l, index, reply).outstanding| == |l.outstanding| - 1
  {
    hide Starts;
    var l' := Recorded(l, index, reply);
    assert l'.replies.Keys == l.replies.Keys + {index};
    assert l'.outstanding + l'.replies.Keys == l.outstanding + l.replies.Keys;
  }

  /** One more good reply: its own stretch is answered by it, all other places as before. */
  lemma TracksMore(b: Batch, l: Ledger, index: nat, reply: Reply)
    requires b.pending > 0 && index !in l.replies && Tracks(l, b.response) && !ReplyBad(|l.keys|, index, reply)
    ensures Tracks(Recorded(l, index, reply), Handle(b, index, reply).response)
  {
    var l', r' := Recorded(l, index, reply), Handle(b, index, reply).response;
    assert index in l'.replies && l'.replies[index] == reply;
    forall j | 0 <= j < |r'|
      ensures Answered(l', j, r'[j])
    {
      if Spans(index, reply, j) {
        assert r'[j] == reply.infos[j - index];
      } else {
        assert r'[j] == b.response[j] && Answered(l, j, b.response[j]);
        RecordedElsewhere(l, index, reply, j, r'[j]);
      }
    }
  }

  lemma RecordedElsewhere(l: Ledger, index: nat, reply: Reply, j: nat, info: AccountInfo)
    requires index !in l.replies && !Spans(index, reply, j)
    ensures Covered(Recorded(l, index, reply), j) <==> Covered(l, j)
    ensures AnswerAt(l, j, info) ==> AnswerAt(Recorded(l, index, reply), j, info)
  {
    var l' := Recorded(l, index, reply);
    if i :| i in l.replies && Spans(i, l.replies[i], j) {
      assert i in l'.replies && l'.replies[i] == l.replies[i];
    }
    if i :| i in l'.replies && Spans(i, l'.replies[i], j) {
      assert i in l.replies && l'.replies[i] == l.replies[i];
    }
    if i :| i in l.replies && Spans(i, l.replies[i], j) && l.replies[i].infos[j - i] == info {
      assert i in l'.replies && l'.replies[i] == l.replies[i];
    }
  }

  /** The batch that took a reply is in step with the ledger that recorded it. */
  lemma HandleKeepsBatch(b: Batch, l: Ledger, size: nat, index: nat, reply: Reply)
    requires size > 0 && LedgerOk(l, size) && BatchOk(b, l) && index in l.outstanding
    ensures b.pending > 0 && LedgerOk(Recorded(l, index, reply), size)
    ensures BatchOk(Handle(b, index, reply), Recorded(l, index, reply))
  {
    RecordedOk(l, size, index, reply);
    RecordedBad(l, index, reply);
    var l', b' := Recorded(l, index, reply), Handle(b, index, reply);
    HandleError(b, index, reply);
    hide AnyBad, LedgerOk, Tracks, ReplyBad, Handle, Starts, ChunkCount;
    if b'.error == None {
      TracksMore(b, l, index, reply);
    }
  }

  lemma IndicesAreStarts(keys: seq<PublicKey>, size: nat)
    requires size > 0
    ensures (set c | c in Chunks(keys, size) :: c.index) == Starts(ChunkCount(|keys|, size), size)
  {
    var chunks, starts := Chunks(keys, size), Starts(ChunkCount(|keys|, size), size);
    forall i | i in starts
      ensures i in set c | c in chunks :: c.index
    {
      var k :| 0 <= k < |chunks| && k * size == i;
      CountIsTurns(|keys|, size, k);
      assert chunks[k] in chunks && chunks[k].index == i;
    }
    forall c | c in chunks
      ensures c.index in starts
    {
      var k :| 0 <= k < |chunks| && chunks[k] == c;
      CountIsTurns(|keys|, size, k);
      assert c.index == k * size;
    }
  }

  lemma NewBatchOk(keys: seq<PublicKey>, size: nat)
    requires size > 0 && keys != []
    ensures LedgerOk(NewLedger(keys, size), size) && BatchOk(NewBatch(keys, size), NewLedger(keys, size))
  {
    StartsCount(ChunkCount(|keys|, size), size);
    IndicesAreStarts(keys, size);
    assert NewLedger(keys, size).replies.Keys == {};
  }

  // ---------------------------------------------------------------- steps and runs

  /** A reply always finds its batch, with something pending: the countdown never passes zero. */
  lemma ReplyFindsBatch(s: State, id: nat, index: nat, reply: Reply)
    requires Inv(s) && Enabled(s, Arrive(id, index, reply))
    ensures id in s.batches && s.batches[id].pending > 0
  {
    assert RequestOk(s, id);
  }

  /** A request no step touched is as consistent as before. */
  lemma Untouched(s: State, t: State, id: nat)
    requires Inv(s) && id in s.ledgers && id in t.ledgers && t.ledgers[id] == s.ledgers[id]
    requires t.size == s.size && s.nextId <= t.nextId
    requires Get(t.batches, id) == Get(s.batches, id) && Get(t.outcomes, id) == Get(s.outcomes, id)
    requires (id in t.waiting) == (id in s.waiting)
    ensures RequestOk(t, id)
  {
    hide Consistent;
    assert RequestOk(s, id);
  }

  lemma Touched(t: State, id: nat, l: Ledger, b: Option<Batch>, waiting: bool, o: Option<Outcome>)
    requires id in t.ledgers && id < t.nextId && t.ledgers[id] == l && Get(t.batches, id) == b
    requires (id in t.waiting) == waiting && Get(t.outcomes, id) == o && Consistent(t.size, l, b, waiting, o)
    ensures RequestOk(t, id)
  {
    hide Consistent;
  }

  lemma ArriveConsistent(s: State, id: nat, index: nat, reply: Reply)
    requires Inv(s) && Enabled(s, Arrive(id, index, reply))
    ensures id in s.batches && s.batches[id].pending > 0
    ensures Consistent(s.size, Recorded(s.ledgers[id], index, reply), Some(Handle(s.batches[id], index, reply)),
                       id in s.waiting, Get(s.outcomes, id))
  {
    ReplyFindsBatch(s, id, index, reply);
    assert RequestOk(s, id);
    HandleKeepsBatch(s.batches[id], s.ledgers[id], s.size, index, reply);
    hide Handle, Recorded, LedgerOk, BatchOk, OutcomeOk;
  }

  lemma NewConsistent(s: State, keys: seq<PublicKey>)
    requires Inv(s) && keys != []
    ensures Consistent(s.size, NewLedger(keys, s.size), Some(NewBatch(keys, s.size)), true, None)
    ensures s.nextId !in s.ledgers && s.nextId !in s.outcomes
  {
    NewBatchOk(keys, s.size);
    forall id | id in s.ledgers
      ensures id < s.nextId
    {
      assert RequestOk(s, id);
    }
  }

  lemma ResumeConsistent(s: State, id: nat)
    requires Inv(s) && Enabled(s, Resume(id))
    ensures Consistent(s.size, s.ledgers[id], None, false, Some(OutcomeOf(s.batches[id])))
  {
    assert RequestOk(s, id);
  }

  lemma ExpireConsistent(s: State, id: nat)
    requires Inv(s) && Enabled(s, Expire(id))
    ensures Consistent(s.size, s.ledgers[id], Get(s.batches, id), false, Some(Throws(TimedOut)))
    ensures id < s.nextId
  {
    assert RequestOk(s, id);
  }

  lemma ArriveKeeps(s: State, id: nat, index: nat, reply: Reply)
    requires Inv(s) && Enabled(s, Arrive(id, index, reply))
    ensures Inv(Next(s, Arrive(id, index, reply)))
  {
    hide Consistent, LedgerOk, BatchOk, OutcomeOk, Handle, Recorded, OutcomeOf, NewBatch, NewLedger;
    var t := Next(s, Arrive(id, index, reply));
    assert RequestOk(s, id);
    ArriveConsistent(s, id, index, reply);
    Touched(t, id, Recorded(s.ledgers[id], index, reply), Some(Handle(s.batches[id], index, reply)),
            id in s.waiting, Get(s.outcomes, id));
    forall other | other in t.ledgers && other != id
      ensures RequestOk(t, other)
    {
      Untouched(s, t, other);
    }
    hide RequestOk;
  }

  lemma RequestKeeps(s: State, keys: seq<PublicKey>)
    requires Inv(s) && keys != []
    ensures Inv(Next(s, Request(keys)))
  {
    hide Consistent, LedgerOk, BatchOk, OutcomeOk, Handle, Recorded, OutcomeOf, NewBatch, NewLedger;
    var t := Next(s, Request(keys));
    NewConsistent(s, keys);
    Touched(t, s.nextId, NewLedger(keys, s.size), Some(NewBatch(keys, s.size)), true, None);
    forall other | other in t.ledgers && other != s.nextId
      ensures RequestOk(t, other)
    {
      Untouched(s, t, other);
    }
    hide RequestOk;
  }

  lemma EmptyKeeps(s: State)
    requires Inv(s)
    ensures Inv(Next(s, Request([])))
  {
    hide RequestOk;
  }

  lemma ResumeKeeps(s: State, id: nat)
    requires Inv(s) && Enabled(s, Resume(id))
    ensures Inv(Next(s, Resume(id)))
  {
    hide Consistent, LedgerOk, BatchOk, OutcomeOk, Handle, Recorded, OutcomeOf, NewBatch, NewLedger;
    var t := Next(s, Resume(id));
    assert RequestOk(s, id);
    ResumeConsistent(s, id);
    Touched(t, id, s.ledgers[id], None, false, Some(OutcomeOf(s.batches[id])));
    forall other | other in t.ledgers && other != id
      ensures RequestOk(t, other)
    {
      Untouched(s, t, other);
    }
    hide RequestOk;
  }

  lemma ExpireKeeps(s: State, id: nat)
    requires Inv(s) && Enabled(s, Expire(id))
    ensures Inv(Next(s, Expire(id)))
  {
    hide Consistent, LedgerOk, BatchOk, OutcomeOk, Handle, Recorded, OutcomeOf, NewBatch, NewLedger;
    var t := Next(s, Expire(id));
    ExpireConsistent(s, id);
    Touched(t, id, s.ledgers[id], Get(s.batches, id), false, Some(Throws(TimedOut)));
    forall other | other in t.ledgers && other != id
      ensures RequestOk(t, other)
    {
      Untouched(s, t, other);
    }
    hide RequestOk;
  }

  /** Every step keeps the invariant. */
  lemma StepKeepsInv(s: State, e: Event)
    requires Inv(s) && Enabled(s, e)
    ensures Inv(Next(s, e))
  {
    hide Inv, Next;
    match e {
      case Request(keys) => if keys == [] { EmptyKeeps(s); } else { RequestKeeps(s, keys); }
      case Arrive(id, index, reply) => ArriveKeeps(s, id, index, reply);
      case Resume(id) => ResumeKeeps(s, id);
      case Expire(id) => ExpireKeeps(s, id);
    }
  }

  /** A run: every event enabled when it happens. */
  ghost predicate Run(s: State, events: seq<Event>, t: State)
    decreases |events|
  {
    if events == [] then s == t
    else s.size > 0 && Enabled(s, events[0]) && Run(Next(s, events[0]), events[1..], t)
  }

  lemma {:induction false} RunKeepsInv(s: State, events: seq<Event>, t: State)
    requires Inv(s) && Run(s, events, t)
    ensures Inv(t) && t.size == s.size
    decreases |events|
  {
    hide RequestOk;
    if events != [] {
      StepKeepsInv(s, events[0]);
      RunKeepsInv(Next(s, events[0]), events[1..], t);
    }
  }

  /** Which chunk a key belongs to. */
  lemma ChunkOf(n: nat, size: nat, j: nat) returns (i: nat)
    requires size > 0 && j < n
    ensures i in Starts(ChunkCount(n, size), size) && i <= j < i + Min(size, n - i) && i < n
  {
    var k := j / size;
    i := k * size;
    assert j == k * size + j % size;
    CountIsTurns(n, size, k);
  }

  /** A batch that nobody waits for any more. */
  ghost predicate LeftBehind(s: State, id: nat) {
    id in s.batches && id !in s.waiting
  }

  /**
   * In any interleaving of any number of requests, an answered request had every one of its chunks answered without
   * an error, and has at each place what a reply gave for that place, or nothing where no reply reached. When replies
   * have the size asked for, they reach everywhere.
   */
  lemma AnswersMatchKeys(size: nat, events: seq<Event>, t: State, id: nat)
    requires size > 0 && Run(Init(size), events, t)
    requires id in t.ledgers && id in t.outcomes && t.outcomes[id].Response?
    ensures var l, r := t.ledgers[id], t.outcomes[id].infos;
            && l.outstanding == {} && !AnyBad(l) && |r| == |l.keys|
            && (forall j :: 0 <= j < |r| ==> (Covered(l, j) ==> AnswerAt(l, j, r[j])))
            && (forall j :: 0 <= j < |r| ==> (!Covered(l, j) ==> r[j] == Unset))
            && (Honest(l) ==> forall j :: 0 <= j < |r| ==> Covered(l, j))
  {
    RunKeepsInv(Init(size), events, t);
    assert RequestOk(t, id);
    var l, r := t.ledgers[id], t.outcomes[id].infos;
    hide AnyBad, AnswerAt, Covered, Run;
    forall j | 0 <= j < |r| ensures Answered(l, j, r[j]) {
    }
    if Honest(l) {
      forall j | 0 <= j < |r| ensures Covered(l, j) {
        HonestCovers(l, size, j);
      }
    }
  }

  lemma HonestCovers(l: Ledger, size: nat, j: nat)
    requires size > 0 && LedgerOk(l, size) && l.outstanding == {} && !AnyBad(l) && Honest(l) && j < |l.keys|
    ensures Covered(l, j)
  {
    var i := ChunkOf(|l.keys|, size, j);
    assert i in l.outstanding + l.replies.Keys;
    var c := ChunkAsked(l, size, i);
    assert !ReplyBad(|l.keys|, i, l.replies[i]) && ReplyFits(c, l.replies[i]);
    assert Spans(i, l.replies[i], j);
  }

  /** The chunk that a reply answers. */
  lemma ChunkAsked(l: Ledger, size: nat, i: nat) returns (c: Chunk)
    requires size > 0 && LedgerOk(l, size) && i in l.replies
    ensures c in l.chunks && c.index == i < |l.keys| && |c.keys| == Min(size, |l.keys| - i)
    ensures c.keys == l.keys[i..i + |c.keys|]
  {
    assert i in l.outstanding + l.replies.Keys;
    var k: nat :| 0 <= k < |l.chunks| && k * size == i;
    CountIsTurns(|l.keys|, size, k);
    c := l.chunks[k];
  }

  /** A successful reply looks up keys of its chunk in order, from the first on, perhaps not all of them. */
  predicate LooksUp(c: Chunk, reply: Reply, lookup: PublicKey -> AccountInfo) {
    reply.Accounts? ==>
      |reply.infos| <= |c.keys| && forall k :: 0 <= k < |reply.infos| ==> reply.infos[k] == lookup(c.keys[k])
  }

  ghost predicate AllLookUp(l: Ledger, lookup: PublicKey -> AccountInfo) {
    forall c :: c in l.chunks && c.index in l.replies ==> LooksUp(c, l.replies[c.index], lookup)
  }

  lemma CoveredIsLookup(l: Ledger, size: nat, lookup: PublicKey -> AccountInfo, j: nat, info: AccountInfo)
    requires size > 0 && LedgerOk(l, size) && AllLookUp(l, lookup) && j < |l.keys| && AnswerAt(l, j, info)
    ensures info == lookup(l.keys[j])
  {
    var i: nat :| i in l.replies && Spans(i, l.replies[i], j) && l.replies[i].infos[j - i] == info;
    var c := ChunkAsked(l, size, i);
    assert LooksUp(c, l.replies[i], lookup);
    assert c.keys[j - i] == l.keys[j];
  }

  /** The first key a short reply leaves out is answered by no other reply either: chunks lie apart. */
  lemma ShortReplyUncovers(l: Ledger, size: nat, lookup: PublicKey -> AccountInfo, c: Chunk)
    requires size > 0 && LedgerOk(l, size) && AllLookUp(l, lookup)
    requires c in l.chunks && c.index in l.replies && !ReplyFits(c, l.replies[c.index])
    ensures l.replies[c.index].Accounts?
    ensures c.index + |l.replies[c.index].infos| < |l.keys| && !Covered(l, c.index + |l.replies[c.index].infos|)
  {
    var i := c.index;
    var m :| 0 <= m < |l.chunks| && l.chunks[m] == c;
    CountIsTurns(|l.keys|, size, m);
    assert LooksUp(c, l.replies[i], lookup);
    var j := i + |l.replies[i].infos|;
    if k: nat :| k in l.replies && Spans(k, l.replies[k], j) {
      var d := ChunkAsked(l, size, k);
      assert LooksUp(d, l.replies[k], lookup);
      assert i in l.outstanding + l.replies.Keys && k in l.outstanding + l.replies.Keys;
      var count := ChunkCount(|l.keys|, size);
      if k < i { StartsApart(k, i, count, size); }
      if i < k { StartsApart(i, k, count, size); }
    }
  }

  /**
   * Once every chunk has been answered, a request still waited for is done, with an answer if and only if no reply was
   * bad.
   */
  lemma AllRepliesAnswer(size: nat, events: seq<Event>, t: State, id: nat)
    requires size > 0 && Run(Init(size), events, t)
    requires id in t.ledgers && id in t.waiting && t.ledgers[id].outstanding == {}
    ensures t.size > 0 && Enabled(t, Resume(id)) && id in Next(t, Resume(id)).outcomes
    ensures Next(t, Resume(id)).outcomes[id].Response? <==> !AnyBad(t.ledgers[id])
  {
    RunKeepsInv(Init(size), events, t);
    assert RequestOk(t, id);
  }

  /** In every run, the chunks of a request are its keys cut up in order. */
  lemma ChunksAreTheRequest(size: nat, events: seq<Event>, t: State, id: nat)
    requires size > 0 && Run(Init(size), events, t) && id in t.ledgers
    ensures Cuts(t.ledgers[id].chunks, t.ledgers[id].keys, size)
  {
    RunKeepsInv(Init(size), events, t);
    assert RequestOk(t, id);
    ChunksCut(t.ledgers[id].keys, size);
  }

  /**
   * When replies look up the keys their chunks asked for, from the first on, and a lookup is never unset, the answer is
   * the lookup of the whole request if and only if every reply has the size asked for: a short reply is taken without
   * an error.
   */
  lemma AnswerIsLookup(size: nat, events: seq<Event>, t: State, id: nat, lookup: PublicKey -> AccountInfo)
    requires size > 0 && Run(Init(size), events, t)
    requires id in t.ledgers && id in t.outcomes && t.outcomes[id].Response?
    requires AllLookUp(t.ledgers[id], lookup) && forall k :: lookup(k) != Unset
    ensures var l, r := t.ledgers[id], t.outcomes[id].infos;
            (|r| == |l.keys| && forall j :: 0 <= j < |r| ==> r[j] == lookup(l.keys[j])) <==> Honest(l)
  {
    AnswersMatchKeys(size, events, t, id);
    RunKeepsInv(Init(size), events, t);
    assert RequestOk(t, id);
    var l, r := t.ledgers[id], t.outcomes[id].infos;
    hide Run, Inv, Consistent, AllLookUp, Covered, AnswerAt, LedgerOk, AnyBad, ReplyFits;
    if Honest(l) {
      forall j | 0 <= j < |r| ensures r[j] == lookup(l.keys[j]) {
        assert Covered(l, j);
        CoveredIsLookup(l, size, lookup, j, r[j]);
      }
    } else {
      var c :| c in l.chunks && c.index in l.replies && !ReplyFits(c, l.replies[c.index]);
      ShortReplyUncovers(l, size, lookup, c);
      var j := c.index + |l.replies[c.index].infos|;
      assert r[j] == Unset != lookup(l.keys[j]);
    }
  }

  /** One failed chunk is enough: its request is never answered. */
  lemma FailureIsFinal(size: nat, events: seq<Event>, t: State, id: nat, i: nat)
    requires size > 0 && Run(Init(size), events, t)
    requires id in t.ledgers && i in t.ledgers[id].replies && t.ledgers[id].replies[i].Failed?
    ensures id in t.outcomes ==> t.outcomes[id].Throws?
  {
    RunKeepsInv(Init(size), events, t);
    assert RequestOk(t, id);
    assert ReplyBad(|t.ledgers[id].keys|, i, t.ledgers[id].replies[i]);
  }

  lemma StepLeavesBehind(s: State, e: Event, id: nat)
    requires Inv(s) && Enabled(s, e)
    ensures LeftBehind(Next(s, e), id) <==> LeftBehind(s, id) || e == Expire(id)
  {
    hide LedgerOk, BatchOk, OutcomeOk, Handle, Recorded;
    if id in s.ledgers { assert RequestOk(s, id); }
    match e {
      case Request(keys) =>
      case Arrive(other, index, reply) => ReplyFindsBatch(s, other, index, reply);
      case Resume(other) => assert RequestOk(s, other);
      case Expire(other) => assert RequestOk(s, other);
    }
  }

  /** A batch whose caller timed out is never taken out again, whatever still arrives, and no other is left behind. */
  lemma {:induction false} ExpiredBatchStays(s: State, events: seq<Event>, t: State, id: nat)
    requires Inv(s) && Run(s, events, t)
    ensures LeftBehind(t, id) <==> LeftBehind(s, id) || Expire(id) in events
    decreases |events|
  {
    hide Inv, Next, Enabled, LeftBehind;
    if events != [] {
      StepKeepsInv(s, events[0]);
      StepLeavesBehind(s, events[0], id);
      ExpiredBatchStays(Next(s, events[0]), events[1..], t, id);
      assert events == [events[0]] + events[1..];
    }
  }

  /** In any run from the start, the batches left in the map with nobody waiting are exactly those that timed out. */
  lemma LeftBehindExactly(size: nat, events: seq<Event>, t: State, id: nat)
    requires size > 0 && Run(Init(size), events, t)
    ensures id in t.batches && id !in t.waiting <==> Expire(id) in events
  {
    ExpiredBatchStays(Init(size), events, t, id);
  }

  lemma RunStep(s: State, e: Event, events: seq<Event>, t: State, all: seq<Event>)
    requires s.size > 0 && Enabled(s, e) && Run(Next(s, e), events, t) && all == [e] + events
    ensures Run(s, all, t)
  {
    assert all[1..] == events;
  }

  lemma OneChunk(keys: seq<PublicKey>, size: nat)
    requires 0 < |keys| <= size
    ensures ChunkCount(|keys|, size) == 1 && Starts(1, size) == {0}
    ensures NewLedger(keys, size).outstanding == {0}
  {
    CountIsTurns(|keys|, size, 1);
    CountIsTurns(|keys|, size, 0);
    IndicesAreStarts(keys, size);
    assert 0 * size == 0;
    assert 0 * size in Starts(1, size);
  }

  /** A run in which a short reply is taken without an error and the second place of the answer is never set. */
  lemma ShortReplyLeavesHole(info: AccountInfo) returns (t: State)
    ensures Run(Init(2), [Request([1, 2]), Arrive(0, 0, Accounts([info])), Resume(0)], t)
    ensures 0 in t.outcomes && t.outcomes[0] == Response([info, Unset])
  {
    OneChunk([1, 2], 2);
    var s1 := Next(Init(2), Request([1, 2]));
    assert s1.batches[0].response == [Unset, Unset];
    var reply := Accounts([info]);
    var s2 := Next(s1, Arrive(0, 0, reply));
    assert s2.batches[0] == Handle(s1.batches[0], 0, reply);
    assert s1.batches[0].response[..0] + [info] + s1.batches[0].response[1..] == [info, Unset];
    t := Next(s2, Resume(0));
    RunStep(s2, Resume(0), [], t, [Resume(0)]);
    RunStep(s1, Arrive(0, 0, reply), [Resume(0)], t, [Arrive(0, 0, reply), Resume(0)]);
    RunStep(Init(2), Request([1, 2]), [Arrive(0, 0, reply), Resume(0)], t,
            [Request([1, 2]), Arrive(0, 0, reply), Resume(0)]);
  }

  /** A run that ends with every reply in and a batch that nobody will take out. */
  lemma TimeoutLeavesBatch(info: AccountInfo) returns (t: State)
    ensures Run(Init(1), [Request([1]), Expire(0), Arrive(0, 0, Accounts([info]))], t)
    ensures LeftBehind(t, 0) && t.batches[0].pending == 0 && 0 in t.outcomes && t.outcomes[0] == Throws(TimedOut)
  {
    OneChunk([1], 1);
    var reply := Accounts([info]);
    var s1 := Next(Init(1), Request([1]));
    var s2 := Next(s1, Expire(0));
    t := Next(s2, Arrive(0, 0, reply));
    RunStep(s2, Arrive(0, 0, reply), [], t, [Arrive(0, 0, reply)]);
    RunStep(s1, Expire(0), [Arrive(0, 0, reply)], t, [Expire(0), Arrive(0, 0, reply)]);
    RunStep(Init(1), Request([1]), [Expire(0), Arrive(0, 0, reply)], t,
            [Request([1]), Expire(0), Arrive(0, 0, reply)]);
  }
}
