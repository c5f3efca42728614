/**
 * The write queue of a web socket, src/synthfi/Io/WebSocket/WebSocketBase.hpp: senders push messages, and the one
 * that finds the queue empty spawns a writer. A writer runs on until it waits for the reconnect timer or for a write;
 * what happens in between those points is one step here.
 */
module WriteQueue {
  type Message = string

  /** Where a live writer stands: not yet run, waiting on the timer, or with a message being written. */
  datatype Writer = Spawned | Waiting | Writing(message: Message)

  /** The queue, and every writer alive. Nothing here says there is but one. */
  datatype Core = Core(queue: seq<Message>, writers: seq<Writer>)

  function Without(writers: seq<Writer>, k: nat): seq<Writer>
    requires k < |writers|
  {
    writers[..k] + writers[k + 1..]
  }

  function Sent(c: Core, message: Message): Core {
    Core(c.queue + [message], if c.queue == [] then c.writers + [Spawned] else c.writers)
  }

  /** A writer at the head of its loop, up to its next wait or its end. */
  function Looped(c: Core, k: nat, open: bool): Core
    requires k < |c.writers|
  {
    if c.queue == [] then c.(writers := Without(c.writers, k))
    else c.(writers := c.writers[k := if open then Writing(c.queue[0]) else Waiting])
  }

  /** The timer is done: it expired or was cancelled, and the writer goes on, or it failed. */
  function Woken(c: Core, k: nat, fault: bool): Core
    requires k < |c.writers| && c.queue != []
  {
    c.(writers := if fault then Without(c.writers, k) else c.writers[k := Writing(c.queue[0])])
  }

  /** The write is done: the front goes and the writer loops, or everything goes and the writer ends. */
  function WriteOver(c: Core, k: nat, ok: bool, open: bool): Core
    requires k < |c.writers| && c.queue != []
  {
    if ok then Looped(c.(queue := c.queue[1..]), k, open) else Core([], Without(c.writers, k))
  }

  class WebSocket {
    var writeBuffer: seq<Message>
    var writers: seq<Writer>

    function Value(): Core
      reads this
    {
      Core(writeBuffer, writers)
    }

    constructor ()
      ensures Value() == Core([], [])
    {
      writeBuffer, writers := [], [];
    }

    method SendMessage(message: Message)
      modifies this
      ensures Value() == Sent(old(Value()), message)
    {
      writeBuffer := writeBuffer + [message];
      if |writeBuffer| == 1 {
        writers := writers + [Spawned];
      }
    }

    method Loop(k: nat, open: bool)
      requires k < |writers|
      modifies this
      ensures Value() == Looped(old(Value()), k, open)
    {
      if writeBuffer != [] {
        if !open {
          writers := writers[k := Waiting];
        } else {
          writers := writers[k := Writing(writeBuffer[0])];
        }
      } else {
        writers := Without(writers, k);
      }
    }

    method OnTimer(k: nat, fault: bool)
      requires k < |writers| && writeBuffer != []
      modifies this
      ensures Value() == Woken(old(Value()), k, fault)
    {
      if fault {
        writers := Without(writers, k);
        return;
      }
      writers := writers[k := Writing(writeBuffer[0])];
    }

    method OnWritten(k: nat, ok: bool, open: bool)
      requires k < |writers| && writeBuffer != []
      modifies this
      ensures Value() == WriteOver(old(Value()), k, ok, open)
    {
      if !ok {
        writeBuffer := [];
        writers := Without(writers, k);
        return;
      }
      writeBuffer := writeBuffer[1..];
      Loop(k, open);
    }
  }

  // ---------------------------------------------------------------- every interleaving

  /** What became of a message that left the queue: written, lost in a failing write, or dropped behind one. */
  datatype Fate = Written | Failed | Dropped
  datatype Settled = Settled(message: Message, fate: Fate)

  /** The queue with its history: all messages submitted, those on the wire, and the fate of each that left. */
  datatype State = State(core: Core, faulted: bool, submitted: seq<Message>, wire: seq<Message>, settled: seq<Settled>)

  datatype Event =
    | Send(message: Message)
    | Start(k: nat, open: bool)
    | Timer(k: nat, fault: bool)
    | Done(k: nat, ok: bool, open: bool)

  function Init(): State {
    State(Core([], []), false, [], [], [])
  }

  predicate Enabled(s: State, e: Event) {
    match e
    case Send(_) => true
    case Start(k, _) => k < |s.core.writers| && s.core.writers[k].Spawned?
    case Timer(k, _) => k < |s.core.writers| && s.core.writers[k].Waiting?
    case Done(k, _, _) => k < |s.core.writers| && s.core.writers[k].Writing?
  }

  /** All of a queue with one fate. */
  function All(queue: seq<Message>, fate: Fate): seq<Settled> {
    seq(|queue|, i requires 0 <= i < |queue| => Settled(queue[i], fate))
  }

  /** A timer or a write is never done on an empty queue (FrontIsThere), where the source would read past its end. */
  function Next(s: State, e: Event): State
    requires Enabled(s, e)
  {
    match e
    case Send(message) =>
      s.(core := Sent(s.core, message), submitted := s.submitted + [message])
    case Start(k, open) =>
      s.(core := Looped(s.core, k, open))
    case Timer(k, fault) =>
      if s.core.queue == [] then s
      else s.(core := Woken(s.core, k, fault), faulted := s.faulted || fault)
    case Done(k, ok, open) =>
      if s.core.queue == [] then s
      else
        var message, core := s.core.writers[k].message, WriteOver(s.core, k, ok, open);
        if ok then
          s.(core := core, wire := s.wire + [message], settled := s.settled + [Settled(message, Written)])
        else
          s.(core := core, settled := s.settled + [Settled(message, Failed)] + All(s.core.queue[1..], Dropped))
  }

  function Messages(settled: seq<Settled>): seq<Message> {
    seq(|settled|, i requires 0 <= i < |settled| => settled[i].message)
  }

  /** Those that were written, in order. */
  function WrittenOf(settled: seq<Settled>): seq<Message> {
    if settled == [] then []
    else
      var last := settled[|settled| - 1];
      WrittenOf(settled[..|settled| - 1]) + (if last.fate == Written then [last.message] else [])
  }

  /** A message is dropped only right behind one that failed or was dropped. */
  ghost predicate GapsStartAtErrors(settled: seq<Settled>) {
    forall i :: 0 <= i < |settled| && settled[i].fate == Dropped ==> i > 0 && settled[i - 1].fate != Written
  }

  /** At most one writer, live just when the queue is nonempty, writing its front; none ever after a fault. */
  ghost predicate OneWriter(s: State) {
    && |s.core.writers| == (if s.core.queue != [] && !s.faulted then 1 else 0)
    && (s.faulted ==> s.core.queue != [])
    && (forall k :: 0 <= k < |s.core.writers| && s.core.writers[k].Writing? ==> s.core.writers[k].message == s.core.queue[0])
  }

  ghost predicate Inv(s: State) {
    && OneWriter(s)
    && s.submitted == Messages(s.settled) + s.core.queue
    && s.wire == WrittenOf(s.settled)
    && GapsStartAtErrors(s.settled)
  }

  lemma FrontIsThere(s: State, e: Event)
    requires Inv(s) && Enabled(s, e) && !e.Send?
    ensures s.core.queue != [] && !s.faulted && |s.core.writers| == 1 && e.k == 0
  {
  }

  lemma StepKeepsOneWriter(s: State, e: Event)
    requires OneWriter(s) && Enabled(s, e)
    ensures OneWriter(Next(s, e))
  {
  }

  lemma MessagesOf(a: seq<Settled>, b: seq<Settled>)
    ensures Messages(a + b) == Messages(a) + Messages(b)
  {
  }

  lemma {:induction false} WrittenMore(a: seq<Settled>, b: seq<Settled>)
    ensures WrittenOf(a + b) == WrittenOf(a) + WrittenOf(b)
  {
    if b == [] {
      assert a + b == a;
    } else {
      var n := |b| - 1;
      WrittenMore(a, b[..n]);
      assert (a + b)[..|a + b| - 1] == a + b[..n];
    }
  }

  lemma {:induction false} NoneWritten(b: seq<Settled>)
    requires forall i :: 0 <= i < |b| ==> b[i].fate != Written
    ensures WrittenOf(b) == []
  {
    if b != [] {
      NoneWritten(b[..|b| - 1]);
    }
  }

  ghost predicate StartsAtError(b: seq<Settled>) {
    b != [] && b[0].fate == Failed && forall i :: 0 <= i < |b| ==> b[i].fate != Written
  }

  /** The fates given when a write is over. */
  function Fates(queue: seq<Message>, ok: bool): seq<Settled>
    requires queue != []
  {
    if ok then [Settled(queue[0], Written)] else [Settled(queue[0], Failed)] + All(queue[1..], Dropped)
  }

  lemma FatesCover(queue: seq<Message>, ok: bool)
    requires queue != []
    ensures queue == Messages(Fates(queue, ok)) + (if ok then queue[1..] else [])
    ensures WrittenOf(Fates(queue, ok)) == if ok then [queue[0]] else []
    ensures StartsAtError(Fates(queue, ok)) || (|Fates(queue, ok)| == 1 && Fates(queue, ok)[0].fate == Written)
  {
    var left := Fates(queue, ok);
    if ok {
      assert left[..0] == [];
    } else {
      NoneWritten(left);
    }
  }

  lemma GapsMore(a: seq<Settled>, b: seq<Settled>)
    requires GapsStartAtErrors(a) && (StartsAtError(b) || (|b| == 1 && b[0].fate == Written))
    ensures GapsStartAtErrors(a + b)
  {
    var all := a + b;
    forall i | 0 <= i < |all| && all[i].fate == Dropped
      ensures i > 0 && all[i - 1].fate != Written
    {
      if i > |a| {
        assert all[i - 1] == b[i - |a| - 1];
      }
    }
  }

  lemma DoneSettles(s: State, k: nat, ok: bool, open: bool)
    requires Inv(s) && Enabled(s, Done(k, ok, open))
    ensures var t := Next(s, Done(k, ok, open));
            && s.core.queue != [] && t.settled == s.settled + Fates(s.core.queue, ok) && t.submitted == s.submitted
            && t.core.queue == (if ok then s.core.queue[1..] else [])
            && t.wire == s.wire + (if ok then [s.core.queue[0]] else [])
  {
    FrontIsThere(s, Done(k, ok, open));
    hide All;
  }

  lemma DoneKeeps(s: State, k: nat, ok: bool, open: bool)
    requires Inv(s) && Enabled(s, Done(k, ok, open))
    ensures Inv(Next(s, Done(k, ok, open)))
  {
    hide Messages, WrittenOf, GapsStartAtErrors, StartsAtError, Next, Fates, All;
    StepKeepsOneWriter(s, Done(k, ok, open));
    DoneSettles(s, k, ok, open);
    var q := s.core.queue;
    var left := Fates(q, ok);
    FatesCover(q, ok);
    MessagesOf(s.settled, left);
    WrittenMore(s.settled, left);
    GapsMore(s.settled, left);
    hide OneWriter;
  }

  lemma StepKeepsInv(s: State, e: Event)
    requires Inv(s) && Enabled(s, e)
    ensures Inv(Next(s, e))
  {
    if e.Done? {
      DoneKeeps(s, e.k, e.ok, e.open);
    } else {
      StepKeepsOneWriter(s, e);
      if !e.Send? { FrontIsThere(s, e); }
      hide OneWriter, Messages, WrittenOf, GapsStartAtErrors;
    }
  }

  ghost predicate Run(s: State, events: seq<Event>, t: State)
    decreases |events|
  {
    if events == [] then s == t else Enabled(s, events[0]) && Run(Next(s, events[0]), events[1..], t)
  }

  lemma {:induction false} RunKeepsInv(s: State, events: seq<Event>, t: State)
    requires Inv(s) && Run(s, events, t)
    ensures Inv(t)
    decreases |events|
  {
    hide Inv, Next, Enabled;
    if events != [] {
      StepKeepsInv(s, events[0]);
      RunKeepsInv(Next(s, events[0]), events[1..], t);
    }
  }

  /** In every interleaving: never two writers, and one just while there is something to write and no timer failed. */
  lemma SingleWriter(events: seq<Event>, t: State)
    requires Run(Init(), events, t)
    ensures |t.core.writers| <= 1
    ensures |t.core.writers| == 1 <==> t.core.queue != [] && !t.faulted
  {
    assert Init().submitted == Messages([]) + [];
    RunKeepsInv(Init(), events, t);
  }

  /** `a` is `b` with some elements left out. */
  ghost predicate Subsequence<T(!new)>(a: seq<T>, b: seq<T>)
    decreases |b|
  {
    if b == [] then a == []
    else
      var n := |b| - 1;
      Subsequence(a, b[..n]) || (a != [] && a[|a| - 1] == b[n] && Subsequence(a[..|a| - 1], b[..n]))
  }

  lemma {:induction false} WrittenInOrder(settled: seq<Settled>, queue: seq<Message>)
    ensures Subsequence(WrittenOf(settled), Messages(settled) + queue)
    decreases |settled|, |queue|
  {
    var b := Messages(settled) + queue;
    var n := |b| - 1;
    if queue != [] {
      WrittenInOrder(settled, queue[..|queue| - 1]);
      assert b[..n] == Messages(settled) + queue[..|queue| - 1];
    } else if settled != [] {
      var front := settled[..|settled| - 1];
      WrittenInOrder(front, []);
      assert b[..n] == Messages(front) + [];
      var w := WrittenOf(settled);
      if settled[n].fate == Written {
        assert w == WrittenOf(front) + [b[n]];
        assert w[..|w| - 1] == WrittenOf(front);
      } else {
        assert w == WrittenOf(front);
      }
    }
  }

  /**
   * First in, first out: what reached the wire is what was submitted, in order, with some left out; each message has
   * one fate or is still queued, and none is left out but in a failing write or queued behind one.
   */
  lemma FirstInFirstOut(events: seq<Event>, t: State)
    requires Run(Init(), events, t)
    ensures Subsequence(t.wire, t.submitted)
    ensures t.submitted == Messages(t.settled) + t.core.queue && t.wire == WrittenOf(t.settled)
    ensures GapsStartAtErrors(t.settled)
  {
    assert Init().submitted == Messages([]) + [];
    RunKeepsInv(Init(), events, t);
    WrittenInOrder(t.settled, t.core.queue);
    hide Subsequence, Messages, WrittenOf, GapsStartAtErrors, OneWriter;
  }

  lemma {:induction false} FullyWritten(settled: seq<Settled>)
    ensures |WrittenOf(settled)| <= |settled|
    ensures |WrittenOf(settled)| == |settled| <==> forall i :: 0 <= i < |settled| ==> settled[i].fate == Written
    ensures |WrittenOf(settled)| == |settled| ==> WrittenOf(settled) == Messages(settled)
  {
    if settled != [] {
      var n := |settled| - 1;
      var front := settled[..n];
      FullyWritten(front);
      assert Messages(settled) == Messages(front) + [settled[n].message];
      assert forall i :: 0 <= i < n ==> settled[i] == front[i];
    }
  }

  lemma {:induction false} FirstGapIsError(settled: seq<Settled>)
    requires GapsStartAtErrors(settled) && forall i :: 0 <= i < |settled| ==> settled[i].fate != Failed
    ensures forall i :: 0 <= i < |settled| ==> settled[i].fate == Written
  {
    if settled != [] {
      var n := |settled| - 1;
      FirstGapIsError(settled[..n]);
      assert n > 0 ==> settled[..n][n - 1].fate == Written;
      assert forall i :: 0 <= i < n ==> settled[..n][i] == settled[i];
    }
  }

  lemma AllWritten(settled: seq<Settled>)
    requires GapsStartAtErrors(settled)
    ensures (forall i :: 0 <= i < |settled| ==> settled[i].fate != Failed) <==> WrittenOf(settled) == Messages(settled)
  {
    FullyWritten(settled);
    if forall i :: 0 <= i < |settled| ==> settled[i].fate != Failed {
      FirstGapIsError(settled);
    }
  }

  /** Nothing is missing from the wire but what is still queued, exactly when no write failed. */
  lemma NoLossWithoutError(events: seq<Event>, t: State)
    requires Run(Init(), events, t)
    ensures (forall i :: 0 <= i < |t.settled| ==> t.settled[i].fate != Failed) <==> t.submitted == t.wire + t.core.queue
  {
    FirstInFirstOut(events, t);
    AllWritten(t.settled);
    hide Run, WrittenOf, GapsStartAtErrors;
    if t.submitted == t.wire + t.core.queue {
      assert |t.wire| == |Messages(t.settled)|;
      assert t.wire == t.submitted[..|t.wire|] == Messages(t.settled);
    }
  }

  /**
   * Steps until all is written, if waits and writes succeed and the socket is open, or closed, all the while: a write
   * for each message, with a wait before it on a closed socket, and the writer's start.
   */
  function StepsLeft(c: Core, open: bool): nat
    requires c.queue != [] ==> c.writers != []
  {
    if c.queue == [] then 0 else
      var others := if open then |c.queue| - 1 else 2 * |c.queue| - 2;
      match c.writers[0]
      case Spawned => (if open then 2 else 3) + others
      case Waiting => 2 + others
      case Writing(_) => 1 + others
  }

  lemma FrontBack(wire: seq<Message>, queue: seq<Message>)
    requires queue != []
    ensures wire + [queue[0]] + queue[1..] == wire + queue
  {
  }

  /** The successful step of the writer. */
  lemma DrainStep(s: State, open: bool) returns (e: Event)
    requires Inv(s) && !s.faulted && s.core.queue != []
    ensures Enabled(s, e) && !Next(s, e).faulted && Inv(Next(s, e))
    ensures s.core.writers != [] && StepsLeft(Next(s, e).core, open) == StepsLeft(s.core, open) - 1
    ensures Next(s, e).wire + Next(s, e).core.queue == s.wire + s.core.queue
  {
    e := match s.core.writers[0]
      case Spawned => Start(0, open)
      case Waiting => Timer(0, false)
      case Writing(_) => Done(0, true, open);
    StepKeepsInv(s, e);
    hide Messages, WrittenOf, GapsStartAtErrors, All, Fates;
    if e.Done? {
      var q := s.core.queue;
      DoneSettles(s, 0, true, open);
      FrontBack(s.wire, q);
    }
  }

  /**
   * Every queue that no timer fault has stranded can be written to its end: all that is queued reaches the wire in
   * order, in as many steps as that takes, and the writer ends.
   */
  lemma {:induction false} QueueDrains(s: State, open: bool) returns (events: seq<Event>, t: State)
    requires Inv(s) && !s.faulted
    ensures Run(s, events, t) && t.core == Core([], []) && t.wire == s.wire + s.core.queue
    ensures (s.core.queue != [] ==> s.core.writers != []) && |events| == StepsLeft(s.core, open)
    decreases if s.core.queue == [] || s.core.writers == [] then 0 else StepsLeft(s.core, open)
  {
    if s.core.queue == [] {
      events, t := [], s;
    } else {
      var e := DrainStep(s, open);
      hide Inv, StepsLeft, Next, Enabled;
      var rest;
      rest, t := QueueDrains(Next(s, e), open);
      events := [e] + rest;
      assert events[1..] == rest;
    }
  }

  /** A fault is a failed timer of a live writer, and nothing else. */
  lemma {:induction false} FaultExactly(s: State, events: seq<Event>, t: State)
    requires Inv(s) && Run(s, events, t)
    ensures t.faulted <==> s.faulted || exists k :: Timer(k, true) in events
    decreases |events|
  {
    if events != [] {
      var e, rest := events[0], events[1..];
      StepKeepsInv(s, e);
      if !e.Send? { FrontIsThere(s, e); }
      FaultExactly(Next(s, e), rest, t);
      assert events == [e] + rest;
      assert forall k :: Timer(k, true) in events <==> e == Timer(k, true) || Timer(k, true) in rest;
    }
  }

  /** A run from the start that reaches one: the socket is closed, and the reconnect timer fails. */
  lemma FaultHappens(message: Message) returns (t: State)
    ensures Run(Init(), [Send(message), Start(0, false), Timer(0, true)], t)
    ensures t.faulted && t.core == Core([message], []) && t.wire == []
  {
    var s1 := Next(Init(), Send(message));
    var s2 := Next(s1, Start(0, false));
    t := Next(s2, Timer(0, true));
    assert Run(s2, [Timer(0, true)], t) by { assert [Timer(0, true)][1..] == []; }
    var two, three := [Start(0, false), Timer(0, true)], [Send(message), Start(0, false), Timer(0, true)];
    assert two[1..] == [Timer(0, true)] && three[1..] == two;
  }

  /** After a timer fault nothing is written any more: what is sent piles up behind the queue of that moment. */
  lemma {:induction false} FaultIsForever(s: State, events: seq<Event>, t: State)
    requires Inv(s) && s.faulted && Run(s, events, t)
    ensures t.faulted && t.core.writers == [] && t.wire == s.wire && t.settled == s.settled
    ensures s.core.queue <= t.core.queue && |t.core.queue| == |s.core.queue| + |events|
    decreases |events|
  {
    if events != [] {
      StepKeepsInv(s, events[0]);
      FaultIsForever(Next(s, events[0]), events[1..], t);
    }
  }
}
