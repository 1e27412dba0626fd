/**
  The write side of a session as a state machine. Each action is one section that the program runs under
  the write lock, one access to the unprotected m_closed, or one event on the socket; every interleaving of
  actions is a run. Packets are sequences of bytes, and the bytes that reach the wire are recorded one
  transmission at a time.
 */
module Pump {
  import opened Bytes

  type Packet = seq<byte>

  /** An asynchronous write that has been started, with the number of its bytes already on the wire. */
  datatype Write = Write(packet: Packet, sent: nat)

  /** A completion handler waiting to run, with the outcome reported to it. */
  datatype Completion = Completion(write: Write, ok: bool)

  datatype State = State(
    // the fields of the session
    queue: seq<Packet>, inProgress: bool, closed: bool,
    // where its threads are: doWrite calls before their lock section, writes, handlers; Close calls that have
    // found m_closed unset but not yet set it, and Close calls that have set it but not yet cleared the queue
    calls: nat, writing: seq<Write>, finished: seq<Completion>, marks: nat, clears: nat,
    // history: what was enqueued, completed and transmitted; how much had been enqueued when Close last cleared
    // the queue; how often the close handler was called; whether pop_front was called on an empty queue
    enqueued: seq<Packet>, completed: seq<Packet>, wire: seq<byte>, cleared: Option<nat>, notices: nat, fault: bool)

  const INITIAL: State := State([], false, false, 0, [], [], 0, 0, [], [], [], None, 0, false)

  datatype Action =
    | Enqueue(packet: Packet)           // the lock section of enqueueWrite
    | DoWrite                           // the lock section of doWrite and the async_write it starts
    | Transmit(which: nat, count: nat)  // the socket takes some bytes of a started write
    | Finish(which: nat, ok: bool)      // a started write ends and its handler is queued
    | Handle(which: nat)                // a handler runs up to its doWrite call, or to the test in Close on an error
    | TestClosed                        // Close reads m_closed
    | MarkClosed                        // Close sets m_closed and closes the socket
    | Clear                             // the lock section of Close, and the call of the close handler

  // ---- The sections ----

  function EnqueueSection(s: State, p: Packet): State
  {
    s.(queue := s.queue + [p], enqueued := s.enqueued + [p], inProgress := true,
       calls := if s.inProgress then s.calls else s.calls + 1)
  }

  function DoWriteSection(s: State): State
    requires s.calls > 0
  {
    if s.queue == [] then s.(calls := s.calls - 1, inProgress := false)
    else s.(calls := s.calls - 1, writing := s.writing + [Write(s.queue[0], 0)])
  }

  function TestSection(s: State): State
  {
    if s.closed then s else s.(marks := s.marks + 1)
  }

  function MarkSection(s: State): State
    requires s.marks > 0
  {
    s.(marks := s.marks - 1, closed := true, clears := s.clears + 1)
  }

  function ClearSection(s: State): State
    requires s.clears > 0
  {
    s.(clears := s.clears - 1, queue := [], cleared := Some(|s.enqueued|), notices := s.notices + 1)
  }

  function Without<T>(xs: seq<T>, i: nat): seq<T>
    requires i < |xs|
  {
    xs[..i] + xs[i + 1..]
  }

  function HandleSection(s: State, i: nat): State
    requires i < |s.finished|
  {
    var c := s.finished[i];
    if !c.ok then TestSection(s.(finished := Without(s.finished, i)))
    else if s.queue == [] then s.(fault := true)
    else s.(finished := Without(s.finished, i), queue := s.queue[1..], completed := s.completed + [c.write.packet],
            calls := s.calls + 1)
  }

  /** Nothing is transmitted on a closed socket, and a write succeeds only on an open one after its last byte. */
  predicate Enabled(s: State, a: Action)
  {
    && !s.fault
    && match a
       case Enqueue(_) => true
       case DoWrite => s.calls > 0
       case Transmit(i, n) => !s.closed && i < |s.writing| && s.writing[i].sent + n <= |s.writing[i].packet|
       case Finish(i, ok) => i < |s.writing| && (ok ==> !s.closed && s.writing[i].sent == |s.writing[i].packet|)
       case Handle(i) => i < |s.finished|
       case TestClosed => true
       case MarkClosed => s.marks > 0
       case Clear => s.clears > 0
  }

  function Apply(s: State, a: Action): State
    requires Enabled(s, a)
  {
    match a
    case Enqueue(p) => EnqueueSection(s, p)
    case DoWrite => DoWriteSection(s)
    case Transmit(i, n) =>
      var w := s.writing[i];
      s.(writing := s.writing[i := Write(w.packet, w.sent + n)], wire := s.wire + w.packet[w.sent..w.sent + n])
    case Finish(i, ok) =>
      s.(writing := Without(s.writing, i), finished := s.finished + [Completion(s.writing[i], ok)])
    case Handle(i) => HandleSection(s, i)
    case TestClosed => TestSection(s)
    case MarkClosed => MarkSection(s)
    case Clear => ClearSection(s)
  }

  /** The state after a sequence of actions, if each was enabled when it was taken. */
  function Run(s: State, acts: seq<Action>): Option<State>
    decreases |acts|
  {
    if acts == [] then Some(s)
    else if Enabled(s, acts[0]) then Run(Apply(s, acts[0]), acts[1..])
    else None
  }

  // ---- The invariant ----

  /** No call of Close has passed its test. */
  predicate Open(s: State) { !s.closed && s.marks == 0 }

  /** The threads that hold the pump: at most one of them may exist. */
  function Tokens(s: State): nat { s.calls + |s.writing| + |s.finished| }

  /** The bytes of the packet being written that are on the wire. */
  ghost predicate OnTheWay(s: State, w: Write)
  {
    && s.queue != [] && w.packet == s.queue[0]
    && w.sent <= |w.packet|
    && s.wire == Flatten(s.completed) + w.packet[..w.sent]
  }

  /** Before the queue is cleared: one write at a time, of the front packet, and nothing lost or reordered. */
  ghost predicate LiveInv(s: State)
  {
    && s.enqueued == s.completed + s.queue
    && (s.queue != [] ==> s.inProgress)
    && (forall w <- s.writing :: OnTheWay(s, w))
    && (forall c <- s.finished :: OnTheWay(s, c.write) && (c.ok ==> c.write.sent == |c.write.packet|))
    && (s.calls > 0 || !s.inProgress ==> s.wire == Flatten(s.completed))
  }

  /** After the queue is cleared: what had been done stays a prefix of what was enqueued. */
  ghost predicate ClearedInv(s: State, at: nat)
  {
    && at <= |s.enqueued|
    && s.completed <= s.enqueued
    && s.wire <= Flatten(s.enqueued)
    && (forall c <- s.finished :: c.ok ==>
          s.completed + [c.write.packet] <= s.enqueued && s.queue == s.enqueued[at..])
  }

  ghost predicate Inv(s: State)
  {
    && Tokens(s) <= 1
    && (s.inProgress || Tokens(s) == 0)
    && (Open(s) && s.inProgress ==> Tokens(s) == 1)
    && (s.closed <==> s.clears + s.notices > 0)
    && (s.cleared.Some? <==> s.notices > 0)
    && (match s.cleared case None => LiveInv(s) && s.wire <= Flatten(s.enqueued) case Some(at) => ClearedInv(s, at))
    && (s.fault ==> s.cleared == Some(|s.enqueued|))
  }

  lemma OnTheWayIsPrefix(s: State, w: Write)
    requires LiveInv(s) && OnTheWay(s, w)
    ensures s.wire <= Flatten(s.enqueued)
  {
    FlattenAppend(s.completed, s.queue);
    assert Flatten(s.queue) == w.packet + Flatten(s.queue[1..]);
    assert w.packet[..w.sent] <= w.packet;
  }

  lemma EnqueueKeepsInv(s: State, p: Packet)
    requires Inv(s) && !s.fault
    ensures Inv(EnqueueSection(s, p))
  {
    FlattenSnoc(s.enqueued, p);
    var t := EnqueueSection(s, p);
    assert s.enqueued <= t.enqueued;
    if s.cleared.Some? {
      var at := s.cleared.value;
      assert t.enqueued[at..] == s.enqueued[at..] + [p];
    } else {
      assert forall w :: OnTheWay(s, w) ==> OnTheWay(t, w);
    }
  }

  /** More bytes of the packet on the way are a longer prefix of it behind the completed packets. */
  lemma PrefixGrows(done: seq<byte>, packet: Packet, sent: nat, n: nat)
    requires sent + n <= |packet|
    ensures done + packet[..sent] + packet[sent..sent + n] == done + packet[..sent + n]
  {
  }

  lemma TransmitKeepsInv(s: State, i: nat, n: nat)
    requires Inv(s) && Enabled(s, Transmit(i, n))
    ensures Inv(Apply(s, Transmit(i, n)))
  {
    hide Flatten;
    var t, w := Apply(s, Transmit(i, n)), s.writing[i];
    assert s.writing == [w] && OnTheWay(s, w);
    var w' := Write(w.packet, w.sent + n);
    assert t.writing == [w'];
    PrefixGrows(Flatten(s.completed), w.packet, w.sent, n);
    assert OnTheWay(t, w');
    OnTheWayIsPrefix(t, w');
  }

  lemma FinishKeepsInv(s: State, i: nat, ok: bool)
    requires Inv(s) && Enabled(s, Finish(i, ok))
    ensures Inv(Apply(s, Finish(i, ok)))
  {
    var t, w := Apply(s, Finish(i, ok)), s.writing[i];
    assert s.writing == [w] && s.finished == [];
    assert t.writing == [] && t.finished == [Completion(w, ok)];
    assert OnTheWay(s, w) ==> OnTheWay(t, w);
  }

  lemma HandleKeepsInv(s: State, i: nat)
    requires Inv(s) && Enabled(s, Handle(i))
    ensures Inv(Apply(s, Handle(i)))
  {
    var t, c := Apply(s, Handle(i)), s.finished[i];
    var p := c.write.packet;
    assert s.finished == [c];
    if c.ok && s.queue != [] {
      assert t.finished == [];
      if s.cleared == None {
        assert OnTheWay(s, c.write) && p[..|p|] == p;
        FlattenSnoc(s.completed, p);
        assert s.queue == [p] + s.queue[1..];
      }
    }
  }

  lemma ClearKeepsInv(s: State)
    requires Inv(s) && s.clears > 0
    ensures Inv(ClearSection(s))
  {
    hide Flatten;
    if s.cleared == None && s.finished != [] {
      var c := s.finished[0];
      assert OnTheWay(s, c.write);
      assert s.completed + [c.write.packet] <= s.enqueued;
    }
  }

  lemma StepKeepsInv(s: State, a: Action)
    requires Inv(s) && Enabled(s, a)
    ensures Inv(Apply(s, a))
  {
    match a
    case Enqueue(p) => EnqueueKeepsInv(s, p);
    case DoWrite =>
      if s.cleared == None && s.queue != [] {
        assert s.queue[0][..0] == [];
        assert OnTheWay(Apply(s, a), Write(s.queue[0], 0));
      }
    case Transmit(i, n) => TransmitKeepsInv(s, i, n);
    case Finish(i, ok) => FinishKeepsInv(s, i, ok);
    case Handle(i) => HandleKeepsInv(s, i);
    case TestClosed =>
      assert forall w :: OnTheWay(s, w) ==> OnTheWay(Apply(s, a), w);
    case MarkClosed =>
      assert forall w :: OnTheWay(s, w) ==> OnTheWay(Apply(s, a), w);
    case Clear => ClearKeepsInv(s);
  }

  lemma {:induction false} RunKeepsInv(s: State, acts: seq<Action>)
    requires Inv(s) && Run(s, acts).Some?
    ensures Inv(Run(s, acts).value)
    decreases |acts|
  {
    if acts != [] {
      StepKeepsInv(s, acts[0]);
      RunKeepsInv(Apply(s, acts[0]), acts[1..]);
    }
  }

  // ---- What holds in every run ----

  ghost predicate Reachable(s: State)
  {
    exists acts :: Run(INITIAL, acts) == Some(s)
  }

  lemma ReachableInv(s: State)
    requires Reachable(s)
    ensures Inv(s)
  {
    var acts :| Run(INITIAL, acts) == Some(s);
    RunKeepsInv(INITIAL, acts);
  }

  /**
    Until Close clears the queue, at most one write is outstanding and it writes the front packet, a
    non-empty queue is marked as being written, completed and queued packets make up what was enqueued, and
    pop_front is never called on an empty queue.
   */
  lemma PumpSafety(s: State)
    requires Reachable(s) && s.cleared == None
    ensures |s.writing| <= 1
    ensures forall w <- s.writing :: s.queue != [] && w.packet == s.queue[0]
    ensures s.queue != [] ==> s.inProgress
    ensures s.completed + s.queue == s.enqueued
    ensures !s.fault
  {
    ReachableInv(s);
  }

  /** No wake-up is lost: while open, a non-empty queue has exactly one thread driving it, and it can move. */
  lemma NoLostWakeUp(s: State)
    requires Reachable(s) && Open(s) && s.queue != []
    ensures Tokens(s) == 1
    ensures Enabled(s, DoWrite) || Enabled(s, Finish(0, false)) || Enabled(s, Handle(0))
  {
    ReachableInv(s);
  }

  /**
    In every run, also after Close: the wire carries a prefix of the enqueued packets in order and never
    mixes two of them, and the completed packets are a prefix of the enqueued ones.
   */
  lemma WireIsPrefix(s: State)
    requires Reachable(s)
    ensures s.wire <= Flatten(s.enqueued)
    ensures s.completed <= s.enqueued
  {
    ReachableInv(s);
  }

  /**
    The handler pops without testing for emptiness. That goes wrong exactly when Close has cleared the queue
    and nothing has been enqueued since.
   */
  lemma PopOnEmptyExactly(s: State, i: nat)
    requires Reachable(s) && Enabled(s, Handle(i)) && s.finished[i].ok
    ensures Apply(s, Handle(i)).fault <==> s.cleared == Some(|s.enqueued|)
  {
    ReachableInv(s);
  }

  /** And it can go wrong: a write completes, Close clears the queue, then the completion handler runs. */
  lemma PopOnEmptyHappens()
    ensures exists s :: Reachable(s) && s.fault
  {
    hide Reachable;
    InitialIsReachable();
    var s1 := ReachableStep(INITIAL, Enqueue([7]));
    var s2 := ReachableStep(s1, DoWrite);
    var s3 := ReachableStep(s2, Transmit(0, 1));
    var s4 := ReachableStep(s3, Finish(0, true));
    var s5 := ReachableStep(s4, TestClosed);
    var s6 := ReachableStep(s5, MarkClosed);
    var s7 := ReachableStep(s6, Clear);
    var s8 := ReachableStep(s7, Handle(0));
    assert s8.fault;
  }

  /** The calls of Close that have passed the test; each of them will call, or has called, the close handler. */
  function Closers(s: State): nat { s.marks + s.clears + s.notices }

  /**
    The close handler is meant to be called once. A call of Close breaks that exactly when it finds m_closed
    unset while another call stands between its test and its setting of m_closed.
   */
  lemma SecondNoticeExactly(s: State)
    requires Reachable(s)
    ensures Closers(TestSection(s)) > 1 <==> Closers(s) > 1 || (!s.closed && s.marks > 0)
  {
    ReachableInv(s);
  }

  /** And it can be broken: two threads test m_closed before either sets it. */
  lemma SecondNoticeHappens()
    ensures exists s :: Reachable(s) && s.notices == 2
  {
    hide Reachable;
    InitialIsReachable();
    var s1 := ReachableStep(INITIAL, TestClosed);
    var s2 := ReachableStep(s1, TestClosed);
    var s3 := ReachableStep(s2, MarkClosed);
    var s4 := ReachableStep(s3, MarkClosed);
    var s5 := ReachableStep(s4, Clear);
    var s6 := ReachableStep(s5, Clear);
    assert s6.notices == 2;
  }

  lemma InitialIsReachable()
    ensures Reachable(INITIAL)
  {
    assert Run(INITIAL, []) == Some(INITIAL);
  }

  lemma {:induction false} RunSnoc(s: State, acts: seq<Action>, a: Action)
    requires Run(s, acts).Some? && Enabled(Run(s, acts).value, a)
    ensures Run(s, acts + [a]) == Some(Apply(Run(s, acts).value, a))
    decreases |acts|
  {
    if acts == [] {
      assert [a][1..] == [];
    } else {
      assert (acts + [a])[1..] == acts[1..] + [a];
      RunSnoc(Apply(s, acts[0]), acts[1..], a);
    }
  }

  lemma ReachableStep(s: State, a: Action) returns (t: State)
    requires Reachable(s) && Enabled(s, a)
    ensures t == Apply(s, a) && Reachable(t)
  {
    t := Apply(s, a);
    var acts :| Run(INITIAL, acts) == Some(s);
    RunSnoc(INITIAL, acts, a);
  }

  // ---- Progress ----

  /** How far the pump is from having written its whole queue. */
  function Distance(s: State): nat
  {
    5 * |s.queue| - (if s.finished != [] && s.queue != [] then 3 else 0)
    - (if s.writing != [] && s.queue != [] then (if s.writing[0].sent == |s.writing[0].packet| then 2 else 1) else 0)
  }

  /** The next move of the pump when the socket is well. */
  function NextMove(s: State): Action
  {
    if s.calls > 0 then DoWrite
    else if s.writing != [] then
      var w := s.writing[0];
      if w.sent < |w.packet| then Transmit(0, |w.packet| - w.sent) else Finish(0, true)
    else Handle(0)
  }

  /**
    From every reachable open state in which no write has failed, the pump by itself, with no further
    enqueue, can put everything enqueued so far on the wire.
   */
  lemma {:induction false} PumpDrains(s: State) returns (acts: seq<Action>)
    requires Inv(s) && Open(s) && !s.fault
    requires forall c <- s.finished :: c.ok
    ensures forall a <- acts :: !a.Enqueue? && !a.TestClosed?
    ensures Run(s, acts).Some?
    ensures var t := Run(s, acts).value;
            t.queue == [] && t.enqueued == s.enqueued && Open(t) && t.wire == Flatten(t.enqueued)
    decreases Distance(s)
  {
    assert s.writing != [] ==> OnTheWay(s, s.writing[0]);
    assert s.finished != [] ==> OnTheWay(s, s.finished[0].write);
    if s.queue == [] {
      acts := [];
      assert s.completed + [] == s.completed;
    } else {
      assert Tokens(s) == 1;
      var a := NextMove(s);
      StepKeepsInv(s, a);
      var later := PumpDrains(Apply(s, a));
      acts := [a] + later;
      assert acts[1..] == later;
    }
  }
}
