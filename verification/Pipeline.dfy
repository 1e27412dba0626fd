/**
  The whole path of a message: Send and Flush on one session, the pump and the socket, the reads of the peer
  in arbitrary chunks, its server's receive queue, which other sessions fill as well, and its dispatch loop, all
  interleaved at lock-section granularity.
 */
module Pipeline {
  import opened Bytes
  import opened Lzo
  import opened Packet
  import SendBuffer
  import opened Batching
  import opened MsgQueue
  import Session
  import Pump

  const READ_BUFFER: int := MAX_MESSAGE_SIZE

  datatype State = State(
    // the sending session
    batch: SendBuffer.Pending, pump: Pump.State,
    // the receiving session: bytes taken off the wire, its framer, whether it still reads, whether a read was
    // malformed, and messages cut but not yet inserted
    taken: nat, framer: seq<byte>, reading: bool, malformed: bool, inbox: seq<Message>,
    // the receive queue of its server; `got` is what has been dispatched
    queues: Queues<Message>,
    // history: the frames accepted by Send, and their batches
    accepted: seq<Frame>, ledger: Ledger)

  ghost const INITIAL: State :=
    State(SendBuffer.EMPTY, Pump.INITIAL, 0, [], true, false, [], Queues([], [], [], []), [], Ledger([], []))

  datatype Action =
    | Send(frame: Frame)
    | Flush
    | Sock(step: Pump.Action)   // a pump or socket step, or a part of Close, on any thread
    | Read(count: nat)          // the peer reads some bytes and feeds them to its framer
    | HangUp                    // the peer closes its side and reads no more
    | Insert                    // the next message of the last read enters the receive queue
    | Foreign(msg: Message)     // a message of another session enters it
    | Flip
    | Get

  function EnqueueSections(s: Pump.State, ps: seq<Pump.Packet>): Pump.State
    decreases |ps|
  {
    if ps == [] then s else EnqueueSections(Pump.EnqueueSection(s, ps[0]), ps[1..])
  }

  ghost predicate Enabled(clientId: uint32, s: State, a: Action)
  {
    && !s.pump.fault
    && match a
       case Send(_) => true
       case Flush => true
       case Sock(step) => !step.Enqueue? && Pump.Enabled(s.pump, step)
       case Read(n) => s.reading && s.inbox == [] && 0 < n <= READ_BUFFER && s.taken + n <= |s.pump.wire|
       case HangUp => true
       case Insert => s.inbox != []
       case Foreign(m) => m.clientId != clientId
       case Flip => true
       case Get => true
  }

  ghost function Apply(lib: Library, clientId: uint32, s: State, a: Action): State
    requires Enabled(clientId, s, a)
  {
    match a
    case Send(f) =>
      var r := SendFrame(lib, s.batch, f);
      if r.refused then s.(batch := r.batch, pump := Pump.TestSection(s.pump))
      else s.(batch := r.batch, pump := EnqueueSections(s.pump, r.emitted),
              accepted := s.accepted + [f], ledger := SendLedger(s.ledger, f))
    case Flush =>
      var r := FlushBatch(lib, s.batch);
      s.(batch := r.batch, pump := EnqueueSections(s.pump, r.emitted), ledger := FlushLedger(s.ledger))
    case Sock(step) => s.(pump := Pump.Apply(s.pump, step))
    case Read(n) =>
      var p := Parse(lib, s.framer + s.pump.wire[s.taken..s.taken + n]);
      s.(taken := s.taken + n, reading := p.ok, malformed := !p.ok, framer := p.rest,
         inbox := if p.ok then Session.Stamped(clientId, p.msgs) else [])
    case HangUp => s.(reading := false)
    case Insert => s.(inbox := s.inbox[1..], queues := ApplyOp(s.queues, QueueOp.Insert(s.inbox[0])))
    case Foreign(m) => s.(queues := ApplyOp(s.queues, QueueOp.Insert(m)))
    case Flip => s.(queues := ApplyOp(s.queues, QueueOp.Flip))
    case Get => s.(queues := ApplyOp(s.queues, QueueOp.Get))
  }

  ghost function Run(lib: Library, clientId: uint32, s: State, acts: seq<Action>): Option<State>
    decreases |acts|
  {
    if acts == [] then Some(s)
    else if Enabled(clientId, s, acts[0]) then Run(lib, clientId, Apply(lib, clientId, s, acts[0]), acts[1..])
    else None
  }

  /** The messages of one client. */
  function Own(clientId: uint32, ms: seq<Message>): seq<Message>
  {
    if ms == [] then [] else (if ms[0].clientId == clientId then [ms[0]] else []) + Own(clientId, ms[1..])
  }

  lemma {:induction false} OwnAppend(clientId: uint32, a: seq<Message>, b: seq<Message>)
    ensures Own(clientId, a + b) == Own(clientId, a) + Own(clientId, b)
  {
    if a == [] {
      assert a + b == b;
    } else {
      var first := if a[0].clientId == clientId then [a[0]] else [];
      assert (a + b)[0] == a[0] && (a + b)[1..] == a[1..] + b;
      OwnAppend(clientId, a[1..], b);
      assert Own(clientId, a + b) == first + (Own(clientId, a[1..]) + Own(clientId, b));
    }
  }

  lemma OwnSnoc(clientId: uint32, ms: seq<Message>, m: Message)
    ensures Own(clientId, ms + [m]) == if m.clientId == clientId then Own(clientId, ms) + [m] else Own(clientId, ms)
  {
    OwnAppend(clientId, ms, [m]);
    assert [m][1..] == [];
  }

  // ---- The invariant ----

  /** The sender: packets and pending bytes stand for the accepted frames, and the pump is in order. */
  ghost predicate SenderInv(lib: Library, b: SendBuffer.Pending, pump: Pump.State, ledger: Ledger, accepted: seq<Frame>)
  {
    && Pump.Inv(pump)
    && Matches(lib, b, pump.enqueued, ledger)
    && Accepted(ledger) == accepted
  }

  /** The receiver: what it has read so far is parsed, and its messages are inserted or about to be. */
  ghost predicate ReceiverInv(lib: Library, clientId: uint32, s: State)
  {
    && s.taken <= |s.pump.wire|
    && !s.malformed
    && Parse(lib, s.pump.wire[..s.taken]).ok
    && s.framer == Parse(lib, s.pump.wire[..s.taken]).rest
    && Own(clientId, s.queues.inserted) + s.inbox == Session.Stamped(clientId, Parse(lib, s.pump.wire[..s.taken]).msgs)
    && Balanced(s.queues)
  }

  ghost predicate Inv(lib: Library, clientId: uint32, s: State)
  {
    SenderInv(lib, s.batch, s.pump, s.ledger, s.accepted) && ReceiverInv(lib, clientId, s)
  }

  lemma {:induction false} EnqueueSectionsKeepInv(s: Pump.State, ps: seq<Pump.Packet>)
    requires Pump.Inv(s) && !s.fault
    ensures var t := EnqueueSections(s, ps);
            && Pump.Inv(t) && !t.fault && t.enqueued == s.enqueued + ps
            && t.wire == s.wire && t.finished == s.finished && t.closed == s.closed
    decreases |ps|
  {
    hide Pump.Inv;
    if ps != [] {
      Pump.EnqueueKeepsInv(s, ps[0]);
      EnqueueSectionsKeepInv(Pump.EnqueueSection(s, ps[0]), ps[1..]);
      assert s.enqueued + [ps[0]] + ps[1..] == s.enqueued + ps;
    }
  }

  lemma SenderKeepsInv(lib: Library, clientId: uint32, s: State, a: Action)
    requires Inv(lib, clientId, s) && Enabled(clientId, s, a) && (a.Send? || a.Flush?)
    ensures Inv(lib, clientId, Apply(lib, clientId, s, a))
  {
    hide Pump.Inv, Matches, Parse, SendFrame, FlushBatch, SendLedger, FlushLedger, Accepted;
    match a
    case Send(f) =>
      var r := SendFrame(lib, s.batch, f);
      SendConserves(lib, s.batch, s.pump.enqueued, s.ledger, f);
      if r.refused {
        Pump.StepKeepsInv(s.pump, Pump.TestClosed);
        RefusedChangesNothing(lib, s.batch, f);
      } else {
        EnqueueSectionsKeepInv(s.pump, r.emitted);
      }
    case Flush =>
      FlushConserves(lib, s.batch, s.pump.enqueued, s.ledger);
      EnqueueSectionsKeepInv(s.pump, FlushBatch(lib, s.batch).emitted);
  }

  lemma RefusedChangesNothing(lib: Library, b: SendBuffer.Pending, f: Frame)
    requires SendFrame(lib, b, f).refused
    ensures SendFrame(lib, b, f).batch == b && SendFrame(lib, b, f).emitted == []
  {
  }

  lemma SockKeepsInv(lib: Library, clientId: uint32, s: State, step: Pump.Action)
    requires Inv(lib, clientId, s) && Enabled(clientId, s, Sock(step))
    ensures Inv(lib, clientId, Apply(lib, clientId, s, Sock(step)))
  {
    hide Pump.Inv, Matches, Parse, Accepted, Own, Flatten, Balanced;
    Pump.StepKeepsInv(s.pump, step);
    var t := Pump.Apply(s.pump, step);
    assert s.pump.wire <= t.wire && t.enqueued == s.pump.enqueued;
    assert t.wire[..s.taken] == s.pump.wire[..s.taken];
  }

  /** Everything on the wire parses, to a prefix of the accepted frames. */
  lemma WireParses(lib: Library, s: State, n: nat)
    requires Lawful(lib) && SenderInv(lib, s.batch, s.pump, s.ledger, s.accepted)
    requires n <= |s.pump.wire|
    ensures Parse(lib, s.pump.wire[..n]).ok
    ensures Parse(lib, s.pump.wire[..n]).msgs <= AsMessages(s.accepted)
    ensures n == |Flatten(s.pump.enqueued)| && s.batch.bytes == [] ==>
              Parse(lib, s.pump.wire[..n]).msgs == AsMessages(s.accepted)
  {
    hide Parse, Matches, AsMessages, Accepted;
    var whole, wire := Flatten(s.pump.enqueued), s.pump.wire;
    assert wire <= whole;
    PacketsParse(lib, s.batch, s.pump.enqueued, s.ledger);
    PrefixParses(lib, whole, n);
    assert wire[..n] == whole[..n];
    assert n == |whole| ==> whole[..n] == whole;
  }

  lemma ReadKeepsInv(lib: Library, clientId: uint32, s: State, n: nat)
    requires Lawful(lib) && Inv(lib, clientId, s) && Enabled(clientId, s, Read(n))
    ensures Inv(lib, clientId, Apply(lib, clientId, s, Read(n)))
  {
    hide Parse, SenderInv;
    var wire := s.pump.wire;
    var chunk := wire[s.taken..s.taken + n];
    assert wire[..s.taken + n] == wire[..s.taken] + chunk;
    ParseInPieces(lib, wire[..s.taken], chunk);
    WireParses(lib, s, s.taken + n);
    var before, now := Parse(lib, wire[..s.taken]).msgs, Parse(lib, s.framer + chunk).msgs;
    assert Session.Stamped(clientId, before + now)
           == Session.Stamped(clientId, before) + Session.Stamped(clientId, now);
  }

  lemma QueueKeepsInv(lib: Library, clientId: uint32, s: State, a: Action)
    requires Inv(lib, clientId, s) && Enabled(clientId, s, a) && (a.Insert? || a.Foreign? || a.Flip? || a.Get?)
    ensures Inv(lib, clientId, Apply(lib, clientId, s, a))
  {
    hide Parse, SenderInv, Own;
    var op :=
      match a
      case Insert => QueueOp.Insert(s.inbox[0])
      case Foreign(m) => QueueOp.Insert(m)
      case Flip => QueueOp.Flip
      case Get => QueueOp.Get;
    ExactlyOnceInOrder(s.queues, [op]);
    assert ApplyOps(s.queues, [op]) == ApplyOp(s.queues, op);
    if op.Insert? {
      OwnSnoc(clientId, s.queues.inserted, op.msg);
    }
    if a.Insert? {
      var m, own := s.inbox[0], Own(clientId, s.queues.inserted);
      assert m == (own + s.inbox)[|own|] && m.clientId == clientId;
      assert own + s.inbox == own + [m] + s.inbox[1..];
    }
  }

  lemma HangUpKeepsInv(lib: Library, clientId: uint32, s: State)
    requires Inv(lib, clientId, s) && Enabled(clientId, s, HangUp)
    ensures Inv(lib, clientId, Apply(lib, clientId, s, HangUp))
  {
    hide Parse, SenderInv;
  }

  lemma StepKeepsInv(lib: Library, clientId: uint32, s: State, a: Action)
    requires Lawful(lib) && Inv(lib, clientId, s) && Enabled(clientId, s, a)
    ensures Inv(lib, clientId, Apply(lib, clientId, s, a))
  {
    hide Inv, Apply, Enabled;
    match a
    case Send(_) => SenderKeepsInv(lib, clientId, s, a);
    case Flush => SenderKeepsInv(lib, clientId, s, a);
    case Sock(step) => SockKeepsInv(lib, clientId, s, step);
    case Read(n) => ReadKeepsInv(lib, clientId, s, n);
    case HangUp => HangUpKeepsInv(lib, clientId, s);
    case Insert => QueueKeepsInv(lib, clientId, s, a);
    case Foreign(_) => QueueKeepsInv(lib, clientId, s, a);
    case Flip => QueueKeepsInv(lib, clientId, s, a);
    case Get => QueueKeepsInv(lib, clientId, s, a);
  }

  lemma {:induction false} RunKeepsInv(lib: Library, clientId: uint32, s: State, acts: seq<Action>)
    requires Lawful(lib) && Inv(lib, clientId, s)
    requires Run(lib, clientId, s, acts).Some?
    ensures Inv(lib, clientId, Run(lib, clientId, s, acts).value)
    decreases |acts|
  {
    hide Inv, Apply;
    if acts != [] {
      StepKeepsInv(lib, clientId, s, acts[0]);
      RunKeepsInv(lib, clientId, Apply(lib, clientId, s, acts[0]), acts[1..]);
    }
  }

  lemma InitialInv(lib: Library, clientId: uint32)
    ensures Inv(lib, clientId, INITIAL)
  {
    assert Flatten<Frame>([]) == [];
    assert Flatten<byte>([]) == [];
    assert Parse(lib, []) == Parsed(true, [], []);
  }

  // ---- End to end ----

  /** Nothing is under way any more: no pending batch, untransmitted byte, unread byte or undispatched message. */
  ghost predicate Quiet(s: State)
  {
    && s.batch.bytes == []
    && s.pump.wire == Flatten(s.pump.enqueued)
    && s.taken == |s.pump.wire|
    && s.inbox == [] && s.queues.front == [] && s.queues.back == []
  }

  /** The frames given to Send in a sequence of actions, without those over 2048 bytes. */
  ghost function FramesSent(acts: seq<Action>): seq<Frame>
  {
    if acts == [] then []
    else (if acts[0].Send? && |acts[0].frame| <= 2048 then [acts[0].frame] else []) + FramesSent(acts[1..])
  }

  /** What the history calls accepted is exactly that. */
  lemma {:induction false} AcceptedAreSent(lib: Library, clientId: uint32, s: State, acts: seq<Action>)
    requires Run(lib, clientId, s, acts).Some?
    ensures Run(lib, clientId, s, acts).value.accepted == s.accepted + FramesSent(acts)
    decreases |acts|
  {
    hide Apply, Enabled;
    if acts != [] {
      var t := Apply(lib, clientId, s, acts[0]);
      AcceptedAreSent(lib, clientId, t, acts[1..]);
      StepAccepts(lib, clientId, s, acts[0]);
    }
  }

  lemma StepAccepts(lib: Library, clientId: uint32, s: State, a: Action)
    requires Enabled(clientId, s, a)
    ensures Apply(lib, clientId, s, a).accepted
            == s.accepted + if a.Send? && |a.frame| <= 2048 then [a.frame] else []
  {
    hide SendFrame, Parse;
    if a.Send? {
      SendCases(lib, s.batch, a.frame);
    }
  }

  /**
    In every run, whatever the interleaving, the chunking, the traffic of other sessions and the moment at
    which either side closes: no read is malformed, and the messages of this client that have been dispatched
    are a prefix of the frames of at most 2048 bytes given to Send, in order. Message i has all bytes of frame i,
    header included, the type that stands in it, and the number of the client. When nothing is under way they are
    all of them.
   */
  lemma EndToEndDelivery(lib: Library, clientId: uint32, acts: seq<Action>)
    requires Lawful(lib)
    requires Run(lib, clientId, INITIAL, acts).Some?
    ensures var s := Run(lib, clientId, INITIAL, acts).value;
            var got, sent := Own(clientId, s.queues.got), FramesSent(acts);
            && !s.malformed
            && |got| <= |sent| && (Quiet(s) ==> |got| == |sent|)
            && forall i :: 0 <= i < |got| ==>
                 got[i].bytes == sent[i] && got[i].mtype == ReadLE32(sent[i], 4) && got[i].clientId == clientId
  {
    hide Inv;
    InitialInv(lib, clientId);
    RunKeepsInv(lib, clientId, INITIAL, acts);
    AcceptedAreSent(lib, clientId, INITIAL, acts);
    var s := Run(lib, clientId, INITIAL, acts).value;
    assert s.accepted == FramesSent(acts);
    InvGivesDelivery(lib, clientId, s);
    GotAreFrames(clientId, Own(clientId, s.queues.got), s.accepted);
  }

  lemma GotAreFrames(clientId: uint32, got: seq<Message>, sent: seq<Frame>)
    requires got <= Session.Stamped(clientId, AsMessages(sent))
    ensures |got| <= |sent| == |Session.Stamped(clientId, AsMessages(sent))|
    ensures forall i :: 0 <= i < |got| ==>
              got[i].bytes == sent[i] && got[i].mtype == ReadLE32(sent[i], 4) && got[i].clientId == clientId
  {
  }

  /** In particular a payload sent with EncodeMessage arrives as it was, behind the header, with its type. */
  lemma PayloadDelivery(lib: Library, clientId: uint32, acts: seq<Action>, i: nat, mtype: uint32, payload: seq<byte>)
    requires Lawful(lib)
    requires Run(lib, clientId, INITIAL, acts).Some?
    requires i < |Own(clientId, Run(lib, clientId, INITIAL, acts).value.queues.got)| && 8 + |payload| <= 2048
    requires i < |FramesSent(acts)| && FramesSent(acts)[i] == EncodedMessage(mtype, payload)
    ensures var m := Own(clientId, Run(lib, clientId, INITIAL, acts).value.queues.got)[i];
            m.mtype == mtype && m.clientId == clientId && |m.bytes| == 8 + |payload| && m.bytes[8..] == payload
  {
    hide Run, Own, FramesSent, EncodedMessage, Lawful, Quiet;
    EndToEndDelivery(lib, clientId, acts);
    EncodedMessageIsFrame(mtype, payload);
    PayloadLength(mtype, payload);
  }

  lemma PayloadLength(mtype: uint32, payload: seq<byte>)
    requires 8 + |payload| <= 2048
    ensures |EncodedMessage(mtype, payload)| == 8 + |payload|
  {
  }

  lemma InvGivesDelivery(lib: Library, clientId: uint32, s: State)
    requires Lawful(lib) && Inv(lib, clientId, s)
    ensures !s.malformed
    ensures Own(clientId, s.queues.got) <= Session.Stamped(clientId, AsMessages(s.accepted))
    ensures Quiet(s) ==> Own(clientId, s.queues.got) == Session.Stamped(clientId, AsMessages(s.accepted))
  {
    hide Parse, SenderInv, AsMessages, Own;
    WireParses(lib, s, s.taken);
    var parsed, all := Parse(lib, s.pump.wire[..s.taken]).msgs, AsMessages(s.accepted);
    assert Session.Stamped(clientId, parsed) <= Session.Stamped(clientId, all);
    var q := s.queues;
    assert q.inserted == q.got + (q.back + q.front);
    OwnAppend(clientId, q.got, q.back + q.front);
    OwnNothing(clientId);
  }

  lemma OwnNothing(clientId: uint32)
    ensures Own(clientId, []) == []
  {
  }

  // ---- Delivery is inevitable ----

  /** Both sides are open and no write has failed. */
  ghost predicate Well(s: State)
  {
    Pump.Open(s.pump) && !s.pump.fault && s.reading && forall c <- s.pump.finished :: c.ok
  }

  /** A step that moves something on: no new frame, close, failure or foreign message, and not a step without effect. */
  ghost predicate Productive(clientId: uint32, s: State, a: Action)
  {
    && Enabled(clientId, s, a)
    && match a
       case Flush => s.batch.bytes != []
       case Sock(step) =>
         step.DoWrite? || step.Handle? || (step.Transmit? && step.count > 0) || (step.Finish? && step.ok)
       case Read(_) => true
       case Insert => true
       case Flip => s.queues.front != []
       case Get => s.queues.back != []
       case _ => false
  }

  /** The steps the pump has left: three for each packet, and the bytes still to be transmitted and then read. */
  ghost function PumpLeft(p: Pump.State): int
  {
    3 * |p.queue| + (if p.calls > 0 then 1 else 0) - (if p.finished != [] then 1 else 0)
    + 2 * (|Flatten(p.enqueued)| - |p.wire|)
  }

  /** Three steps for each message not yet inserted, two for each in front, one for each in back. */
  ghost function QueueLeft(clientId: uint32, s: State): int
  {
    3 * (|s.accepted| - |Own(clientId, s.queues.inserted)|) + 2 * |s.queues.front| + |s.queues.back|
  }

  /** More than the steps one flushed packet can add to the pump. */
  const PACKET_STEPS: int := 4200

  /** The number of productive steps that can still be taken, from above. */
  ghost function Measure(clientId: uint32, s: State): int
  {
    (if s.batch.bytes == [] then 0 else PACKET_STEPS) + PumpLeft(s.pump) + (|s.pump.wire| - s.taken)
    + QueueLeft(clientId, s)
  }

  lemma MeasureIsNatural(lib: Library, clientId: uint32, s: State)
    requires Lawful(lib) && Inv(lib, clientId, s) && Well(s)
    ensures Measure(clientId, s) >= 0
  {
    hide Parse, Matches, AsMessages, Own, Flatten, Accepted;
    WireParses(lib, s, s.taken);
    AsMessagesLength(s.accepted);
    assert s.pump.finished != [] ==> Pump.OnTheWay(s.pump, s.pump.finished[0].write);
  }

  lemma FlushFalls(lib: Library, clientId: uint32, s: State)
    requires Lawful(lib) && Inv(lib, clientId, s) && Well(s) && Productive(clientId, s, Action.Flush)
    ensures var t := Apply(lib, clientId, s, Action.Flush);
            Well(t) && t.accepted == s.accepted && Measure(clientId, t) < Measure(clientId, s)
  {
    hide Parse, Flatten, Own, SendBuffer.Envelope, FlushLedger, Accepted, Pump.Inv, IsFrame, ReceiverInv;
    var packet := SendBuffer.Envelope(lib, s.batch.bytes);
    CountDoesNotWrap(lib, s.batch, s.pump.enqueued, s.ledger);
    SendBuffer.EnvelopeShape(lib, s.batch.bytes);
    FlattenSnoc(s.pump.enqueued, packet);
    var p := Pump.EnqueueSection(s.pump, packet);
    var none: seq<Pump.Packet> := [];
    assert [packet][1..] == none;
    assert EnqueueSections(p, none) == p;
    assert EnqueueSections(s.pump, [packet]) == p;
  }

  lemma SockFalls(lib: Library, clientId: uint32, s: State, step: Pump.Action)
    requires Inv(lib, clientId, s) && Well(s) && Productive(clientId, s, Sock(step))
    ensures var t := Apply(lib, clientId, s, Sock(step));
            Well(t) && t.accepted == s.accepted && Measure(clientId, t) < Measure(clientId, s)
  {
    hide Parse, Flatten, Own, Matches, Accepted, ReceiverInv;
    var p := s.pump;
    assert p.writing != [] ==> Pump.OnTheWay(p, p.writing[0]);
    assert p.finished != [] ==> Pump.OnTheWay(p, p.finished[0].write);
  }

  lemma ReceiverFalls(lib: Library, clientId: uint32, s: State, a: Action)
    requires Lawful(lib) && Inv(lib, clientId, s) && Well(s) && Productive(clientId, s, a) && !a.Flush? && !a.Sock?
    ensures var t := Apply(lib, clientId, s, a);
            Well(t) && t.accepted == s.accepted && Measure(clientId, t) < Measure(clientId, s)
  {
    hide Parse, Own, SenderInv, PumpLeft;
    match a
    case Read(n) =>
      ReadKeepsInv(lib, clientId, s, n);
    case Insert =>
      var m, own := s.inbox[0], Own(clientId, s.queues.inserted);
      assert m == (own + s.inbox)[|own|] && m.clientId == clientId;
      OwnSnoc(clientId, s.queues.inserted, m);
    case Flip =>
    case Get =>
  }

  /** Every productive step keeps the system well and lowers the measure. */
  lemma MeasureFalls(lib: Library, clientId: uint32, s: State, a: Action)
    requires Lawful(lib) && Inv(lib, clientId, s) && Well(s) && Productive(clientId, s, a)
    ensures var t := Apply(lib, clientId, s, a);
            && Inv(lib, clientId, t) && Well(t) && t.accepted == s.accepted
            && Measure(clientId, t) < Measure(clientId, s)
  {
    hide Inv, Well, Measure, Apply;
    StepKeepsInv(lib, clientId, s, a);
    if a.Flush? {
      FlushFalls(lib, clientId, s);
    } else if a.Sock? {
      SockFalls(lib, clientId, s, a.step);
    } else {
      ReceiverFalls(lib, clientId, s, a);
    }
  }

  /** A productive step for a system that is not yet quiet. */
  ghost function NextStep(s: State): Action
  {
    var p := s.pump;
    if s.batch.bytes != [] then Action.Flush
    else if p.calls > 0 then Sock(Pump.DoWrite)
    else if p.writing != [] then
      var w := p.writing[0];
      Sock(if w.sent < |w.packet| then Pump.Transmit(0, |w.packet| - w.sent) else Pump.Finish(0, true))
    else if p.finished != [] then Sock(Pump.Handle(0))
    else if s.inbox != [] then Action.Insert
    else if s.taken < |p.wire| then Read(Min(|p.wire| - s.taken, READ_BUFFER))
    else if s.queues.front != [] then Action.Flip
    else Action.Get
  }

  lemma QuietOrProductive(lib: Library, clientId: uint32, s: State)
    requires Inv(lib, clientId, s) && Well(s) && !Quiet(s)
    ensures Productive(clientId, s, NextStep(s))
  {
    hide Parse, Flatten, Own, Matches, Accepted;
    var p := s.pump;
    assert p.writing != [] ==> Pump.OnTheWay(p, p.writing[0]);
    if Pump.Tokens(p) == 0 {
      assert p.completed + [] == p.completed;
    }
  }

  /** All steps of a run are productive. */
  ghost predicate ProductiveRun(lib: Library, clientId: uint32, s: State, acts: seq<Action>)
    decreases |acts|
  {
    acts != [] ==>
      && Productive(clientId, s, acts[0])
      && ProductiveRun(lib, clientId, Apply(lib, clientId, s, acts[0]), acts[1..])
  }

  lemma {:induction false} ProductiveRunsEnd(lib: Library, clientId: uint32, s: State, acts: seq<Action>)
    requires Lawful(lib) && Inv(lib, clientId, s) && Well(s) && ProductiveRun(lib, clientId, s, acts)
    ensures |acts| <= Measure(clientId, s)
    ensures Run(lib, clientId, s, acts).Some?
    ensures var t := Run(lib, clientId, s, acts).value; Inv(lib, clientId, t) && Well(t) && t.accepted == s.accepted
    decreases |acts|
  {
    hide Inv, Well, Measure, Apply;
    MeasureIsNatural(lib, clientId, s);
    if acts != [] {
      MeasureFalls(lib, clientId, s, acts[0]);
      ProductiveRunsEnd(lib, clientId, Apply(lib, clientId, s, acts[0]), acts[1..]);
    }
  }

  /**
    Delivery is inevitable. From every reachable state in which both sides are open and no write has failed,
    productive steps can be taken only boundedly often, in whatever order they are taken; and when none can be
    taken any more, everything accepted by Send has been dispatched.
   */
  lemma DeliveryIsInevitable(lib: Library, clientId: uint32, acts: seq<Action>, more: seq<Action>)
    requires Lawful(lib)
    requires Run(lib, clientId, INITIAL, acts).Some? && Well(Run(lib, clientId, INITIAL, acts).value)
    requires ProductiveRun(lib, clientId, Run(lib, clientId, INITIAL, acts).value, more)
    ensures var s := Run(lib, clientId, INITIAL, acts).value;
            && |more| <= Measure(clientId, s)
            && Run(lib, clientId, s, more).Some?
            && var t := Run(lib, clientId, s, more).value;
               && t.accepted == s.accepted
               && var got := Own(clientId, t.queues.got);
                  ((forall a :: !Productive(clientId, t, a)) ==>
                     && |got| == |s.accepted|
                     && forall i :: 0 <= i < |got| ==>
                          && got[i].bytes == s.accepted[i] && got[i].mtype == ReadLE32(s.accepted[i], 4)
                          && got[i].clientId == clientId)
  {
    hide Inv, Well, Measure, Quiet, Productive;
    InitialInv(lib, clientId);
    RunKeepsInv(lib, clientId, INITIAL, acts);
    var s := Run(lib, clientId, INITIAL, acts).value;
    ProductiveRunsEnd(lib, clientId, s, more);
    var t := Run(lib, clientId, s, more).value;
    InvGivesDelivery(lib, clientId, t);
    GotAreFrames(clientId, Own(clientId, t.queues.got), t.accepted);
    if !Quiet(t) {
      QuietOrProductive(lib, clientId, t);
    }
  }

  /** In particular some run of productive steps does deliver everything: the system cannot get stuck with a message. */
  lemma {:induction false} DeliveryCanComplete(lib: Library, clientId: uint32, s: State) returns (more: seq<Action>)
    requires Lawful(lib) && Inv(lib, clientId, s) && Well(s)
    ensures ProductiveRun(lib, clientId, s, more)
    ensures Run(lib, clientId, s, more).Some?
    ensures var got := Own(clientId, Run(lib, clientId, s, more).value.queues.got);
            && |got| == |s.accepted|
            && forall i :: 0 <= i < |got| ==>
                 && got[i].bytes == s.accepted[i] && got[i].mtype == ReadLE32(s.accepted[i], 4)
                 && got[i].clientId == clientId
    decreases Measure(clientId, s)
  {
    hide Inv, Well, Measure, Quiet, Apply;
    MeasureIsNatural(lib, clientId, s);
    if Quiet(s) {
      InvGivesDelivery(lib, clientId, s);
      GotAreFrames(clientId, Own(clientId, s.queues.got), s.accepted);
      more := [];
    } else {
      var a := NextStep(s);
      QuietOrProductive(lib, clientId, s);
      MeasureFalls(lib, clientId, s, a);
      var later := DeliveryCanComplete(lib, clientId, Apply(lib, clientId, s, a));
      more := [a] + later;
      assert more[0] == a && more[1..] == later;
    }
  }
}
