/** Session: batching, the write queue and its pump, and the read handler, as methods on one object. */
module Session {
  import opened Bytes
  import Lzo
  import Packet
  import SendBuffer
  import Batching
  import Framer
  import MsgQueue
  import Pump

  /** An uninterrupted call of enqueueWrite: its lock section and, if it starts the pump, that of doWrite. */
  function Enqueued(s: Pump.State, p: Pump.Packet): Pump.State
  {
    var t := Pump.EnqueueSection(s, p);
    if s.inProgress then t else Pump.DoWriteSection(t)
  }

  function EnqueuedAll(s: Pump.State, ps: seq<Pump.Packet>): Pump.State
    decreases |ps|
  {
    if ps == [] then s else EnqueuedAll(Enqueued(s, ps[0]), ps[1..])
  }

  /** An uninterrupted call of Close. */
  function Closed(s: Pump.State): Pump.State
  {
    if s.closed then s else Pump.ClearSection(Pump.MarkSection(Pump.TestSection(s)))
  }

  lemma RunFirst(s: Pump.State, a: Pump.Action, later: seq<Pump.Action>)
    requires Pump.Enabled(s, a)
    ensures Pump.Run(s, [a] + later) == Pump.Run(Pump.Apply(s, a), later)
  {
    assert ([a] + later)[0] == a && ([a] + later)[1..] == later;
  }

  lemma EnqueueIsRun(s: Pump.State, p: Pump.Packet)
    requires !s.fault
    ensures Pump.Run(s, [Pump.Enqueue(p)] + if s.inProgress then [] else [Pump.DoWrite]) == Some(Enqueued(s, p))
  {
    RunFirst(s, Pump.Enqueue(p), if s.inProgress then [] else [Pump.DoWrite]);
    if !s.inProgress {
      RunFirst(Pump.EnqueueSection(s, p), Pump.DoWrite, []);
      assert [Pump.DoWrite] + [] == [Pump.DoWrite];
    }
  }

  lemma CloseIsRun(s: Pump.State)
    requires !s.fault
    ensures Pump.Run(s, [Pump.TestClosed] + if s.closed then [] else [Pump.MarkClosed, Pump.Clear]) == Some(Closed(s))
  {
    RunFirst(s, Pump.TestClosed, if s.closed then [] else [Pump.MarkClosed, Pump.Clear]);
    if !s.closed {
      var tested := Pump.TestSection(s);
      RunFirst(tested, Pump.MarkClosed, [Pump.Clear]);
      RunFirst(Pump.MarkSection(tested), Pump.Clear, []);
      assert [Pump.MarkClosed] + [Pump.Clear] == [Pump.MarkClosed, Pump.Clear];
      assert [Pump.Clear] + [] == [Pump.Clear];
    }
  }

  /** Uninterrupted calls are runs of the pump, so what holds in every run holds for the methods below. */
  lemma CallsAreRuns(s: Pump.State, p: Pump.Packet)
    requires !s.fault
    ensures Pump.Run(s, [Pump.Enqueue(p)] + if s.inProgress then [] else [Pump.DoWrite]) == Some(Enqueued(s, p))
    ensures Pump.Run(s, [Pump.TestClosed] + if s.closed then [] else [Pump.MarkClosed, Pump.Clear]) == Some(Closed(s))
  {
    EnqueueIsRun(s, p);
    CloseIsRun(s);
  }

  function Stamped(clientId: uint32, ms: seq<Packet.Message>): seq<Packet.Message>
  {
    seq(|ms|, i requires 0 <= i < |ms| => ms[i].(clientId := clientId))
  }

  class Session {
    const clientId: uint32
    const framer: Framer.MessageFramer
    const sendBuffer: SendBuffer.SendMsgBuffer
    var writeQueue: seq<seq<byte>>
    var writeInProgress: bool
    var closed: bool

    /** How often the close handler has been called. */
    var notices: nat

    /** The threads and history around the fields. */
    ghost var pump: Pump.State

    ghost predicate Valid()
      reads this, sendBuffer
    {
      && sendBuffer.Valid()
      && pump.queue == writeQueue && pump.inProgress == writeInProgress && pump.closed == closed
      && pump.notices == notices
    }

    constructor (clientId: uint32)
      ensures Valid() && fresh(framer) && fresh(sendBuffer) && fresh(sendBuffer.buffer) && fresh(sendBuffer.sendBuffer)
      ensures this.clientId == clientId && pump == Pump.INITIAL && framer.buf == []
      ensures sendBuffer.State() == SendBuffer.EMPTY
    {
      this.clientId := clientId;
      framer := new Framer.MessageFramer();
      sendBuffer := new SendBuffer.SendMsgBuffer();
      writeQueue, writeInProgress, closed, notices := [], false, false, 0;
      pump := Pump.INITIAL;
    }

    method DoWrite()
      requires Valid() && pump.calls > 0
      modifies this
      ensures Valid() && pump == Pump.DoWriteSection(old(pump))
    {
      pump := Pump.DoWriteSection(pump);
      if writeQueue == [] {
        writeInProgress := false;
        return;
      }
      // async_write of the front packet starts here
    }

    method EnqueueWrite(packet: seq<byte>)
      requires Valid()
      modifies this
      ensures Valid() && pump == Enqueued(old(pump), packet)
    {
      var startWrite := false;
      pump := Pump.EnqueueSection(pump, packet);
      writeQueue := writeQueue + [packet];
      if !writeInProgress {
        writeInProgress := true;
        startWrite := true;
      }
      if startWrite {
        DoWrite();
      }
    }

    /**
      The completion handler of the write `which`, told its outcome. What pop_front does to an empty queue is
      undefined in the program; here the session then stops in the fault state with its fields unchanged.
     */
    method OnWritten(ghost which: nat, failed: bool)
      requires Valid() && which < |pump.finished|
      requires failed == !pump.finished[which].ok
      modifies this
      ensures Valid()
      ensures var t := Pump.HandleSection(old(pump), which);
              pump == if failed then (if old(closed) then t else Pump.ClearSection(Pump.MarkSection(t)))
                      else if old(writeQueue) == [] then t else Pump.DoWriteSection(t)
    {
      if failed {
        pump := pump.(finished := Pump.Without(pump.finished, which));
        Close();
        return;
      }
      pump := Pump.HandleSection(pump, which);
      if writeQueue != [] {
        writeQueue := writeQueue[1..];
        DoWrite();
      }
    }

    /** Closes the link, clears the write queue and calls the close handler, unless the session is closed already. */
    method Close()
      requires Valid()
      modifies this
      ensures Valid() && closed && pump == Closed(old(pump))
      ensures notices == old(notices) + if old(closed) then 0 else 1
    {
      if closed {
        return;
      }
      closed := true;
      pump := Pump.MarkSection(Pump.TestSection(pump));
      writeQueue := [];
      notices := notices + 1;
      pump := Pump.ClearSection(pump);
    }

    method Flush(lzo: Lzo.MinLzo)
      requires Valid() && Lzo.Lawful(lzo.lib)
      modifies this, sendBuffer, sendBuffer.sendBuffer, lzo
      ensures Valid()
      ensures var r := Batching.FlushBatch(lzo.lib, old(sendBuffer.State()));
              && sendBuffer.State() == r.batch
              && pump == EnqueuedAll(old(pump), r.emitted)
    {
      var dwSendSize := sendBuffer.GetSendSize(lzo);
      if dwSendSize > 0 {
        EnqueueWrite(sendBuffer.sendBuffer[..dwSendSize]);
      }
    }

    /** Batches a framed message and hands over what has to leave; a message over 2048 bytes closes the link. */
    method Send(lzo: Lzo.MinLzo, framed: seq<byte>)
      requires Valid() && Lzo.Lawful(lzo.lib)
      modifies this, sendBuffer, sendBuffer.buffer, sendBuffer.sendBuffer, lzo
      ensures Valid()
      ensures var r := Batching.SendFrame(lzo.lib, old(sendBuffer.State()), framed);
              && sendBuffer.State() == r.batch
              && pump == if r.refused then Closed(old(pump)) else EnqueuedAll(old(pump), r.emitted)
    {
      var dwSize := |framed| % 0x1_0000_0000;
      var res := sendBuffer.AddMsg(framed, dwSize);
      if res == SendBuffer.BUFFER_ERROR {
        Close();
      } else if res == SendBuffer.BUFFER_SEND {
        Flush(lzo);
      } else if res == SendBuffer.BUFFER_SEND_ADD {
        Flush(lzo);
        var _ := sendBuffer.AddMsg(framed, dwSize);
      }
    }

    /** The loop of the read handler over the messages of one read. */
    method Deliver(recv: MsgQueue.MsgManager, msgs: seq<Packet.Message>)
      modifies recv
      ensures recv.front == old(recv.front) + Stamped(clientId, msgs) && recv.back == old(recv.back)
    {
      var i := 0;
      while i < |msgs|
        invariant 0 <= i <= |msgs|
        invariant recv.front == old(recv.front) + Stamped(clientId, msgs[..i]) && recv.back == old(recv.back)
      {
        recv.MsgQueueInsert(msgs[i].(clientId := clientId));
        assert msgs[..i + 1] == msgs[..i] + [msgs[i]];
        assert Stamped(clientId, msgs[..i + 1]) == Stamped(clientId, msgs[..i]) + [msgs[i].(clientId := clientId)];
        i := i + 1;
      }
      assert msgs[..|msgs|] == msgs;
    }

    /**
      The read handler, given the bytes read or an error: everything cut from the stream is stamped with the client
      and inserted into the receive queue, in order; a malformed stream closes the link and delivers nothing
      of this read. Returns whether another read is started.
     */
    method OnRead(lzo: Lzo.MinLzo, recv: MsgQueue.MsgManager, failed: bool, data: seq<byte>) returns (again: bool)
      requires Valid() && Lzo.Lawful(lzo.lib)
      modifies this, framer, recv, lzo
      ensures Valid() && recv.back == old(recv.back)
      ensures var p := Packet.Parse(lzo.lib, old(framer.buf) + data);
              && again == (!failed && p.ok)
              && recv.front == old(recv.front) + (if again then Stamped(clientId, p.msgs) else [])
              && pump == (if again then old(pump) else Closed(old(pump)))
              && (again ==> framer.buf == p.rest)
    {
      hide Packet.Parse;
      if failed {
        Close();
        return false;
      }
      var ok, msgs := framer.Feed(lzo, data, []);
      if !ok {
        Close();
        return false;
      }
      Deliver(recv, msgs);
      again := true;
    }
  }
}
