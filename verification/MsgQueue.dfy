/** MsgManager, the double-buffered receive queue between the I/O threads and the update tick. */
module MsgQueue {
  import opened Bytes
  import Packet

  class MsgManager {
    var front: seq<Packet.Message>
    var back: seq<Packet.Message>

    constructor ()
      ensures front == [] && back == []
    {
      front, back := [], [];
    }

    method MsgQueueInsert(msg: Packet.Message)
      modifies this
      ensures front == old(front) + [msg] && back == old(back)
    {
      front := front + [msg];
    }

    method MsgQueueFlip()
      modifies this
      ensures front == [] && back == old(back) + old(front)
    {
      while front != []
        invariant back + front == old(back) + old(front)
        decreases |front|
      {
        back := back + [front[0]];
        front := front[1..];
      }
    }

    /** The next message of the back queue, or nothing when it is drained. */
    method GetMsg() returns (msg: Option<Packet.Message>)
      modifies this
      ensures front == old(front)
      ensures msg == if old(back) == [] then None else Some(old(back)[0])
      ensures back == if old(back) == [] then [] else old(back)[1..]
    {
      if back == [] {
        return None;
      }
      msg := Some(back[0]);
      back := back[1..];
    }
  }

  /** The update tick of a server: flip, then dispatch until the back queue is drained. */
  class Dispatcher {
    const recv: MsgManager
    var dispatched: seq<Packet.Message>

    constructor (recv: MsgManager)
      ensures this.recv == recv && dispatched == []
    {
      this.recv := recv;
      dispatched := [];
    }

    method OnUpdate()
      modifies this, recv
      ensures recv.front == [] && recv.back == []
      ensures dispatched == old(dispatched) + old(recv.back) + old(recv.front)
    {
      recv.MsgQueueFlip();
      ghost var all := dispatched + recv.back;
      assert all == old(dispatched) + old(recv.back) + old(recv.front);
      var msg := recv.GetMsg();
      while msg.Some?
        invariant recv.front == []
        invariant all == dispatched + (if msg.Some? then [msg.value] else []) + recv.back
        invariant msg == None ==> recv.back == []
        decreases |recv.back|, msg.Some?
      {
        dispatched := dispatched + [msg.value];
        msg := recv.GetMsg();
      }
    }
  }

  // ---- Interleavings ----

  /** The two queues with their history. */
  datatype Queues<T> = Queues(front: seq<T>, back: seq<T>, inserted: seq<T>, got: seq<T>)

  /** The three lock sections. A Get on an empty back queue reports that it is drained. */
  datatype QueueOp<T> = Insert(msg: T) | Flip | Get

  function ApplyOp<T>(q: Queues<T>, op: QueueOp<T>): Queues<T>
  {
    match op
    case Insert(m) => q.(front := q.front + [m], inserted := q.inserted + [m])
    case Flip => q.(front := [], back := q.back + q.front)
    case Get => if q.back == [] then q else q.(back := q.back[1..], got := q.got + [q.back[0]])
  }

  function ApplyOps<T>(q: Queues<T>, ops: seq<QueueOp<T>>): Queues<T>
    decreases |ops|
  {
    if ops == [] then q else ApplyOps(ApplyOp(q, ops[0]), ops[1..])
  }

  ghost predicate Balanced<T>(q: Queues<T>) { q.got + q.back + q.front == q.inserted }

  /** In every interleaving, every inserted message is got exactly once and in order, also across undrained flips. */
  lemma {:induction false} ExactlyOnceInOrder<T>(q: Queues<T>, ops: seq<QueueOp<T>>)
    requires Balanced(q)
    ensures Balanced(ApplyOps(q, ops))
    decreases |ops|
  {
    if ops != [] {
      var next := ApplyOp(q, ops[0]);
      assert Balanced(next) by {
        match ops[0] {
          case Insert(m) => assert q.got + q.back + (q.front + [m]) == q.got + q.back + q.front + [m];
          case Flip => assert q.got + (q.back + q.front) + [] == q.got + q.back + q.front;
          case Get => assert q.back != [] ==> q.back == [q.back[0]] + q.back[1..];
        }
      }
      ExactlyOnceInOrder(next, ops[1..]);
    }
  }

  function Gets<T>(ops: seq<QueueOp<T>>): nat
  {
    if ops == [] then 0 else (if ops[0].Get? then 1 else 0) + Gets(ops[1..])
  }

  function Min(a: nat, b: nat): nat { if a < b then a else b }

  /**
    The drain loop of a tick: as long as nothing is flipped, messages inserted meanwhile do not reach the back
    queue. The first |back| gets return the messages that were there, in order, and every later get, so the
    one that ends the loop, finds it drained.
   */
  lemma {:induction false} DrainIsExact<T>(q: Queues<T>, ops: seq<QueueOp<T>>)
    requires forall op <- ops :: !op.Flip?
    ensures var k := Min(Gets(ops), |q.back|);
            && ApplyOps(q, ops).got == q.got + q.back[..k]
            && ApplyOps(q, ops).back == q.back[k..]
    ensures ApplyOps(q, ops).back == [] <==> Gets(ops) >= |q.back|
    decreases |ops|
  {
    if ops == [] {
      assert q.got + q.back[..0] == q.got;
    } else {
      DrainIsExact(ApplyOp(q, ops[0]), ops[1..]);
      if ops[0].Get? && q.back != [] {
        var k := Min(Gets(ops), |q.back|);
        assert q.got + [q.back[0]] + q.back[1..][..k - 1] == q.got + q.back[..k];
      }
    }
  }
}
