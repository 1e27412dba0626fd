/** What Session.Send and Session.Flush do to the batch, and what that means for the frames given to Send. */
module Batching {
  import opened Bytes
  import opened Lzo
  import opened Packet
  import opened SendBuffer

  /** The batch after a call, the packets handed to the write queue (at most one), and whether Send closes the link. */
  datatype Sent = Sent(batch: Pending, emitted: seq<seq<byte>>, refused: bool)

  /** getSendSize and, for a non-empty batch, enqueueWrite. */
  function FlushBatch(lib: Library, b: Pending): Sent
  {
    if b.bytes == [] then Sent(b, [], false) else Sent(EMPTY, [Envelope(lib, b.bytes)], false)
  }

  /** The size of a message is handed to addMsg as 32 bits. */
  function Truncated(framed: seq<byte>): seq<byte> { framed[..|framed| % 0x1_0000_0000] }

  function SendFrame(lib: Library, b: Pending, framed: seq<byte>): Sent
  {
    var msg := Truncated(framed);
    var (res, added) := Add(b, msg);
    if res == BUFFER_ERROR then Sent(added, [], true)
    else if res == BUFFER_ADDED then Sent(added, [], false)
    else if res == BUFFER_SEND then FlushBatch(lib, added)
    else
      var flushed := FlushBatch(lib, added);
      Sent(Add(flushed.batch, msg).1, flushed.emitted, false)  // the second result is not looked at
  }

  /**
    The four cases of Send in bytes: refused above 2048, held back below 1000 in all, sent alone, or sent behind
    the batch that was pending, which the frame then replaces.
   */
  lemma SendCases(lib: Library, b: Pending, f: Frame)
    ensures var r, total := SendFrame(lib, b, f), |b.bytes| + |f|;
            && (r.refused <==> |f| > 2048)
            && (|f| > 2048 ==> r.batch == b && r.emitted == [])
            && (|f| <= 2048 && total < 1000 ==> r.emitted == [] && r.batch.bytes == b.bytes + f)
            && (|f| <= 2048 && total >= 1000 && b.bytes == [] ==>
                  r.emitted == [Envelope(lib, f)] && r.batch.bytes == [])
            && (|f| <= 2048 && total >= 1000 && b.bytes != [] ==>
                  r.emitted == [Envelope(lib, b.bytes)] && r.batch.bytes == f)
  {
    hide Envelope;
    assert Truncated(f) == f;
  }

  // ---- The frames behind the bytes ----

  /** The frames accepted so far: the batches already handed over, and the frames still waiting. */
  datatype Ledger = Ledger(batches: seq<seq<Frame>>, waiting: seq<Frame>)

  ghost function Accepted(g: Ledger): seq<Frame> { Flatten(g.batches) + g.waiting }

  /** A batch of several frames stays below 1000 bytes; only a single frame may be longer, up to 2048. */
  ghost predicate SmallBatch(fs: seq<Frame>)
  {
    |Flatten(fs)| < COMPRESS_PACKET_SIZE || (|fs| == 1 && |Flatten(fs)| <= NET_DATA_BUFSIZE)
  }

  /** The packet of a batch. */
  ghost predicate IsPacketOf(lib: Library, packet: seq<byte>, fs: seq<Frame>)
  {
    fs != [] && SmallBatch(fs) && packet == Envelope(lib, Flatten(fs))
  }

  /** Packets and batches correspond one to one, and the pending bytes and count are those of the waiting frames. */
  ghost predicate Matches(lib: Library, b: Pending, packets: seq<seq<byte>>, g: Ledger)
  {
    && b.bytes == Flatten(g.waiting) && b.count == |g.waiting|
    && SmallBatch(g.waiting)
    && |packets| == |g.batches|
    && forall i :: 0 <= i < |packets| ==> IsPacketOf(lib, packets[i], g.batches[i])
  }

  lemma {:induction false} FramesAreLong(fs: seq<Frame>)
    ensures HEADER_SIZE * |fs| <= |Flatten(fs)|
  {
    if fs != [] {
      FramesAreLong(fs[1..]);
    }
  }

  /** The 16-bit message count never wraps: every message has at least eight bytes. */
  lemma CountDoesNotWrap(lib: Library, b: Pending, packets: seq<seq<byte>>, g: Ledger)
    requires Matches(lib, b, packets, g)
    ensures |b.bytes| <= NET_DATA_BUFSIZE
    ensures HEADER_SIZE * b.count <= |b.bytes|
    ensures b.count <= 256
  {
    FramesAreLong(g.waiting);
  }

  /** How Flush changes the ledger. */
  ghost function FlushLedger(g: Ledger): Ledger
  {
    if g.waiting == [] then g else Ledger(g.batches + [g.waiting], [])
  }

  /** How Send changes the ledger for a frame that is not too long. */
  ghost function SendLedger(g: Ledger, f: Frame): Ledger
  {
    if |f| > NET_DATA_BUFSIZE then g
    else if |Flatten(g.waiting)| + |f| < COMPRESS_PACKET_SIZE then Ledger(g.batches, g.waiting + [f])
    else if g.waiting == [] then Ledger(g.batches + [[f]], [])
    else Ledger(g.batches + [g.waiting], [f])
  }

  lemma EmptyBatch(fs: seq<Frame>)
    ensures Flatten(fs) == [] <==> fs == []
  {
    FramesAreLong(fs);
  }

  /** Flush hands over everything that waits, as one packet, and accepts nothing. */
  lemma FlushConserves(lib: Library, b: Pending, packets: seq<seq<byte>>, g: Ledger)
    requires Matches(lib, b, packets, g)
    ensures var r := FlushBatch(lib, b);
            && Matches(lib, r.batch, packets + r.emitted, FlushLedger(g))
            && r.batch.bytes == [] && FlushLedger(g).waiting == []
    ensures Accepted(FlushLedger(g)) == Accepted(g)
  {
    EmptyBatch(g.waiting);
    FlattenSnoc(g.batches, g.waiting);
    assert Flatten<byte>([]) == [];
  }

  /**
    Send appends the frame to what has been accepted, or refuses it when it is longer than 2048 bytes; it
    never loses, repeats, reorders or splits a frame. This covers the path on which the result of the second
    addMsg is ignored.
   */
  lemma SendConserves(lib: Library, b: Pending, packets: seq<seq<byte>>, g: Ledger, f: Frame)
    requires Matches(lib, b, packets, g)
    ensures var r := SendFrame(lib, b, f);
            && r.refused == (|f| > NET_DATA_BUFSIZE)
            && Matches(lib, r.batch, packets + r.emitted, SendLedger(g, f))
    ensures Accepted(SendLedger(g, f)) == if |f| > NET_DATA_BUFSIZE then Accepted(g) else Accepted(g) + [f]
  {
    hide Envelope, IsPacketOf, Matches, SendFrame, SendLedger, Accepted;
    CountDoesNotWrap(lib, b, packets, g);
    if |f| > NET_DATA_BUFSIZE {
      SendRefuses(lib, b, packets, g, f);
    } else if |b.bytes| + |f| < COMPRESS_PACKET_SIZE {
      SendAdds(lib, b, packets, g, f);
    } else if b.bytes == [] {
      SendPasses(lib, b, packets, g, f);
    } else {
      SendFlushes(lib, b, packets, g, f);
    }
  }

  // The four outcomes of addMsg inside Send.

  lemma SendRefuses(lib: Library, b: Pending, packets: seq<seq<byte>>, g: Ledger, f: Frame)
    requires Matches(lib, b, packets, g) && |f| > NET_DATA_BUFSIZE
    ensures SendFrame(lib, b, f) == Sent(b, [], true) && SendLedger(g, f) == g
    ensures Matches(lib, b, packets + [], g)
  {
    hide IsPacketOf;
    assert Truncated(f) == f;
    assert packets + [] == packets;
  }

  lemma SendAdds(lib: Library, b: Pending, packets: seq<seq<byte>>, g: Ledger, f: Frame)
    requires Matches(lib, b, packets, g) && |b.bytes| + |f| < COMPRESS_PACKET_SIZE
    ensures var r := SendFrame(lib, b, f); !r.refused && Matches(lib, r.batch, packets + r.emitted, SendLedger(g, f))
    ensures Accepted(SendLedger(g, f)) == Accepted(g) + [f]
  {
    hide IsPacketOf, Envelope;
    assert Truncated(f) == f;
    assert packets + [] == packets;
    CountDoesNotWrap(lib, b, packets, g);
    FlattenSnoc(g.waiting, f);
    FramesAreLong(g.waiting + [f]);
    assert Accepted(g) + [f] == Flatten(g.batches) + (g.waiting + [f]);
  }

  lemma SendPasses(lib: Library, b: Pending, packets: seq<seq<byte>>, g: Ledger, f: Frame)
    requires Matches(lib, b, packets, g)
    requires b.bytes == [] && COMPRESS_PACKET_SIZE <= |f| <= NET_DATA_BUFSIZE
    ensures var r := SendFrame(lib, b, f); !r.refused && Matches(lib, r.batch, packets + r.emitted, SendLedger(g, f))
    ensures Accepted(SendLedger(g, f)) == Accepted(g) + [f]
  {
    hide IsPacketOf, Envelope;
    assert Truncated(f) == f;
    EmptyBatch(g.waiting);
    FlattenOne<byte>(f);
    PacketIsNew(lib, [f]);
    FlattenSnoc(g.batches, [f]);
    assert Flatten<byte>([]) == [];
  }

  lemma SendFlushes(lib: Library, b: Pending, packets: seq<seq<byte>>, g: Ledger, f: Frame)
    requires Matches(lib, b, packets, g)
    requires b.bytes != [] && |b.bytes| + |f| >= COMPRESS_PACKET_SIZE && |f| <= NET_DATA_BUFSIZE
    ensures var r := SendFrame(lib, b, f); !r.refused && Matches(lib, r.batch, packets + r.emitted, SendLedger(g, f))
    ensures Accepted(SendLedger(g, f)) == Accepted(g) + [f]
  {
    hide IsPacketOf, Envelope;
    assert Truncated(f) == f;
    EmptyBatch(g.waiting);
    FlattenOne<byte>(f);
    PacketIsNew(lib, g.waiting);
    FlattenSnoc(g.batches, g.waiting);
  }

  lemma PacketIsNew(lib: Library, fs: seq<Frame>)
    requires fs != [] && SmallBatch(fs)
    ensures IsPacketOf(lib, Envelope(lib, Flatten(fs)), fs)
  {
  }

  // ---- Runs ----

  datatype Op = Send(frame: Frame) | Flush

  /** The state after a sequence of calls: the batch and all packets handed over. */
  ghost function Sender(lib: Library, ops: seq<Op>): (r: (Pending, seq<seq<byte>>))
    decreases |ops|
  {
    if ops == [] then (EMPTY, [])
    else
      var (b, packets) := Sender(lib, ops[..|ops| - 1]);
      var r := match ops[|ops| - 1] case Send(f) => SendFrame(lib, b, f) case Flush => FlushBatch(lib, b);
      (r.batch, packets + r.emitted)
  }

  /** The frames of a sequence of calls that fit a send buffer. */
  ghost function Fitting(ops: seq<Op>): seq<Frame>
  {
    if ops == [] then []
    else
      var before, last := Fitting(ops[..|ops| - 1]), ops[|ops| - 1];
      if last.Send? && |last.frame| <= NET_DATA_BUFSIZE then before + [last.frame] else before
  }

  /**
    Conservation over every run of Send and Flush: the batches handed over, followed by the frames waiting,
    are exactly the accepted frames in order, and each packet is the envelope of one batch of whole frames.
   */
  lemma {:induction false} BatchConservation(lib: Library, ops: seq<Op>) returns (g: Ledger)
    ensures Matches(lib, Sender(lib, ops).0, Sender(lib, ops).1, g)
    ensures Accepted(g) == Fitting(ops)
    decreases |ops|
  {
    if ops == [] {
      g := Ledger([], []);
    } else {
      var last := ops[|ops| - 1];
      g := BatchConservation(lib, ops[..|ops| - 1]);
      var (b, packets) := Sender(lib, ops[..|ops| - 1]);
      match last {
        case Send(f) =>
          SendConserves(lib, b, packets, g, f);
          g := SendLedger(g, f);
        case Flush =>
          FlushConserves(lib, b, packets, g);
          g := FlushLedger(g);
      }
    }
  }

  /** Every packet of every run is an envelope of 13 to 2060 bytes, well inside what the receiver accepts. */
  lemma PacketShapes(lib: Library, ops: seq<Op>)
    requires Lawful(lib)
    ensures forall p <- Sender(lib, ops).1 :: IsFrame(p) && ENVELOPE_HEAD < |p| <= 2060 < MAX_MESSAGE_SIZE
  {
    hide Sender;
    var g := BatchConservation(lib, ops);
    var packets := Sender(lib, ops).1;
    forall i | 0 <= i < |packets|
      ensures IsFrame(packets[i]) && ENVELOPE_HEAD < |packets[i]| <= 2060
    {
      assert IsPacketOf(lib, packets[i], g.batches[i]);
      FramesAreLong(g.batches[i]);
      EnvelopeShape(lib, Flatten(g.batches[i]));
    }
  }

  // ---- What the receiver makes of the packets ----

  lemma PacketCarriesBatch(lib: Library, p: seq<byte>, fs: seq<Frame>)
    requires Lawful(lib)
    requires IsPacketOf(lib, p, fs)
    ensures Acceptable(lib, p) && Contents(lib, p) == AsMessages(fs)
  {
    FramesAreLong(fs);
    EnvelopeCarriesFrames(lib, fs);
  }

  lemma MessagesAppend(a: seq<Frame>, b: seq<Frame>)
    ensures AsMessages(a + b) == AsMessages(a) + AsMessages(b)
  {
  }

  /** The stream of all packets parses to exactly the frames of the batches, with nothing left over. */
  lemma {:induction false} PacketsCarryBatches(lib: Library, packets: seq<seq<byte>>, batches: seq<seq<Frame>>)
    requires Lawful(lib)
    requires |packets| == |batches|
    requires forall i :: 0 <= i < |packets| ==> IsPacketOf(lib, packets[i], batches[i])
    ensures forall p <- packets :: Acceptable(lib, p)
    ensures AllContents(lib, packets) == AsMessages(Flatten(batches))
  {
    hide Acceptable, Contents, IsPacketOf, AsMessages;
    if packets == [] {
      NoMessages();
    } else {
      var p, fs := packets[0], batches[0];
      PacketCarriesBatch(lib, p, fs);
      PacketsCarryBatches(lib, packets[1..], batches[1..]);
      MessagesAppend(fs, Flatten(batches[1..]));
      assert packets == [p] + packets[1..];
    }
  }

  lemma NoMessages()
    ensures AsMessages([]) == []
  {
  }

  /** What the receiver gets from the packets handed over, in terms of the ledger. */
  lemma PacketsParse(lib: Library, b: Pending, packets: seq<seq<byte>>, g: Ledger)
    requires Lawful(lib)
    requires Matches(lib, b, packets, g)
    ensures Parse(lib, Flatten(packets)) == Parsed(true, AsMessages(Flatten(g.batches)), [])
    ensures AsMessages(Flatten(g.batches)) <= AsMessages(Accepted(g))
    ensures b.bytes == [] ==> Accepted(g) == Flatten(g.batches)
  {
    hide Acceptable, AsMessages, IsPacketOf;
    PacketsCarryBatches(lib, packets, g.batches);
    FramesAreFound(lib, packets, []);
    assert Flatten(packets) + [] == Flatten(packets);
    MessagesAppend(Flatten(g.batches), g.waiting);
    EmptyBatch(g.waiting);
  }

  /** Reading any part of a good stream, in any chunks. */
  lemma PrefixDelivered(lib: Library, whole: seq<byte>, chunks: seq<seq<byte>>)
    requires Parse(lib, whole).ok
    requires Flatten(chunks) <= whole
    ensures FeedAll(lib, [], chunks).ok
    ensures FeedAll(lib, [], chunks).msgs <= Parse(lib, whole).msgs
    ensures Flatten(chunks) == whole ==> FeedAll(lib, [], chunks) == Parse(lib, whole)
  {
    hide Parse, FeedAll;
    var read := Flatten(chunks);
    PrefixParses(lib, whole, |read|);
    ChunkingInvariance(lib, [], chunks);
    assert [] + read == read == whole[..|read|];
  }

  /**
    End to end over the byte stream: for every run of Send and Flush and every way of cutting the packets'
    bytes into reads, also when the stream breaks off anywhere, every read succeeds and the messages
    received are a prefix, byte for byte, of the accepted frames: message i has all bytes of frame i, header
    included, and the type that stands in it. If the run ends with Flush and all bytes arrive, they are all of
    them.
   */
  lemma StreamDelivery(lib: Library, ops: seq<Op>, chunks: seq<seq<byte>>)
    requires Lawful(lib)
    requires Flatten(chunks) <= Flatten(Sender(lib, ops).1)
    ensures FeedAll(lib, [], chunks).ok
    ensures FeedAll(lib, [], chunks).msgs <= AsMessages(Fitting(ops))
    ensures ops != [] && ops[|ops| - 1] == Flush && Flatten(chunks) == Flatten(Sender(lib, ops).1) ==>
              FeedAll(lib, [], chunks) == Parsed(true, AsMessages(Fitting(ops)), [])
              && |FeedAll(lib, [], chunks).msgs| == |Fitting(ops)|
    ensures var ms, fs := FeedAll(lib, [], chunks).msgs, Fitting(ops);
            && |ms| <= |fs|
            && forall i :: 0 <= i < |ms| ==> ms[i].bytes == fs[i] && ms[i].mtype == ReadLE32(fs[i], 4)
  {
    hide *;
    var g := BatchConservation(lib, ops);
    var packets := Sender(lib, ops).1;
    PacketsParse(lib, Sender(lib, ops).0, packets, g);
    PrefixDelivered(lib, Flatten(packets), chunks);
    MessagesAppend(Flatten(g.batches), g.waiting);
    if ops != [] && ops[|ops| - 1] == Flush {
      FlushLeavesNothing(lib, ops);
      AsMessagesLength(Fitting(ops));
    }
    MessagesAreFrames(FeedAll(lib, [], chunks).msgs, Fitting(ops));
  }

  lemma FlushLeavesNothing(lib: Library, ops: seq<Op>)
    requires ops != [] && ops[|ops| - 1] == Flush
    ensures Sender(lib, ops).0.bytes == []
  {
  }
}
