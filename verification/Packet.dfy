/**
  The wire format: NET_MSG_GENERIC frames, the NET_COMPRESS envelope that carries a batch of frames, and
  what a receiver gets out of a byte stream. This is the specification that MessageFramer.Feed is proved
  against; the lemmas state what the format promises.
 */
module Packet {
  import opened Bytes
  import opened Lzo

  const HEADER_SIZE: int := 8
  const ENVELOPE_HEAD: int := 12
  const MAX_MESSAGE_SIZE: int := 4108
  const DECOMPRESS_BUFFER: int := 32768
  const NET_MSG_COMPRESS: uint32 := 170

  /** A received message; `bytes` is the whole frame with its 8-byte header. */
  datatype Message = Message(mtype: uint32, clientId: uint32, bytes: seq<byte>)

  /** A frame whose size field is its own length. */
  ghost predicate IsFrame(f: seq<byte>) { HEADER_SIZE <= |f| && ReadLE32(f, 0) == |f| }

  type Frame = f: seq<byte> | IsFrame(f) ghost witness LE32(8) + LE32(0)

  /** The frame of a message: total size, type, payload. */
  function EncodedMessage(mtype: uint32, payload: seq<byte>): seq<byte>
    requires HEADER_SIZE + |payload| < 0x1_0000_0000
  {
    LE32(HEADER_SIZE + |payload|) + LE32(mtype) + payload
  }

  /** EncodeMessage produces frames, and a frame determines the type and payload it was made from. */
  lemma EncodedMessageIsFrame(mtype: uint32, payload: seq<byte>)
    requires HEADER_SIZE + |payload| < 0x1_0000_0000
    ensures IsFrame(EncodedMessage(mtype, payload))
    ensures ReadLE32(EncodedMessage(mtype, payload), 4) == mtype
    ensures EncodedMessage(mtype, payload)[HEADER_SIZE..] == payload
  {
    var size := LE32(HEADER_SIZE + |payload|);
    ReadWrittenWord([], HEADER_SIZE + |payload|, LE32(mtype) + payload);
    ReadWrittenWord(size, mtype, payload);
    assert [] + size + (LE32(mtype) + payload) == EncodedMessage(mtype, payload);
  }

  /** Conversely every frame is the encoding of its own type and payload. */
  lemma FrameIsEncodedMessage(f: Frame)
    ensures f == EncodedMessage(ReadLE32(f, 4), f[HEADER_SIZE..])
  {
    WriteReadWord(f, 0);
    WriteReadWord(f, 4);
    assert f == f[0..4] + f[4..8] + f[8..];
  }

  /** The message a receiver makes of one frame; the client id is stamped later. */
  function AsMessage(f: seq<byte>): Message
    requires HEADER_SIZE <= |f|
  {
    Message(ReadLE32(f, 4), 0, f)
  }

  ghost function AsMessages(fs: seq<Frame>): seq<Message>
  {
    seq(|fs|, i requires 0 <= i < |fs| => AsMessage(fs[i]))
  }

  // ---- The batch inside an envelope ----

  datatype Batch = Batch(ok: bool, msgs: seq<Message>)

  /** Cuts a batch into messages. Fewer than 8 trailing bytes are dropped; a bad inner size is an error. */
  function ParseBatch(b: seq<byte>): Batch
    decreases |b|
  {
    if |b| < HEADER_SIZE then Batch(true, [])
    else
      var n := ReadLE32(b, 0);
      if n < HEADER_SIZE || n > |b| then Batch(false, [])
      else
        var rest := ParseBatch(b[n..]);
        Batch(rest.ok, [AsMessage(b[..n])] + rest.msgs)
  }

  lemma BatchStep(b: seq<byte>)
    requires HEADER_SIZE <= |b| && HEADER_SIZE <= ReadLE32(b, 0) <= |b|
    ensures var n := ReadLE32(b, 0);
            ParseBatch(b) == Batch(ParseBatch(b[n..]).ok, [AsMessage(b[..n])] + ParseBatch(b[n..]).msgs)
  {
  }

  lemma BatchEnds(b: seq<byte>)
    ensures |b| < HEADER_SIZE ==> ParseBatch(b) == Batch(true, [])
    ensures HEADER_SIZE <= |b| && !(HEADER_SIZE <= ReadLE32(b, 0) <= |b|) ==> ParseBatch(b) == Batch(false, [])
  {
  }

  lemma FrameInFront(f: Frame, later: seq<byte>)
    ensures ParseBatch(f + later) == Batch(ParseBatch(later).ok, [AsMessage(f)] + ParseBatch(later).msgs)
  {
    var b := f + later;
    assert b[..|f|] == f && b[|f|..] == later;
    assert ReadLE32(b, 0) == ReadLE32(f, 0);
    BatchStep(b);
  }

  /** A batch of frames, with or without a short tail, is cut into exactly those frames. */
  lemma {:induction false} BatchOfFrames(fs: seq<Frame>, tail: seq<byte>)
    requires |tail| < HEADER_SIZE
    ensures ParseBatch(Flatten(fs) + tail) == Batch(true, AsMessages(fs))
  {
    hide ParseBatch, AsMessage, ReadLE32;
    if fs == [] {
      assert Flatten(fs) + tail == tail;
      BatchEnds(tail);
    } else {
      var f, later := fs[0], Flatten(fs[1..]) + tail;
      assert Flatten(fs) + tail == f + later;
      FrameInFront(f, later);
      BatchOfFrames(fs[1..], tail);
      assert AsMessages(fs) == [AsMessage(f)] + AsMessages(fs[1..]);
    }
  }

  lemma FrameAtFront(b: seq<byte>)
    requires HEADER_SIZE <= |b| && HEADER_SIZE <= ReadLE32(b, 0) <= |b|
    ensures var f := b[..ReadLE32(b, 0)]; IsFrame(f) && b == f + b[|f|..] && AsMessage(f).bytes == f
  {
    var n := ReadLE32(b, 0);
    assert ReadLE32(b[..n], 0) == n;
  }

  /** Conversely a batch is cut without an error only if it is frames and a short tail. */
  lemma {:induction false} BatchIsFrames(b: seq<byte>) returns (fs: seq<Frame>, tail: seq<byte>)
    requires ParseBatch(b).ok
    ensures b == Flatten(fs) + tail && |tail| < 8
    decreases |b|
  {
    hide ReadLE32, ParseBatch;
    BatchEnds(b);
    if |b| < HEADER_SIZE {
      fs, tail := [], b;
    } else {
      var n := ReadLE32(b, 0);
      BatchStep(b);
      FrameAtFront(b);
      fs, tail := BatchIsFrames(b[n..]);
      FlattenAppend([b[..n]], fs);
      fs := [b[..n]] + fs;
    }
  }

  function BytesOf(ms: seq<Message>): seq<seq<byte>>
  {
    seq(|ms|, i requires 0 <= i < |ms| => ms[i].bytes)
  }

  /**
    Cutting takes nothing away: the bytes of the messages, one after the other, are the batch up to the place
    where cutting stops, and each message is a frame of its type.
   */
  lemma {:induction false} CutIsPartition(b: seq<byte>) returns (rest: seq<byte>)
    ensures var batch := ParseBatch(b);
            && b == Flatten(BytesOf(batch.msgs)) + rest
            && (batch.ok <==> |rest| < 8)
            && forall m <- batch.msgs :: IsFrame(m.bytes) && m.mtype == ReadLE32(m.bytes, 4) && m.clientId == 0
    decreases |b|
  {
    hide ReadLE32, ParseBatch;
    BatchEnds(b);
    if |b| >= HEADER_SIZE && HEADER_SIZE <= ReadLE32(b, 0) <= |b| {
      var n := ReadLE32(b, 0);
      var f, later := b[..n], ParseBatch(b[n..]).msgs;
      rest := CutIsPartition(b[n..]);
      BatchStep(b);
      FrameAtFront(b);
      assert BytesOf([AsMessage(f)] + later) == [f] + BytesOf(later);
    } else {
      rest := b;
      assert BytesOf([]) == [];
    }
  }

  /** What a complete envelope of at least 12 bytes contains. */
  function Unwrap(lib: Library, envelope: seq<byte>): Batch
    requires ENVELOPE_HEAD <= |envelope|
  {
    if envelope[8] == 1 then
      var d := DecompressOut(lib, envelope[ENVELOPE_HEAD..], DECOMPRESS_BUFFER);
      if d.code != MINLZO_SUCCESS then Batch(false, []) else ParseBatch(d.data)
    else
      ParseBatch(envelope[ENVELOPE_HEAD..])
  }

  // ---- The stream of frames ----

  /** What stands at the front of a buffer. */
  datatype Front =
    | Incomplete
    | Malformed(msgs: seq<Message>)
    | Complete(size: nat, msgs: seq<Message>)

  function FirstFrame(lib: Library, b: seq<byte>): (r: Front)
    ensures r.Complete? ==> HEADER_SIZE <= r.size <= MAX_MESSAGE_SIZE && r.size <= |b|
    ensures r.Incomplete? ==> |b| < MAX_MESSAGE_SIZE
  {
    if |b| < HEADER_SIZE then Incomplete
    else
      var n, t := ReadLE32(b, 0), ReadLE32(b, 4);
      if n < HEADER_SIZE || n > MAX_MESSAGE_SIZE then Malformed([])
      else if |b| < n then Incomplete
      else if t != NET_MSG_COMPRESS then Complete(n, [AsMessage(b[..n])])
      else if n < ENVELOPE_HEAD then Malformed([])
      else
        var batch := Unwrap(lib, b[..n]);
        if batch.ok then Complete(n, batch.msgs) else Malformed(batch.msgs)
  }

  /** The outcome of parsing a buffer: messages in order, and the unparsed tail when no error was met. */
  datatype Parsed = Parsed(ok: bool, msgs: seq<Message>, rest: seq<byte>)

  function Parse(lib: Library, b: seq<byte>): Parsed
    decreases |b|
  {
    match FirstFrame(lib, b)
    case Incomplete => Parsed(true, [], b)
    case Malformed(ms) => Parsed(false, ms, [])
    case Complete(n, ms) => Prepend(ms, Parse(lib, b[n..]))
  }

  /** The outcome with some earlier messages put in front. */
  function Prepend(ms: seq<Message>, p: Parsed): Parsed
  {
    Parsed(p.ok, ms + p.msgs, p.rest)
  }

  /** Bytes arriving later never change what stands complete or malformed at the front. */
  lemma FirstFrameIsStable(lib: Library, b: seq<byte>, more: seq<byte>)
    requires !FirstFrame(lib, b).Incomplete?
    ensures FirstFrame(lib, b + more) == FirstFrame(lib, b)
  {
    assert ReadLE32(b + more, 0) == ReadLE32(b, 0);
    assert ReadLE32(b + more, 4) == ReadLE32(b, 4);
    var n := ReadLE32(b, 0);
    if n <= |b| {
      assert (b + more)[..n] == b[..n];
    }
  }

  /** What a second piece of input adds to the outcome of a first. */
  function Then(first: Parsed, second: Parsed): Parsed
  {
    if first.ok then Prepend(first.msgs, second) else first
  }

  lemma PrependThen(ms: seq<Message>, first: Parsed, second: Parsed)
    ensures Then(Prepend(ms, first), second) == Prepend(ms, Then(first, second))
  {
    assert (ms + first.msgs) + second.msgs == ms + (first.msgs + second.msgs);
  }

  lemma PrependNothing(p: Parsed)
    ensures Prepend([], p) == p
  {
  }

  lemma ParseComplete(lib: Library, b: seq<byte>)
    requires FirstFrame(lib, b).Complete?
    ensures var front := FirstFrame(lib, b);
            Parse(lib, b) == Prepend(front.msgs, Parse(lib, b[front.size..]))
            && Parse(lib, b).rest == Parse(lib, b[front.size..]).rest
  {
  }

  lemma ParseStops(lib: Library, b: seq<byte>)
    requires !FirstFrame(lib, b).Complete?
    ensures Parse(lib, b) ==
            if FirstFrame(lib, b).Incomplete? then Parsed(true, [], b) else Parsed(false, FirstFrame(lib, b).msgs, [])
  {
  }

  /** Parsing in two pieces, from the leftover of the first, is parsing the whole. */
  lemma {:induction false} ParseInPieces(lib: Library, a: seq<byte>, b: seq<byte>)
    ensures Parse(lib, a + b) == Then(Parse(lib, a), Parse(lib, Parse(lib, a).rest + b))
    decreases |a|
  {
    hide FirstFrame, Parse, Prepend;
    var front := FirstFrame(lib, a);
    if front.Complete? {
      var a', whole := a[front.size..], a + b;
      FirstFrameIsStable(lib, a, b);
      assert whole[front.size..] == a' + b;
      ParseInPieces(lib, a', b);
      ParseComplete(lib, a);
      ParseComplete(lib, whole);
      PrependThen(front.msgs, Parse(lib, a'), Parse(lib, Parse(lib, a').rest + b));
    } else {
      ParseStops(lib, a);
      if front.Malformed? {
        FirstFrameIsStable(lib, a, b);
        ParseStops(lib, a + b);
      } else {
        PrependNothing(Parse(lib, a + b));
      }
    }
  }

  /** Nothing complete is left behind: the tail is short and starts no complete frame. */
  lemma {:induction false} ParseIsGreedy(lib: Library, b: seq<byte>)
    requires Parse(lib, b).ok
    ensures FirstFrame(lib, Parse(lib, b).rest).Incomplete?
    ensures |Parse(lib, b).rest| < MAX_MESSAGE_SIZE
    ensures Parse(lib, Parse(lib, b).rest) == Parsed(true, [], Parse(lib, b).rest)
    decreases |b|
  {
    var front := FirstFrame(lib, b);
    if front.Complete? {
      ParseIsGreedy(lib, b[front.size..]);
    }
  }

  // ---- A definition of framing without a parser ----

  /** A frame the receiver accepts on the wire: within the size limit and, if an envelope, well formed inside. */
  ghost predicate Acceptable(lib: Library, f: seq<byte>)
  {
    && IsFrame(f)
    && |f| <= MAX_MESSAGE_SIZE
    && (ReadLE32(f, 4) == NET_MSG_COMPRESS ==> ENVELOPE_HEAD <= |f| && Unwrap(lib, f).ok)
  }

  /** The messages an acceptable wire frame stands for: itself, or the batch it carries. */
  ghost function Contents(lib: Library, f: seq<byte>): seq<Message>
    requires Acceptable(lib, f)
  {
    if ReadLE32(f, 4) == NET_MSG_COMPRESS then Unwrap(lib, f).msgs else [AsMessage(f)]
  }

  ghost function AllContents(lib: Library, fs: seq<seq<byte>>): seq<Message>
    requires forall f <- fs :: Acceptable(lib, f)
  {
    if fs == [] then [] else Contents(lib, fs[0]) + AllContents(lib, fs[1..])
  }

  lemma AcceptableIsComplete(lib: Library, f: seq<byte>, rest: seq<byte>)
    requires Acceptable(lib, f)
    ensures FirstFrame(lib, f + rest) == Complete(|f|, Contents(lib, f))
  {
    assert f[..|f|] == f;
    FirstFrameIsStable(lib, f, rest);
  }

  lemma FrontIsAcceptable(lib: Library, b: seq<byte>)
    requires FirstFrame(lib, b).Complete?
    ensures var front := FirstFrame(lib, b);
            Acceptable(lib, b[..front.size]) && Contents(lib, b[..front.size]) == front.msgs
  {
    var f := b[..FirstFrame(lib, b).size];
    assert ReadLE32(f, 0) == ReadLE32(b, 0) && ReadLE32(f, 4) == ReadLE32(b, 4);
  }

  /** A stream made of acceptable frames and an incomplete tail is parsed into exactly those frames and that tail. */
  lemma {:induction false} FramesAreFound(lib: Library, fs: seq<seq<byte>>, tail: seq<byte>)
    requires forall f <- fs :: Acceptable(lib, f)
    requires FirstFrame(lib, tail).Incomplete?
    ensures Parse(lib, Flatten(fs) + tail) == Parsed(true, AllContents(lib, fs), tail)
  {
    if fs == [] {
      assert Flatten(fs) + tail == tail;
    } else {
      var later := Flatten(fs[1..]) + tail;
      assert Flatten(fs) + tail == fs[0] + later;
      AcceptableIsComplete(lib, fs[0], later);
      FramesAreFound(lib, fs[1..], tail);
      assert (fs[0] + later)[|fs[0]|..] == later;
    }
  }

  /** The frames in front of the point where parsing stops, and everything from there on. */
  ghost function Cut(lib: Library, b: seq<byte>): (r: (seq<seq<byte>>, seq<byte>))
    decreases |b|
  {
    var front := FirstFrame(lib, b);
    if front.Complete? then
      var (fs, stop) := Cut(lib, b[front.size..]);
      ([b[..front.size]] + fs, stop)
    else ([], b)
  }

  lemma CutStep(lib: Library, b: seq<byte>)
    requires FirstFrame(lib, b).Complete?
    ensures var front := FirstFrame(lib, b);
            Cut(lib, b) == ([b[..front.size]] + Cut(lib, b[front.size..]).0, Cut(lib, b[front.size..]).1)
  {
  }

  /** Every input is a sequence of acceptable frames followed by the point where parsing stops. */
  lemma {:induction false} InputIsFramesAndStop(lib: Library, b: seq<byte>)
    ensures b == Flatten(Cut(lib, b).0) + Cut(lib, b).1
    ensures forall f <- Cut(lib, b).0 :: Acceptable(lib, f)
    ensures !FirstFrame(lib, Cut(lib, b).1).Complete?
    decreases |b|
  {
    hide FirstFrame, Acceptable;
    var front := FirstFrame(lib, b);
    if front.Complete? {
      var f, later := b[..front.size], b[front.size..];
      InputIsFramesAndStop(lib, later);
      FrontIsAcceptable(lib, b);
      CutStep(lib, b);
      assert b == f + later;
      FlattenAppend([f], Cut(lib, later).0);
    }
  }

  lemma {:induction false} StopDecidesParse(lib: Library, b: seq<byte>)
    requires forall f <- Cut(lib, b).0 :: Acceptable(lib, f)
    ensures var (fs, stop) := Cut(lib, b);
            && (Parse(lib, b).ok <==> FirstFrame(lib, stop).Incomplete?)
            && (Parse(lib, b).ok ==> Parse(lib, b) == Parsed(true, AllContents(lib, fs), stop))
            && (!Parse(lib, b).ok ==> FirstFrame(lib, stop).Malformed? &&
                                      Parse(lib, b).msgs == AllContents(lib, fs) + FirstFrame(lib, stop).msgs)
    decreases |b|
  {
    hide FirstFrame, Acceptable, Contents, Parse;
    var front := FirstFrame(lib, b);
    if front.Complete? {
      var f, later := b[..front.size], b[front.size..];
      FrontIsAcceptable(lib, b);
      CutStep(lib, b);
      ParseComplete(lib, b);
      var fs, stop := Cut(lib, later).0, Cut(lib, later).1;
      assert forall g <- fs :: g in Cut(lib, b).0;
      StopDecidesParse(lib, later);
      assert ([f] + fs)[1..] == fs;
      assert AllContents(lib, [f] + fs) == front.msgs + AllContents(lib, fs);
      if !Parse(lib, later).ok {
        var ms := FirstFrame(lib, stop).msgs;
        assert front.msgs + (AllContents(lib, fs) + ms) == (front.msgs + AllContents(lib, fs)) + ms;
      }
    } else {
      ParseStops(lib, b);
    }
  }

  /**
    Parsing succeeds exactly when it stops at an incomplete frame rather than a malformed one. Then the
    messages are those of the frames before that point, and the leftover is the rest of the input; after
    an error, the messages met before the malformed spot have been delivered too.
   */
  lemma ParseOutcome(lib: Library, b: seq<byte>)
    ensures var (fs, stop) := Cut(lib, b);
            && b == Flatten(fs) + stop
            && (forall f <- fs :: Acceptable(lib, f))
            && (Parse(lib, b).ok <==> FirstFrame(lib, stop).Incomplete?)
            && (Parse(lib, b).ok ==> Parse(lib, b) == Parsed(true, AllContents(lib, fs), stop))
            && (!Parse(lib, b).ok ==> FirstFrame(lib, stop).Malformed? &&
                                      Parse(lib, b).msgs == AllContents(lib, fs) + FirstFrame(lib, stop).msgs)
  {
    InputIsFramesAndStop(lib, b);
    StopDecidesParse(lib, b);
  }

  // ---- Reading in chunks ----

  /** What a receiver gets from successive reads; after an error nothing more is read. */
  ghost function FeedAll(lib: Library, buf: seq<byte>, chunks: seq<seq<byte>>): Parsed
    decreases |chunks|
  {
    if chunks == [] then Parsed(true, [], buf)
    else
      var p := Parse(lib, buf + chunks[0]);
      if p.ok then Then(p, FeedAll(lib, p.rest, chunks[1..])) else p
  }

  /** How a stream is split into reads makes no difference. */
  lemma {:induction false} ChunkingInvariance(lib: Library, buf: seq<byte>, chunks: seq<seq<byte>>)
    requires FirstFrame(lib, buf).Incomplete?
    ensures FeedAll(lib, buf, chunks) == Parse(lib, buf + Flatten(chunks))
    decreases |chunks|
  {
    if chunks == [] {
      assert buf + Flatten(chunks) == buf;
    } else {
      var p := Parse(lib, buf + chunks[0]);
      assert buf + Flatten(chunks) == (buf + chunks[0]) + Flatten(chunks[1..]);
      ParseInPieces(lib, buf + chunks[0], Flatten(chunks[1..]));
      if p.ok {
        ParseIsGreedy(lib, buf + chunks[0]);
        ChunkingInvariance(lib, p.rest, chunks[1..]);
      }
    }
  }

  /** Cutting a good stream short anywhere still parses, to a prefix of its messages. */
  lemma PrefixParses(lib: Library, whole: seq<byte>, n: nat)
    requires n <= |whole|
    requires Parse(lib, whole).ok
    ensures Parse(lib, whole[..n]).ok
    ensures Parse(lib, whole[..n]).msgs <= Parse(lib, whole).msgs
  {
    assert whole == whole[..n] + whole[n..];
    ParseInPieces(lib, whole[..n], whole[n..]);
  }

  // ---- What is delivered, frame by frame ----

  /** Message i is frame i: all its bytes, header included, and the type that stands in it. */
  lemma MessagesAreFrames(ms: seq<Message>, fs: seq<Frame>)
    requires ms <= AsMessages(fs)
    ensures |ms| <= |fs|
    ensures forall i :: 0 <= i < |ms| ==> ms[i].bytes == fs[i] && ms[i].mtype == ReadLE32(fs[i], 4)
  {
  }

  /**
    A raw stream: frames of at most 4108 bytes that are no envelopes, and an incomplete tail, read in any
    chunks. Each frame is delivered whole, and the tail is left.
   */
  lemma RawStreamDelivery(lib: Library, fs: seq<Frame>, tail: seq<byte>, chunks: seq<seq<byte>>)
    requires forall f <- fs :: |f| <= 4108 && ReadLE32(f, 4) != 170
    requires |tail| < 8 || (8 <= ReadLE32(tail, 0) <= 4108 && |tail| < ReadLE32(tail, 0))
    requires Flatten(chunks) == Flatten(fs) + tail
    ensures var p := FeedAll(lib, [], chunks);
            && p.ok && p.rest == tail && |p.msgs| == |fs|
            && forall i :: 0 <= i < |fs| ==> p.msgs[i].bytes == fs[i] && p.msgs[i].mtype == ReadLE32(fs[i], 4)
  {
    hide Parse, FeedAll;
    ChunkingInvariance(lib, [], chunks);
    assert [] + Flatten(chunks) == Flatten(chunks);
    FramesAreFound(lib, fs, tail);
    PlainContents(lib, fs);
    MessagesAreFrames(AsMessages(fs), fs);
  }

  lemma {:induction false} PlainContents(lib: Library, fs: seq<Frame>)
    requires forall f <- fs :: Acceptable(lib, f) && ReadLE32(f, 4) != NET_MSG_COMPRESS
    ensures AllContents(lib, fs) == AsMessages(fs)
  {
    hide Acceptable, AsMessage, ReadLE32;
    if fs != [] {
      PlainContents(lib, fs[1..]);
      assert AsMessages(fs) == [AsMessage(fs[0])] + AsMessages(fs[1..]);
    }
  }

  /**
    The limits of what is accepted. A frame that is no envelope is accepted up to 4108 bytes. An envelope has at
    least 12, and its body, decompressed into 32768 bytes if byte 8 is 1, must be frames and a tail of fewer than 8
    bytes.
   */
  lemma AcceptedExactly(lib: Library, f: Frame)
    ensures var body := if |f| < 12 then [] else f[12..];
            var plain := if |f| >= 12 && f[8] == 1 then lib.decompress(body, 32768) else LzoOut(0, body);
            Parse(lib, f).ok && Parse(lib, f).rest == [] <==>
            && |f| <= 4108
            && (ReadLE32(f, 4) == 170 ==>
                  && |f| >= 12
                  && (f[8] == 1 ==> body != [] && plain.code == 0 && |plain.data| >= |body|)
                  && exists fs: seq<Frame>, tail :: plain.data == Flatten(fs) + tail && |tail| < 8)
  {
    hide ParseBatch, Parse;
    var body := if |f| < 12 then [] else f[12..];
    var plain := if |f| >= 12 && f[8] == 1 then lib.decompress(body, 32768) else LzoOut(0, body);
    WholeFrame(lib, f);
    BatchOkExactly(plain.data);
  }

  lemma WholeFrame(lib: Library, f: Frame)
    ensures Parse(lib, f).ok && Parse(lib, f).rest == [] <==> Acceptable(lib, f)
  {
    hide Unwrap;
    assert f[..|f|] == f && f[|f|..] == [];
  }

  lemma BatchOkExactly(b: seq<byte>)
    ensures ParseBatch(b).ok <==> exists fs: seq<Frame>, tail :: b == Flatten(fs) + tail && |tail| < 8
  {
    if ParseBatch(b).ok {
      var fs, tail := BatchIsFrames(b);
    }
    if fs: seq<Frame>, tail :| b == Flatten(fs) + tail && |tail| < 8 {
      BatchOfFrames(fs, tail);
    }
  }

  /** An accepted envelope delivers the frames inside it, each whole and in order; a short tail is dropped. */
  lemma EnvelopeDelivery(lib: Library, f: Frame, fs: seq<Frame>, tail: seq<byte>)
    requires 12 <= |f| <= 4108 && ReadLE32(f, 4) == 170 && |tail| < 8
    requires f[8] != 1 ==> f[12..] == Flatten(fs) + tail
    requires f[8] == 1 ==>
               var d := lib.decompress(f[12..], 32768);
               |f| > 12 && d == LzoOut(0, Flatten(fs) + tail) && |d.data| >= |f| - 12
    ensures var p := Parse(lib, f);
            && p.ok && p.rest == [] && |p.msgs| == |fs|
            && forall i :: 0 <= i < |fs| ==> p.msgs[i].bytes == fs[i] && p.msgs[i].mtype == ReadLE32(fs[i], 4)
  {
    hide ParseBatch, AsMessages;
    assert f[..|f|] == f && f[|f|..] == [];
    BatchOfFrames(fs, tail);
    assert Parse(lib, f) == Prepend(AsMessages(fs), Parsed(true, [], []));
    assert AsMessages(fs) + [] == AsMessages(fs);
    MessagesAreFrames(AsMessages(fs), fs);
    AsMessagesLength(fs);
  }

  lemma AsMessagesLength(fs: seq<Frame>)
    ensures |AsMessages(fs)| == |fs|
  {
  }

  /** The nine bytes of a message of type 5 with the payload 7, and what is delivered for them. */
  lemma NineBytes(lib: Library)
    ensures var bytes := [9, 0, 0, 0, 5, 0, 0, 0, 7];
            && EncodedMessage(5, [7]) == bytes
            && Parse(lib, bytes) == Parsed(true, [Message(5, 0, bytes)], [])
  {
    var bytes: seq<byte> := [9, 0, 0, 0, 5, 0, 0, 0, 7];
    assert bytes[..9] == bytes && bytes[9..] == [];
    assert FirstFrame(lib, []) == Incomplete;
  }
}
