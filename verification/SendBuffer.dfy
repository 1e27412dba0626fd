/** SendMsgBuffer: batching of outgoing frames and the NET_COMPRESS envelope that carries a batch. */
module SendBuffer {
  import opened Bytes
  import opened Lzo
  import opened Packet

  const BUFFER_SEND: int := 1
  const BUFFER_ADDED: int := 2
  const BUFFER_SEND_ADD: int := 3
  const BUFFER_ERROR: int := -1

  const NET_DATA_BUFSIZE: int := 2048
  const NET_DATA_MSG_BUFSIZE: int := 4096
  const COMPRESS_PACKET_SIZE: int := 1000

  // ---- Envelopes ----

  function EnvelopeHead(size: uint32, bCompress: byte): (r: seq<byte>)
    ensures |r| == ENVELOPE_HEAD
  {
    LE32(size) + LE32(NET_MSG_COMPRESS) + [bCompress, 0, 0, 0]
  }

  /** The total size as the 32-bit size field holds it. */
  function EnvelopeSize(body: seq<byte>): uint32 { (ENVELOPE_HEAD + |body|) % 0x1_0000_0000 }

  /** The envelope for a batch: compressed when that is strictly shorter, otherwise the batch itself. */
  function Envelope(lib: Library, batch: seq<byte>): seq<byte>
  {
    var c := CompressOut(lib, batch);
    if c.code == MINLZO_SUCCESS then EnvelopeHead(EnvelopeSize(c.data), 1) + c.data
    else EnvelopeHead(EnvelopeSize(batch), 0) + batch
  }

  lemma HeadFields(size: uint32, bCompress: byte, body: seq<byte>)
    ensures var e := EnvelopeHead(size, bCompress) + body;
            && ReadLE32(e, 0) == size && ReadLE32(e, 4) == NET_MSG_COMPRESS && e[8] == bCompress
            && e[ENVELOPE_HEAD..] == body
  {
    var e, flag := EnvelopeHead(size, bCompress) + body, [bCompress, 0, 0, 0];
    ReadWrittenWord([], size, LE32(NET_MSG_COMPRESS) + flag + body);
    assert e == [] + LE32(size) + (LE32(NET_MSG_COMPRESS) + flag + body);
    ReadWrittenWord(LE32(size), NET_MSG_COMPRESS, flag + body);
    assert e == LE32(size) + LE32(NET_MSG_COMPRESS) + (flag + body);
  }

  /**
    Every envelope made from a batch in the send buffer is a frame of 13 to 2060 bytes whose size field is
    its length and whose type is NET_MSG_COMPRESS, so the receiver's size check never rejects it.
   */
  lemma EnvelopeShape(lib: Library, batch: seq<byte>)
    requires Lawful(lib)
    requires 0 < |batch| <= NET_DATA_BUFSIZE
    ensures var e := Envelope(lib, batch);
            && IsFrame(e) && ReadLE32(e, 4) == NET_MSG_COMPRESS
            && ENVELOPE_HEAD < |e| <= ENVELOPE_HEAD + |batch| <= 2060 < MAX_MESSAGE_SIZE
  {
    var c := CompressOut(lib, batch);
    if c.code == MINLZO_SUCCESS {
      DecompressUndoesCompress(lib, batch, |batch|);
      HeadFields(EnvelopeSize(c.data), 1, c.data);
    } else {
      HeadFields(EnvelopeSize(batch), 0, batch);
    }
  }

  /**
    The bytes of every envelope: compressed if and only if the library succeeds with a strictly shorter result.
    The size stands in two bytes, the type is 170, and byte 8 says whether the body is compressed.
   */
  lemma EnvelopeBytes(lib: Library, batch: seq<byte>)
    requires Lawful(lib)
    requires 0 < |batch| <= 2048
    ensures var r := lib.compress(batch);
            var shorter := r.code == 0 && |r.data| < |batch|;
            var body, flag := if shorter then r.data else batch, if shorter then 1 else 0;
            var n := 12 + |body|;
            Envelope(lib, batch) == [n % 256, n / 256, 0, 0, 170, 0, 0, 0, flag, 0, 0, 0] + body
  {
    hide EnvelopeHead, Lawful;
    var c := CompressOut(lib, batch);
    var body := if c.code == MINLZO_SUCCESS then c.data else batch;
    HeadBytes(12 + |body|, if c.code == MINLZO_SUCCESS then 1 else 0);
  }

  lemma HeadBytes(n: uint32, flag: byte)
    requires n < 0x1_0000
    ensures EnvelopeHead(n, flag) == [n % 256, n / 256, 0, 0, 170, 0, 0, 0, flag, 0, 0, 0]
  {
    assert LE32(170) == [170, 0, 0, 0];
  }

  /** The library's worst case fits behind the envelope head in the 4096-byte send buffer. */
  lemma WorstCaseFits(lib: Library, batch: seq<byte>)
    requires Lawful(lib)
    requires |batch| <= NET_DATA_BUFSIZE
    ensures ENVELOPE_HEAD + |CompressOut(lib, batch).data| <= NET_DATA_MSG_BUFSIZE
  {
    assert |lib.compress(batch).data| <= WorstCase(|batch|);
  }

  /** Compression is transparent: compressed or not, the receiver cuts the envelope as it would cut the batch. */
  lemma CompressionIsTransparent(lib: Library, batch: seq<byte>)
    requires Lawful(lib)
    requires 0 < |batch| <= DECOMPRESS_BUFFER
    ensures |Envelope(lib, batch)| >= ENVELOPE_HEAD
    ensures Unwrap(lib, Envelope(lib, batch)) == ParseBatch(batch)
  {
    var c := CompressOut(lib, batch);
    if c.code == MINLZO_SUCCESS {
      DecompressUndoesCompress(lib, batch, DECOMPRESS_BUFFER);
      HeadFields(EnvelopeSize(c.data), 1, c.data);
    } else {
      HeadFields(EnvelopeSize(batch), 0, batch);
    }
  }

  /** The envelope of a batch of frames is accepted and stands for exactly those frames. */
  lemma EnvelopeCarriesFrames(lib: Library, fs: seq<Frame>)
    requires Lawful(lib)
    requires 0 < |Flatten(fs)| <= NET_DATA_BUFSIZE
    ensures Acceptable(lib, Envelope(lib, Flatten(fs)))
    ensures Contents(lib, Envelope(lib, Flatten(fs))) == AsMessages(fs)
  {
    EnvelopeShape(lib, Flatten(fs));
    CompressionIsTransparent(lib, Flatten(fs));
    BatchOfFrames(fs, []);
    assert Flatten(fs) + [] == Flatten(fs);
  }

  // ---- The batch ----

  /** The pending bytes and the 16-bit count of messages among them. */
  datatype Pending = Pending(bytes: seq<byte>, count: uint16)

  const EMPTY: Pending := Pending([], 0)

  function Increment(count: uint16): uint16 { (count + 1) % 0x1_0000 }

  /** The result code of addMsg and the batch it leaves. */
  function Add(p: Pending, msg: seq<byte>): (int, Pending)
  {
    if |msg| > NET_DATA_BUFSIZE then (BUFFER_ERROR, p)
    else if |p.bytes| + |msg| < COMPRESS_PACKET_SIZE then (BUFFER_ADDED, Pending(p.bytes + msg, Increment(p.count)))
    else if p.bytes == [] then (BUFFER_SEND, Pending(msg, Increment(p.count)))
    else (BUFFER_SEND_ADD, p)
  }

  /** The first threshold: a frame is held back if and only if batch and frame together stay below 1000 bytes. */
  lemma HeldBackExactly(p: Pending, msg: seq<byte>)
    ensures Add(p, msg).0 == BUFFER_ADDED <==> |msg| <= 2048 && |p.bytes| + |msg| < 1000
    ensures Add(p, msg).0 == BUFFER_ERROR <==> |msg| > 2048
    ensures Add(p, msg).0 == BUFFER_SEND <==> 1000 <= |msg| <= 2048 && p.bytes == []
  {
  }

  class SendMsgBuffer {
    const buffer: array<byte>
    const sendBuffer: array<byte>
    var pos: nat
    var count: uint16

    ghost predicate Valid()
      reads this
    {
      && buffer.Length == sendBuffer.Length == NET_DATA_MSG_BUFSIZE
      && buffer != sendBuffer
      && pos <= NET_DATA_BUFSIZE
    }

    ghost function State(): Pending
      requires Valid()
      reads this, buffer
    {
      Pending(buffer[..pos], count)
    }

    constructor ()
      ensures Valid() && fresh(buffer) && fresh(sendBuffer)
      ensures State() == EMPTY
    {
      buffer := new byte[NET_DATA_MSG_BUFSIZE](_ => 0);
      sendBuffer := new byte[NET_DATA_MSG_BUFSIZE](_ => 0);
      pos, count := 0, 0;
    }

    method Reset()
      requires Valid()
      modifies this
      ensures Valid() && State() == EMPTY
    {
      pos, count := 0, 0;
    }

    method AddMsg(msg: seq<byte>, dwSize: uint32) returns (res: int)
      requires Valid()
      requires dwSize <= |msg|
      modifies this, buffer
      ensures Valid()
      ensures (res, State()) == Add(old(State()), msg[..dwSize])
    {
      if dwSize > NET_DATA_BUFSIZE {
        return BUFFER_ERROR;
      }
      var dwTotal := pos + dwSize;
      if dwTotal < COMPRESS_PACKET_SIZE {
        ghost var before := buffer[..pos];
        Store(buffer, pos, msg[..dwSize]);
        assert buffer[..pos] == before;
        assert buffer[..dwTotal] == buffer[..pos] + buffer[pos..dwTotal];
        pos := pos + dwSize;
        count := Increment(count);
        return BUFFER_ADDED;
      } else if pos == 0 {
        assert buffer[..pos] == [];
        Store(buffer, 0, msg[..dwSize]);
        pos := dwSize;
        assert buffer[..pos] == msg[..dwSize];
        count := Increment(count);
        return BUFFER_SEND;
      } else {
        return BUFFER_SEND_ADD;
      }
    }

    /** Builds the envelope of the pending batch in the send buffer and empties the batch. */
    method GetSendSize(lzo: MinLzo) returns (dwSendSize: nat)
      requires Valid() && Lawful(lzo.lib)
      modifies this, sendBuffer, lzo
      ensures Valid()
      ensures State() == if old(State().bytes) == [] then old(State()) else EMPTY
      ensures dwSendSize == 0 <==> old(State().bytes) == []
      ensures dwSendSize <= sendBuffer.Length
      ensures dwSendSize > 0 ==> sendBuffer[..dwSendSize] == Envelope(lzo.lib, old(State().bytes))
    {
      if pos == 0 {
        return 0;
      }
      dwSendSize := BuildEnvelope(lzo);
      pos, count := 0, 0;
    }

    /** Compresses the batch behind the head, or copies it there, and fills the head. */
    method BuildEnvelope(lzo: MinLzo) returns (dwSendSize: nat)
      requires Valid() && Lawful(lzo.lib)
      modifies sendBuffer, lzo
      ensures dwSendSize <= sendBuffer.Length
      ensures sendBuffer[..dwSendSize] == Envelope(lzo.lib, buffer[..pos])
    {
      hide CompressOut, EnvelopeHead, Lawful, Envelope;
      ghost var batch := buffer[..pos];
      lzo.Init();
      WorstCaseFits(lzo.lib, batch);
      var nCompressResult, nOutLength := lzo.Compress(buffer, pos, sendBuffer, ENVELOPE_HEAD);
      if nCompressResult == MINLZO_SUCCESS {
        dwSendSize := ENVELOPE_HEAD + nOutLength;
        WriteHead(CompressOut(lzo.lib, batch).data, dwSendSize, 1);
      } else {
        Store(sendBuffer, ENVELOPE_HEAD, buffer[..pos]);
        dwSendSize := ENVELOPE_HEAD + pos;
        WriteHead(batch, dwSendSize, 0);
      }
      EnvelopeIs(lzo.lib, batch);
    }

    /** Fills the twelve bytes of NET_COMPRESS in front of the body that stands in the send buffer. */
    method WriteHead(ghost body: seq<byte>, dwSize: uint32, bCompress: byte)
      requires Valid()
      requires ENVELOPE_HEAD + |body| == dwSize <= NET_DATA_MSG_BUFSIZE
      requires sendBuffer[ENVELOPE_HEAD..dwSize] == body
      modifies sendBuffer
      ensures sendBuffer[..dwSize] == EnvelopeHead(EnvelopeSize(body), bCompress) + body
    {
      hide LE32;
      WriteLE32(sendBuffer, 0, dwSize);
      WriteLE32(sendBuffer, 4, NET_MSG_COMPRESS);
      sendBuffer[8] := bCompress;
      sendBuffer[9], sendBuffer[10], sendBuffer[11] := 0, 0, 0;
      assert sendBuffer[0..4] == LE32(dwSize);
      assert sendBuffer[4..8] == LE32(NET_MSG_COMPRESS);
      assert sendBuffer[8..12] == [bCompress, 0, 0, 0];
      assert sendBuffer[ENVELOPE_HEAD..dwSize] == body;
      assert sendBuffer[..dwSize] == sendBuffer[0..4] + sendBuffer[4..8] + sendBuffer[8..12] + sendBuffer[12..dwSize];
    }
  }

  lemma EnvelopeIs(lib: Library, batch: seq<byte>)
    ensures var c := CompressOut(lib, batch);
            Envelope(lib, batch) == if c.code == MINLZO_SUCCESS then EnvelopeHead(EnvelopeSize(c.data), 1) + c.data
                                    else EnvelopeHead(EnvelopeSize(batch), 0) + batch
  {
  }
}
