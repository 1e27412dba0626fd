/** EncodeMessage and MessageFramer, the two ends of the framing layer, in their in-place form. */
module Framer {
  import opened Bytes
  import Lzo
  import opened Packet

  method EncodeMessage(mtype: uint32, payload: seq<byte>) returns (out: array<byte>)
    requires HEADER_SIZE + |payload| < 0x1_0000_0000
    ensures fresh(out)
    ensures out[..] == EncodedMessage(mtype, payload)
  {
    var total: uint32 := HEADER_SIZE + |payload|;
    out := new byte[total](_ => 0);
    WriteLE32(out, 0, total);
    WriteLE32(out, 4, mtype);
    assert out[..8] == LE32(total) + LE32(mtype);
    if |payload| > 0 {
      Lzo.Store(out, HEADER_SIZE, payload);
    }
    assert out[..] == out[..8] + payload;
  }

  // How the messages already delivered and the outcome for the remaining input change at each exit of the loop.

  lemma ParseGoesOn(lib: Lzo.Library, done: seq<Message>, b: seq<byte>)
    requires FirstFrame(lib, b).Complete?
    ensures var front := FirstFrame(lib, b);
            Prepend(done, Parse(lib, b)) == Prepend(done + front.msgs, Parse(lib, b[front.size..]))
  {
    var front := FirstFrame(lib, b);
    ParseComplete(lib, b);
    var later := Parse(lib, b[front.size..]).msgs;
    assert done + (front.msgs + later) == done + front.msgs + later;
  }

  lemma ParseFails(lib: Lzo.Library, done: seq<Message>, b: seq<byte>)
    requires FirstFrame(lib, b).Malformed?
    ensures Prepend(done, Parse(lib, b)) == Parsed(false, done + FirstFrame(lib, b).msgs, [])
  {
    ParseStops(lib, b);
  }

  lemma ParseEnds(lib: Lzo.Library, done: seq<Message>, b: seq<byte>)
    requires FirstFrame(lib, b).Incomplete?
    ensures Prepend(done, Parse(lib, b)) == Parsed(true, done, b)
  {
    ParseStops(lib, b);
  }

  /** One message off the front of a batch. */
  lemma BatchGoesOn(done: seq<Message>, b: seq<byte>)
    requires HEADER_SIZE <= |b| && HEADER_SIZE <= ReadLE32(b, 0) <= |b|
    ensures var n := ReadLE32(b, 0);
            && ParseBatch(b).ok == ParseBatch(b[n..]).ok
            && done + ParseBatch(b).msgs == done + [AsMessage(b[..n])] + ParseBatch(b[n..]).msgs
  {
    hide ParseBatch, AsMessage, ReadLE32;
    BatchStep(b);
    var n := ReadLE32(b, 0);
    var later := ParseBatch(b[n..]).msgs;
    assert done + ([AsMessage(b[..n])] + later) == done + [AsMessage(b[..n])] + later;
  }

  class MessageFramer {
    var buf: seq<byte>

    constructor ()
      ensures buf == []
    {
      buf := [];
    }

    function Buffered(): nat
      reads this
    {
      |buf|
    }

    /**
      Appends `data` to the buffer and delivers every message that is now complete. After an error the
      buffer is left as it is, and the messages cut before the malformed spot stay delivered.
     */
    method Feed(lzo: Lzo.MinLzo, data: seq<byte>, received: seq<Message>) returns (ok: bool, out: seq<Message>)
      requires Lzo.Lawful(lzo.lib)
      modifies this, lzo
      ensures ok == Parse(lzo.lib, old(buf) + data).ok
      ensures out == received + Parse(lzo.lib, old(buf) + data).msgs
      ensures buf == if ok then Parse(lzo.lib, old(buf) + data).rest else old(buf) + data
      ensures ok ==> Buffered() < MAX_MESSAGE_SIZE && FirstFrame(lzo.lib, buf).Incomplete?
    {
      hide Parse, ParseBatch, Lzo.DecompressOut, Prepend, Unwrap;
      buf := buf + data;
      out := received;
      ghost var lib, input := lzo.lib, buf;
      ghost var done: seq<Message> := [];
      var pos := 0;
      assert input[0..] == input;
      PrependNothing(Parse(lib, input));
      while |buf| - pos >= HEADER_SIZE
        invariant 0 <= pos <= |buf| && buf == input
        invariant out == received + done
        invariant Parse(lib, input) == Prepend(done, Parse(lib, input[pos..]))
        decreases |buf| - pos
      {
        ghost var b := input[pos..];
        var dwSize, nType := ReadLE32(buf, pos), ReadLE32(buf, pos + 4);
        assert ReadLE32(b, 0) == dwSize && ReadLE32(b, 4) == nType;
        if dwSize < HEADER_SIZE || dwSize > MAX_MESSAGE_SIZE {
          ParseFails(lib, done, b);
          return false, out;
        }
        if |buf| - pos < dwSize {
          break;
        }
        assert b[dwSize..] == input[pos + dwSize..];
        var good;
        good, out := TakeFrame(lzo, pos, dwSize, nType, out);
        if !good {
          ParseFails(lib, done, b);
          return false, out;
        }
        ParseGoesOn(lib, done, b);
        done := done + FirstFrame(lib, b).msgs;
        pos := pos + dwSize;
      }
      ParseEnds(lib, done, input[pos..]);
      if pos > 0 {
        buf := buf[pos..];
      }
      ok := true;
    }

    /** The part of the loop of Feed for a complete frame of `dwSize` bytes at `pos`. */
    method TakeFrame(lzo: Lzo.MinLzo, pos: nat, dwSize: uint32, nType: uint32, received: seq<Message>)
        returns (good: bool, out: seq<Message>)
      requires Lzo.Lawful(lzo.lib)
      requires HEADER_SIZE <= dwSize <= MAX_MESSAGE_SIZE && pos + dwSize <= |buf|
      requires dwSize == ReadLE32(buf, pos) && nType == ReadLE32(buf, pos + 4)
      modifies lzo
      ensures good ==> FirstFrame(lzo.lib, buf[pos..]).Complete? && FirstFrame(lzo.lib, buf[pos..]).size == dwSize
      ensures !good ==> FirstFrame(lzo.lib, buf[pos..]).Malformed?
      ensures out == received + FirstFrame(lzo.lib, buf[pos..]).msgs
      ensures nType != 170 ==> good && out == received + [Message(nType, 0, buf[pos..pos + dwSize])]
    {
      hide Unwrap;
      ghost var b := buf[pos..];
      assert ReadLE32(b, 0) == dwSize && ReadLE32(b, 4) == nType;
      assert b[..dwSize] == buf[pos..pos + dwSize];
      if nType == NET_MSG_COMPRESS {
        if dwSize < ENVELOPE_HEAD {
          return false, received;
        }
        good, out := UnwrapInto(lzo, pos, dwSize, received);
      } else {
        good, out := true, received + [Message(nType, 0, buf[pos..pos + dwSize])];
      }
    }

    /** The branch of Feed for a complete envelope of `dwSize` bytes at `pos`. */
    method UnwrapInto(lzo: Lzo.MinLzo, pos: nat, dwSize: nat, received: seq<Message>)
        returns (good: bool, out: seq<Message>)
      requires Lzo.Lawful(lzo.lib)
      requires ENVELOPE_HEAD <= dwSize && pos + dwSize <= |buf|
      modifies lzo
      ensures good == Unwrap(lzo.lib, buf[pos..pos + dwSize]).ok
      ensures out == received + Unwrap(lzo.lib, buf[pos..pos + dwSize]).msgs
    {
      ghost var envelope := buf[pos..pos + dwSize];
      assert envelope[ENVELOPE_HEAD..] == buf[pos + ENVELOPE_HEAD..pos + dwSize];
      if buf[pos + HEADER_SIZE] == 1 {
        lzo.Init();
        var decompBuf := new byte[DECOMPRESS_BUFFER](_ => 0);
        assert |Lzo.DecompressOut(lzo.lib, envelope[ENVELOPE_HEAD..], decompBuf.Length).data| <= decompBuf.Length;
        var res, decompSize := lzo.Decompress(buf[pos + ENVELOPE_HEAD..pos + dwSize], decompBuf);
        if res != Lzo.MINLZO_SUCCESS {
          return false, received;
        }
        good, out := CutDecompressed(decompBuf, decompSize, received);
      } else {
        good, out := CutRaw(pos + ENVELOPE_HEAD, pos + dwSize, received);
      }
    }

    /** Cuts the messages out of decompBuf[..decompSize]. */
    static method CutDecompressed(decompBuf: array<byte>, decompSize: nat, received: seq<Message>)
        returns (good: bool, out: seq<Message>)
      requires decompSize <= decompBuf.Length
      ensures good == ParseBatch(decompBuf[..decompSize]).ok
      ensures out == received + ParseBatch(decompBuf[..decompSize]).msgs
    {
      hide ParseBatch;
      out := received;
      var decPos := 0;
      ghost var all := decompBuf[..decompSize];
      assert all[0..] == all;
      while decompSize - decPos >= HEADER_SIZE
        invariant decPos <= decompSize
        invariant received + ParseBatch(all).msgs == out + ParseBatch(all[decPos..]).msgs
        invariant ParseBatch(all).ok == ParseBatch(all[decPos..]).ok
        decreases decompSize - decPos
      {
        ghost var b := all[decPos..];
        var decMsgSize, decMsgType := ReadLE32(decompBuf[..], decPos), ReadLE32(decompBuf[..], decPos + 4);
        assert ReadLE32(b, 0) == decMsgSize && ReadLE32(b, 4) == decMsgType;
        if decMsgSize < HEADER_SIZE || decMsgSize > decompSize - decPos {
          BatchEnds(b);
          return false, out;
        }
        assert b[..decMsgSize] == decompBuf[decPos..decPos + decMsgSize];
        assert b[decMsgSize..] == all[decPos + decMsgSize..];
        BatchGoesOn(out, b);
        out := out + [Message(decMsgType, 0, decompBuf[decPos..decPos + decMsgSize])];
        decPos := decPos + decMsgSize;
      }
      BatchEnds(all[decPos..]);
      good := true;
    }

    /** Cuts the messages out of buf[first..endPos]. */
    method CutRaw(first: nat, endPos: nat, received: seq<Message>) returns (good: bool, out: seq<Message>)
      requires first <= endPos <= |buf|
      ensures good == ParseBatch(buf[first..endPos]).ok
      ensures out == received + ParseBatch(buf[first..endPos]).msgs
    {
      hide ParseBatch;
      out := received;
      var rawPos := first;
      ghost var all := buf[first..endPos];
      while endPos - rawPos >= HEADER_SIZE
        invariant first <= rawPos <= endPos
        invariant received + ParseBatch(all).msgs == out + ParseBatch(buf[rawPos..endPos]).msgs
        invariant ParseBatch(all).ok == ParseBatch(buf[rawPos..endPos]).ok
        decreases endPos - rawPos
      {
        ghost var b := buf[rawPos..endPos];
        var rawMsgSize, rawMsgType := ReadLE32(buf, rawPos), ReadLE32(buf, rawPos + 4);
        assert ReadLE32(b, 0) == rawMsgSize && ReadLE32(b, 4) == rawMsgType;
        if rawMsgSize < HEADER_SIZE || rawMsgSize > endPos - rawPos {
          BatchEnds(b);
          return false, out;
        }
        assert b[..rawMsgSize] == buf[rawPos..rawPos + rawMsgSize];
        assert b[rawMsgSize..] == buf[rawPos + rawMsgSize..endPos];
        BatchGoesOn(out, b);
        out := out + [Message(rawMsgType, 0, buf[rawPos..rawPos + rawMsgSize])];
        rawPos := rawPos + rawMsgSize;
      }
      BatchEnds(buf[rawPos..endPos]);
      good := true;
    }
  }
}
