/** Bytes, fixed-width unsigned integers, and the little-endian words of the wire header. */
module Bytes {
  type byte = x: int | 0 <= x < 0x100
  type uint8 = byte
  type uint16 = x: int | 0 <= x < 0x1_0000
  type uint32 = x: int | 0 <= x < 0x1_0000_0000
  type uint64 = x: int | 0 <= x < 0x1_0000_0000_0000_0000
  type int32 = x: int | -0x8000_0000 <= x < 0x8000_0000
  type int64 = x: int | -0x8000_0000_0000_0000 <= x < 0x8000_0000_0000_0000

  datatype Option<+T> = None | Some(value: T)

  /** The four bytes of a 32-bit word, least significant first. */
  function LE32(v: uint32): (r: seq<byte>)
    ensures |r| == 4
  {
    [v % 0x100, v / 0x100 % 0x100, v / 0x1_0000 % 0x100, v / 0x100_0000 % 0x100]
  }

  /** The word stored at offset `at`, least significant byte first. */
  function ReadLE32(b: seq<byte>, at: nat): uint32
    requires at + 4 <= |b|
  {
    var b0: int, b1: int, b2: int, b3: int := b[at], b[at + 1], b[at + 2], b[at + 3];
    b0 + 0x100 * b1 + 0x1_0000 * b2 + 0x100_0000 * b3
  }

  lemma BytesOfWord(v: uint32)
    ensures v % 0x100 + 0x100 * (v / 0x100 % 0x100) + 0x1_0000 * (v / 0x1_0000 % 0x100)
            + 0x100_0000 * (v / 0x100_0000 % 0x100) == v
  {
  }

  /** Writing a word and reading it back gives the word, wherever it stands. */
  lemma ReadWrittenWord(pre: seq<byte>, v: uint32, post: seq<byte>)
    ensures ReadLE32(pre + LE32(v) + post, |pre|) == v
  {
    var w := LE32(v);
    assert ReadLE32(pre + w + post, |pre|) == ReadLE32(w, 0) by {
      hide LE32;
    }
    BytesOfWord(v);
  }

  /** Reading a word and writing it back restores the four bytes. */
  lemma WriteReadWord(b: seq<byte>, at: nat)
    requires at + 4 <= |b|
    ensures LE32(ReadLE32(b, at)) == b[at..at + 4]
  {
    var v: int := ReadLE32(b, at);
    var b1: int, b2: int, b3: int := b[at + 1], b[at + 2], b[at + 3];
    assert v / 0x100 == b1 + 0x100 * b2 + 0x1_0000 * b3;
    assert v / 0x1_0000 == b2 + 0x100 * b3;
    assert v / 0x100_0000 == b3;
  }

  method WriteLE32(p: array<byte>, at: nat, v: uint32)
    requires at + 4 <= p.Length
    modifies p
    ensures p[at..at + 4] == LE32(v)
    ensures forall k :: 0 <= k < at || at + 4 <= k < p.Length ==> p[k] == old(p[k])
  {
    p[at] := v % 0x100;
    p[at + 1] := v / 0x100 % 0x100;
    p[at + 2] := v / 0x1_0000 % 0x100;
    p[at + 3] := v / 0x100_0000 % 0x100;
  }

  // ---- Sequences of sequences ----

  function Flatten<T>(ss: seq<seq<T>>): seq<T>
  {
    if ss == [] then [] else ss[0] + Flatten(ss[1..])
  }

  lemma {:induction false} FlattenAppend<T>(a: seq<seq<T>>, b: seq<seq<T>>)
    ensures Flatten(a + b) == Flatten(a) + Flatten(b)
  {
    if a == [] {
      assert a + b == b;
    } else {
      assert (a + b)[1..] == a[1..] + b;
      FlattenAppend(a[1..], b);
    }
  }

  lemma FlattenOne<T>(x: seq<T>)
    ensures Flatten([x]) == x
  {
  }

  lemma FlattenSnoc<T>(a: seq<seq<T>>, x: seq<T>)
    ensures Flatten(a + [x]) == Flatten(a) + x
  {
    FlattenAppend(a, [x]);
    FlattenOne(x);
  }
}
