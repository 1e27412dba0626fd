/**
  The compression wrapper CMinLzo. The LZO1X library behind it is a pair of function values; all that
  is known about it is the predicate `Lawful`.
 */
module Lzo {
  import opened Bytes

  const LZO_E_OK: int := 0

  const MINLZO_SUCCESS: int := 0
  const MINLZO_ERROR: int := -1
  const MINLZO_INPUT_DATA_ERROR: int := -2
  const MINLZO_INTERNAL_ERROR: int := -3
  const MINLZO_CAN_NOT_COMPRESS: int := -4

  /** A return code together with the bytes written to the output buffer. */
  datatype LzoOut = LzoOut(code: int, data: seq<byte>)

  /** lzo1x_1_compress, and lzo1x_decompress_safe with the capacity of its output buffer. */
  datatype Library = Library(compress: seq<byte> -> LzoOut, decompress: (seq<byte>, nat) -> LzoOut)

  /** The worst-case size of the compressed form of n bytes. */
  function WorstCase(n: nat): nat { n + n / 16 + 67 }

  /** What the wrapper relies on: bounded non-empty output, and decompression into enough room undoes compression. */
  ghost predicate Lawful(lib: Library)
  {
    && (forall x :: |lib.compress(x).data| <= WorstCase(|x|))
    && (forall x :: lib.compress(x).code == LZO_E_OK ==> lib.compress(x).data != [])
    && (forall x, cap: nat :: lib.compress(x).code == LZO_E_OK && |x| <= cap ==>
          lib.decompress(lib.compress(x).data, cap) == LzoOut(LZO_E_OK, x))
    && (forall y, cap: nat :: |lib.decompress(y, cap).data| <= cap)
  }

  /** The result of lzoCompress: its code, and the bytes it leaves in the output buffer. */
  function CompressOut(lib: Library, x: seq<byte>): LzoOut
  {
    if x == [] then LzoOut(MINLZO_INPUT_DATA_ERROR, [])
    else
      var r := lib.compress(x);
      if r.code != LZO_E_OK then LzoOut(MINLZO_INTERNAL_ERROR, r.data)
      else if |r.data| >= |x| then LzoOut(MINLZO_CAN_NOT_COMPRESS, r.data)
      else LzoOut(MINLZO_SUCCESS, r.data)
  }

  /** The result of lzoDeCompress into a buffer of `cap` bytes. */
  function DecompressOut(lib: Library, y: seq<byte>, cap: nat): LzoOut
  {
    if y == [] then LzoOut(MINLZO_INPUT_DATA_ERROR, [])
    else
      var r := lib.decompress(y, cap);
      if r.code == LZO_E_OK && |r.data| >= |y| then LzoOut(MINLZO_SUCCESS, r.data)
      else LzoOut(MINLZO_ERROR, r.data)
  }

  /**
    Whatever lzoCompress accepts, lzoDeCompress restores when its buffer has room: since only strictly
    shorter results are accepted on the way out, the "at least as long" test on the way in always passes.
   */
  lemma DecompressUndoesCompress(lib: Library, x: seq<byte>, cap: nat)
    requires Lawful(lib)
    requires CompressOut(lib, x).code == MINLZO_SUCCESS
    requires |x| <= cap
    ensures DecompressOut(lib, CompressOut(lib, x).data, cap) == LzoOut(MINLZO_SUCCESS, x)
    ensures 0 < |CompressOut(lib, x).data| < |x|
  {
    var y := lib.compress(x).data;
    assert y != [];
    assert lib.decompress(y, cap) == LzoOut(LZO_E_OK, x);
  }

  /** A toy library that shortens one input and stores all others; it shows that the contract can be met. */
  function Toy(): Library
  {
    var long := seq(100, _ => 7 as byte);
    Library(
      x => if x == long then LzoOut(LZO_E_OK, [1]) else LzoOut(LZO_E_OK, [0] + x),
      (y: seq<byte>, cap: nat) =>
        if y == [1] && 100 <= cap then LzoOut(LZO_E_OK, long)
        else if y != [] && y[0] == 0 && |y| <= cap + 1 then LzoOut(LZO_E_OK, y[1..])
        else LzoOut(-1, []))
  }

  /** The contract has a model in which both the compressed and the stored form occur. */
  lemma ContractHasModel()
    ensures Lawful(Toy())
    ensures CompressOut(Toy(), seq(100, _ => 7 as byte)).code == MINLZO_SUCCESS
    ensures CompressOut(Toy(), [3]).code == MINLZO_CAN_NOT_COMPRESS
  {
    var long := seq(100, _ => 7 as byte);
    var lib := Toy();
    assert lib.compress(long) == LzoOut(LZO_E_OK, [1]);
    assert [3] != long;
    assert lib.compress([3]) == LzoOut(LZO_E_OK, [0] + [3]);
    forall x, cap: nat | |x| <= cap
      ensures lib.decompress(lib.compress(x).data, cap) == LzoOut(LZO_E_OK, x)
    {
      if x != long {
        assert ([0] + x)[1..] == x;
      }
    }
  }

  class MinLzo {
    const lib: Library
    var initialized: bool
    var errorString: string

    constructor (lib: Library)
      ensures this.lib == lib && !initialized
    {
      this.lib := lib;
      initialized := false;
      errorString := "";
    }

    method Init()
      modifies this
      ensures initialized && errorString == old(errorString)
    {
      initialized := true;
    }

    /** Compresses input[..inLen] into output[at..]; the output must have room for whatever the library writes. */
    method Compress(input: array<byte>, inLen: nat, output: array<byte>, at: nat) returns (res: int, outLen: nat)
      requires inLen <= input.Length && at <= output.Length
      requires input != output
      requires |CompressOut(lib, input[..inLen]).data| <= output.Length - at
      modifies this, output
      ensures initialized == old(initialized)
      ensures errorString == if res == -2 then "lzoCompress input data error"
                             else if res == -4 then "lzoCompress can not compress"
                             else if res == -3 then "lzoCompress internal error" else old(errorString)
      ensures res == CompressOut(lib, input[..inLen]).code
      ensures outLen == |CompressOut(lib, input[..inLen]).data|
      ensures at + outLen <= output.Length
      ensures output[at..at + outLen] == CompressOut(lib, input[..inLen]).data
      ensures forall k :: 0 <= k < at || at + outLen <= k < output.Length ==> output[k] == old(output[k])
    {
      if inLen == 0 {
        errorString := "lzoCompress input data error";
        return MINLZO_INPUT_DATA_ERROR, 0;
      }
      var r := lib.compress(input[..inLen]);
      outLen := |r.data|;
      Store(output, at, r.data);
      if r.code == LZO_E_OK {
        if outLen >= inLen {
          errorString := "lzoCompress can not compress";
          res := MINLZO_CAN_NOT_COMPRESS;
        } else {
          res := MINLZO_SUCCESS;
        }
      } else {
        errorString := "lzoCompress internal error";
        res := MINLZO_INTERNAL_ERROR;
      }
    }

    /** Decompresses `input` into output[..]. */
    method Decompress(input: seq<byte>, output: array<byte>) returns (res: int, newLen: nat)
      requires |DecompressOut(lib, input, output.Length).data| <= output.Length
      modifies this, output
      ensures initialized == old(initialized)
      ensures errorString == if res == -2 then "lzoDeCompress input data error"
                             else if res == -1 then "lzoDeCompress can not decompress" else old(errorString)
      ensures res == DecompressOut(lib, input, output.Length).code
      ensures newLen == |DecompressOut(lib, input, output.Length).data|
      ensures newLen <= output.Length && output[..newLen] == DecompressOut(lib, input, output.Length).data
    {
      if |input| == 0 {
        errorString := "lzoDeCompress input data error";
        return MINLZO_INPUT_DATA_ERROR, 0;
      }
      var r := lib.decompress(input, output.Length);
      newLen := |r.data|;
      Store(output, 0, r.data);
      if r.code == LZO_E_OK && newLen >= |input| {
        res := MINLZO_SUCCESS;
      } else {
        errorString := "lzoDeCompress can not decompress";
        res := MINLZO_ERROR;
      }
    }
  }

  /** memcpy of `data` to output[at..]. */
  method Store(output: array<byte>, at: nat, data: seq<byte>)
    requires at + |data| <= output.Length
    modifies output
    ensures output[at..at + |data|] == data
    ensures forall k :: 0 <= k < at || at + |data| <= k < output.Length ==> output[k] == old(output[k])
  {
    forall i | 0 <= i < |data| {
      output[at + i] := data[i];
    }
  }
}
