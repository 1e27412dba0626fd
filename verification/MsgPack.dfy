/**
  The MessagePack encoder Packer, and a decoder written from the int, str, array and bool format families of
  the MessagePack specification: it accepts every legal form of a value, not only those the encoder chooses.
 */
module MsgPack {
  import Arith
  import opened Bytes

  // ---- Big-endian numbers ----

  function Pow256(n: nat): (p: nat)
    ensures p >= 1
  {
    if n == 0 then 1 else 0x100 * Pow256(n - 1)
  }

  /** The low n bytes of v, most significant first. */
  function BE(v: nat, n: nat): (r: seq<byte>)
    ensures |r| == n
  {
    if n == 0 then [] else BE(v / 0x100, n - 1) + [v % 0x100]
  }

  function FromBE(b: seq<byte>): nat
  {
    if b == [] then 0 else 0x100 * FromBE(b[..|b| - 1]) + b[|b| - 1]
  }

  lemma {:induction false} FromBEOfBE(v: nat, n: nat)
    requires v < Pow256(n)
    ensures FromBE(BE(v, n)) == v
  {
    if n > 0 {
      FromBEOfBE(v / 0x100, n - 1);
    }
  }

  /** The low bytes do not depend on what is above them. */
  lemma {:induction false} BEOfLow(v: nat, w: nat, n: nat)
    requires exists k: nat :: v == w + k * Pow256(n)
    ensures BE(v, n) == BE(w, n)
  {
    if n > 0 {
      var k: nat :| v == w + k * Pow256(n);
      var p := k * Pow256(n - 1);
      assert v == w + 0x100 * p;
      assert v / 0x100 == w / 0x100 + p && v % 0x100 == w % 0x100;
      BEOfLow(v / 0x100, w / 0x100, n - 1);
    }
  }

  lemma {:induction false} FromBEBound(b: seq<byte>)
    ensures FromBE(b) < Pow256(|b|)
  {
    if b != [] {
      FromBEBound(b[..|b| - 1]);
    }
  }

  lemma Powers()
    ensures Pow256(0) == 1 && Pow256(1) == 0x100 && Pow256(2) == 0x1_0000 && Pow256(4) == 0x1_0000_0000
    ensures Pow256(8) == 0x1_0000_0000_0000_0000
  {
    assert Pow256(3) == 0x100_0000 && Pow256(5) == 0x100_0000_0000;
    assert Pow256(6) == 0x1_0000_0000_0000 && Pow256(7) == 0x100_0000_0000_0000;
  }

  // ---- Heads ----

  /** What the first bytes of a value say: the value itself, or the length of what follows. */
  datatype Head = HInt(i: int) | HStr(len: nat) | HArr(count: nat) | HBool(b: bool)

  /** The encoder's choice of form. A negative number is encoded from its 64-bit two's complement. */
  function EncHead(h: Head): (r: seq<byte>)
    ensures r != []
  {
    match h
    case HInt(i) =>
      if 0 <= i then EncUInt(i) else EncNegative(i)
    case HStr(n) =>
      if n <= 31 then [0xA0 + n]
      else if n <= 0xFF then [0xd9, n]
      else if n <= 0xFFFF then [0xda] + BE(n, 2)
      else [0xdb] + BE(n, 4)
    case HArr(n) =>
      if n <= 15 then [0x90 + n]
      else if n <= 0xFFFF then [0xdc] + BE(n, 2)
      else [0xdd] + BE(n, 4)
    case HBool(b) => if b then [0xc3] else [0xc2]
  }

  function EncUInt(v: nat): seq<byte>
  {
    if v <= 0x7F then [v]
    else if v <= 0xFF then [0xcc, v]
    else if v <= 0xFFFF then [0xcd] + BE(v, 2)
    else if v <= 0xFFFF_FFFF then [0xce] + BE(v, 4)
    else [0xcf] + BE(v, 8)
  }

  function TwosComplement(v: int): nat { v % 0x1_0000_0000_0000_0000 }

  function EncNegative(v: int): seq<byte>
    requires v < 0
  {
    if v >= -32 then [0xE0 + v % 0x20]
    else if v >= -128 then [0xd0, v % 0x100]
    else if v >= -32768 then [0xd1] + BE(TwosComplement(v), 2)
    else if v >= -2147483648 then [0xd2] + BE(TwosComplement(v), 4)
    else [0xd3] + BE(TwosComplement(v), 8)
  }

  function Signed(v: nat, range: nat): int { if 2 * v < range then v else v - range }

  /** The heads of a single byte: fixints, fixarrays, fixstrs and booleans. */
  function Short(c: int): Option<Head>
  {
    if 0 <= c <= 0x7F then Some(HInt(c))
    else if 0xE0 <= c <= 0xFF then Some(HInt(c - 0x100))
    else if 0x90 <= c <= 0x9F then Some(HArr(c - 0x90))
    else if 0xA0 <= c <= 0xBF then Some(HStr(c - 0xA0))
    else if c == 0xc2 then Some(HBool(false))
    else if c == 0xc3 then Some(HBool(true))
    else None
  }

  /** The number of bytes that follow the first byte of a longer head; zero for the formats not decoded here. */
  function Width(c: int): nat
  {
    if c == 0xcc || c == 0xd0 || c == 0xd9 then 1
    else if c == 0xcd || c == 0xd1 || c == 0xda || c == 0xdc then 2
    else if c == 0xce || c == 0xd2 || c == 0xdb || c == 0xdd then 4
    else if c == 0xcf || c == 0xd3 then 8
    else 0
  }

  /** The longer heads, from the number n in those bytes. */
  function Long(c: int, n: nat): Head
  {
    if c == 0xcc || c == 0xcd || c == 0xce || c == 0xcf then HInt(n)
    else if c == 0xd0 then HInt(Signed(n, 0x100))
    else if c == 0xd1 then HInt(Signed(n, 0x1_0000))
    else if c == 0xd2 then HInt(Signed(n, 0x1_0000_0000))
    else if c == 0xd3 then HInt(Signed(n, 0x1_0000_0000_0000_0000))
    else if c == 0xd9 || c == 0xda || c == 0xdb then HStr(n)
    else HArr(n)
  }

  /** The head at the front of a buffer and its number of bytes; none for any other format or a short buffer. */
  function DecHead(b: seq<byte>): (r: Option<(Head, nat)>)
    ensures r.Some? ==> 1 <= r.value.1 <= |b|
  {
    if b == [] then None
    else
      var short, k := Short(b[0]), Width(b[0]);
      if short.Some? then Some((short.value, 1))
      else if k == 0 || |b| < 1 + k then None
      else Some((Long(b[0], FromBE(b[1..1 + k])), 1 + k))
  }

  /** The heads that MessagePack can express. */
  predicate Expressible(h: Head)
  {
    match h
    case HInt(i) => -0x8000_0000_0000_0000 <= i < 0x1_0000_0000_0000_0000
    case HStr(n) => n < 0x1_0000_0000
    case HArr(n) => n < 0x1_0000_0000
    case HBool(_) => true
  }

  lemma LongIsRead(c: byte, v: nat, k: nat, rest: seq<byte>)
    requires Short(c) == None && Width(c) == k > 0 && v < Pow256(k)
    ensures DecHead([c] + BE(v, k) + rest) == Some((Long(c, v), 1 + k))
  {
    assert ([c] + BE(v, k) + rest)[1..1 + k] == BE(v, k);
    FromBEOfBE(v, k);
  }

  lemma OneByte(c: byte, v: nat)
    requires v < 0x100
    ensures [c] + BE(v, 1) == [c, v]
  {
    assert BE(v / 0x100, 0) == [];
  }

  lemma UIntIsRead(v: nat, rest: seq<byte>)
    requires v < 0x1_0000_0000_0000_0000
    ensures DecHead(EncUInt(v) + rest) == Some((HInt(v), |EncUInt(v)|))
  {
    hide BE, DecHead, Pow256;
    Powers();
    if v <= 0x7F {
      ShortIsRead(v, rest);
    } else if v <= 0xFF {
      OneByte(0xcc, v);
      LongIsRead(0xcc, v, 1, rest);
    } else if v <= 0xFFFF {
      LongIsRead(0xcd, v, 2, rest);
    } else if v <= 0xFFFF_FFFF {
      LongIsRead(0xce, v, 4, rest);
    } else {
      LongIsRead(0xcf, v, 8, rest);
    }
  }

  lemma ShortIsRead(c: byte, rest: seq<byte>)
    requires Short(c).Some?
    ensures DecHead([c] + rest) == Some((Short(c).value, 1))
  {
  }

  /** A two's complement of more bytes, cut to fewer, is the two's complement in fewer bytes. */
  lemma NegativeBytes(v: int, k: nat)
    requires k == 1 || k == 2 || k == 4 || k == 8
    requires v < 0 && -2 * v <= Pow256(k)
    ensures BE(TwosComplement(v), k) == BE(v + Pow256(k), k)
    ensures Signed(v + Pow256(k), Pow256(k)) == v
  {
    hide Pow256, BE;
    Powers();
    var range, high := 0x1_0000_0000_0000_0000, Pow256(k);
    assert TwosComplement(v) == v + range;
    var m := if k == 1 then 0xFF_FFFF_FFFF_FFFF else if k == 2 then 0xFFFF_FFFF_FFFF
             else if k == 4 then 0xFFFF_FFFF else 0;
    assert range == high + m * high;
    assert v + range == v + high + m * Pow256(k);
    BEOfLow(v + range, v + high, k);
  }

  lemma NegativeIsRead(v: int, rest: seq<byte>)
    requires -0x8000_0000_0000_0000 <= v < 0
    ensures DecHead(EncNegative(v) + rest) == Some((HInt(v), |EncNegative(v)|))
  {
    hide BE, DecHead, Pow256, TwosComplement;
    Powers();
    if v >= -32 {
      ShortIsRead(0xE0 + v % 0x20, rest);
    } else if v >= -128 {
      NegativeBytes(v, 1);
      OneByte(0xd0, v + 0x100);
      LongIsRead(0xd0, v + 0x100, 1, rest);
    } else if v >= -32768 {
      NegativeBytes(v, 2);
      LongIsRead(0xd1, v + 0x1_0000, 2, rest);
    } else if v >= -2147483648 {
      NegativeBytes(v, 4);
      LongIsRead(0xd2, v + 0x1_0000_0000, 4, rest);
    } else {
      NegativeBytes(v, 8);
      LongIsRead(0xd3, v + 0x1_0000_0000_0000_0000, 8, rest);
    }
  }

  lemma LengthIsRead(h: Head, rest: seq<byte>)
    requires Expressible(h) && !h.HInt?
    ensures DecHead(EncHead(h) + rest) == Some((h, |EncHead(h)|))
  {
    hide BE, DecHead, Pow256;
    Powers();
    match h
    case HStr(n) =>
      if n <= 31 {
        ShortIsRead(0xA0 + n, rest);
      } else if n <= 0xFF {
        OneByte(0xd9, n);
        LongIsRead(0xd9, n, 1, rest);
      } else if n <= 0xFFFF {
        LongIsRead(0xda, n, 2, rest);
      } else {
        LongIsRead(0xdb, n, 4, rest);
      }
    case HArr(n) =>
      if n <= 15 {
        ShortIsRead(0x90 + n, rest);
      } else if n <= 0xFFFF {
        LongIsRead(0xdc, n, 2, rest);
      } else {
        LongIsRead(0xdd, n, 4, rest);
      }
    case HBool(b) =>
      ShortIsRead(if b then 0xc3 else 0xc2, rest);
    case HInt(_) =>
  }

  /** Every head is read back from its encoding, whatever follows. */
  lemma HeadIsRead(h: Head, rest: seq<byte>)
    requires Expressible(h)
    ensures DecHead(EncHead(h) + rest) == Some((h, |EncHead(h)|))
  {
    hide DecHead, EncUInt, EncNegative;
    if h.HInt? {
      if h.i >= 0 {
        UIntIsRead(h.i, rest);
      } else {
        NegativeIsRead(h.i, rest);
      }
    } else {
      LengthIsRead(h, rest);
    }
  }

  /** Whatever can be decoded is expressible, and the encoder's form is never longer than the one decoded. */
  lemma EncodingIsShortest(b: seq<byte>)
    requires DecHead(b).Some?
    ensures var (h, n) := DecHead(b).value; Expressible(h) && |EncHead(h)| <= n
  {
    hide FromBE, BE;
    Powers();
    var k := Width(b[0]);
    if Short(b[0]) == None {
      FromBEBound(b[1..1 + k]);
    }
  }

  // ---- The formats, byte by byte ----

  lemma BEStep(v: nat, n: nat)
    ensures n > 0 ==> BE(v, n) == BE(v / 0x100, n - 1) + [v % 0x100]
    ensures BE(v, 0) == []
  {
  }

  /** Two and four bytes, most significant first. */
  lemma BigEndian(v: nat)
    ensures BE(v, 2) == [v / 0x100 % 0x100, v % 0x100]
    ensures BE(v, 4) == [v / 0x100_0000 % 0x100, v / 0x1_0000 % 0x100, v / 0x100 % 0x100, v % 0x100]
  {
    hide BE;
    var v1, v2, v3 := v / 0x100, v / 0x1_0000, v / 0x100_0000;
    assert v1 / 0x100 == v2 && v2 / 0x100 == v3;
    BEStep(v, 2);
    BEStep(v1, 1);
    BEStep(v2, 0);
    BEStep(v, 4);
    BEStep(v1, 3);
    BEStep(v2, 2);
    BEStep(v3, 1);
    BEStep(v3 / 0x100, 0);
  }

  /** The first byte of each form of a number, and where one form ends and the next begins. */
  lemma UIntForms(i: nat)
    requires i < 0x1_0000_0000_0000_0000
    ensures var e := EncHead(HInt(i));
            && (i <= 127 ==> e == [i])
            && (128 <= i <= 255 ==> e == [0xcc, i])
            && (256 <= i <= 65535 ==> e == [0xcd, i / 0x100, i % 0x100])
            && (65536 <= i <= 0xFFFF_FFFF ==>
                  e == [0xce, i / 0x100_0000, i / 0x1_0000 % 0x100, i / 0x100 % 0x100, i % 0x100])
            && (i > 0xFFFF_FFFF ==> e == [0xcf] + BE(i, 8))
  {
    hide BE;
    BigEndian(i);
  }

  lemma NegativeForms(i: int)
    requires -0x8000_0000_0000_0000 <= i < 0
    ensures var e := EncHead(HInt(i));
            && (-32 <= i ==> e == [256 + i])
            && (-128 <= i < -32 ==> e == [0xd0, 256 + i])
            && (-32768 <= i < -128 ==> e == [0xd1, (65536 + i) / 0x100, (65536 + i) % 0x100])
            && (-0x8000_0000 <= i < -32768 ==>
                  var v := 0x1_0000_0000 + i;
                  e == [0xd2, v / 0x100_0000, v / 0x1_0000 % 0x100, v / 0x100 % 0x100, v % 0x100])
            && (i < -0x8000_0000 ==> e == [0xd3] + BE(0x1_0000_0000_0000_0000 + i, 8))
  {
    hide BE, TwosComplement, Pow256, Signed;
    Powers();
    if i < -0x8000_0000 {
      NegativeBytes(i, 8);
    } else if i < -32768 {
      NegativeBytes(i, 4);
      BigEndian(0x1_0000_0000 + i);
    } else if i < -128 {
      NegativeBytes(i, 2);
      BigEndian(65536 + i);
    }
  }

  /** Byte k of a big-endian number, counted from its least significant one. */
  lemma {:induction false} ByteOfBE(v: nat, n: nat, k: nat)
    requires k < n
    ensures BE(v, n)[n - 1 - k] == v / Pow256(k) % 0x100
  {
    if k > 0 {
      ByteOfBE(v / 0x100, n - 1, k - 1);
      DivideTwice(v, k - 1);
    }
  }

  lemma ScaleUp(p: nat, s: nat, t: nat, r: nat)
    requires t < p && r < 0x100
    ensures 0x100 * (p * s + t) + r == 0x100 * p * s + (0x100 * t + r)
    ensures 0x100 * t + r < 0x100 * p
  {
  }

  lemma DivideTwice(v: nat, k: nat)
    ensures v / 0x100 / Pow256(k) == v / Pow256(k + 1)
  {
    var p: nat := Pow256(k);
    assert Pow256(k + 1) == 0x100 * p;
    var q, r := v / 0x100, v % 0x100;
    var s, t := q / p, q % p;
    assert q == p * s + t;
    ScaleUp(p, s, t, r);
    Arith.DivModIs(v, Pow256(k + 1), s, 0x100 * t + r);
  }

  lemma LengthForms(n: nat)
    requires n <= 0xFFFF_FFFF
    ensures var s, a := EncHead(HStr(n)), EncHead(HArr(n));
            var four := [n / 0x100_0000, n / 0x1_0000 % 0x100, n / 0x100 % 0x100, n % 0x100];
            && (n <= 31 ==> s == [0xa0 + n]) && (n <= 15 ==> a == [0x90 + n])
            && (32 <= n <= 255 ==> s == [0xd9, n])
            && (256 <= n <= 65535 ==> s == [0xda, n / 0x100, n % 0x100])
            && (16 <= n <= 65535 ==> a == [0xdc, n / 0x100, n % 0x100])
            && (65536 <= n ==> s == [0xdb] + four && a == [0xdd] + four)
    ensures EncHead(HBool(false)) == [0xc2] && EncHead(HBool(true)) == [0xc3]
  {
    hide BE;
    BigEndian(n);
  }

  // ---- Values ----

  /** A MessagePack value of the families in use. */
  datatype Value = VInt(i: int) | VStr(s: seq<byte>) | VBool(b: bool) | VArr(vs: seq<Value>)

  /** The head the packer writes for a value; the count of an array is given to it as 32 bits. */
  function HeadOf(v: Value): Head
  {
    match v
    case VInt(i) => HInt(i)
    case VStr(s) => HStr(|s|)
    case VBool(b) => HBool(b)
    case VArr(vs) => HArr(|vs| % 0x1_0000_0000)
  }

  function Enc(v: Value): seq<byte>
    decreases v, 0
  {
    EncHead(HeadOf(v)) + match v case VStr(s) => s case VArr(vs) => EncAll(vs) case _ => []
  }

  function EncAll(vs: seq<Value>): seq<byte>
    decreases vs, 1
  {
    if vs == [] then [] else Enc(vs[0]) + EncAll(vs[1..])
  }

  /** The values MessagePack can express: numbers of 64 bits, strings and arrays shorter than 2^32. */
  predicate WellFormed(v: Value)
    decreases v
  {
    match v
    case VInt(i) => Expressible(HInt(i))
    case VStr(s) => |s| < 0x1_0000_0000
    case VBool(_) => true
    case VArr(vs) => |vs| < 0x1_0000_0000 && forall w <- vs :: WellFormed(w)
  }

  /** One value off the front of a buffer, and the rest. */
  function Dec(b: seq<byte>): (r: Option<(Value, seq<byte>)>)
    ensures r.Some? ==> |r.value.1| < |b|
    decreases |b|, 0
  {
    match DecHead(b)
    case None => None
    case Some((head, k)) =>
      match head
      case HInt(i) => Some((VInt(i), b[k..]))
      case HBool(f) => Some((VBool(f), b[k..]))
      case HStr(n) => if |b| - k < n then None else Some((VStr(b[k..k + n]), b[k + n..]))
      case HArr(n) =>
        match DecAll(n, b[k..]) case None => None case Some((vs, rest)) => Some((VArr(vs), rest))
  }

  function DecAll(n: nat, b: seq<byte>): (r: Option<(seq<Value>, seq<byte>)>)
    ensures r.Some? ==> |r.value.0| == n && |r.value.1| <= |b|
    decreases |b|, 1
  {
    if n == 0 then Some(([], b))
    else
      match Dec(b)
      case None => None
      case Some((v, later)) =>
        match DecAll(n - 1, later) case None => None case Some((vs, rest)) => Some(([v] + vs, rest))
  }

  // What Dec makes of a head it can read, for each kind of head.

  lemma DecOfScalar(h: Head, body: seq<byte>)
    requires Expressible(h)
    ensures h.HInt? ==> Dec(EncHead(h) + body) == Some((VInt(h.i), body))
    ensures h.HBool? ==> Dec(EncHead(h) + body) == Some((VBool(h.b), body))
  {
    hide DecHead, EncHead, DecAll;
    HeadIsRead(h, body);
    assert (EncHead(h) + body)[|EncHead(h)|..] == body;
  }

  lemma DecOfString(s: seq<byte>, rest: seq<byte>)
    requires |s| < 0x1_0000_0000
    ensures Dec(EncHead(HStr(|s|)) + (s + rest)) == Some((VStr(s), rest))
  {
    hide DecHead, EncHead, DecAll;
    var head := EncHead(HStr(|s|));
    var b, k := head + (s + rest), |head|;
    HeadIsRead(HStr(|s|), s + rest);
    assert b[k..k + |s|] == s;
    assert b[k + |s|..] == rest;
  }

  lemma DecOfArray(n: nat, body: seq<byte>)
    requires n < 0x1_0000_0000 && DecAll(n, body).Some?
    ensures Dec(EncHead(HArr(n)) + body) == Some((VArr(DecAll(n, body).value.0), DecAll(n, body).value.1))
  {
    hide DecHead, EncHead, DecAll;
    HeadIsRead(HArr(n), body);
    assert (EncHead(HArr(n)) + body)[|EncHead(HArr(n))|..] == body;
  }

  /** Every well-formed value is decoded to itself, and the decoder stops exactly where it ends. */
  lemma {:induction false} DecOfEnc(v: Value, rest: seq<byte>)
    requires WellFormed(v)
    ensures Dec(Enc(v) + rest) == Some((v, rest))
    decreases v, 0
  {
    hide EncHead, Dec, DecAll;
    var head := EncHead(HeadOf(v));
    match v
    case VArr(vs) =>
      DecAllOfEncAll(vs, rest);
      DecOfArray(|vs|, EncAll(vs) + rest);
      assert Enc(v) + rest == head + (EncAll(vs) + rest);
    case VStr(s) =>
      DecOfString(s, rest);
      assert Enc(v) + rest == head + (s + rest);
    case _ =>
      DecOfScalar(HeadOf(v), rest);
      assert Enc(v) + rest == head + rest;
  }

  lemma DecAllStep(n: nat, b: seq<byte>, v: Value, later: seq<byte>, vs: seq<Value>, rest: seq<byte>)
    requires n > 0 && Dec(b) == Some((v, later)) && DecAll(n - 1, later) == Some((vs, rest))
    ensures DecAll(n, b) == Some(([v] + vs, rest))
  {
    hide Dec;
  }

  lemma EncAllStep(vs: seq<Value>, rest: seq<byte>)
    requires vs != []
    ensures EncAll(vs) + rest == Enc(vs[0]) + (EncAll(vs[1..]) + rest)
  {
    hide Enc;
  }

  lemma EncNothing(rest: seq<byte>)
    ensures EncAll([]) + rest == rest && DecAll(0, rest) == Some(([], rest))
  {
  }

  lemma {:induction false} DecAllOfEncAll(vs: seq<Value>, rest: seq<byte>)
    requires forall v <- vs :: WellFormed(v)
    ensures DecAll(|vs|, EncAll(vs) + rest) == Some((vs, rest))
    decreases vs, 1
  {
    hide Dec, DecAll, Enc, EncAll, WellFormed;
    if vs == [] {
      EncNothing(rest);
    } else {
      var later := EncAll(vs[1..]) + rest;
      EncAllStep(vs, rest);
      DecOfEnc(vs[0], later);
      assert forall v <- vs[1..] :: v in vs;
      DecAllOfEncAll(vs[1..], rest);
      DecAllStep(|vs|, EncAll(vs) + rest, vs[0], later, vs[1..], rest);
      assert [vs[0]] + vs[1..] == vs;
    }
  }

  lemma {:induction false} DecIsWellFormed(b: seq<byte>)
    ensures Dec(b).Some? ==> WellFormed(Dec(b).value.0)
    decreases |b|, 0
  {
    hide DecHead, EncHead;
    if DecHead(b).Some? {
      EncodingIsShortest(b);
      var (head, k) := DecHead(b).value;
      if head.HArr? {
        DecAllIsWellFormed(head.count, b[k..]);
      }
    }
  }

  lemma {:induction false} DecAllIsWellFormed(n: nat, b: seq<byte>)
    ensures DecAll(n, b).Some? ==> forall v <- DecAll(n, b).value.0 :: WellFormed(v)
    decreases |b|, 1
  {
    if n > 0 {
      DecIsWellFormed(b);
      if Dec(b).Some? {
        DecAllIsWellFormed(n - 1, Dec(b).value.1);
      }
    }
  }

  /** The round trip holds exactly for the well-formed values. */
  lemma RoundTripExactly(v: Value, rest: seq<byte>)
    ensures Dec(Enc(v) + rest) == Some((v, rest)) <==> WellFormed(v)
  {
    if WellFormed(v) {
      DecOfEnc(v, rest);
    } else {
      DecIsWellFormed(Enc(v) + rest);
    }
  }

  /** The encoding is prefix-free: no value's encoding begins with that of another. */
  lemma PrefixFree(v: Value, w: Value)
    requires WellFormed(v) && WellFormed(w)
    requires Enc(v) <= Enc(w)
    ensures v == w
  {
    var tail := Enc(w)[|Enc(v)|..];
    assert Enc(v) + tail == Enc(w) == Enc(w) + [];
    DecOfEnc(v, tail);
    DecOfEnc(w, []);
  }

  /** All values of a buffer that holds nothing else. */
  function DecStream(b: seq<byte>): Option<seq<Value>>
    decreases |b|
  {
    if b == [] then Some([])
    else
      match Dec(b)
      case None => None
      case Some((v, later)) =>
        match DecStream(later) case None => None case Some(vs) => Some([v] + vs)
  }

  /** Any sequence of values is recovered from its concatenated encodings, without being told how many there are. */
  lemma {:induction false} StreamIsRead(vs: seq<Value>)
    requires forall v <- vs :: WellFormed(v)
    ensures DecStream(EncAll(vs)) == Some(vs)
  {
    hide Dec, EncHead, WellFormed;
    if vs != [] {
      DecOfEnc(vs[0], EncAll(vs[1..]));
      StreamIsRead(vs[1..]);
      assert [vs[0]] + vs[1..] == vs;
    }
  }

  /** Decoding a value and encoding it again never takes more bytes than were read. */
  lemma {:induction false} ReencodingIsShortest(b: seq<byte>)
    requires Dec(b).Some?
    ensures |Enc(Dec(b).value.0)| <= |b| - |Dec(b).value.1|
    decreases |b|, 0
  {
    hide DecHead, EncHead;
    EncodingIsShortest(b);
    var (head, k) := DecHead(b).value;
    if head.HArr? {
      ReencodingAll(head.count, b[k..]);
    }
  }

  lemma {:induction false} ReencodingAll(n: nat, b: seq<byte>)
    requires DecAll(n, b).Some?
    ensures |EncAll(DecAll(n, b).value.0)| <= |b| - |DecAll(n, b).value.1|
    decreases |b|, 1
  {
    if n > 0 {
      ReencodingIsShortest(b);
      var (v, later) := Dec(b).value;
      ReencodingAll(n - 1, later);
      var vs := DecAll(n - 1, later).value.0;
      assert ([v] + vs)[1..] == vs;
    }
  }

  // ---- Single outputs ----

  /** What one call of the packer puts out: a number, a string, a bool, or the head of an array without its elements. */
  datatype Token = TInt(i: int) | TStr(s: seq<byte>) | TBool(b: bool) | TArr(count: nat)

  function TokenHead(t: Token): Head
  {
    match t
    case TInt(i) => HInt(i)
    case TStr(s) => HStr(|s|)
    case TBool(b) => HBool(b)
    case TArr(n) => HArr(n)
  }

  function EncToken(t: Token): seq<byte> { EncHead(TokenHead(t)) + if t.TStr? then t.s else [] }

  function EncTokens(ts: seq<Token>): seq<byte>
  {
    if ts == [] then [] else EncToken(ts[0]) + EncTokens(ts[1..])
  }

  /** One token off the front of a buffer, and the rest. */
  function DecToken(b: seq<byte>): (r: Option<(Token, seq<byte>)>)
    ensures r.Some? ==> |r.value.1| < |b|
  {
    match DecHead(b)
    case None => None
    case Some((head, k)) =>
      match head
      case HInt(i) => Some((TInt(i), b[k..]))
      case HBool(f) => Some((TBool(f), b[k..]))
      case HArr(n) => Some((TArr(n), b[k..]))
      case HStr(n) => if |b| - k < n then None else Some((TStr(b[k..k + n]), b[k + n..]))
  }

  /** All tokens of a buffer that holds nothing else. */
  function DecTokens(b: seq<byte>): Option<seq<Token>>
    decreases |b|
  {
    if b == [] then Some([])
    else
      match DecToken(b)
      case None => None
      case Some((t, later)) =>
        match DecTokens(later) case None => None case Some(ts) => Some([t] + ts)
  }

  lemma DecTokenOfEncToken(t: Token, rest: seq<byte>)
    requires Expressible(TokenHead(t))
    ensures DecToken(EncToken(t) + rest) == Some((t, rest))
  {
    hide DecHead, EncHead;
    var head, k := EncHead(TokenHead(t)), |EncHead(TokenHead(t))|;
    var body := (if t.TStr? then t.s else []) + rest;
    HeadIsRead(TokenHead(t), body);
    assert EncToken(t) + rest == head + body;
    assert (head + body)[k..] == body;
    if t.TStr? {
      assert (head + body)[k..k + |t.s|] == t.s;
      assert (head + body)[k + |t.s|..] == rest;
    }
  }

  lemma {:induction false} DecTokensAreExpressible(b: seq<byte>)
    ensures DecTokens(b).Some? ==> forall t <- DecTokens(b).value :: Expressible(TokenHead(t))
    decreases |b|
  {
    hide DecHead, EncHead, Expressible;
    if b != [] && DecToken(b).Some? {
      EncodingIsShortest(b);
      DecTokensAreExpressible(DecToken(b).value.1);
    }
  }

  /**
    Any sequence of packer outputs, well nested or not, is recovered from its concatenated bytes, exactly when
    each of them is expressible.
   */
  lemma {:induction false} TokensAreRead(ts: seq<Token>)
    ensures DecTokens(EncTokens(ts)) == Some(ts) <==> forall t <- ts :: Expressible(TokenHead(t))
  {
    hide DecToken, EncHead, Expressible;
    if forall t <- ts :: Expressible(TokenHead(t)) {
      if ts != [] {
        DecTokenOfEncToken(ts[0], EncTokens(ts[1..]));
        TokensAreRead(ts[1..]);
        assert [ts[0]] + ts[1..] == ts;
      }
    } else {
      DecTokensAreExpressible(EncTokens(ts));
    }
  }

  /** No output of the packer begins with another one. */
  lemma TokenPrefixFree(t: Token, u: Token)
    requires Expressible(TokenHead(t)) && Expressible(TokenHead(u))
    requires EncToken(t) <= EncToken(u)
    ensures t == u
  {
    hide EncToken, DecToken, Expressible;
    var tail := EncToken(u)[|EncToken(t)|..];
    assert EncToken(t) + tail == EncToken(u) == EncToken(u) + [];
    DecTokenOfEncToken(t, tail);
    DecTokenOfEncToken(u, []);
  }

  /** The outputs that make up a value. */
  function TokensOf(v: Value): seq<Token>
    decreases v, 0
  {
    match v
    case VInt(i) => [TInt(i)]
    case VStr(s) => [TStr(s)]
    case VBool(b) => [TBool(b)]
    case VArr(vs) => [TArr(|vs| % 0x1_0000_0000)] + TokensOfAll(vs)
  }

  function TokensOfAll(vs: seq<Value>): seq<Token>
    decreases vs, 1
  {
    if vs == [] then [] else TokensOf(vs[0]) + TokensOfAll(vs[1..])
  }

  lemma {:induction false} EncTokensAppend(a: seq<Token>, b: seq<Token>)
    ensures EncTokens(a + b) == EncTokens(a) + EncTokens(b)
  {
    hide EncToken;
    if a == [] {
      assert a + b == b;
    } else {
      assert (a + b)[1..] == a[1..] + b;
      EncTokensAppend(a[1..], b);
    }
  }

  lemma EncTokensOne(t: Token)
    ensures EncTokens([t]) == EncToken(t)
  {
    var none: seq<Token> := [];
    assert [t][1..] == none;
  }

  /** A nested value is its outputs one after the other: the bytes do not depend on how the calls are nested. */
  lemma {:induction false} ValueIsTokens(v: Value)
    ensures EncTokens(TokensOf(v)) == Enc(v)
    decreases v, 0
  {
    hide EncHead;
    if v.VArr? {
      var head := TArr(|v.vs| % 0x1_0000_0000);
      EncTokensAppend([head], TokensOfAll(v.vs));
      EncTokensOne(head);
      ValuesAreTokens(v.vs);
    } else {
      EncTokensOne(TokensOf(v)[0]);
    }
  }

  lemma {:induction false} ValuesAreTokens(vs: seq<Value>)
    ensures EncTokens(TokensOfAll(vs)) == EncAll(vs)
    decreases vs, 1
  {
    if vs != [] {
      ValueIsTokens(vs[0]);
      ValuesAreTokens(vs[1..]);
      EncTokensAppend(TokensOf(vs[0]), TokensOfAll(vs[1..]));
    }
  }

  // ---- Packing ----

  lemma {:induction false} EncAllAppend(a: seq<Value>, b: seq<Value>)
    ensures EncAll(a + b) == EncAll(a) + EncAll(b)
  {
    if a == [] {
      assert a + b == b;
    } else {
      assert (a + b)[1..] == a[1..] + b;
      EncAllAppend(a[1..], b);
    }
  }

  lemma EncAllOne(v: Value)
    ensures EncAll([v]) == Enc(v)
  {
    assert [v][1..] == [];
  }

  /** One more value after those packed from `start` on. */
  lemma PackedNext(start: seq<byte>, vs: seq<Value>, v: Value) returns (next: seq<Value>)
    ensures next == vs + [v]
    ensures start + EncAll(vs) + Enc(v) == start + EncAll(next)
  {
    hide Enc, EncAll;
    next := vs + [v];
    EncAllAppend(vs, [v]);
    EncAllOne(v);
  }

  /** Dropping i bytes and then one more is dropping i + 1 bytes. */
  lemma ShiftNext(v: nat, i: nat)
    ensures v / Pow256(i) / 0x100 == v / Pow256(i + 1)
  {
    var p := Pow256(i);
    var q := v / p;
    var s, t := q / 0x100, q % 0x100;
    Regroup(p, s, t);
    Arith.DivModIs(v, Pow256(i + 1), s, p * t + v % p);
  }

  lemma Regroup(p: nat, s: nat, t: nat)
    requires t < 0x100
    ensures p * (0x100 * s + t) == 0x100 * p * s + p * t
    ensures p * t <= p * 0xFF
  {
  }

  class Packer {
    var out: seq<byte>

    constructor (out: seq<byte>)
      ensures this.out == out
    {
      this.out := out;
    }

    /** Appends the low `bytes` bytes of v, most significant first. */
    method Be(v: nat, bytes: nat)
      modifies this
      ensures out == old(out) + BE(v, bytes)
    {
      hide Pow256;
      var i := bytes;
      while i > 0
        invariant 0 <= i <= bytes
        invariant out == old(out) + BE(v / Pow256(i), bytes - i)
      {
        ShiftNext(v, i - 1);
        i := i - 1;
        out := out + [v / Pow256(i) % 0x100];
      }
      Powers();
    }

    method Array(n: uint32)
      modifies this
      ensures out == old(out) + EncHead(HArr(n))
    {
      if n <= 15 {
        out := out + [0x90 + n];
      } else if n <= 0xFFFF {
        out := out + [0xdc];
        Be(n, 2);
      } else {
        out := out + [0xdd];
        Be(n, 4);
      }
    }

    method UInt(v: uint64)
      modifies this
      ensures out == old(out) + Enc(VInt(v))
    {
      if v <= 0x7F {
        out := out + [v];
      } else if v <= 0xFF {
        out := out + [0xcc];
        out := out + [v];
      } else if v <= 0xFFFF {
        out := out + [0xcd];
        Be(v, 2);
      } else if v <= 0xFFFF_FFFF {
        out := out + [0xce];
        Be(v, 4);
      } else {
        out := out + [0xcf];
        Be(v, 8);
      }
    }

    method Int(v: int64)
      modifies this
      ensures out == old(out) + Enc(VInt(v))
    {
      if v >= 0 {
        UInt(v);
      } else if v >= -32 {
        out := out + [0xE0 + v % 0x20];
      } else if v >= -128 {
        out := out + [0xd0];
        out := out + [v % 0x100];
      } else if v >= -32768 {
        out := out + [0xd1];
        Be(TwosComplement(v), 2);
      } else if v >= -2147483648 {
        out := out + [0xd2];
        Be(TwosComplement(v), 4);
      } else {
        out := out + [0xd3];
        Be(TwosComplement(v), 8);
      }
    }

    method Str(s: seq<byte>)
      modifies this
      ensures out == old(out) + Enc(VStr(s))
    {
      StrHead(|s|);
      ghost var head := out;
      for i := 0 to |s|
        invariant out == head + s[..i]
      {
        out := out + [s[i]];
      }
      assert s[..|s|] == s;
    }

    /** The head that Str writes before the characters. */
    method StrHead(n: nat)
      modifies this
      ensures out == old(out) + EncHead(HStr(n))
    {
      if n <= 31 {
        out := out + [0xA0 + n];
      } else if n <= 0xFF {
        out := out + [0xd9];
        out := out + [n];
      } else if n <= 0xFFFF {
        out := out + [0xda];
        Be(n, 2);
      } else {
        out := out + [0xdb];
        Be(n, 4);
      }
    }

    method Bool(b: bool)
      modifies this
      ensures out == old(out) + Enc(VBool(b))
    {
      out := out + [if b then 0xc3 else 0xc2];
    }
  }
}
