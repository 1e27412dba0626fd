/** RC5-32/16: rotations, the key schedule of RFC 2040 section 4, and the block functions. */
module Rc5 {
  import Arith

  type Word = bv32
  type Octet = bv8

  const ROUNDS: nat := 16
  const TABLE: nat := 2 * (ROUNDS + 1)
  const MAGIC_P: Word := 0xb7e15163
  const MAGIC_Q: Word := 0x9e3779b9

  // ---- Rotations ----

  /** Rotation by the low five bits of the shift; shifting by the full width gives zero, so zero is the identity. */
  function Rotl(x: Word, shift: Word): Word { (x << (shift & 31)) | (x >> (32 - (shift & 31))) }

  function Rotr(x: Word, shift: Word): Word { (x >> (shift & 31)) | (x << (32 - (shift & 31))) }

  lemma RotateByZero(x: Word, shift: Word)
    requires shift & 31 == 0
    ensures Rotl(x, shift) == x && Rotr(x, shift) == x
  {
  }

  // A quarter of the shifts and one direction at a time keep the bit-level proofs small.

  lemma RightUndoesLeftBelow8(x: Word, s: Word)
    requires s & 24 == 0
    ensures Rotr(Rotl(x, s), s) == x
  {
  }

  lemma RightUndoesLeftBelow16(x: Word, s: Word)
    requires s & 24 == 8
    ensures Rotr(Rotl(x, s), s) == x
  {
  }

  lemma RightUndoesLeftBelow24(x: Word, s: Word)
    requires s & 24 == 16
    ensures Rotr(Rotl(x, s), s) == x
  {
  }

  lemma RightUndoesLeftBelow32(x: Word, s: Word)
    requires s & 24 == 24
    ensures Rotr(Rotl(x, s), s) == x
  {
  }

  lemma LeftUndoesRightBelow8(x: Word, s: Word)
    requires s & 24 == 0
    ensures Rotl(Rotr(x, s), s) == x
  {
  }

  lemma LeftUndoesRightBelow16(x: Word, s: Word)
    requires s & 24 == 8
    ensures Rotl(Rotr(x, s), s) == x
  {
  }

  lemma LeftUndoesRightBelow24(x: Word, s: Word)
    requires s & 24 == 16
    ensures Rotl(Rotr(x, s), s) == x
  {
  }

  lemma LeftUndoesRightBelow32(x: Word, s: Word)
    requires s & 24 == 24
    ensures Rotl(Rotr(x, s), s) == x
  {
  }

  /** The two rotations by the same amount, here a data-dependent one, undo each other. */
  lemma RotationsInverse(x: Word, s: Word)
    ensures Rotr(Rotl(x, s), s) == x
    ensures Rotl(Rotr(x, s), s) == x
  {
    hide Rotl, Rotr;
    if s & 24 == 0 {
      RightUndoesLeftBelow8(x, s);
      LeftUndoesRightBelow8(x, s);
    } else if s & 24 == 8 {
      RightUndoesLeftBelow16(x, s);
      LeftUndoesRightBelow16(x, s);
    } else if s & 24 == 16 {
      RightUndoesLeftBelow24(x, s);
      LeftUndoesRightBelow24(x, s);
    } else {
      RightUndoesLeftBelow32(x, s);
      LeftUndoesRightBelow32(x, s);
    }
  }

  // ---- Blocks ----

  /** The state of the cipher: two words. */
  datatype Pair = Pair(a: Word, b: Word)

  // The word operations of the cipher: addition and subtraction wrap around at 32 bits.

  function Add(x: Word, y: Word): Word { x + y }

  function Sub(x: Word, y: Word): Word { x - y }

  function Xor(x: Word, y: Word): Word { x ^ y }

  lemma WrapAround(x: Word, y: Word)
    ensures (x + y) - y == x
    ensures (x - y) + y == x
  {
  }

  lemma AddSub(x: Word, y: Word)
    ensures Sub(Add(x, y), y) == x && Add(Sub(x, y), y) == x
  {
    WrapAround(x, y);
    assert Add(x, y) == x + y && Sub(x, y) == x - y;
  }

  lemma XorXor(x: Word, y: Word)
    ensures Xor(Xor(x, y), y) == x && Xor(x, y) == Xor(y, x)
  {
  }

  /** One word mixed with the other and a table word, and the step back. */
  function Mix(x: Word, other: Word, s: Word): Word { Add(Rotl(Xor(x, other), other), s) }

  function Unmix(y: Word, other: Word, s: Word): Word { Xor(Rotr(Sub(y, s), other), other) }

  lemma MixInverse(x: Word, other: Word, s: Word)
    ensures Unmix(Mix(x, other, s), other, s) == x
    ensures Mix(Unmix(x, other, s), other, s) == x
  {
    hide Rotl, Rotr, Add, Sub, Xor;
    RotationsInverse(Xor(x, other), other);
    RotationsInverse(Sub(x, s), other);
    AddSub(Rotl(Xor(x, other), other), s);
    AddSub(x, s);
    XorXor(x, other);
    XorXor(Rotr(Sub(x, s), other), other);
  }

  function Round(p: Pair, s0: Word, s1: Word): Pair
  {
    var a := Mix(p.a, p.b, s0);
    Pair(a, Mix(p.b, a, s1))
  }

  function Unround(p: Pair, s0: Word, s1: Word): Pair
  {
    var b := Unmix(p.b, p.a, s1);
    Pair(Unmix(p.a, b, s0), b)
  }

  /** Decryption rounds undo encryption rounds and the other way about, for any two table words. */
  lemma UnroundUndoesRound(p: Pair, s0: Word, s1: Word)
    ensures Unround(Round(p, s0, s1), s0, s1) == p
    ensures Round(Unround(p, s0, s1), s0, s1) == p
  {
    hide Mix, Unmix;
    var a, b := Mix(p.a, p.b, s0), Unmix(p.b, p.a, s1);
    MixInverse(p.a, p.b, s0);
    MixInverse(p.b, a, s1);
    MixInverse(p.b, p.a, s1);
    MixInverse(p.a, b, s0);
  }

  /** The first n rounds of encryption, after the initial addition. */
  function Rounds(s: seq<Word>, n: nat, p: Pair): Pair
    requires 2 * n + 2 <= |s|
  {
    if n == 0 then Pair(Add(p.a, s[0]), Add(p.b, s[1]))
    else Round(Rounds(s, n - 1, p), s[2 * n], s[2 * n + 1])
  }

  /** Undoing the last n rounds, then the initial addition. */
  function Unrounds(s: seq<Word>, n: nat, p: Pair): Pair
    requires 2 * n + 2 <= |s|
  {
    if n == 0 then Pair(Sub(p.a, s[0]), Sub(p.b, s[1]))
    else Unrounds(s, n - 1, Unround(p, s[2 * n], s[2 * n + 1]))
  }

  /** Decryption inverts encryption for every table, not only one that a key gives. */
  lemma {:induction false} UnroundsUndoRounds(s: seq<Word>, n: nat, p: Pair)
    requires 2 * n + 2 <= |s|
    ensures Unrounds(s, n, Rounds(s, n, p)) == p
  {
    hide Round, Unround, Add, Sub;
    if n == 0 {
      AddSub(p.a, s[0]);
      AddSub(p.b, s[1]);
    } else {
      UnroundUndoesRound(Rounds(s, n - 1, p), s[2 * n], s[2 * n + 1]);
      UnroundsUndoRounds(s, n - 1, p);
    }
  }

  lemma {:induction false} RoundsUndoUnrounds(s: seq<Word>, n: nat, p: Pair)
    requires 2 * n + 2 <= |s|
    ensures Rounds(s, n, Unrounds(s, n, p)) == p
  {
    hide Round, Unround, Add, Sub;
    if n == 0 {
      AddSub(p.a, s[0]);
      AddSub(p.b, s[1]);
    } else {
      RoundsUndoUnrounds(s, n - 1, Unround(p, s[2 * n], s[2 * n + 1]));
      UnroundUndoesRound(p, s[2 * n], s[2 * n + 1]);
    }
  }

  /** Four octets as a word, least significant first, and back. */
  function LittleEndian(b0: Octet, b1: Octet, b2: Octet, b3: Octet): Word
  {
    (b0 as Word) | ((b1 as Word) << 8) | ((b2 as Word) << 16) | ((b3 as Word) << 24)
  }

  function WordOf(x: seq<Octet>, at: nat): Word
    requires at + 4 <= |x|
  {
    LittleEndian(x[at], x[at + 1], x[at + 2], x[at + 3])
  }

  function OctetsOf(w: Word): (r: seq<Octet>)
    ensures |r| == 4
  {
    [(w & 0xFF) as Octet, ((w >> 8) & 0xFF) as Octet, ((w >> 16) & 0xFF) as Octet, ((w >> 24) & 0xFF) as Octet]
  }

  lemma WordOctets(w: Word, more: seq<Octet>)
    ensures WordOf(OctetsOf(w) + more, 0) == w
  {
  }

  lemma OctetsWord(x: seq<Octet>, at: nat)
    requires at + 4 <= |x|
    ensures OctetsOf(WordOf(x, at)) == x[at..at + 4]
  {
    var w := WordOf(x, at);
    OctetsOfFour(x[at], x[at + 1], x[at + 2], x[at + 3]);
  }

  lemma OctetsOfFour(b0: Octet, b1: Octet, b2: Octet, b3: Octet)
    ensures OctetsOf(LittleEndian(b0, b1, b2, b3)) == [b0, b1, b2, b3]
  {
  }

  /** An eight-byte block and its two words. */
  type Block = x: seq<Octet> | |x| == 8 witness [0, 0, 0, 0, 0, 0, 0, 0]

  function Load(x: Block): Pair { Pair(WordOf(x, 0), WordOf(x, 4)) }

  function Unload(p: Pair): Block { OctetsOf(p.a) + OctetsOf(p.b) }

  lemma LoadUnload(p: Pair, x: Block)
    ensures Load(Unload(p)) == p
    ensures Unload(Load(x)) == x
  {
    hide OctetsOf;
    WordOctets(p.a, OctetsOf(p.b));
    WordOctets(p.b, []);
    var u := Unload(p);
    assert OctetsOf(p.b) + [] == OctetsOf(p.b);
    assert u[4] == OctetsOf(p.b)[0] && u[5] == OctetsOf(p.b)[1] && u[6] == OctetsOf(p.b)[2] && u[7] == OctetsOf(p.b)[3];
    OctetsWord(x, 0);
    OctetsWord(x, 4);
    assert x == x[0..4] + x[4..8];
  }

  function Encrypted(s: seq<Word>, x: Block): Block
    requires |s| == TABLE
  {
    Unload(Rounds(s, ROUNDS, Load(x)))
  }

  function Decrypted(s: seq<Word>, x: Block): Block
    requires |s| == TABLE
  {
    Unload(Unrounds(s, ROUNDS, Load(x)))
  }

  /** Each table gives a permutation of the blocks, and decryption is its inverse. */
  lemma BlockInverse(s: seq<Word>, x: Block)
    requires |s| == TABLE
    ensures Decrypted(s, Encrypted(s, x)) == x
    ensures Encrypted(s, Decrypted(s, x)) == x
  {
    hide Load, Unload, Rounds, Unrounds;
    var e, d := Rounds(s, ROUNDS, Load(x)), Unrounds(s, ROUNDS, Load(x));
    LoadUnload(e, x);
    LoadUnload(d, x);
    UnroundsUndoRounds(s, ROUNDS, Load(x));
    RoundsUndoUnrounds(s, ROUNDS, Load(x));
  }

  /** EncryptBlock: the two words are updated round by round. */
  method EncryptBlock(inBlock: Block, sTable: array<Word>) returns (outBlock: Block)
    requires sTable.Length == TABLE
    ensures outBlock == Encrypted(sTable[..], inBlock)
  {
    hide Rotl, WordOf, OctetsOf, Add, Xor;
    var a, b := WordOf(inBlock, 0), WordOf(inBlock, 4);
    a := Add(a, sTable[0]);
    b := Add(b, sTable[1]);
    for i := 0 to ROUNDS
      invariant Pair(a, b) == Rounds(sTable[..], i, Load(inBlock))
    {
      a := Add(Rotl(Xor(a, b), b), sTable[2 * i + 2]);
      XorXor(a, b);
      b := Add(Rotl(Xor(a, b), a), sTable[2 * i + 3]);
    }
    outBlock := OctetsOf(a) + OctetsOf(b);
  }

  method DecryptBlock(inBlock: Block, sTable: array<Word>) returns (outBlock: Block)
    requires sTable.Length == TABLE
    ensures outBlock == Decrypted(sTable[..], inBlock)
  {
    hide Rotr, WordOf, OctetsOf, Sub, Xor;
    var a, b := WordOf(inBlock, 0), WordOf(inBlock, 4);
    var i := ROUNDS;
    while i > 0
      invariant 0 <= i <= ROUNDS
      invariant Unrounds(sTable[..], i, Pair(a, b)) == Unrounds(sTable[..], ROUNDS, Load(inBlock))
    {
      b := Xor(Rotr(Sub(b, sTable[2 * i + 1]), a), a);
      a := Xor(Rotr(Sub(a, sTable[2 * i]), b), b);
      i := i - 1;
    }
    b := Sub(b, sTable[1]);
    a := Sub(a, sTable[0]);
    outBlock := OctetsOf(a) + OctetsOf(b);
  }

  // ---- Key schedule ----

  /** The j-th word of the table before mixing. */
  function InitialWord(j: nat): Word
  {
    if j == 0 then MAGIC_P else Add(InitialWord(j - 1), MAGIC_Q)
  }

  function InitialTable(): (s: seq<Word>)
    ensures |s| == TABLE
  {
    seq(TABLE, j requires 0 <= j < TABLE => InitialWord(j))
  }

  /** The number of words the key occupies, at least one. */
  function KeyWords(keylen: nat): (c: nat)
    ensures c >= 1 && 4 * c >= keylen
  {
    if keylen == 0 then 1 else (keylen + 3) / 4
  }

  /** Octet `at` of the key, or zero beyond its end. */
  function KeyOctet(key: seq<Octet>, at: nat): Octet { if at < |key| then key[at] else 0 }

  /** Word k of the key: four octets, least significant first, padded with zeros. */
  function KeyWord(key: seq<Octet>, k: nat): Word
  {
    LittleEndian(KeyOctet(key, 4 * k), KeyOctet(key, 4 * k + 1), KeyOctet(key, 4 * k + 2), KeyOctet(key, 4 * k + 3))
  }

  function KeyTable(key: seq<Octet>): (l: seq<Word>)
    ensures |l| == KeyWords(|key|)
  {
    seq(KeyWords(|key|), k requires 0 <= k => KeyWord(key, k))
  }

  /** The two tables and the two registers of the mixing phase. */
  datatype Mixer = Mixer(s: seq<Word>, l: seq<Word>, a: Word, b: Word)

  /** Step h mixes entry h mod |s| of the table with entry h mod |l| of the key. */
  function MixStep(m: Mixer, h: nat): (r: Mixer)
    requires |m.s| > 0 && |m.l| > 0
    ensures |r.s| == |m.s| && |r.l| == |m.l|
  {
    var i, j := h % |m.s|, h % |m.l|;
    var a := Rotl(Add(Add(m.s[i], m.a), m.b), 3);
    var sum := Add(a, m.b);
    var b := Rotl(Add(Add(m.l[j], a), m.b), sum);
    Mixer(m.s[i := a], m.l[j := b], a, b)
  }

  function Mixed(key: seq<Octet>, steps: nat): (m: Mixer)
    ensures |m.s| == TABLE && |m.l| == KeyWords(|key|)
  {
    if steps == 0 then Mixer(InitialTable(), KeyTable(key), 0, 0) else MixStep(Mixed(key, steps - 1), steps - 1)
  }

  function Max(x: nat, y: nat): nat { if x < y then y else x }

  /** The expanded key: three passes over the longer of the two tables. */
  function Expanded(key: seq<Octet>): (s: seq<Word>)
    ensures |s| == TABLE
  {
    Mixed(key, 3 * Max(TABLE, KeyWords(|key|))).s
  }

  function Or(x: Word, y: Word): Word { x | y }

  /** An octet moved to byte `pos` of a word. */
  function OctetAt(b: Octet, pos: nat): Word
    requires pos < 4
  {
    if pos == 0 then b as Word
    else if pos == 1 then (b as Word) << 8
    else if pos == 2 then (b as Word) << 16
    else (b as Word) << 24
  }

  lemma OctetJoins0(b0: Octet)
    ensures Or(LittleEndian(0, 0, 0, 0), OctetAt(b0, 0)) == LittleEndian(b0, 0, 0, 0)
  {
  }

  lemma OctetJoins1(b0: Octet, b1: Octet)
    ensures Or(LittleEndian(b0, 0, 0, 0), OctetAt(b1, 1)) == LittleEndian(b0, b1, 0, 0)
  {
  }

  lemma OctetJoins2(b0: Octet, b1: Octet, b2: Octet)
    ensures Or(LittleEndian(b0, b1, 0, 0), OctetAt(b2, 2)) == LittleEndian(b0, b1, b2, 0)
  {
  }

  lemma OctetJoins3(b0: Octet, b1: Octet, b2: Octet, b3: Octet)
    ensures Or(LittleEndian(b0, b1, b2, 0), OctetAt(b3, 3)) == LittleEndian(b0, b1, b2, b3)
  {
  }

  /** Joining the next octet to its word accounts for one more octet of the key, in every word. */
  lemma KeyWordGrows(key: seq<Octet>, i: nat, k: nat)
    requires i < |key|
    ensures KeyWord(key[..i + 1], k) ==
            if k == i / 4 then Or(KeyWord(key[..i], k), OctetAt(key[i], i % 4)) else KeyWord(key[..i], k)
  {
    hide LittleEndian, Or, OctetAt;
    var b0, b1 := KeyOctet(key, 4 * k), KeyOctet(key, 4 * k + 1);
    var b2, b3 := KeyOctet(key, 4 * k + 2), KeyOctet(key, 4 * k + 3);
    OctetJoins0(b0);
    OctetJoins1(b0, b1);
    OctetJoins2(b0, b1, b2);
    OctetJoins3(b0, b1, b2, b3);
  }

  lemma NextIndex(h: nat, c: nat)
    requires c > 0
    ensures (h + 1) % c == (h % c + 1) % c
  {
    var q, r := h / c, h % c;
    assert h + 1 == c * q + (r + 1);
    if r + 1 < c {
      Arith.DivModIs(h + 1, c, q, r + 1);
    } else {
      assert c * q + c == c * (q + 1);
      Arith.DivModIs(h + 1, c, q + 1, 0);
    }
  }

  /**
    KeyExpand fills the table in place, with two counters that wrap around; it computes the expansion above
    for a key of any length the program can count.
   */
  method KeyExpand(key: seq<Octet>, sTable: array<Word>)
    requires sTable.Length == TABLE
    requires |key| + 3 < 0x1_0000_0000
    modifies sTable
    ensures sTable[..] == Expanded(key)
  {
    hide InitialTable, KeyTable, Mixed;
    FillTable(sTable);
    var c := Max((|key| + 3) / 4, 1);
    var l := KeyTableOf(key, c);
    var a: Word, b: Word := 0, 0;
    var n := 3 * Max(sTable.Length, c);
    var h, i, j := 0, 0, 0;
    MixedStart(key);
    while h < n
      invariant 0 <= h <= n
      invariant i == h % TABLE && j == h % c
      invariant Mixed(key, h) == Mixer(sTable[..], l[..], a, b)
    {
      NextIndex(h, TABLE);
      NextIndex(h, c);
      MixedNext(key, h);
      a, b := MixEntries(sTable, l, i, j, a, b, h);
      i := (i + 1) % sTable.Length;
      j := (j + 1) % c;
      h := h + 1;
    }
  }

  lemma MixedStart(key: seq<Octet>)
    ensures Mixed(key, 0) == Mixer(InitialTable(), KeyTable(key), 0, 0)
  {
  }

  lemma MixedNext(key: seq<Octet>, h: nat)
    ensures Mixed(key, h + 1) == MixStep(Mixed(key, h), h)
  {
  }

  /** The body of the mixing loop: one entry of each table, and the two registers. */
  method MixEntries(sTable: array<Word>, l: array<Word>, i: nat, j: nat, a0: Word, b0: Word, ghost h: nat)
      returns (a: Word, b: Word)
    requires sTable != l && i < sTable.Length && j < l.Length
    requires i == h % sTable.Length && j == h % l.Length
    modifies sTable, l
    ensures Mixer(sTable[..], l[..], a, b) == MixStep(Mixer(old(sTable[..]), old(l[..]), a0, b0), h)
  {
    hide Rotl, Add;
    sTable[i] := Rotl(Add(Add(sTable[i], a0), b0), 3);
    a := sTable[i];
    l[j] := Rotl(Add(Add(l[j], a), b0), Add(a, b0));
    b := l[j];
  }

  method FillTable(sTable: array<Word>)
    requires sTable.Length == TABLE
    modifies sTable
    ensures sTable[..] == InitialTable()
  {
    hide Add;
    sTable[0] := MAGIC_P;
    for j := 1 to TABLE
      invariant forall k :: 0 <= k < j ==> sTable[k] == InitialWord(k)
    {
      sTable[j] := Add(sTable[j - 1], MAGIC_Q);
    }
  }

  /** The conversion of the key to words, octet by octet. */
  method KeyTableOf(key: seq<Octet>, c: nat) returns (l: array<Word>)
    requires c == KeyWords(|key|)
    ensures fresh(l)
    ensures l[..] == KeyTable(key)
  {
    hide Or, OctetAt, LittleEndian;
    l := new Word[c](_ => 0);
    NothingYet();
    for i := 0 to |key|
      invariant forall k :: 0 <= k < c ==> l[k] == KeyWord(key[..i], k)
    {
      forall k | 0 <= k < c
        ensures KeyWord(key[..i + 1], k) ==
                if k == i / 4 then Or(KeyWord(key[..i], k), OctetAt(key[i], i % 4)) else KeyWord(key[..i], k)
      {
        KeyWordGrows(key, i, k);
      }
      l[i / 4] := Or(l[i / 4], OctetAt(key[i], i % 4));
    }
    assert key[..|key|] == key;
  }

  lemma NothingYet()
    ensures LittleEndian(0, 0, 0, 0) == 0
  {
  }
}
