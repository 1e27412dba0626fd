/**
  RC5-32/16 as RFC 2040 writes it, in words, shifts and literal numbers and without a table that is overwritten.
  The key schedule and the block function of Rc5 are proved to be these.
 */
module Rfc2040 {
  import Arith
  import opened Rc5

  /** The least significant octet of w stands first, at x[at]. */
  predicate IsWordAt(w: Word, x: seq<Octet>, at: nat)
    requires at + 4 <= |x|
  {
    && x[at] == (w & 0xFF) as Octet
    && x[at + 1] == ((w >> 8) & 0xFF) as Octet
    && x[at + 2] == ((w >> 16) & 0xFF) as Octet
    && x[at + 3] == ((w >> 24) & 0xFF) as Octet
  }

  /** Rotation to the left by the low five bits of r. */
  function Left(x: Word, r: Word): Word { (x << (r & 31)) | (x >> (32 - (r & 31))) }

  lemma LeftIsRotl(x: Word, r: Word)
    ensures Left(x, r) == Rotl(x, r)
  {
  }

  lemma SumIs(x: Word, y: Word, z: Word)
    ensures x + y + z == Add(Add(x, y), z) && y + z == Add(y, z)
  {
  }

  // ---- The key schedule (section 4) ----

  /** The words P + k*Q, the words of the key, and the values of the registers A and B after each step. */
  datatype Trace = Trace(p: seq<Word>, l: seq<Word>, a: seq<Word>, b: seq<Word>)

  /** The words of the initial table are Q apart. */
  function NextP(p: Word): Word { p + 0x9e3779b9 }

  /** A becomes ROTL(entry + A + B, 3). */
  function NextA(entry: Word, a: Word, b: Word): Word { Left(entry + a + b, 3) }

  /** B becomes ROTL(entry + A + B, A + B), with the new A. */
  function NextB(entry: Word, a: Word, b: Word): Word { Left(entry + a + b, a + b) }

  /** The entry of step h is word h of the initial table, or what was stored there 34 steps before. */
  ghost predicate StepA(t: Trace, h: nat)
    requires |t.p| == 34 && h + 1 < |t.a| && h < |t.b|
  {
    t.a[h + 1] == NextA(if h < 34 then t.p[h] else t.a[h - 33], t.a[h], t.b[h])
  }

  /** The entry of step h is word h of the key, or what was stored there |l| steps before. */
  ghost predicate StepB(t: Trace, h: nat)
    requires 0 < |t.l| && h + 1 < |t.a| && h + 1 < |t.b|
  {
    t.b[h + 1] == NextB(if h < |t.l| then t.l[h] else t.b[h + 1 - |t.l|], t.a[h + 1], t.b[h])
  }

  /** The words of the key, padded with zero octets; one zero word for the empty key. */
  ghost predicate IsKeyWords(key: seq<Octet>, l: seq<Word>)
  {
    && |l| == (if |key| == 0 then 1 else (|key| + 3) / 4)
    && forall k :: 0 <= k < |l| ==> IsWordAt(l[k], key + [0, 0, 0, 0], 4 * k)
  }

  /** The number of steps: three passes over the longer of the table and the key. */
  function Steps(c: nat): (n: nat)
    ensures n >= 102
  {
    if c < 34 then 102 else 3 * c
  }

  /** The table s is the expansion of the key: entry i is the value of A after the last step on that entry. */
  ghost predicate IsSchedule(key: seq<Octet>, s: seq<Word>, t: Trace)
  {
    && |s| == 34 && |t.p| == 34 && IsKeyWords(key, t.l)
    && t.p[0] == 0xb7e15163 && (forall k :: 0 < k < 34 ==> t.p[k] == NextP(t.p[k - 1]))
    && var n := Steps(|t.l|);
       && |t.a| == |t.b| == n + 1 && t.a[0] == 0 && t.b[0] == 0
       && (forall h :: 0 <= h < n ==> StepA(t, h))
       && (forall h :: 0 <= h < n ==> StepB(t, h))
       && (forall h :: n - 34 <= h < n ==> s[h % 34] == t.a[h + 1])
  }

  // What an entry of the two tables of Rc5.Mixed holds: its initial value until it is first reached, then the
  // register of the last step that reached it.

  lemma SameRemainder(t: nat, u: nat, m: nat)
    requires t <= u < t + m && t % m == u % m
    ensures t == u
  {
    var q, r := u / m - t / m, t % m;
    assert u - t == m * q;
    assert q >= 1 ==> m * q >= m;
    assert q <= 0 ==> m * q <= 0;
  }

  /** One step in terms of the entries it works on; the other entries stay. */
  lemma OneStep(key: seq<Octet>, h: nat)
    ensures var m, r, c := Mixed(key, h), Mixed(key, h + 1), KeyWords(|key|);
            && r.a == Rotl(Add(Add(m.s[h % TABLE], m.a), m.b), 3)
            && r.b == Rotl(Add(Add(m.l[h % c], r.a), m.b), Add(r.a, m.b))
            && r.s[h % TABLE] == r.a && (forall i :: 0 <= i < TABLE && i != h % TABLE ==> r.s[i] == m.s[i])
            && r.l[h % c] == r.b && (forall j :: 0 <= j < c && j != h % c ==> r.l[j] == m.l[j])
  {
    hide Rotl, Add, Mixed, KeyWords;
    MixedNext(key, h);
  }

  lemma {:induction false} UntouchedTable(key: seq<Octet>, h: nat, i: nat)
    requires h <= i < TABLE
    ensures Mixed(key, h).s[i] == InitialWord(i)
  {
    hide Rotl, Add, InitialWord, KeyTable, Mixed;
    if h == 0 {
      MixedStart(key);
    } else {
      UntouchedTable(key, h - 1, i);
      OneStep(key, h - 1);
    }
  }

  lemma {:induction false} UntouchedKey(key: seq<Octet>, h: nat, i: nat)
    requires h <= i < KeyWords(|key|)
    ensures Mixed(key, h).l[i] == KeyWord(key, i)
  {
    hide Rotl, Add, InitialTable, KeyWord, KeyWords, Mixed;
    if h == 0 {
      MixedStart(key);
    } else {
      UntouchedKey(key, h - 1, i);
      OneStep(key, h - 1);
      SmallRemainder(h - 1, KeyWords(|key|));
    }
  }

  lemma SmallRemainder(h: nat, m: nat)
    requires h < m
    ensures h % m == h
  {
  }

  lemma {:induction false} TableEntry(key: seq<Octet>, t: nat, h: nat)
    requires t < h <= t + TABLE
    ensures Mixed(key, h).s[t % TABLE] == Mixed(key, t + 1).a
  {
    hide Rotl, Add, Mixed, KeyWords;
    OneStep(key, h - 1);
    if h > t + 1 {
      TableEntry(key, t, h - 1);
      if t % TABLE == (h - 1) % TABLE {
        SameRemainder(t, h - 1, TABLE);
      }
    }
  }

  lemma {:induction false} KeyEntry(key: seq<Octet>, t: nat, h: nat)
    requires t < h <= t + KeyWords(|key|)
    ensures Mixed(key, h).l[t % KeyWords(|key|)] == Mixed(key, t + 1).b
  {
    hide Rotl, Add, Mixed, KeyWords;
    OneStep(key, h - 1);
    if h > t + 1 {
      KeyEntry(key, t, h - 1);
      if t % KeyWords(|key|) == (h - 1) % KeyWords(|key|) {
        SameRemainder(t, h - 1, KeyWords(|key|));
      }
    }
  }

  /** The trace of the mixing phase. */
  ghost function TraceOf(key: seq<Octet>): Trace
  {
    var n := Steps(KeyWords(|key|));
    Trace(InitialTable(), KeyTable(key), seq(n + 1, h requires 0 <= h => Mixed(key, h).a),
          seq(n + 1, h requires 0 <= h => Mixed(key, h).b))
  }

  lemma Backwards(h: nat, m: nat)
    requires 0 < m <= h
    ensures (h - m) % m == h % m
  {
    var q, r := h / m, h % m;
    assert h - m == m * (q - 1) + r;
    Arith.DivModIs(h - m, m, q - 1, r);
  }

  lemma NextAIs(entry: Word, a: Word, b: Word)
    ensures NextA(entry, a, b) == Rotl(Add(Add(entry, a), b), 3)
  {
    hide Left, Rotl, Add;
    SumIs(entry, a, b);
    LeftIsRotl(entry + a + b, 3);
  }

  lemma NextBIs(entry: Word, a: Word, b: Word)
    ensures NextB(entry, a, b) == Rotl(Add(Add(entry, a), b), Add(a, b))
  {
    hide Left, Rotl, Add;
    SumIs(entry, a, b);
    LeftIsRotl(entry + a + b, a + b);
  }

  lemma StepAIs(key: seq<Octet>, h: nat)
    requires h < Steps(KeyWords(|key|))
    ensures StepA(TraceOf(key), h)
  {
    hide Mixed, InitialWord, KeyTable, Rotl, NextA, Add, KeyWords;
    var m, t := Mixed(key, h), TraceOf(key);
    OneStep(key, h);
    if h < TABLE {
      UntouchedTable(key, h, h);
    } else {
      TableEntry(key, h - TABLE, h);
      Backwards(h, TABLE);
    }
    NextAIs(m.s[h % TABLE], m.a, m.b);
  }

  lemma StepBIs(key: seq<Octet>, h: nat)
    requires h < Steps(KeyWords(|key|))
    ensures StepB(TraceOf(key), h)
  {
    hide Mixed, InitialTable, KeyWord, Rotl, NextB, Add, KeyWords;
    var m, t, c := Mixed(key, h), TraceOf(key), KeyWords(|key|);
    OneStep(key, h);
    if h < c {
      UntouchedKey(key, h, h);
      SmallRemainder(h, c);
    } else {
      KeyEntry(key, h - c, h);
      Backwards(h, c);
    }
    NextBIs(m.l[h % c], t.a[h + 1], m.b);
  }

  lemma WordAt(x: seq<Octet>, at: nat, b0: Octet, b1: Octet, b2: Octet, b3: Octet)
    requires at + 4 <= |x| && x[at..at + 4] == [b0, b1, b2, b3]
    ensures IsWordAt(LittleEndian(b0, b1, b2, b3), x, at)
  {
    hide LittleEndian;
    OctetsOfFour(b0, b1, b2, b3);
    assert x[at] == x[at..at + 4][0] && x[at + 1] == x[at..at + 4][1];
    assert x[at + 2] == x[at..at + 4][2] && x[at + 3] == x[at..at + 4][3];
  }

  lemma KeyWordsAre(key: seq<Octet>)
    ensures IsKeyWords(key, KeyTable(key))
  {
    hide IsWordAt, LittleEndian;
    var x := key + [0, 0, 0, 0];
    forall k | 0 <= k < KeyWords(|key|)
      ensures IsWordAt(KeyWord(key, k), x, 4 * k)
    {
      var at := 4 * k;
      WordAt(x, at, KeyOctet(key, at), KeyOctet(key, at + 1), KeyOctet(key, at + 2), KeyOctet(key, at + 3));
    }
  }

  /** The key schedule is that of the RFC, for every key. */
  lemma ExpandedIsSchedule(key: seq<Octet>)
    ensures IsSchedule(key, Expanded(key), TraceOf(key))
  {
    hide Mixed, StepA, StepB, NextP, IsKeyWords, InitialWord;
    var t, n := TraceOf(key), Steps(KeyWords(|key|));
    KeyWordsAre(key);
    MixedStart(key);
    forall h: nat | h < n
      ensures StepA(t, h) && StepB(t, h)
    {
      StepAIs(key, h);
      StepBIs(key, h);
    }
    forall h | n - 34 <= h < n
      ensures Expanded(key)[h % 34] == t.a[h + 1]
    {
      TableEntry(key, h, n);
    }
    forall k | 0 < k < 34
      ensures t.p[k] == NextP(t.p[k - 1])
    {
      NextPIs(k);
    }
    FirstP();
  }

  lemma FirstP()
    ensures InitialWord(0) == 0xb7e15163
  {
  }

  lemma NextPIs(k: nat)
    requires k > 0
    ensures InitialWord(k) == NextP(InitialWord(k - 1))
  {
  }

  lemma WordIsUnique(v: Word, w: Word, x: seq<Octet>, at: nat)
    requires at + 4 <= |x| && IsWordAt(v, x, at) && IsWordAt(w, x, at)
    ensures v == w
  {
    hide LittleEndian;
    assert OctetsOf(v) == OctetsOf(w);
    WordOctets(v, []);
    WordOctets(w, []);
  }

  lemma {:induction false} SameTable(key: seq<Octet>, s: seq<Word>, t: Trace, s': seq<Word>, t': Trace, k: nat)
    requires IsSchedule(key, s, t) && IsSchedule(key, s', t') && k < 34
    ensures t.p[k] == t'.p[k]
  {
    hide StepA, StepB, IsKeyWords, Steps, NextP;
    if k > 0 {
      SameTable(key, s, t, s', t', k - 1);
    }
  }

  lemma SameKeyWords(key: seq<Octet>, l: seq<Word>, l': seq<Word>)
    requires IsKeyWords(key, l) && IsKeyWords(key, l')
    ensures l == l'
  {
    hide IsWordAt;
    forall k | 0 <= k < |l|
      ensures l[k] == l'[k]
    {
      WordIsUnique(l[k], l'[k], key + [0, 0, 0, 0], 4 * k);
    }
  }

  /** Two traces agree up to every step. */
  lemma {:induction false} SameSteps(key: seq<Octet>, s: seq<Word>, t: Trace, s': seq<Word>, t': Trace, h: nat)
    requires IsSchedule(key, s, t) && IsSchedule(key, s', t')
    requires t.p == t'.p && t.l == t'.l && h <= Steps(|t.l|)
    ensures t.a[..h + 1] == t'.a[..h + 1] && t.b[..h + 1] == t'.b[..h + 1]
  {
    hide NextA, NextB, NextP, StepA, StepB, IsWordAt;
    if h > 0 {
      SameSteps(key, s, t, s', t', h - 1);
      SameRegisters(t, t', h - 1);
    }
  }

  lemma SameRegisters(t: Trace, t': Trace, h: nat)
    requires t.p == t'.p && t.l == t'.l && |t.p| == 34 && |t.l| > 0
    requires |t.a| == |t.b| == |t'.a| == |t'.b| && h + 1 < |t.a|
    requires t.a[..h + 1] == t'.a[..h + 1] && t.b[..h + 1] == t'.b[..h + 1]
    requires StepA(t, h) && StepA(t', h) && StepB(t, h) && StepB(t', h)
    ensures t.a[h + 1] == t'.a[h + 1] && t.b[h + 1] == t'.b[h + 1]
  {
    hide NextA, NextB;
    SameAt(t.a, t'.a, h + 1);
    SameAt(t.b, t'.b, h + 1);
  }

  lemma SameAt(x: seq<Word>, y: seq<Word>, n: nat)
    requires n <= |x| == |y| && x[..n] == y[..n]
    ensures forall i :: 0 <= i < n ==> x[i] == y[i]
  {
    forall i | 0 <= i < n
      ensures x[i] == y[i]
    {
      assert x[i] == x[..n][i] && y[i] == y[..n][i];
    }
  }

  /** A key has only one expansion, so the schedule defines it. */
  lemma ScheduleIsUnique(key: seq<Octet>, s: seq<Word>, t: Trace)
    ensures IsSchedule(key, s, t) ==> s == Expanded(key)
  {
    hide StepA, StepB, NextP, IsWordAt, Expanded, TraceOf;
    if IsSchedule(key, s, t) {
      var s', t' := Expanded(key), TraceOf(key);
      ExpandedIsSchedule(key);
      SameKeyWords(key, t.l, t'.l);
      forall k | 0 <= k < 34
        ensures t.p[k] == t'.p[k]
      {
        SameTable(key, s, t, s', t', k);
      }
      var n := Steps(|t.l|);
      SameSteps(key, s, t, s', t', n);
      assert t.a[..n + 1] == t.a && t'.a[..n + 1] == t'.a;
      forall i | 0 <= i < 34
        ensures s[i] == s'[i]
      {
        var h: nat := n - 34 + (i + 34 * n - n) % 34;
        assert h % 34 == i;
      }
    }
  }

  // ---- The block function (section 5) ----

  /** A word of the block with a table word added. */
  function Whitened(v: Word, s: Word): Word { v + s }

  /** A word becomes ROTL(word xor other, other) + S, with the other word and a table word. */
  function Stepped(x: Word, other: Word, s: Word): Word { Whitened(Left(x ^ other, other), s) }

  /** Round i of encryption: first A from B, then B from the new A. */
  ghost predicate EncryptionRound(s: seq<Word>, a: seq<Word>, b: seq<Word>, i: nat)
    requires 2 * i + 3 < |s| && i + 1 < |a| && i + 1 < |b|
  {
    && a[i + 1] == Stepped(a[i], b[i], s[2 * i + 2])
    && b[i + 1] == Stepped(b[i], a[i + 1], s[2 * i + 3])
  }

  /** y is the encryption of the block x: sixteen rounds on its two words, least significant octet first. */
  ghost predicate IsEncryption(s: seq<Word>, x: Block, y: Block, a: seq<Word>, b: seq<Word>)
    requires |s| == 34
  {
    && |a| == |b| == 17
    && (exists v, w :: IsWordAt(v, x, 0) && IsWordAt(w, x, 4) && a[0] == Whitened(v, s[0]) && b[0] == Whitened(w, s[1]))
    && (forall i :: 0 <= i < 16 ==> EncryptionRound(s, a, b, i))
    && IsWordAt(a[16], y, 0) && IsWordAt(b[16], y, 4)
  }

  lemma XorIs(x: Word, y: Word)
    ensures Xor(x, y) == x ^ y
  {
  }

  lemma MixIs(x: Word, other: Word, s: Word)
    ensures Mix(x, other, s) == Stepped(x, other, s)
  {
    hide Left, Rotl, Xor, Add, Whitened;
    XorIs(x, other);
    LeftIsRotl(x ^ other, other);
    WhitenIs(Left(x ^ other, other), s);
  }

  lemma WhitenIs(v: Word, s: Word)
    ensures Add(v, s) == Whitened(v, s)
  {
  }

  lemma RoundIs(s: seq<Word>, x: Pair, a: seq<Word>, b: seq<Word>, i: nat)
    requires |s| == 34 && |a| == |b| == 17 && i < 16
    requires Pair(a[i], b[i]) == Rounds(s, i, x) && Pair(a[i + 1], b[i + 1]) == Rounds(s, i + 1, x)
    ensures EncryptionRound(s, a, b, i)
  {
    hide Mix, Stepped;
    assert Pair(a[i + 1], b[i + 1]) == Round(Pair(a[i], b[i]), s[2 * i + 2], s[2 * i + 3]);
    MixIs(a[i], b[i], s[2 * i + 2]);
    MixIs(b[i], a[i + 1], s[2 * i + 3]);
  }

  /** Block encryption is the sixteen rounds of the RFC, for every table of 34 words. */
  lemma EncryptedIsReference(s: seq<Word>, x: Block) returns (a: seq<Word>, b: seq<Word>)
    requires |s| == 34
    ensures IsEncryption(s, x, Encrypted(s, x), a, b)
  {
    hide Rounds, Load, Unload, EncryptionRound, IsWordAt, Whitened;
    var p := Load(x);
    a := seq(17, i requires 0 <= i < 17 => Rounds(s, i, p).a);
    b := seq(17, i requires 0 <= i < 17 => Rounds(s, i, p).b);
    forall i: nat | i < 16
      ensures EncryptionRound(s, a, b, i)
    {
      RoundIs(s, p, a, b, i);
    }
    FirstRound(s, x);
    UnloadIs(Rounds(s, 16, p));
  }

  lemma FirstRound(s: seq<Word>, x: Block)
    requires |s| == 34
    ensures var p, r := Load(x), Rounds(s, 0, Load(x));
            && IsWordAt(p.a, x, 0) && r.a == Whitened(p.a, s[0])
            && IsWordAt(p.b, x, 4) && r.b == Whitened(p.b, s[1])
  {
    hide Whitened, Add, IsWordAt, LittleEndian;
    WordAt(x, 0, x[0], x[1], x[2], x[3]);
    assert x[4..4 + 4] == [x[4], x[5], x[6], x[7]];
    WordAt(x, 4, x[4], x[5], x[6], x[7]);
    WhitenIs(WordOf(x, 0), s[0]);
    WhitenIs(WordOf(x, 4), s[1]);
  }

  lemma UnloadIs(p: Pair)
    ensures IsWordAt(p.a, Unload(p), 0) && IsWordAt(p.b, Unload(p), 4)
  {
    assert Unload(p)[4] == OctetsOf(p.b)[0] && Unload(p)[5] == OctetsOf(p.b)[1];
  }
}
