/**
  The fixed key of the certificate cipher worked through: its table, one block, and the cipher text of the empty
  string. Each line of a trace is one step of the schedule or one round.
 */
module KnownAnswers {
  import opened AuthCrypto
  import opened Rc5
  import opened Rfc2040

  // ---- The key schedule ----

  // Words of the initial table and of the key, and the registers after h steps.

  ghost function P(h: nat): Word { if h < 34 then TraceOf(KEY).p[h] else 0 }

  ghost function K(h: nat): Word { if h < 4 then TraceOf(KEY).l[h] else 0 }

  ghost function A(h: nat): Word { if h <= 102 then TraceOf(KEY).a[h] else 0 }

  ghost function B(h: nat): Word { if h <= 102 then TraceOf(KEY).b[h] else 0 }

  lemma KeyStep(h: nat)
    requires h < 102
    ensures A(h + 1) == NextA(if h < 34 then P(h) else A(h - 33), A(h), B(h))
    ensures B(h + 1) == NextB(if h < 4 then K(h) else B(h - 3), A(h + 1), B(h))
    ensures 0 < h < 34 ==> P(h) == NextP(P(h - 1))
  {
    hide NextA, NextB, NextP, IsWordAt, TraceOf, Expanded;
    ExpandedIsSchedule(KEY);
    assert StepA(TraceOf(KEY), h) && StepB(TraceOf(KEY), h);
  }

  /** The words of the text "0e0aa086965047fb". */
  lemma Start()
    ensures K(0) == 0x61306530 && K(1) == 0x36383061 && K(2) == 0x30353639 && K(3) == 0x62663734
    ensures P(0) == 0xb7e15163 && A(0) == 0 && B(0) == 0
  {
    hide NextA, NextB, NextP, IsWordAt, TraceOf, Expanded;
    ExpandedIsSchedule(KEY);
    KeyWordsAre(TraceOf(KEY).l);
  }

  lemma KeyWordsAre(l: seq<Word>)
    requires IsKeyWords(KEY, l)
    ensures l == [0x61306530, 0x36383061, 0x30353639, 0x62663734]
  {
    var x := KEY + [0, 0, 0, 0];
    assert IsWordAt(l[0], x, 0) && IsWordAt(l[1], x, 4) && IsWordAt(l[2], x, 8) && IsWordAt(l[3], x, 12);
    WordIsUnique(l[0], 0x61306530, x, 0);
    WordIsUnique(l[1], 0x36383061, x, 4);
    WordIsUnique(l[2], 0x30353639, x, 8);
    WordIsUnique(l[3], 0x62663734, x, 12);
  }

  lemma InitialTableOfKey()
    ensures P(0) == 0xb7e15163 && P(1) == 0x5618cb1c && P(2) == 0xf45044d5 && P(3) == 0x9287be8e
    ensures P(4) == 0x30bf3847 && P(5) == 0xcef6b200 && P(6) == 0x6d2e2bb9 && P(7) == 0x0b65a572
    ensures P(8) == 0xa99d1f2b && P(9) == 0x47d498e4 && P(10) == 0xe60c129d && P(11) == 0x84438c56
    ensures P(12) == 0x227b060f && P(13) == 0xc0b27fc8 && P(14) == 0x5ee9f981 && P(15) == 0xfd21733a
    ensures P(16) == 0x9b58ecf3 && P(17) == 0x399066ac && P(18) == 0xd7c7e065 && P(19) == 0x75ff5a1e
    ensures P(20) == 0x1436d3d7 && P(21) == 0xb26e4d90 && P(22) == 0x50a5c749 && P(23) == 0xeedd4102
    ensures P(24) == 0x8d14babb && P(25) == 0x2b4c3474 && P(26) == 0xc983ae2d && P(27) == 0x67bb27e6
    ensures P(28) == 0x05f2a19f && P(29) == 0xa42a1b58 && P(30) == 0x42619511 && P(31) == 0xe0990eca
    ensures P(32) == 0x7ed08883 && P(33) == 0x1d08023c
  {
    hide P, K, A, B, NextA, NextB;
    Start();
    KeyStep(1); KeyStep(2); KeyStep(3); KeyStep(4); KeyStep(5); KeyStep(6); KeyStep(7); KeyStep(8);
    KeyStep(9); KeyStep(10); KeyStep(11); KeyStep(12); KeyStep(13); KeyStep(14); KeyStep(15); KeyStep(16);
    KeyStep(17); KeyStep(18); KeyStep(19); KeyStep(20); KeyStep(21); KeyStep(22); KeyStep(23); KeyStep(24);
    KeyStep(25); KeyStep(26); KeyStep(27); KeyStep(28); KeyStep(29); KeyStep(30); KeyStep(31); KeyStep(32);
    KeyStep(33);
  }

  lemma RegistersTo17()
    ensures A(1) == 0xbf0a8b1d && B(1) == 0xa4075e09
    ensures A(2) == 0xc955a215 && B(2) == 0xe8e54c1f
    ensures A(3) == 0x3459984d && B(3) == 0x41aa54d7
    ensures A(4) == 0x445d5d90 && B(4) == 0x36f4cdf4
    ensures A(5) == 0x608b1e5d && B(5) == 0x94b4770e
    ensures A(6) == 0x21b23b5e && B(6) == 0xbfe8b9f4
    ensures A(7) == 0x7649085a && B(7) == 0x05c95df7
    ensures A(8) == 0x3bc05e1c && B(8) == 0x503bc3f4
    ensures A(9) == 0xacca09d9 && B(9) == 0x489b7237
    ensures A(10) == 0xe9d0a7a1 && B(10) == 0xccf254d3
    ensures A(11) == 0xe678788c && B(11) == 0x5c9a15ab
    ensures A(12) == 0x3ab0d46e && B(12) == 0x1bcf0d5c
    ensures A(13) == 0xc7d73ecb && B(13) == 0x20df2f16
    ensures A(14) == 0x4b476d4d && B(14) == 0xc8c789b1
    ensures A(15) == 0x97c783fb && B(15) == 0x92357bd2
    ensures A(16) == 0x38f39839 && B(16) == 0xc10b3f37
    ensures A(17) == 0xaabe231c && B(17) == 0x8b4c6544
  {
    hide P, K, A, B;
    Start();
    InitialTableOfKey();
    KeyStep(0); KeyStep(1); KeyStep(2); KeyStep(3); KeyStep(4); KeyStep(5); KeyStep(6); KeyStep(7);
    KeyStep(8); KeyStep(9); KeyStep(10); KeyStep(11); KeyStep(12); KeyStep(13); KeyStep(14); KeyStep(15);
    KeyStep(16);
  }

  lemma RegistersTo34()
    ensures A(18) == 0x7cd77863 && B(18) == 0x75b3ac68
    ensures A(19) == 0x52982986 && B(19) == 0x547016a0
    ensures A(20) == 0xe83cd220 && B(20) == 0xfdb827f7
    ensures A(21) == 0xd15e6f77 && B(21) == 0xbf2c9698
    ensures A(22) == 0x17ca9cfa && B(22) == 0x7fe932ab
    ensures A(23) == 0x42ccb777 && B(23) == 0x5c980308
    ensures A(24) == 0x720fdc0c && B(24) == 0x70bcc600
    ensures A(25) == 0x7f0ae63b && B(25) == 0x9d77a216
    ensures A(26) == 0x3e75e62a && B(26) == 0x5bd6baeb
    ensures A(27) == 0x1e827a13 && B(27) == 0xb5bc4e01
    ensures A(28) == 0xdfcf7fd1 && B(28) == 0x4f481922
    ensures A(29) == 0xa851d491 && B(29) == 0x7e4ca88c
    ensures A(30) == 0x5644c3ae && B(30) == 0x94c1a09c
    ensures A(31) == 0x6b3fcad9 && B(31) == 0x2ed6b7b7
    ensures A(32) == 0xd57c8ad3 && B(32) == 0x6d6eb14e
    ensures A(33) == 0x0dde2526 && B(33) == 0xf00f9997
    ensures A(34) == 0xd7ae07c8 && B(34) == 0xae3fa0fd
  {
    hide P, K, A, B;
    InitialTableOfKey();
    RegistersTo17();
    KeyStep(17); KeyStep(18); KeyStep(19); KeyStep(20); KeyStep(21); KeyStep(22); KeyStep(23); KeyStep(24);
    KeyStep(25); KeyStep(26); KeyStep(27); KeyStep(28); KeyStep(29); KeyStep(30); KeyStep(31); KeyStep(32);
    KeyStep(33);
  }

  lemma RegistersTo51()
    ensures A(35) == 0x27c19f12 && B(35) == 0xfbe3026b
    ensures A(36) == 0x67d21c97 && B(36) == 0x448f4143
    ensures A(37) == 0x05d7b13f && B(37) == 0xe9da3064
    ensures A(38) == 0xa079f999 && B(38) == 0x4712795f
    ensures A(39) == 0x40bc8aaa && B(39) == 0x640ce907
    ensures A(40) == 0x33dd787e && B(40) == 0x8f34591b
    ensures A(41) == 0xcad6cf99 && B(41) == 0x91843e55
    ensures A(42) == 0xc0db6054 && B(42) == 0xe4301132
    ensures A(43) == 0x8eabdafa && B(43) == 0x8d533d6e
    ensures A(44) == 0x2e7e0048 && B(44) == 0xb452c165
    ensures A(45) == 0x4a49d1ce && B(45) == 0x8c448106
    ensures A(46) == 0x89f93a10 && B(46) == 0x123e9b73
    ensures A(47) == 0x2078a273 && B(47) == 0x029ed530
    ensures A(48) == 0x72f72783 && B(48) == 0xf0c14f45
    ensures A(49) == 0xdbffd61f && B(49) == 0x905a66a5
    ensures A(50) == 0x2a6ea7ed && B(50) == 0xa817341e
    ensures A(51) == 0xea1ff93b && B(51) == 0x1329ac05
  {
    hide P, K, A, B;
    RegistersTo17();
    RegistersTo34();
    KeyStep(34); KeyStep(35); KeyStep(36); KeyStep(37); KeyStep(38); KeyStep(39); KeyStep(40); KeyStep(41);
    KeyStep(42); KeyStep(43); KeyStep(44); KeyStep(45); KeyStep(46); KeyStep(47); KeyStep(48); KeyStep(49);
    KeyStep(50);
  }

  lemma RegistersTo68()
    ensures A(52) == 0xd108ed1b && B(52) == 0xd4f3e865
    ensures A(53) == 0xc4a7f837 && B(53) == 0x129f6474
    ensures A(54) == 0xfc21765d && B(54) == 0x1ddf6db0
    ensures A(55) == 0x5afa9c27 && B(55) == 0xee4601da
    ensures A(56) == 0x0859d7db && B(56) == 0x43597278
    ensures A(57) == 0x74000e54 && B(57) == 0x8e540c9f
    ensures A(58) == 0xa31fb7fb && B(58) == 0x293d4cc9
    ensures A(59) == 0x5b3f57fa && B(59) == 0x961534eb
    ensures A(60) == 0x7e539879 && B(60) == 0x7c23fdc5
    ensures A(61) == 0xc7d08288 && B(61) == 0x119d9a49
    ensures A(62) == 0xc9ece515 && B(62) == 0xc131f309
    ensures A(63) == 0x9b856579 && B(63) == 0xcb3235b7
    ensures A(64) == 0xe7e2f6f5 && B(64) == 0x92a712f3
    ensures A(65) == 0x2e4ea60f && B(65) == 0x4a4d4d2f
    ensures A(66) == 0x70c3f08a && B(66) == 0x84f88661
    ensures A(67) == 0x1cd4e088 && B(67) == 0xff3940d9
    ensures A(68) == 0x9de1494f && B(68) == 0xc19d1b2f
  {
    hide P, K, A, B;
    RegistersTo34();
    RegistersTo51();
    KeyStep(51); KeyStep(52); KeyStep(53); KeyStep(54); KeyStep(55); KeyStep(56); KeyStep(57); KeyStep(58);
    KeyStep(59); KeyStep(60); KeyStep(61); KeyStep(62); KeyStep(63); KeyStep(64); KeyStep(65); KeyStep(66);
    KeyStep(67);
  }

  lemma RegistersTo85()
    ensures A(69) == 0x3a001c84 && B(69) == 0x27122f54
    ensures A(70) == 0x4723437e && B(70) == 0xe4cfccb7
    ensures A(71) == 0x8e560ba1 && B(71) == 0x31725f19
    ensures A(72) == 0x0213229b && B(72) == 0xce3f5229
    ensures A(73) == 0x8877fb70 && B(73) == 0xdafb92f9
    ensures A(74) == 0xba88373c && B(74) == 0xdd8f4a72
    ensures A(75) == 0x17728a3b && B(75) == 0x8678c4ce
    ensures A(76) == 0xf6357aea && B(76) == 0xe14aed91
    ensures A(77) == 0x31621bab && B(77) == 0x5eda89c3
    ensures A(78) == 0xf5d52db5 && B(78) == 0xea323f01
    ensures A(79) == 0x5289f421 && B(79) == 0x0cd3dfc3
    ensures A(80) == 0x4ab86fa7 && B(80) == 0x5cf3ece3
    ensures A(81) == 0x4127f7ee && B(81) == 0xdd29f9ec
    ensures A(82) == 0x8a48caec && B(82) == 0xd951a503
    ensures A(83) == 0xfcd23071 && B(83) == 0x537e2f7b
    ensures A(84) == 0xd5f83ecb && B(84) == 0x9a96ca61
    ensures A(85) == 0xd578133a && B(85) == 0x3a69c6bc
  {
    hide P, K, A, B;
    RegistersTo51();
    RegistersTo68();
    KeyStep(68); KeyStep(69); KeyStep(70); KeyStep(71); KeyStep(72); KeyStep(73); KeyStep(74); KeyStep(75);
    KeyStep(76); KeyStep(77); KeyStep(78); KeyStep(79); KeyStep(80); KeyStep(81); KeyStep(82); KeyStep(83);
    KeyStep(84);
  }

  lemma RegistersTo102()
    ensures A(86) == 0x0756388f && B(86) == 0x8d2270d8
    ensures A(87) == 0xc9050cf2 && B(87) == 0x96b516a6
    ensures A(88) == 0xdedccfaa && B(88) == 0xb0b11028
    ensures A(89) == 0x5443dfcf && B(89) == 0x599faf5b
    ensures A(90) == 0xb1eb382d && B(90) == 0xad586098
    ensures A(91) == 0x9a1d38ce && B(91) == 0x8aac0337
    ensures A(92) == 0x3f47a006 && B(92) == 0xaf54966c
    ensures A(93) == 0x4edc7362 && B(93) == 0x2e4a55f4
    ensures A(94) == 0xdbd30e7f && B(94) == 0x285dbbae
    ensures A(95) == 0x600a65ae && B(95) == 0x31314249
    ensures A(96) == 0xd9446862 && B(96) == 0x5208bdce
    ensures A(97) == 0x36945d4e && B(97) == 0x0b6e7711
    ensures A(98) == 0x4f2e5aa1 && B(98) == 0x35820bea
    ensures A(99) == 0x97f864d5 && B(99) == 0x7f55d984
    ensures A(100) == 0x4091771c && B(100) == 0x11f00e6e
    ensures A(101) == 0x7ab33093 && B(101) == 0x30236c25
    ensures A(102) == 0x45bf303a && B(102) == 0xd5b25424
  {
    hide P, K, A, B;
    RegistersTo68();
    RegistersTo85();
    KeyStep(85); KeyStep(86); KeyStep(87); KeyStep(88); KeyStep(89); KeyStep(90); KeyStep(91); KeyStep(92);
    KeyStep(93); KeyStep(94); KeyStep(95); KeyStep(96); KeyStep(97); KeyStep(98); KeyStep(99); KeyStep(100);
    KeyStep(101);
  }

  /** Word j of the expanded key, which is the value of A after the last step on entry j. */
  ghost function S(j: nat): Word { if j < 34 then Expanded(KEY)[j] else 0 }

  lemma LastStep(j: nat)
    requires j < 34
    ensures S(j) == A(69 + j)
  {
    hide NextA, NextB, NextP, IsWordAt, TraceOf, Expanded, StepA, StepB;
    ExpandedIsSchedule(KEY);
    assert (68 + j) % 34 == j;
  }

  /** The table of the key. */
  lemma TableOfKey()
    ensures S(0) == 0x3a001c84 && S(1) == 0x4723437e && S(2) == 0x8e560ba1 && S(3) == 0x0213229b
    ensures S(4) == 0x8877fb70 && S(5) == 0xba88373c && S(6) == 0x17728a3b && S(7) == 0xf6357aea
    ensures S(8) == 0x31621bab && S(9) == 0xf5d52db5 && S(10) == 0x5289f421 && S(11) == 0x4ab86fa7
    ensures S(12) == 0x4127f7ee && S(13) == 0x8a48caec && S(14) == 0xfcd23071 && S(15) == 0xd5f83ecb
    ensures S(16) == 0xd578133a && S(17) == 0x0756388f && S(18) == 0xc9050cf2 && S(19) == 0xdedccfaa
    ensures S(20) == 0x5443dfcf && S(21) == 0xb1eb382d && S(22) == 0x9a1d38ce && S(23) == 0x3f47a006
    ensures S(24) == 0x4edc7362 && S(25) == 0xdbd30e7f && S(26) == 0x600a65ae && S(27) == 0xd9446862
    ensures S(28) == 0x36945d4e && S(29) == 0x4f2e5aa1 && S(30) == 0x97f864d5 && S(31) == 0x4091771c
    ensures S(32) == 0x7ab33093 && S(33) == 0x45bf303a
  {
    hide *;
    RegistersTo85();
    RegistersTo102();
    LastStep(0); LastStep(1); LastStep(2); LastStep(3); LastStep(4); LastStep(5); LastStep(6); LastStep(7);
    LastStep(8); LastStep(9); LastStep(10); LastStep(11); LastStep(12); LastStep(13); LastStep(14); LastStep(15);
    LastStep(16); LastStep(17); LastStep(18); LastStep(19); LastStep(20); LastStep(21); LastStep(22); LastStep(23);
    LastStep(24); LastStep(25); LastStep(26); LastStep(27); LastStep(28); LastStep(29); LastStep(30); LastStep(31);
    LastStep(32); LastStep(33);
  }

  // ---- One block ----

  const NINES: Block := [9, 9, 9, 9, 9, 9, 9, 9]

  // The two words of the block after i rounds.

  ghost function X(i: nat): Word { if i <= 16 then Rounds(Expanded(KEY), i, Load(NINES)).a else 0 }

  ghost function Y(i: nat): Word { if i <= 16 then Rounds(Expanded(KEY), i, Load(NINES)).b else 0 }

  lemma RoundStep(i: nat)
    requires i < 16
    ensures X(i + 1) == Stepped(X(i), Y(i), S(2 * i + 2))
    ensures Y(i + 1) == Stepped(Y(i), X(i + 1), S(2 * i + 3))
  {
    hide Mix, Stepped, Expanded, Load;
    MixIs(X(i), Y(i), S(2 * i + 2));
    MixIs(Y(i), X(i + 1), S(2 * i + 3));
  }

  lemma BeforeRounds()
    ensures X(0) == Whitened(0x09090909, S(0)) && Y(0) == Whitened(0x09090909, S(1))
  {
    hide Whitened, IsWordAt, Expanded, Load, Rounds;
    FirstRound(Expanded(KEY), NINES);
    assert IsWordAt(0x09090909, NINES, 0) && IsWordAt(0x09090909, NINES, 4) by {
      NinesAreWords();
    }
    WordIsUnique(Load(NINES).a, 0x09090909, NINES, 0);
    WordIsUnique(Load(NINES).b, 0x09090909, NINES, 4);
  }

  lemma NinesAreWords()
    ensures IsWordAt(0x09090909, NINES, 0) && IsWordAt(0x09090909, NINES, 4)
  {
  }

  lemma RoundsOfNines()
    ensures X(0) == 0x4309258d && Y(0) == 0x502c4c87
    ensures X(1) == 0x210a90aa && Y(1) == 0x9d83d85f
    ensures X(2) == 0x66bc9fea && Y(2) == 0xb7a70f28
    ensures X(3) == 0x33034d0c && Y(3) == 0x3a57c334
    ensures X(4) == 0x14e2b0f3 && Y(4) == 0x940ea360
    ensures X(5) == 0xd37607b4 && Y(5) == 0x97fce731
    ensures X(6) == 0x02328103 && Y(6) == 0x38bbfc80
    ensures X(7) == 0x375badf4 && Y(7) == 0xed393cd0
    ensures X(8) == 0x669ced9c && Y(8) == 0xd01095a3
    ensures X(9) == 0x7d68ceef && Y(9) == 0x0c832666
    ensures X(10) == 0xcf3e022b && Y(10) == 0x9b0da64a
    ensures X(11) == 0x68aebe1e && Y(11) == 0x7c30661b
    ensures X(12) == 0x77816a22 && Y(12) == 0x0a973f63
    ensures X(13) == 0x48bd0fb9 && Y(13) == 0x8dc8bcc3
    ensures X(14) == 0x6241f924 && Y(14) == 0x47c2b91f
    ensures X(15) == 0x2aba04f2 && Y(15) == 0x38472cfe
    ensures X(16) == 0x7f727a96 && Y(16) == 0xdfd0fd8f
  {
    hide S, X, Y;
    TableOfKey();
    BeforeRounds();
    RoundStep(0); RoundStep(1); RoundStep(2); RoundStep(3); RoundStep(4); RoundStep(5); RoundStep(6); RoundStep(7);
    RoundStep(8); RoundStep(9); RoundStep(10); RoundStep(11); RoundStep(12); RoundStep(13); RoundStep(14);
    RoundStep(15);
  }

  const CIPHER_BLOCK: Block := [0x96, 0x7a, 0x72, 0x7f, 0x8f, 0xfd, 0xd0, 0xdf]

  /** The block of nines under the fixed key. */
  lemma EncryptedNines()
    ensures Encrypted(Expanded(KEY), NINES) == CIPHER_BLOCK
  {
    hide Expanded, Rounds, Load, Rotl;
    RoundsOfNines();
    assert Rounds(Expanded(KEY), 16, Load(NINES)) == Pair(0x7f727a96, 0xdfd0fd8f);
    UnloadedWords();
  }

  lemma UnloadedWords()
    ensures Unload(Pair(0x7f727a96, 0xdfd0fd8f)) == CIPHER_BLOCK
  {
  }

  // ---- The empty text ----

  /** The cipher text of the empty text is "967a727f8ffdd0df". */
  lemma EncryptedNothing()
    ensures EncryptedText([]) == [0x39, 0x36, 0x37, 0x61, 0x37, 0x32, 0x37, 0x66,
        0x38, 0x66, 0x66, 0x64, 0x64, 0x30, 0x64, 0x66]
  {
    hide Expanded, Encrypted, HexEncoded, Padded;
    PaddedNothing();
    EncryptedNines();
    var eights: Block := [8, 8, 8, 8, 8, 8, 8, 8];
    XorOfEights();
    assert XorBlock(eights, IV) == NINES;
    assert eights[..8] == eights && eights[8..] == [];
    CbcStep(Expanded(KEY), IV, eights);
    NothingLeft(Expanded(KEY), CIPHER_BLOCK);
    assert CbcEncrypted(Expanded(KEY), IV, eights) == CIPHER_BLOCK;
    DigitsOfBlock();
  }

  lemma PaddedNothing()
    ensures Padded([]) == [8, 8, 8, 8, 8, 8, 8, 8]
  {
  }

  lemma XorOfEights()
    ensures XorBlock([8, 8, 8, 8, 8, 8, 8, 8], IV) == NINES
  {
    hide XorOctet;
    assert XorOctet(8, 1) == 9 by {
      XorOfEight();
    }
  }

  lemma XorOfEight()
    ensures XorOctet(8, 1) == 9
  {
  }

  lemma DigitsOfBlock()
    ensures HexEncoded(CIPHER_BLOCK) == [0x39, 0x36, 0x37, 0x61, 0x37, 0x32, 0x37, 0x66,
        0x38, 0x66, 0x66, 0x64, 0x64, 0x30, 0x64, 0x66]
  {
    var x := CIPHER_BLOCK;
    assert HexEncoded(x[6..]) == [0x64, 0x30, 0x64, 0x66];
    assert HexEncoded(x[4..]) == [0x38, 0x66, 0x66, 0x64, 0x64, 0x30, 0x64, 0x66];
    assert HexEncoded(x[2..]) == [0x37, 0x32, 0x37, 0x66, 0x38, 0x66, 0x66, 0x64, 0x64, 0x30, 0x64, 0x66];
    assert x[0..] == x;
  }
}
