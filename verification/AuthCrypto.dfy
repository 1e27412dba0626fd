/** EncryptAuthData and DecryptAuthData: RC5 in CBC mode with PKCS#7 padding, as lowercase hexadecimal text. */
module AuthCrypto {
  import opened Bytes
  import opened Rc5

  /** A std::string, as its characters' codes. */
  type Text = seq<Octet>

  // ---- Hexadecimal ----

  function Digit(n: Octet): Octet { if n < 10 then 0x30 + n else 0x57 + n }

  predicate IsLowerDigit(c: Octet) { 0x30 <= c <= 0x39 || 0x61 <= c <= 0x66 }

  predicate IsLowerHex(h: Text) { forall c <- h :: IsLowerDigit(c) }

  predicate IsHexDigit(c: Octet) { IsLowerDigit(c) || 0x41 <= c <= 0x46 }

  function DigitValue(c: Octet): Octet
  {
    if 0x30 <= c <= 0x39 then c - 0x30 else if 0x61 <= c <= 0x66 then c - 0x57 else c - 0x37
  }

  predicate IsSpace(c: Octet) { c == 0x20 || 0x09 <= c <= 0x0D }

  /** strtol in base 16 on a string of two characters, cut to 8 bits. */
  function Strtol16(c0: Octet, c1: Octet): Octet
  {
    if IsHexDigit(c0) then
      if IsHexDigit(c1) then 16 * DigitValue(c0) + DigitValue(c1) else DigitValue(c0)
    else if !IsHexDigit(c1) then 0
    else if c0 == 0x2D then 0 - DigitValue(c1)
    else if c0 == 0x2B || IsSpace(c0) then DigitValue(c1)
    else 0
  }

  function High(b: Octet): Octet { Digit(b >> 4) }

  function Low(b: Octet): Octet { Digit(b & 0xF) }

  lemma DigitsOfOctet(b: Octet)
    ensures IsLowerDigit(High(b)) && IsLowerDigit(Low(b))
    ensures Strtol16(High(b), Low(b)) == b
  {
  }

  lemma OctetOfDigits(c0: Octet, c1: Octet)
    requires IsLowerDigit(c0) && IsLowerDigit(c1)
    ensures High(Strtol16(c0, c1)) == c0 && Low(Strtol16(c0, c1)) == c1
  {
  }

  /**
    What strtol makes of two characters that are not both lowercase digits: uppercase digits count, a sign or a
    space in front is skipped, and reading stops at the first other character.
   */
  lemma StrtolAnswers()
    ensures Strtol16(0x30, 0x41) == 10 && Strtol16(0x46, 0x66) == 255  // "0A", "Ff"
    ensures Strtol16(0x2D, 0x31) == 255 && Strtol16(0x2B, 0x63) == 12  // "-1", "+c"
    ensures Strtol16(0x20, 0x37) == 7 && Strtol16(0x09, 0x37) == 7     // " 7", tab 7
    ensures Strtol16(0x37, 0x67) == 7 && Strtol16(0x67, 0x37) == 0     // "7g", "g7"
    ensures Strtol16(0x30, 0x78) == 0 && Strtol16(0x2D, 0x2D) == 0     // "0x", "--"
  {
  }

  function HexEncoded(bytes: seq<Octet>): (h: Text)
    ensures |h| == 2 * |bytes|
  {
    if bytes == [] then [] else [High(bytes[0]), Low(bytes[0])] + HexEncoded(bytes[1..])
  }

  function Pairs(h: Text): (bytes: seq<Octet>)
    requires |h| % 2 == 0
    ensures 2 * |bytes| == |h|
  {
    if h == [] then [] else [Strtol16(h[0], h[1])] + Pairs(h[2..])
  }

  /** Text of odd length decodes to nothing. */
  function HexDecoded(h: Text): (bytes: seq<Octet>)
    ensures |bytes| == if |h| % 2 == 0 then |h| / 2 else 0
  {
    if |h| % 2 != 0 then [] else Pairs(h)
  }

  lemma {:induction false} HexEncodedIsLower(bytes: seq<Octet>)
    ensures IsLowerHex(HexEncoded(bytes))
  {
    hide High, Low, IsLowerDigit;
    if bytes != [] {
      DigitsOfOctet(bytes[0]);
      HexEncodedIsLower(bytes[1..]);
    }
  }

  lemma {:induction false} DecodeHexEncoded(bytes: seq<Octet>)
    ensures HexDecoded(HexEncoded(bytes)) == bytes
  {
    hide High, Low, Strtol16;
    if bytes != [] {
      var h := HexEncoded(bytes);
      DigitsOfOctet(bytes[0]);
      DecodeHexEncoded(bytes[1..]);
      assert h[2..] == HexEncoded(bytes[1..]);
    }
  }

  lemma {:induction false} EncodePairs(h: Text)
    requires |h| % 2 == 0 && IsLowerHex(h)
    ensures HexEncoded(Pairs(h)) == h
  {
    hide High, Low, Strtol16, IsLowerDigit;
    if h != [] {
      OctetOfDigits(h[0], h[1]);
      assert forall c <- h[2..] :: c in h;
      EncodePairs(h[2..]);
      assert Pairs(h)[1..] == Pairs(h[2..]);
      assert h == [h[0], h[1]] + h[2..];
    }
  }

  /** Exactly the lowercase texts of even length are restored by encoding what they decode to. */
  lemma EncodeHexDecoded(h: Text)
    ensures HexEncoded(HexDecoded(h)) == h <==> IsLowerHex(h) && |h| % 2 == 0
  {
    if IsLowerHex(h) && |h| % 2 == 0 {
      EncodePairs(h);
    } else {
      HexEncodedIsLower(HexDecoded(h));
    }
  }

  method HexEncode(bytes: seq<Octet>) returns (out: Text)
    ensures out == HexEncoded(bytes)
  {
    hide High, Low;
    out := [];
    assert bytes[0..] == bytes;
    for i := 0 to |bytes|
      invariant HexEncoded(bytes) == out + HexEncoded(bytes[i..])
    {
      assert bytes[i..][1..] == bytes[i + 1..];
      out := out + [High(bytes[i]), Low(bytes[i])];
    }
  }

  method HexDecode(h: Text) returns (bytes: seq<Octet>)
    ensures bytes == HexDecoded(h)
  {
    hide Strtol16;
    bytes := [];
    if |h| % 2 != 0 {
      return;
    }
    var i := 0;
    assert h[0..] == h;
    while i < |h|
      invariant 0 <= i <= |h| && i % 2 == 0
      invariant Pairs(h) == bytes + Pairs(h[i..])
    {
      assert h[i..][2..] == h[i + 2..];
      bytes := bytes + [Strtol16(h[i], h[i + 1])];
      i := i + 2;
    }
  }

  // ---- Cipher block chaining (RFC 2040 section 6) ----

  function XorOctet(x: Octet, y: Octet): Octet { x ^ y }

  function XorBlock(x: Block, y: Block): Block
  {
    seq(8, i requires 0 <= i < 8 => XorOctet(x[i], y[i]))
  }

  lemma XorOctetTwice(x: Octet, y: Octet)
    ensures XorOctet(XorOctet(x, y), y) == x
  {
  }

  lemma XorBlockTwice(x: Block, y: Block)
    ensures XorBlock(XorBlock(x, y), y) == x
  {
    hide XorOctet;
    forall i | 0 <= i < 8
      ensures XorOctet(XorOctet(x[i], y[i]), y[i]) == x[i]
    {
      XorOctetTwice(x[i], y[i]);
    }
  }

  function CbcEncrypted(s: seq<Word>, iv: Block, p: seq<Octet>): (c: seq<Octet>)
    requires |s| == TABLE && |p| % 8 == 0
    ensures |c| == |p|
    decreases |p|
  {
    if p == [] then []
    else
      var block := Encrypted(s, XorBlock(p[..8], iv));
      block + CbcEncrypted(s, block, p[8..])
  }

  function CbcDecrypted(s: seq<Word>, iv: Block, c: seq<Octet>): (p: seq<Octet>)
    requires |s| == TABLE && |c| % 8 == 0
    ensures |p| == |c|
    decreases |c|
  {
    if c == [] then []
    else XorBlock(Decrypted(s, c[..8]), iv) + CbcDecrypted(s, c[..8], c[8..])
  }

  lemma Halves(block: seq<Octet>, rest: seq<Octet>)
    requires |block| == 8
    ensures (block + rest)[..8] == block && (block + rest)[8..] == rest
  {
  }

  /** Chained decryption and encryption undo each other, for every table and every initial vector. */
  lemma {:induction false} CbcInverse(s: seq<Word>, iv: Block, x: seq<Octet>)
    requires |s| == TABLE && |x| % 8 == 0
    ensures CbcDecrypted(s, iv, CbcEncrypted(s, iv, x)) == x
    decreases |x|
  {
    hide Encrypted, Decrypted, XorBlock;
    if x != [] {
      var mixed := XorBlock(x[..8], iv);
      var block := Encrypted(s, mixed);
      var rest: seq<Octet> := CbcEncrypted(s, block, x[8..]);
      Halves(block, rest);
      BlockInverse(s, mixed);
      XorBlockTwice(x[..8], iv);
      CbcInverse(s, block, x[8..]);
      assert x == x[..8] + x[8..];
    }
  }

  lemma {:induction false} CbcInverseBack(s: seq<Word>, iv: Block, x: seq<Octet>)
    requires |s| == TABLE && |x| % 8 == 0
    ensures CbcEncrypted(s, iv, CbcDecrypted(s, iv, x)) == x
    decreases |x|
  {
    hide Encrypted, Decrypted, XorBlock;
    if x != [] {
      var plain := Decrypted(s, x[..8]);
      Halves(XorBlock(plain, iv), CbcDecrypted(s, x[..8], x[8..]));
      XorBlockTwice(plain, iv);
      BlockInverse(s, x[..8]);
      CbcInverseBack(s, x[..8], x[8..]);
      assert x == x[..8] + x[8..];
    }
  }

  /** Every block of the cipher text is the encryption of its text block xored with the cipher block before it. */
  lemma {:induction false} CbcBlocks(s: seq<Word>, iv: Block, p: seq<Octet>, k: nat) returns (mixed: Block)
    requires |s| == 34 && |p| % 8 == 0 && 8 * k + 8 <= |p|
    ensures var c := CbcEncrypted(s, iv, p);
            && (forall i :: 0 <= i < 8 ==> mixed[i] == p[8 * k + i] ^ (if k == 0 then iv[i] else c[8 * k - 8 + i]))
            && c[8 * k..8 * k + 8] == Encrypted(s, mixed)
    decreases k
  {
    hide Encrypted;
    var first := XorBlock(p[..8], iv);
    var block := Encrypted(s, first);
    var c, rest := CbcEncrypted(s, iv, p), CbcEncrypted(s, block, p[8..]);
    assert c == block + rest;
    if k == 0 {
      mixed := first;
    } else {
      mixed := CbcBlocks(s, block, p[8..], k - 1);
      assert c[8 * k..8 * k + 8] == rest[8 * k - 8..8 * k];
    }
  }

  // ---- Padding (RFC 5652 section 6.3 with blocks of eight) ----

  function PadOctet(n: nat): Octet
    requires 1 <= n <= 8
  {
    [1, 2, 3, 4, 5, 6, 7, 8][n - 1]
  }

  /** The length a padding octet stands for; zero if it is none. */
  function PadLength(o: Octet): (n: nat)
    ensures n <= 8
  {
    if o == 1 then 1 else if o == 2 then 2 else if o == 3 then 3 else if o == 4 then 4
    else if o == 5 then 5 else if o == 6 then 6 else if o == 7 then 7 else if o == 8 then 8 else 0
  }

  lemma PadOctetLength(n: nat, o: Octet)
    ensures 1 <= n <= 8 ==> PadLength(PadOctet(n)) == n
    ensures PadLength(o) == 0 <==> o > 8 || o == 0
    ensures PadLength(o) > 0 ==> PadOctet(PadLength(o)) == o
  {
    assert n == 1 || n == 2 || n == 3 || n == 4 || n == 5 || n == 6 || n == 7 || n == 8 || n == 0 || n > 8;
  }

  function Padding(n: nat): seq<Octet>
    requires 1 <= n <= 8
  {
    seq(n, _ => PadOctet(n))
  }

  function Padded(p: Text): (x: seq<Octet>)
    ensures |x| == 8 * (|p| / 8 + 1)
  {
    p + Padding(8 - |p| % 8)
  }

  /** Removes the padding; none if the last octets are not a padding. */
  function Unpadded(x: seq<Octet>): Option<Text>
  {
    if x == [] then None
    else
      var n := PadLength(x[|x| - 1]);
      if n == 0 || n > |x| then None
      else if x[|x| - n..] != Padding(n) then None
      else Some(x[..|x| - n])
  }

  lemma UnpadPadded(p: Text)
    ensures Unpadded(Padded(p)) == Some(p)
  {
    hide PadOctet, PadLength;
    var n := 8 - |p| % 8;
    PadOctetLength(n, 0);
    assert Padded(p)[|p|..] == Padding(n);
  }

  lemma PadUnpadded(x: seq<Octet>)
    requires |x| % 8 == 0 && Unpadded(x).Some?
    ensures Padded(Unpadded(x).value) == x
  {
    hide PadOctet, PadLength;
    var n := PadLength(x[|x| - 1]);
    assert (|x| - n) % 8 == (8 - n) % 8;
    assert x == x[..|x| - n] + x[|x| - n..];
  }

  // ---- The two functions ----

  /** The sixteen characters of the key. */
  const KEY: Text :=
    [0x30, 0x65, 0x30, 0x61, 0x61, 0x30, 0x38, 0x36, 0x39, 0x36, 0x35, 0x30, 0x34, 0x37, 0x66, 0x62]

  const IV: Block := [1, 1, 1, 1, 1, 1, 1, 1]

  function EncryptedText(plain: Text): Text
  {
    HexEncoded(CbcEncrypted(Expanded(KEY), IV, Padded(plain)))
  }

  /** What the cipher text opens to before the answer is reduced to a string: none if it is malformed. */
  function Opened(h: Text): Option<Text>
  {
    var c := HexDecoded(h);
    if c == [] || |c| % 8 != 0 then None else Unpadded(CbcDecrypted(Expanded(KEY), IV, c))
  }

  /** A failure is reported as the empty string. */
  function DecryptedText(h: Text): Text
  {
    match Opened(h) case None => [] case Some(plain) => plain
  }

  /** Decryption restores every text, through padding, chaining, sixteen rounds and hexadecimal. */
  lemma DecryptEncrypted(plain: Text)
    ensures Opened(EncryptedText(plain)) == Some(plain)
    ensures DecryptedText(EncryptedText(plain)) == plain
  {
    hide Expanded, CbcEncrypted, CbcDecrypted, HexEncoded, HexDecoded, Unpadded, Padded;
    var c := CbcEncrypted(Expanded(KEY), IV, Padded(plain));
    DecodeHexEncoded(c);
    CbcInverse(Expanded(KEY), IV, Padded(plain));
    UnpadPadded(plain);
  }

  /**
    The cipher texts are exactly the lowercase ones that open: encrypting what such a text decrypts to gives
    the text back, and no other text is the encryption of anything.
   */
  lemma EncryptDecrypted(h: Text)
    ensures (exists plain :: EncryptedText(plain) == h) <==> IsLowerHex(h) && Opened(h).Some?
    ensures IsLowerHex(h) && Opened(h).Some? ==> EncryptedText(DecryptedText(h)) == h
  {
    hide Expanded, CbcEncrypted, CbcDecrypted, HexEncoded, HexDecoded, Unpadded, Padded, IsLowerHex;
    if IsLowerHex(h) && Opened(h).Some? {
      var c := HexDecoded(h);
      CbcInverseBack(Expanded(KEY), IV, c);
      PadUnpadded(CbcDecrypted(Expanded(KEY), IV, c));
      EncodeHexDecoded(h);
      assert EncryptedText(DecryptedText(h)) == h;
    }
    if plain :| EncryptedText(plain) == h {
      DecryptEncrypted(plain);
      HexEncodedIsLower(CbcEncrypted(Expanded(KEY), IV, Padded(plain)));
    }
  }

  /** How a text opens depends on the octets it spells only, in whatever digits; texts of odd length never open. */
  lemma OpensByOctets(h: Text)
    ensures |h| % 2 == 0 ==> Opened(h) == Opened(HexEncoded(HexDecoded(h)))
    ensures |h| % 2 != 0 ==> Opened(h) == None
  {
    hide Expanded, CbcDecrypted, HexEncoded, Unpadded;
    DecodeHexEncoded(HexDecoded(h));
  }

  /** The length of a cipher text, and that different texts have different cipher texts. */
  lemma EncryptedLength(plain: Text)
    ensures |EncryptedText(plain)| == 16 * (|plain| / 8 + 1)
    ensures IsLowerHex(EncryptedText(plain))
  {
    HexEncodedIsLower(CbcEncrypted(Expanded(KEY), IV, Padded(plain)));
  }

  /** Octet j of a padded text: the text, then the number of octets that the last block lacks. */
  lemma PaddedOctet(p: Text, j: nat)
    requires j < 8 * (|p| / 8 + 1)
    ensures Padded(p)[j] == if j < |p| then p[j] else [8, 7, 6, 5, 4, 3, 2, 1][|p| % 8]
  {
    var n := 8 - |p| % 8;
    assert n == 1 || n == 2 || n == 3 || n == 4 || n == 5 || n == 6 || n == 7 || n == 8;
  }

  /**
    The cipher text block by block: block k of its octets is the encryption, under the expanded fixed key, of the
    padded text's block k xored with the block before it, and the first with ones.
   */
  lemma CipherTextBlocks(plain: Text, k: nat) returns (mixed: Block)
    requires k <= |plain| / 8
    ensures var c := HexDecoded(EncryptedText(plain));
            && |c| == 8 * (|plain| / 8 + 1)
            && (forall i :: 0 <= i < 8 ==>
                  var j := 8 * k + i;
                  mixed[i] == (if j < |plain| then plain[j] else [8, 7, 6, 5, 4, 3, 2, 1][|plain| % 8])
                              ^ (if k == 0 then 1 else c[j - 8]))
            && c[8 * k..8 * k + 8] == Encrypted(Expanded(KEY), mixed)
  {
    hide Expanded, CbcEncrypted, HexEncoded, HexDecoded, Padded, Encrypted;
    var x := Padded(plain);
    DecodeHexEncoded(CbcEncrypted(Expanded(KEY), IV, x));
    mixed := CbcBlocks(Expanded(KEY), IV, x, k);
    forall j | 8 * k <= j < 8 * k + 8
      ensures x[j] == if j < |plain| then plain[j] else [8, 7, 6, 5, 4, 3, 2, 1][|plain| % 8]
    {
      PaddedOctet(plain, j);
    }
  }

  lemma EncryptionIsInjective(p: Text, q: Text)
    requires EncryptedText(p) == EncryptedText(q)
    ensures p == q
  {
    hide EncryptedText;
    DecryptEncrypted(p);
    DecryptEncrypted(q);
  }

  method DecryptAuthData(encryptedHex: Text) returns (plain: Text)
    ensures plain == DecryptedText(encryptedHex)
  {
    hide Expanded, CbcDecrypted, HexDecoded, Unpadded;
    var cipherBytes := HexDecode(encryptedHex);
    if |cipherBytes| == 0 || |cipherBytes| % 8 != 0 {
      return [];
    }
    var sTable := new Word[TABLE](_ => 0);
    KeyExpand(KEY, sTable);
    var plaintext := CbcDecrypt(sTable, cipherBytes);
    plain := Unpad(plaintext);
  }

  /** The block loop of DecryptAuthData. */
  method CbcDecrypt(sTable: array<Word>, cipherBytes: seq<Octet>) returns (plaintext: array<Octet>)
    requires sTable.Length == TABLE && |cipherBytes| % 8 == 0
    ensures fresh(plaintext)
    ensures plaintext[..] == CbcDecrypted(sTable[..], IV, cipherBytes)
  {
    hide Decrypted, XorBlock, CbcDecrypted;
    ghost var s := sTable[..];
    plaintext := new Octet[|cipherBytes|](_ => 0);
    var currentIv: Block := IV;
    var offset := 0;
    assert cipherBytes[0..] == cipherBytes;
    while offset < |cipherBytes|
      invariant 0 <= offset <= |cipherBytes| && offset % 8 == 0
      invariant sTable[..] == s
      invariant CbcDecrypted(s, IV, cipherBytes)
                == plaintext[..offset] + CbcDecrypted(s, currentIv, cipherBytes[offset..])
    {
      ghost var c := cipherBytes[offset..];
      ChainBack(s, currentIv, plaintext[..offset], c);
      var block := DecryptBlock(cipherBytes[offset..offset + 8], sTable);
      XorInto(plaintext, offset, block, currentIv);
      assert c[..8] == cipherBytes[offset..offset + 8] && c[8..] == cipherBytes[offset + 8..];
      currentIv := cipherBytes[offset..offset + 8];
      offset := offset + 8;
    }
    assert plaintext[..] == plaintext[..offset];
    NothingLeft(s, currentIv);
  }

  lemma NothingLeft(s: seq<Word>, iv: Block)
    requires |s| == TABLE
    ensures CbcDecrypted(s, iv, []) == [] && CbcEncrypted(s, iv, []) == []
  {
  }

  lemma Regrouped(done: seq<Octet>, x: seq<Octet>, rest: seq<Octet>)
    ensures done + (x + rest) == (done + x) + rest
  {
  }

  lemma CbcStep(s: seq<Word>, iv: Block, x: seq<Octet>)
    requires |s| == TABLE && |x| % 8 == 0 && x != []
    ensures var block := Encrypted(s, XorBlock(x[..8], iv));
            CbcEncrypted(s, iv, x) == block + CbcEncrypted(s, block, x[8..])
    ensures CbcDecrypted(s, iv, x) == XorBlock(Decrypted(s, x[..8]), iv) + CbcDecrypted(s, x[..8], x[8..])
  {
    hide Encrypted, Decrypted, XorBlock;
  }

  /** One block of chained decryption moved from what remains to what is done. */
  lemma ChainBack(s: seq<Word>, iv: Block, done: seq<Octet>, c: seq<Octet>)
    requires |s| == TABLE && |c| % 8 == 0 && c != []
    ensures done + CbcDecrypted(s, iv, c)
            == (done + XorBlock(Decrypted(s, c[..8]), iv)) + CbcDecrypted(s, c[..8], c[8..])
  {
    hide Encrypted, Decrypted, XorBlock, CbcEncrypted, CbcDecrypted;
    CbcStep(s, iv, c);
    Regrouped(done, XorBlock(Decrypted(s, c[..8]), iv), CbcDecrypted(s, c[..8], c[8..]));
  }

  lemma ChainForward(s: seq<Word>, iv: Block, done: seq<Octet>, p: seq<Octet>)
    requires |s| == TABLE && |p| % 8 == 0 && p != []
    ensures var block := Encrypted(s, XorBlock(p[..8], iv));
            done + CbcEncrypted(s, iv, p) == (done + block) + CbcEncrypted(s, block, p[8..])
  {
    hide Encrypted, Decrypted, XorBlock, CbcEncrypted, CbcDecrypted;
    var block := Encrypted(s, XorBlock(p[..8], iv));
    CbcStep(s, iv, p);
    Regrouped(done, block, CbcEncrypted(s, block, p[8..]));
  }

  /** The exclusive or of two blocks, written to x[offset..offset + 8]. */
  method XorInto(x: array<Octet>, offset: nat, block: Block, iv: Block)
    requires offset + 8 <= x.Length
    modifies x
    ensures x[..offset + 8] == old(x[..offset]) + XorBlock(block, iv)
  {
    hide XorOctet;
    for i := 0 to 8
      invariant x[..offset] == old(x[..offset])
      invariant forall k :: 0 <= k < i ==> x[offset + k] == XorOctet(block[k], iv[k])
    {
      x[offset + i] := XorOctet(block[i], iv[i]);
    }
    assert x[offset..offset + 8] == XorBlock(block, iv);
    assert x[..offset + 8] == x[..offset] + x[offset..offset + 8];
  }

  /** The padding check and removal at the end of DecryptAuthData. */
  method Unpad(plaintext: array<Octet>) returns (plain: Text)
    requires plaintext.Length >= 8
    ensures plain == match Unpadded(plaintext[..]) case None => [] case Some(t) => t
  {
    hide PadOctet, PadLength;
    ghost var x := plaintext[..];
    var padLen := plaintext[plaintext.Length - 1];
    PadOctetLength(0, padLen);
    if padLen > 8 || padLen == 0 {
      return [];
    }
    var n := PadLength(padLen);
    var i := plaintext.Length - n;
    while i < plaintext.Length
      invariant plaintext.Length - n <= i <= plaintext.Length
      invariant forall k :: plaintext.Length - n <= k < i ==> plaintext[k] == padLen
    {
      if plaintext[i] != padLen {
        assert x[|x| - n..][i - (|x| - n)] != padLen;
        return [];
      }
      i := i + 1;
    }
    assert x[|x| - n..] == Padding(n);
    plain := plaintext[..plaintext.Length - n];
  }

  method EncryptAuthData(plaintext: Text) returns (h: Text)
    ensures h == EncryptedText(plaintext)
  {
    hide Expanded, CbcEncrypted, HexEncoded, PadOctet;
    var sTable := new Word[TABLE](_ => 0);
    KeyExpand(KEY, sTable);
    var padLen := 8 - |plaintext| % 8;
    var padded := plaintext + seq(padLen, _ => PadOctet(padLen));
    assert padded == Padded(plaintext);
    var ciphertext := CbcEncrypt(sTable, padded);
    h := HexEncode(ciphertext[..]);
  }

  /** The block loop of EncryptAuthData. */
  method CbcEncrypt(sTable: array<Word>, padded: seq<Octet>) returns (ciphertext: array<Octet>)
    requires sTable.Length == TABLE && |padded| % 8 == 0
    ensures fresh(ciphertext)
    ensures ciphertext[..] == CbcEncrypted(sTable[..], IV, padded)
  {
    hide Encrypted, XorBlock, CbcEncrypted;
    ghost var s := sTable[..];
    ciphertext := new Octet[|padded|](_ => 0);
    var block := new Octet[8](_ => 0);
    var currentIv: Block := IV;
    var offset := 0;
    assert padded[0..] == padded;
    while offset < |padded|
      invariant 0 <= offset <= |padded| && offset % 8 == 0
      invariant sTable[..] == s
      invariant CbcEncrypted(s, IV, padded) == ciphertext[..offset] + CbcEncrypted(s, currentIv, padded[offset..])
    {
      ghost var p := padded[offset..];
      ChainForward(s, currentIv, ciphertext[..offset], p);
      XorInto(block, 0, padded[offset..offset + 8], currentIv);
      assert p[..8] == padded[offset..offset + 8] && p[8..] == padded[offset + 8..];
      assert block[..] == XorBlock(p[..8], currentIv);
      currentIv := EncryptBlock(block[..], sTable);
      Put(ciphertext, offset, currentIv);
      offset := offset + 8;
    }
    assert ciphertext[..] == ciphertext[..offset];
    NothingLeft(s, currentIv);
  }

  method Put(x: array<Octet>, offset: nat, block: Block)
    requires offset + 8 <= x.Length
    modifies x
    ensures x[..offset + 8] == old(x[..offset]) + block
  {
    forall i | 0 <= i < 8 {
      x[offset + i] := block[i];
    }
  }
}
