/** The certification exchange of AuthServer: comma-separated fields inside an encrypted, fixed-size text field. */
module Certificate {
  import opened Bytes
  import opened Rc5
  import opened AuthCrypto

  const COMMA: Octet := 0x2C
  const MINUS: Octet := 0x2D
  const PLUS: Octet := 0x2B

  const AUTH_DATA_LENGTH: nat := 500
  const MAX_IP_LENGTH: nat := 20
  const SERVER_SESSION: int := 2

  // ---- Fields ----

  function Split(s: Text, d: Octet): (fs: seq<Text>)
    ensures |fs| >= 1
  {
    if s == [] then [[]]
    else
      var later := Split(s[1..], d);
      if s[0] == d then [[]] + later else [[s[0]] + later[0]] + later[1..]
  }

  function Join(fs: seq<Text>, d: Octet): Text
    requires |fs| >= 1
  {
    if |fs| == 1 then fs[0] else fs[0] + [d] + Join(fs[1..], d)
  }

  ghost predicate Free(fs: seq<Text>, d: Octet) { forall f <- fs :: d !in f }

  /** Splitting loses nothing, and no field contains the separator. */
  lemma {:induction false} JoinOfSplit(s: Text, d: Octet)
    ensures Free(Split(s, d), d)
    ensures Join(Split(s, d), d) == s
  {
    if s != [] {
      var later := Split(s[1..], d);
      JoinOfSplit(s[1..], d);
      if s[0] == d {
        assert ([[]] + later)[1..] == later;
        assert [] + [d] + Join(later, d) == s;
      } else {
        assert ([[s[0]] + later[0]] + later[1..])[1..] == later[1..];
        if |later| > 1 {
          assert ([s[0]] + later[0]) + [d] + Join(later[1..], d) == [s[0]] + (later[0] + [d] + Join(later[1..], d));
        }
      }
    }
  }

  lemma {:induction false} SplitFirst(f: Text, s: Text, d: Octet)
    requires d !in f
    ensures Split(f + [d] + s, d) == [f] + Split(s, d)
    ensures Split(f, d) == [f]
  {
    if f == [] {
      assert f + [d] + s == [d] + s;
    } else {
      var t := f[1..];
      SplitFirst(t, s, d);
      assert (f + [d] + s)[1..] == t + [d] + s;
      assert [f[0]] + t == f;
    }
  }

  lemma {:induction false} SplitOfFree(fs: seq<Text>, d: Octet)
    requires |fs| >= 1 && Free(fs, d)
    ensures Split(Join(fs, d), d) == fs
  {
    if |fs| == 1 {
      SplitFirst(fs[0], [], d);
    } else {
      SplitFirst(fs[0], Join(fs[1..], d), d);
      SplitOfFree(fs[1..], d);
    }
  }

  /** Fields are recovered from their joined text exactly when none of them contains the separator. */
  lemma SplitOfJoin(fs: seq<Text>, d: Octet)
    requires |fs| >= 1
    ensures Split(Join(fs, d), d) == fs <==> Free(fs, d)
  {
    if Free(fs, d) {
      SplitOfFree(fs, d);
    } else {
      JoinOfSplit(Join(fs, d), d);
    }
  }

  /** The fields finished so far, a field under way, and the fields of what remains. */
  ghost function Resumed(out: seq<Text>, cur: Text, s: Text, d: Octet): seq<Text>
  {
    out + [cur + Split(s, d)[0]] + Split(s, d)[1..]
  }

  lemma ResumeStep(out: seq<Text>, cur: Text, s: Text, d: Octet)
    ensures s == [] ==> Resumed(out, cur, s, d) == out + [cur]
    ensures s != [] && s[0] == d ==> Resumed(out, cur, s, d) == Resumed(out + [cur], [], s[1..], d)
    ensures s != [] && s[0] != d ==> Resumed(out, cur, s, d) == Resumed(out, cur + [s[0]], s[1..], d)
    ensures Resumed([], [], s, d) == Split(s, d)
  {
    assert cur + [] == cur;
    if s != [] {
      var later := Split(s[1..], d);
      if s[0] == d {
        assert ([[]] + later)[1..] == later;
        assert [] + later[0] == later[0];
        assert later == [later[0]] + later[1..];
      } else {
        assert cur + ([s[0]] + later[0]) == (cur + [s[0]]) + later[0];
      }
    }
    assert [] + Split(s, d)[0] == Split(s, d)[0];
    assert Resumed([], [], s, d) == [Split(s, d)[0]] + Split(s, d)[1..];
  }

  method SplitFields(s: Text, d: Octet) returns (out: seq<Text>)
    ensures out == Split(s, d)
  {
    hide Split, Resumed;
    out := [];
    var cur: Text := [];
    assert s[0..] == s;
    ResumeStep(out, cur, s, d);
    for i := 0 to |s|
      invariant Split(s, d) == Resumed(out, cur, s[i..], d)
    {
      assert s[i..][1..] == s[i + 1..];
      ResumeStep(out, cur, s[i..], d);
      if s[i] == d {
        out := out + [cur];
        cur := [];
      } else {
        cur := cur + [s[i]];
      }
    }
    assert s[|s|..] == [];
    ResumeStep(out, cur, [], d);
    out := out + [cur];
  }

  // ---- Decimal numbers ----

  function DecimalDigit(n: nat): Octet
    requires n < 10
  {
    [0x30, 0x31, 0x32, 0x33, 0x34, 0x35, 0x36, 0x37, 0x38, 0x39][n]
  }

  predicate IsDigit(c: Octet) { 0x30 <= c <= 0x39 }

  function DecimalValue(c: Octet): nat
  {
    if c == 0x31 then 1 else if c == 0x32 then 2 else if c == 0x33 then 3 else if c == 0x34 then 4
    else if c == 0x35 then 5 else if c == 0x36 then 6 else if c == 0x37 then 7 else if c == 0x38 then 8
    else if c == 0x39 then 9 else 0
  }

  lemma DigitHasValue(n: nat)
    requires n < 10
    ensures IsDigit(DecimalDigit(n)) && DecimalValue(DecimalDigit(n)) == n
    ensures !IsSpace(DecimalDigit(n))
    ensures DecimalDigit(n) != COMMA && DecimalDigit(n) != MINUS && DecimalDigit(n) != PLUS
  {
    assert n == 0 || n == 1 || n == 2 || n == 3 || n == 4 || n == 5 || n == 6 || n == 7 || n == 8 || n == 9;
  }

  function Decimal(n: nat): (t: Text)
    ensures t != []
  {
    if n < 10 then [DecimalDigit(n)] else Decimal(n / 10) + [DecimalDigit(n % 10)]
  }

  /** std::to_string of an int. */
  function ToString(n: int): Text { if n < 0 then [MINUS] + Decimal(-n) else Decimal(n) }

  /** The value of the digits at the front, continuing from `acc`. */
  function DigitsValue(s: Text, acc: nat): nat
  {
    if s == [] || !IsDigit(s[0]) then acc else DigitsValue(s[1..], 10 * acc + DecimalValue(s[0]))
  }

  function AfterSpaces(s: Text): Text
  {
    if s != [] && IsSpace(s[0]) then AfterSpaces(s[1..]) else s
  }

  function Clamp(n: int): int
  {
    if n < -0x8000_0000_0000_0000 then -0x8000_0000_0000_0000
    else if n > 0x7FFF_FFFF_FFFF_FFFF then 0x7FFF_FFFF_FFFF_FFFF else n
  }

  function ToInt32(n: int): int32
  {
    var low := n % 0x1_0000_0000;
    if low < 0x8000_0000 then low else low - 0x1_0000_0000
  }

  function Negated(n: int): int { -n }

  /** std::atoi, which the C library computes as strtol cut to 32 bits. */
  function Atoi(s: Text): int32
  {
    var t := AfterSpaces(s);
    ToInt32(Clamp(
      if t != [] && t[0] == MINUS then Negated(DigitsValue(t[1..], 0))
      else if t != [] && t[0] == PLUS then DigitsValue(t[1..], 0)
      else DigitsValue(t, 0)))
  }

  ghost predicate AllDigits(s: Text) { forall c <- s :: IsDigit(c) }

  lemma {:induction false} DigitsValueSnoc(s: Text, c: Octet, acc: nat)
    requires AllDigits(s) && IsDigit(c)
    ensures DigitsValue(s + [c], acc) == 10 * DigitsValue(s, acc) + DecimalValue(c)
    decreases |s|
  {
    hide IsDigit, DecimalValue;
    if s == [] {
      assert [c][1..] == [];
    } else {
      assert (s + [c])[1..] == s[1..] + [c];
      DigitsValueSnoc(s[1..], c, 10 * acc + DecimalValue(s[0]));
    }
  }

  /** A decimal numeral consists of digits and has the value it was made from. */
  lemma {:induction false} DecimalIsRead(n: nat)
    ensures AllDigits(Decimal(n)) && DigitsValue(Decimal(n), 0) == n
    ensures COMMA !in Decimal(n)
    ensures var c := Decimal(n)[0]; !IsSpace(c) && c != MINUS && c != PLUS
    decreases n
  {
    hide IsDigit, DecimalValue, DecimalDigit, IsSpace;
    if n < 10 {
      DigitHasValue(n);
      assert [DecimalDigit(n)][1..] == [];
    } else {
      DecimalIsRead(n / 10);
      DigitHasValue(n % 10);
      DigitsValueSnoc(Decimal(n / 10), DecimalDigit(n % 10), 0);
    }
  }

  /** Numbers survive being written and read back, and their text contains no comma. */
  lemma AtoiOfToString(n: int32)
    ensures Atoi(ToString(n)) == n
    ensures COMMA !in ToString(n)
  {
    hide Decimal, DigitsValue;
    DecimalIsRead(if n < 0 then Negated(n) else n);
    assert !IsSpace(MINUS);
    if n < 0 {
      assert ToString(n)[1..] == Decimal(Negated(n));
    }
  }

  // ---- Requests and replies ----

  datatype CertRequest = CertRequest(country: int32, serverType: int32, ip: Text, port: int32, uniqKey: Text)

  /** The row the database answers with. */
  datatype CertResult = CertResult(certification: int32, sessionSvrId: int32, newUniqKey: Text)

  /** The fields of G_AUTH_INFO that the reply sets; the two texts are fixed-size, zero-filled arrays. */
  datatype AuthInfo = AuthInfo(serverType: int32, country: int32, serverIp: Text, port: int32,
                               sessionSvrId: int32, authData: Text)

  /** The text up to the first NUL. */
  function CString(s: Text): Text
  {
    if s == [] || s[0] == 0 then [] else [s[0]] + CString(s[1..])
  }

  /** A zero-filled array of length `size` + 1 after strncpy of at most `size` characters. */
  function StrField(s: Text, size: nat): (r: Text)
    ensures |r| == size + 1
  {
    var c := CString(s);
    var kept := if |c| <= size then c else c[..size];
    kept + seq(size + 1 - |kept|, _ => 0)
  }

  function RequestFields(req: CertRequest): seq<Text>
  {
    [ToString(req.country), ToString(req.serverType), req.ip, ToString(req.port), req.uniqKey]
  }

  /** The request in the decrypted text; fields after the fifth are ignored, fewer than five are an error. */
  function ParseRequest(plain: Text): Option<CertRequest>
  {
    var f := Split(plain, COMMA);
    if |f| < 5 then None else Some(CertRequest(Atoi(f[0]), Atoi(f[1]), f[2], Atoi(f[3]), f[4]))
  }

  function ReplyFields(req: CertRequest, res: CertResult): seq<Text>
  {
    RequestFields(req)[..4] + [res.newUniqKey, ToString(res.certification)]
  }

  function Reply(req: CertRequest, res: CertResult): AuthInfo
  {
    AuthInfo(req.serverType, req.country, StrField(req.ip, MAX_IP_LENGTH), req.port,
             if req.serverType == SERVER_SESSION then res.sessionSvrId else 0,
             StrField(EncryptedText(Join(ReplyFields(req, res), COMMA)), AUTH_DATA_LENGTH))
  }

  /** The certification branch of dispatch: what is sent back, if anything. */
  function Answer(szAuthData: Text, lookup: CertRequest -> CertResult): Option<AuthInfo>
  {
    var plain := DecryptedText(CString(szAuthData));
    if plain == [] then None
    else match ParseRequest(plain) case None => None case Some(req) => Some(Reply(req, lookup(req)))
  }

  // ---- What the fixed-size field does to a cipher text ----

  lemma {:induction false} CStringOfZeros(s: Text, n: nat)
    requires 0 !in s
    ensures CString(s + seq(n, _ => 0)) == s
  {
    if s == [] {
      assert s + seq(n, _ => 0) == seq(n, _ => 0);
    } else {
      assert (s + seq(n, _ => 0))[1..] == s[1..] + seq(n, _ => 0);
      CStringOfZeros(s[1..], n);
    }
  }

  /** A text without NUL comes out of the field as its first `size` characters. */
  lemma FieldKeepsPrefix(s: Text, size: nat)
    requires 0 !in s
    ensures CString(StrField(s, size)) == if |s| <= size then s else s[..size]
  {
    CStringOfZeros(s, 0);
    assert s + seq(0, _ => 0 as Octet) == s;
    var kept := if |s| <= size then s else s[..size];
    CStringOfZeros(kept, size + 1 - |kept|);
  }

  lemma NoNulInHex(h: Text)
    requires IsLowerHex(h)
    ensures 0 !in h
  {
    forall c <- h
      ensures c != 0
    {
      assert IsLowerDigit(c);
    }
  }

  /** Texts of at most 247 bytes survive encryption into the field; all longer ones come out as the empty text. */
  lemma FieldFidelity(plain: Text)
    ensures DecryptedText(CString(StrField(EncryptedText(plain), AUTH_DATA_LENGTH)))
            == if |plain| <= 247 then plain else []
  {
    hide EncryptedText, StrField, Opened;
    var h := EncryptedText(plain);
    EncryptedLength(plain);
    NoNulInHex(h);
    FieldKeepsPrefix(h, AUTH_DATA_LENGTH);
    DecryptEncrypted(plain);
    if |plain| > 247 {
      CutTextFails(h[..AUTH_DATA_LENGTH]);
    }
  }

  lemma CutTextFails(h: Text)
    requires |h| == AUTH_DATA_LENGTH
    ensures DecryptedText(h) == []
  {
    assert |HexDecoded(h)| == 250;
  }

  /**
    The reply can be read exactly when its text has at most 247 bytes and neither the address nor the new key
    contains a comma: then, and only then, decrypting and splitting gives the six fields that were assembled.
   */
  lemma ReplyFidelity(req: CertRequest, res: CertResult)
    ensures Split(DecryptedText(CString(Reply(req, res).authData)), COMMA) == ReplyFields(req, res)
            <==> |Join(ReplyFields(req, res), COMMA)| <= 247 && COMMA !in req.ip && COMMA !in res.newUniqKey
  {
    hide DecryptedText, EncryptedText, CString, StrField, Split, Join, ToString;
    var fs := ReplyFields(req, res);
    FieldFidelity(Join(fs, COMMA));
    SplitOfJoin(fs, COMMA);
    FreeReply(req, res);
    if |Join(fs, COMMA)| > 247 {
      SplitNothing();
    }
  }

  lemma SplitNothing()
    ensures Split([], COMMA) == [[]]
  {
  }

  lemma FreeReply(req: CertRequest, res: CertResult)
    ensures Free(ReplyFields(req, res), COMMA) <==> COMMA !in req.ip && COMMA !in res.newUniqKey
  {
    hide ToString, Atoi;
    var fs := ReplyFields(req, res);
    AtoiOfToString(req.country);
    AtoiOfToString(req.serverType);
    AtoiOfToString(req.port);
    AtoiOfToString(res.certification);
    assert fs[2] == req.ip && fs[4] == res.newUniqKey;
  }

  /** A parsed request has no comma in its address, so for the server's own replies only the new key matters. */
  lemma ParsedAddress(plain: Text)
    ensures ParseRequest(plain).Some? ==> COMMA !in ParseRequest(plain).value.ip
  {
    JoinOfSplit(plain, COMMA);
  }

  /** A request is parsed back exactly when neither its address nor its key contains a comma. */
  lemma RequestIsParsed(req: CertRequest)
    ensures ParseRequest(Join(RequestFields(req), COMMA)) == Some(req) <==> COMMA !in req.ip && COMMA !in req.uniqKey
  {
    hide ToString, Atoi, Split, Join;
    var fs := RequestFields(req);
    AtoiOfToString(req.country);
    AtoiOfToString(req.serverType);
    AtoiOfToString(req.port);
    JoinOfSplit(Join(fs, COMMA), COMMA);
    if COMMA !in req.ip && COMMA !in req.uniqKey {
      assert Free(fs, COMMA);
      SplitOfJoin(fs, COMMA);
    }
  }

  /**
    The whole exchange. A peer puts its encrypted request into the field of a request message. If the request
    text has at most 247 bytes, the server recovers exactly the request and answers with the reply for it,
    and the peer reads the six fields of the reply if and only if the reply text has at most 247 bytes and
    the new key has no comma. A longer request text is not answered at all.
   */
  lemma CertificateExchange(req: CertRequest, lookup: CertRequest -> CertResult)
    requires COMMA !in req.ip && COMMA !in req.uniqKey
    ensures var text := Join(RequestFields(req), COMMA);
            var field := StrField(EncryptedText(text), AUTH_DATA_LENGTH);
            Answer(field, lookup) == if |text| <= 247 then Some(Reply(req, lookup(req))) else None
    ensures var res := lookup(req);
            Split(DecryptedText(CString(Reply(req, res).authData)), COMMA) == ReplyFields(req, res)
            <==> |Join(ReplyFields(req, res), COMMA)| <= 247 && COMMA !in res.newUniqKey
  {
    hide DecryptedText, EncryptedText, CString, StrField, Split, ToString, Reply;
    var text := Join(RequestFields(req), COMMA);
    FieldFidelity(text);
    RequestIsParsed(req);
    assert text == RequestFields(req)[0] + [COMMA] + Join(RequestFields(req)[1..], COMMA);
    ReplyFidelity(req, lookup(req));
  }

  const SAMPLE: CertRequest := CertRequest(1, 4, [0x61], 5, [0x6B])

  lemma {:induction false} JoinIsLonger(fs: seq<Text>, d: Octet, k: nat)
    requires k < |fs|
    ensures |Join(fs, d)| >= |fs[k]|
  {
    if k > 0 {
      JoinIsLonger(fs[1..], d, k - 1);
    }
  }

  lemma SampleText()
    ensures |Join(RequestFields(SAMPLE), COMMA)| == 9
  {
    hide DecimalDigit;
    var f := RequestFields(SAMPLE);
    assert |f[0]| == |f[1]| == |f[2]| == |f[3]| == |f[4]| == 1;
    assert Join(f[4..], COMMA) == f[4];
    assert f[3..][1..] == f[4..] && f[2..][1..] == f[3..] && f[1..][1..] == f[2..];
  }

  /**
    And the reply can be unreadable: a request that the server parses and answers, for which the database
    returns a new key with a comma, or one of 248 bytes.
   */
  lemma ReplyCanFail(newUniqKey: Text)
    requires newUniqKey == [COMMA] || newUniqKey == seq(248, _ => 0x6B)
    ensures var res := CertResult(1, 0, newUniqKey);
            && Answer(StrField(EncryptedText(Join(RequestFields(SAMPLE), COMMA)), AUTH_DATA_LENGTH), _ => res)
               == Some(Reply(SAMPLE, res))
            && Split(DecryptedText(CString(Reply(SAMPLE, res).authData)), COMMA) != ReplyFields(SAMPLE, res)
  {
    hide DecryptedText, EncryptedText, CString, StrField, Split, ToString, Reply, Join, Answer;
    var res := CertResult(1, 0, newUniqKey);
    var f := ReplyFields(SAMPLE, res);
    SampleText();
    CertificateExchange(SAMPLE, _ => res);
    assert f[4] == newUniqKey;
    JoinIsLonger(f, COMMA, 4);
  }

  // ---- The answer, member by member ----

  lemma CStringTwice(s: Text)
    ensures CString(CString(s)) == CString(s)
  {
    CStringEnds(s);
    CStringOfZeros(CString(s), 0);
    assert CString(s) + seq(0, _ => 0 as Octet) == CString(s);
  }

  /** Five fields and whatever follows them, split. */
  lemma SplitFive(f0: Text, f1: Text, f2: Text, f3: Text, f4: Text, rest: Text)
    requires COMMA !in f0 && COMMA !in f1 && COMMA !in f2 && COMMA !in f3 && COMMA !in f4
    requires rest == [] || rest[0] == COMMA
    ensures var f := Split(f0 + [COMMA] + f1 + [COMMA] + f2 + [COMMA] + f3 + [COMMA] + f4 + rest, COMMA);
            |f| >= 5 && f[..5] == [f0, f1, f2, f3, f4]
  {
    hide Split;
    var s4 := f4 + rest;
    var s3 := f3 + [COMMA] + s4;
    var s2 := f2 + [COMMA] + s3;
    var s1 := f1 + [COMMA] + s2;
    assert f0 + [COMMA] + f1 + [COMMA] + f2 + [COMMA] + f3 + [COMMA] + f4 + rest == f0 + [COMMA] + s1;
    SplitFirst(f0, s1, COMMA);
    SplitFirst(f1, s2, COMMA);
    SplitFirst(f2, s3, COMMA);
    SplitFirst(f3, s4, COMMA);
    if rest == [] {
      assert s4 == f4;
      SplitFirst(f4, [], COMMA);
    } else {
      assert s4 == f4 + [COMMA] + rest[1..];
      SplitFirst(f4, rest[1..], COMMA);
    }
  }

  /** Six fields joined, in order. */
  lemma JoinSix(f0: Text, f1: Text, f2: Text, f3: Text, f4: Text, f5: Text)
    ensures Join([f0, f1, f2, f3, f4, f5], COMMA)
            == f0 + [COMMA] + f1 + [COMMA] + f2 + [COMMA] + f3 + [COMMA] + f4 + [COMMA] + f5
  {
    var f := [f0, f1, f2, f3, f4, f5];
    assert f[1..] == [f1, f2, f3, f4, f5] && f[1..][1..] == [f2, f3, f4, f5];
    assert [f2, f3, f4, f5][1..] == [f3, f4, f5] && [f3, f4, f5][1..] == [f4, f5] && [f4, f5][1..] == [f5];
    assert Join([f5], COMMA) == f5;
    assert Join([f4, f5], COMMA) == f4 + [COMMA] + f5;
    assert Join([f3, f4, f5], COMMA) == f3 + [COMMA] + (f4 + [COMMA] + f5);
    assert Join([f2, f3, f4, f5], COMMA) == f2 + [COMMA] + (f3 + [COMMA] + (f4 + [COMMA] + f5));
  }

  /**
    The answer to a request whose decrypted text is country, server type, address, port, key and anything that
    follows them. Type 2 alone gets the session server of the row; the address is cut to 20 characters; and the
    decrypted text of the answer is country, type, address, port, new key and certification, if that has at most
    247 bytes, and otherwise empty.
   */
  lemma AnswerMembers(szAuthData: Text, f0: Text, f1: Text, f2: Text, f3: Text, f4: Text, rest: Text,
                      lookup: CertRequest -> CertResult)
    requires 0x2C !in f0 && 0x2C !in f1 && 0x2C !in f2 && 0x2C !in f3 && 0x2C !in f4
    requires rest == [] || rest[0] == 0x2C
    requires DecryptedText(CString(szAuthData))
             == f0 + [0x2C] + f1 + [0x2C] + f2 + [0x2C] + f3 + [0x2C] + f4 + rest
    ensures var req :=
              CertRequest(country := Atoi(f0), serverType := Atoi(f1), ip := f2, port := Atoi(f3), uniqKey := f4);
            var row, ip := lookup(req), CString(f2);
            var text := ToString(Atoi(f0)) + [0x2C] + ToString(Atoi(f1)) + [0x2C] + f2 + [0x2C] + ToString(Atoi(f3))
                        + [0x2C] + row.newUniqKey + [0x2C] + ToString(row.certification);
            && Answer(szAuthData, lookup).Some?
            && var info := Answer(szAuthData, lookup).value;
               && info.country == Atoi(f0) && info.serverType == Atoi(f1) && info.port == Atoi(f3)
               && info.sessionSvrId == (if Atoi(f1) == 2 then row.sessionSvrId else 0)
               && |info.serverIp| == 21 && CString(info.serverIp) == (if |ip| <= 20 then ip else ip[..20])
               && |info.authData| == 501
               && DecryptedText(CString(info.authData)) == if |text| <= 247 then text else []
  {
    hide DecryptedText, EncryptedText, CString, StrField, Split, Join, ToString, Atoi;
    SplitFive(f0, f1, f2, f3, f4, rest);
    var plain := DecryptedText(CString(szAuthData));
    var f := Split(plain, COMMA);
    assert f[..5][0] == f[0] && f[..5][1] == f[1] && f[..5][2] == f[2] && f[..5][3] == f[3] && f[..5][4] == f[4];
    var req := CertRequest(Atoi(f0), Atoi(f1), f2, Atoi(f3), f4);
    assert ParseRequest(plain) == Some(req);
    var row := lookup(req);
    var six := ReplyFields(req, row);
    assert six == [ToString(req.country), ToString(req.serverType), f2, ToString(req.port), row.newUniqKey,
                   ToString(row.certification)];
    JoinSix(six[0], six[1], six[2], six[3], six[4], six[5]);
    FieldFidelity(Join(six, COMMA));
    AddressField(f2);
  }

  lemma AddressField(ip: Text)
    ensures var c := CString(ip);
            CString(StrField(ip, 20)) == if |c| <= 20 then c else c[..20]
  {
    CStringEnds(ip);
    CStringTwice(ip);
    FieldKeepsPrefix(CString(ip), 20);
  }

  function Commas(s: Text): nat
  {
    if s == [] then 0 else (if s[0] == 0x2C then 1 else 0) + Commas(s[1..])
  }

  lemma {:induction false} CountFields(s: Text)
    ensures |Split(s, COMMA)| == Commas(s) + 1
  {
    if s != [] {
      CountFields(s[1..]);
    }
  }

  /** A request is answered exactly if its text decrypts to something with at least four commas. */
  lemma AnsweredExactly(szAuthData: Text, lookup: CertRequest -> CertResult)
    ensures var plain := DecryptedText(CString(szAuthData));
            Answer(szAuthData, lookup).Some? <==> plain != [] && Commas(plain) >= 4
  {
    hide DecryptedText, CString, Reply, Atoi;
    CountFields(DecryptedText(CString(szAuthData)));
  }

  /** A decimal text, sign first and most significant digit first: "-120". */
  lemma DecimalAnswer()
    ensures ToString(-120) == [0x2D, 0x31, 0x32, 0x30] && Atoi([0x2D, 0x31, 0x32, 0x30]) == -120
  {
    assert Decimal(12) == Decimal(1) + [0x32];
    assert Decimal(120) == Decimal(12) + [0x30];
    AtoiOfToString(-120);
  }

  /** Spaces and a sign in front are skipped, and reading stops at the first other character: " +7x", "", "x7". */
  lemma AtoiAnswers()
    ensures Atoi([0x20, 0x2B, 0x37, 0x78]) == 7 && Atoi([]) == 0 && Atoi([0x78, 0x37]) == 0
  {
    var t: Text := [0x20, 0x2B, 0x37, 0x78];
    assert t[1..] == [0x2B, 0x37, 0x78] && AfterSpaces(t) == t[1..];
    assert t[1..][1..] == [0x37, 0x78];
    assert DigitsValue([0x37, 0x78], 0) == DigitsValue([0x37, 0x78][1..], 7);
  }

  // ---- The handler ----

  /** The C string is what stands before the first NUL. */
  lemma {:induction false} CStringEnds(s: Text)
    ensures var c := CString(s);
            c <= s && 0 !in c && (|c| < |s| ==> s[|c|] == 0)
  {
    if s != [] && s[0] != 0 {
      CStringEnds(s[1..]);
    }
  }

  /** strncpy into a zero-filled array of size + 1 characters. */
  method StrNCpy(s: Text, size: nat) returns (field: array<Octet>)
    ensures fresh(field)
    ensures field[..] == StrField(s, size)
  {
    hide CString;
    ghost var c := CString(s);
    CStringEnds(s);
    field := new Octet[size + 1](_ => 0);
    var i := 0;
    while i < size && i < |s| && s[i] != 0
      invariant 0 <= i <= size && i <= |c|
      invariant forall k :: 0 <= k < field.Length ==> field[k] == if k < i then s[k] else 0
    {
      assert i != |c|;
      field[i] := s[i];
      i := i + 1;
    }
    assert i == |c| || i == size;
  }

  /** Handles one certification request; the array must hold a NUL-terminated text. */
  method HandleRequest(szAuthData: Text, lookup: CertRequest -> CertResult) returns (ans: Option<AuthInfo>)
    requires 0 in szAuthData
    ensures ans == Answer(szAuthData, lookup)
  {
    hide DecryptedText, EncryptedText, StrField, Split, Join, ToString, Atoi, CString;
    var decrypted := DecryptAuthData(CString(szAuthData));
    if |decrypted| == 0 {
      return None;
    }
    var f := SplitFields(decrypted, COMMA);
    if |f| < 5 {
      return None;
    }
    var req := CertRequest(Atoi(f[0]), Atoi(f[1]), f[2], Atoi(f[3]), f[4]);
    var res := lookup(req);
    var serverIp := StrNCpy(req.ip, MAX_IP_LENGTH);
    var certPlain := Join(ReplyFields(req, res), COMMA);
    var encryptedHex := EncryptAuthData(certPlain);
    var authData := StrNCpy(encryptedHex, AUTH_DATA_LENGTH);
    ans := Some(AuthInfo(req.serverType, req.country, serverIp[..], req.port,
                         if req.serverType == SERVER_SESSION then res.sessionSvrId else 0, authData[..]));
  }
}
