/** The character record of the lobby, packed field by field, and the reply that carries it. */
module CharLobby {
  import opened Bytes
  import opened MsgPack
  import Packet
  import SendBuffer
  import Batching
  import Lzo

  const NET_MSG_LOBBY_CHARINFO_AC: uint32 := 298
  const SLOT_TSIZE: int := 20

  // ---- Records ----

  datatype GlPaData = GlPaData(dwData: uint32)
  datatype GlLlData = GlLlData(lnData1: int64, lnData2: int64)
  datatype CharStats = CharStats(wPow: uint16, wStr: uint16, wSpi: uint16, wDex: uint16, wInt: uint16, wSta: uint16)
  datatype NativeId = NativeId(dwID: uint32)
  datatype ItemLoby = ItemLoby(sNativeID: NativeId, nidDISGUISE: NativeId, dwMainColor: uint32, dwSubColor: uint32,
                               cDAMAGE: uint8, cDEFENSE: uint8)

  datatype CharInfoLobby = CharInfoLobby(
    dwCharID: uint32, clubDbNum: uint32, emClass: uint32,
    wSchool: uint16, wHair: uint16, wFace: uint16, wSex: uint16, wHairColor: uint16,
    sHP: GlPaData, sExperience: GlLlData, nBright: int32, wLevel: uint16, sStats: CharStats,
    putOnItems: seq<ItemLoby>, sSaveMapID: NativeId, clubRank: uint32,
    chaName: seq<byte>, clubName: seq<byte>, lock: bool, bRanMobile: bool)

  // ---- Records as values: every struct is the array of its members in order ----

  function StatsValue(s: CharStats): Value
  {
    VArr([VInt(s.wPow), VInt(s.wStr), VInt(s.wSpi), VInt(s.wDex), VInt(s.wInt), VInt(s.wSta)])
  }

  function IdValue(n: NativeId): Value { VArr([VInt(n.dwID)]) }

  function ItemValue(i: ItemLoby): Value
  {
    VArr([IdValue(i.sNativeID), IdValue(i.nidDISGUISE), VInt(i.dwMainColor), VInt(i.dwSubColor),
          VInt(i.cDAMAGE), VInt(i.cDEFENSE)])
  }

  function ItemValues(items: seq<ItemLoby>): seq<Value>
  {
    seq(|items|, i requires 0 <= i < |items| => ItemValue(items[i]))
  }

  function Fields(c: CharInfoLobby): seq<Value>
  {
    [VInt(c.dwCharID), VInt(c.clubDbNum), VInt(c.emClass),
     VInt(c.wSchool), VInt(c.wHair), VInt(c.wFace), VInt(c.wSex), VInt(c.wHairColor),
     VArr([VInt(c.sHP.dwData)]), VArr([VInt(c.sExperience.lnData1), VInt(c.sExperience.lnData2)]),
     VInt(c.nBright), VInt(c.wLevel), StatsValue(c.sStats),
     VArr(ItemValues(c.putOnItems)), IdValue(c.sSaveMapID), VInt(c.clubRank),
     VStr(c.chaName), VStr(c.clubName), VBool(c.lock), VBool(c.bRanMobile)]
  }

  /** NET_LOBBY_CHARINFO_AC: an array of one record. */
  function LobbyValue(c: CharInfoLobby): Value { VArr([VArr(Fields(c))]) }

  // ---- Packing ----

  lemma ArrayPacked(start: seq<byte>, vs: seq<Value>)
    requires |vs| < 0x1_0000_0000
    ensures start + EncHead(HArr(|vs|)) + EncAll(vs) == start + Enc(VArr(vs))
  {
    hide EncHead, EncAll;
    assert Enc(VArr(vs)) == EncHead(HArr(|vs|)) + EncAll(vs);
  }

  method PackPaData(p: Packer, d: GlPaData)
    modifies p
    ensures p.out == old(p.out) + Enc(VArr([VInt(d.dwData)]))
  {
    hide Enc, EncHead;
    ghost var start := p.out;
    p.Array(1);
    EncAllOne(VInt(d.dwData));
    ArrayPacked(start, [VInt(d.dwData)]);
    p.UInt(d.dwData);
  }

  method PackId(p: Packer, n: NativeId)
    modifies p
    ensures p.out == old(p.out) + Enc(IdValue(n))
  {
    hide Enc, EncHead;
    ghost var start := p.out;
    p.Array(1);
    EncAllOne(VInt(n.dwID));
    ArrayPacked(start, [VInt(n.dwID)]);
    p.UInt(n.dwID);
  }

  method PackLlData(p: Packer, d: GlLlData)
    modifies p
    ensures p.out == old(p.out) + Enc(VArr([VInt(d.lnData1), VInt(d.lnData2)]))
  {
    hide Enc, EncHead, EncAll;
    ghost var before := p.out;
    p.Array(2);
    ghost var start := p.out;
    p.Int(d.lnData1);
    ghost var vs := PackedFirst(start, VInt(d.lnData1));
    p.Int(d.lnData2);
    vs := PackedNext(start, vs, VInt(d.lnData2));
    assert vs == [VInt(d.lnData1), VInt(d.lnData2)];
    ArrayPacked(before, vs);
  }

  lemma PackedFirst(start: seq<byte>, v: Value) returns (next: seq<Value>)
    ensures next == [v]
    ensures start + Enc(v) == start + EncAll(next)
  {
    next := [v];
    EncAllOne(v);
  }

  method PackStats(p: Packer, s: CharStats)
    modifies p
    ensures p.out == old(p.out) + Enc(StatsValue(s))
  {
    hide Enc, EncHead, EncAll;
    ghost var before := p.out;
    p.Array(6);
    ghost var start := p.out;
    p.UInt(s.wPow);
    ghost var vs := PackedFirst(start, VInt(s.wPow));
    p.UInt(s.wStr);
    vs := PackedNext(start, vs, VInt(s.wStr));
    p.UInt(s.wSpi);
    vs := PackedNext(start, vs, VInt(s.wSpi));
    p.UInt(s.wDex);
    vs := PackedNext(start, vs, VInt(s.wDex));
    p.UInt(s.wInt);
    vs := PackedNext(start, vs, VInt(s.wInt));
    p.UInt(s.wSta);
    vs := PackedNext(start, vs, VInt(s.wSta));
    assert vs == StatsValue(s).vs;
    ArrayPacked(before, vs);
  }

  method PackItem(p: Packer, i: ItemLoby)
    modifies p
    ensures p.out == old(p.out) + Enc(ItemValue(i))
  {
    hide Enc, EncHead, EncAll, IdValue;
    ghost var before := p.out;
    p.Array(6);
    ghost var start := p.out;
    PackId(p, i.sNativeID);
    ghost var vs := PackedFirst(start, IdValue(i.sNativeID));
    PackId(p, i.nidDISGUISE);
    vs := PackedNext(start, vs, IdValue(i.nidDISGUISE));
    p.UInt(i.dwMainColor);
    vs := PackedNext(start, vs, VInt(i.dwMainColor));
    p.UInt(i.dwSubColor);
    vs := PackedNext(start, vs, VInt(i.dwSubColor));
    p.UInt(i.cDAMAGE);
    vs := PackedNext(start, vs, VInt(i.cDAMAGE));
    p.UInt(i.cDEFENSE);
    vs := PackedNext(start, vs, VInt(i.cDEFENSE));
    assert vs == ItemValue(i).vs;
    ArrayPacked(before, vs);
  }

  /** The count, cut to 32 bits, and the items. */
  method PackItems(p: Packer, items: seq<ItemLoby>)
    modifies p
    ensures p.out == old(p.out) + Enc(VArr(ItemValues(items)))
  {
    hide EncHead, EncAll, ItemValue;
    p.Array(|items| % 0x1_0000_0000);
    ghost var start := p.out;
    NothingPacked(start);
    for i := 0 to |items|
      invariant p.out == start + EncAll(ItemValues(items[..i]))
    {
      PackItem(p, items[i]);
      ghost var next := PackedNext(start, ItemValues(items[..i]), ItemValue(items[i]));
      assert next == ItemValues(items[..i + 1]);
    }
    assert items[..|items|] == items;
  }

  lemma NothingPacked(start: seq<byte>)
    ensures start + EncAll([]) == start
    ensures ItemValues([]) == []
  {
  }

  /** The first eight members. */
  method PackLooks(p: Packer, c: CharInfoLobby) returns (ghost vs: seq<Value>)
    modifies p
    ensures vs == Fields(c)[..8]
    ensures p.out == old(p.out) + EncAll(vs)
  {
    hide Enc, EncHead, EncAll, Fields;
    ghost var start := p.out;
    p.UInt(c.dwCharID);
    vs := PackedFirst(start, VInt(c.dwCharID));
    p.UInt(c.clubDbNum);
    vs := PackedNext(start, vs, VInt(c.clubDbNum));
    p.UInt(c.emClass);
    vs := PackedNext(start, vs, VInt(c.emClass));
    p.UInt(c.wSchool);
    vs := PackedNext(start, vs, VInt(c.wSchool));
    p.UInt(c.wHair);
    vs := PackedNext(start, vs, VInt(c.wHair));
    p.UInt(c.wFace);
    vs := PackedNext(start, vs, VInt(c.wFace));
    p.UInt(c.wSex);
    vs := PackedNext(start, vs, VInt(c.wSex));
    p.UInt(c.wHairColor);
    vs := PackedNext(start, vs, VInt(c.wHairColor));
    LooksAre(c);
  }

  lemma LooksAre(c: CharInfoLobby)
    ensures Fields(c)[..8] == [VInt(c.dwCharID)] + [VInt(c.clubDbNum)] + [VInt(c.emClass)] + [VInt(c.wSchool)]
                              + [VInt(c.wHair)] + [VInt(c.wFace)] + [VInt(c.wSex)] + [VInt(c.wHairColor)]
  {
  }

  /** The next five members. */
  method PackState(p: Packer, c: CharInfoLobby, ghost start: seq<byte>, ghost before: seq<Value>)
      returns (ghost vs: seq<Value>)
    requires before == Fields(c)[..8] && p.out == start + EncAll(before)
    modifies p
    ensures vs == Fields(c)[..13]
    ensures p.out == start + EncAll(vs)
  {
    hide Enc, EncHead, EncAll, StatsValue;
    PackPaData(p, c.sHP);
    vs := PackedNext(start, before, VArr([VInt(c.sHP.dwData)]));
    PackLlData(p, c.sExperience);
    vs := PackedNext(start, vs, VArr([VInt(c.sExperience.lnData1), VInt(c.sExperience.lnData2)]));
    p.Int(c.nBright);
    vs := PackedNext(start, vs, VInt(c.nBright));
    p.UInt(c.wLevel);
    vs := PackedNext(start, vs, VInt(c.wLevel));
    PackStats(p, c.sStats);
    vs := PackedNext(start, vs, StatsValue(c.sStats));
  }

  /** CharInfoLobby::Pack: the twenty members in order. */
  method PackInfo(p: Packer, c: CharInfoLobby)
    modifies p
    ensures p.out == old(p.out) + Enc(VArr(Fields(c)))
  {
    hide Enc, EncHead, EncAll, ItemValues, IdValue;
    ghost var before := p.out;
    p.Array(20);
    ghost var start := p.out;
    ghost var vs := PackLooks(p, c);
    vs := PackState(p, c, start, vs);
    PackItems(p, c.putOnItems);
    vs := PackedNext(start, vs, VArr(ItemValues(c.putOnItems)));
    PackId(p, c.sSaveMapID);
    vs := PackedNext(start, vs, IdValue(c.sSaveMapID));
    p.UInt(c.clubRank);
    vs := PackedNext(start, vs, VInt(c.clubRank));
    p.Str(c.chaName);
    vs := PackedNext(start, vs, VStr(c.chaName));
    p.Str(c.clubName);
    vs := PackedNext(start, vs, VStr(c.clubName));
    p.Bool(c.lock);
    vs := PackedNext(start, vs, VBool(c.lock));
    p.Bool(c.bRanMobile);
    vs := PackedNext(start, vs, VBool(c.bRanMobile));
    assert vs == Fields(c);
    ArrayPacked(before, vs);
  }

  method PackLobbyCharInfoAc(p: Packer, c: CharInfoLobby)
    modifies p
    ensures p.out == old(p.out) + Enc(LobbyValue(c))
  {
    hide Enc, EncHead, Fields;
    ghost var start := p.out;
    p.Array(1);
    PackInfo(p, c);
    EncAllOne(VArr(Fields(c)));
    ArrayPacked(start, [VArr(Fields(c))]);
  }

  // ---- Reading the record back ----

  // The conversions a client applies to decoded values: array shapes are fixed, numbers are checked against the
  // width of the member they go into.

  predicate IsUInt(v: Value, limit: int) { v.VInt? && 0 <= v.i < limit }

  predicate IsU8(v: Value) { IsUInt(v, 0x100) }

  predicate IsU16(v: Value) { IsUInt(v, 0x1_0000) }

  predicate IsU32(v: Value) { IsUInt(v, 0x1_0000_0000) }

  predicate IsI64(v: Value) { v.VInt? && -0x8000_0000_0000_0000 <= v.i < 0x8000_0000_0000_0000 }

  predicate IsI32(v: Value) { v.VInt? && -0x8000_0000 <= v.i < 0x8000_0000 }

  predicate IsId(v: Value) { v.VArr? && |v.vs| == 1 && IsU32(v.vs[0]) }

  predicate IsPair(v: Value) { v.VArr? && |v.vs| == 2 && IsI64(v.vs[0]) && IsI64(v.vs[1]) }

  predicate IsStats(v: Value) { v.VArr? && |v.vs| == 6 && forall w <- v.vs :: IsU16(w) }

  predicate IsItem(v: Value)
  {
    && v.VArr? && |v.vs| == 6 && IsId(v.vs[0]) && IsId(v.vs[1])
    && IsU32(v.vs[2]) && IsU32(v.vs[3]) && IsU8(v.vs[4]) && IsU8(v.vs[5])
  }

  function ToId(v: Value): NativeId
    requires IsId(v)
  {
    NativeId(v.vs[0].i)
  }

  function ToStats(v: Value): CharStats
    requires IsStats(v)
  {
    assert forall i :: 0 <= i < 6 ==> IsU16(v.vs[i]);
    CharStats(v.vs[0].i, v.vs[1].i, v.vs[2].i, v.vs[3].i, v.vs[4].i, v.vs[5].i)
  }

  function ToItem(v: Value): ItemLoby
    requires IsItem(v)
  {
    ItemLoby(ToId(v.vs[0]), ToId(v.vs[1]), v.vs[2].i, v.vs[3].i, v.vs[4].i, v.vs[5].i)
  }

  predicate IsInfo(f: seq<Value>)
  {
    && |f| == 20
    && IsU32(f[0]) && IsU32(f[1]) && IsU32(f[2])
    && IsU16(f[3]) && IsU16(f[4]) && IsU16(f[5]) && IsU16(f[6]) && IsU16(f[7])
    && IsId(f[8]) && IsPair(f[9]) && IsI32(f[10]) && IsU16(f[11]) && IsStats(f[12])
    && f[13].VArr? && (forall w <- f[13].vs :: IsItem(w))
    && IsId(f[14]) && IsU32(f[15])
    && f[16].VStr? && f[17].VStr? && f[18].VBool? && f[19].VBool?
  }

  function ToInfo(f: seq<Value>): CharInfoLobby
    requires IsInfo(f)
  {
    CharInfoLobby(
      f[0].i, f[1].i, f[2].i, f[3].i, f[4].i, f[5].i, f[6].i, f[7].i,
      GlPaData(ToId(f[8]).dwID), GlLlData(f[9].vs[0].i, f[9].vs[1].i), f[10].i, f[11].i, ToStats(f[12]),
      seq(|f[13].vs|, i requires 0 <= i < |f[13].vs| => ToItem(f[13].vs[i])),
      ToId(f[14]), f[15].i, f[16].s, f[17].s, f[18].b, f[19].b)
  }

  /** The decoder of a lobby record: one value, of the right shape. */
  function DecodeLobby(b: seq<byte>): Option<(CharInfoLobby, seq<byte>)>
  {
    match Dec(b)
    case None => None
    case Some((v, rest)) =>
      if v.VArr? && |v.vs| == 1 && v.vs[0].VArr? && IsInfo(v.vs[0].vs) then Some((ToInfo(v.vs[0].vs), rest)) else None
  }

  lemma PartsBack(n: NativeId, s: CharStats, it: ItemLoby)
    ensures IsId(IdValue(n)) && ToId(IdValue(n)) == n
    ensures IsStats(StatsValue(s)) && ToStats(StatsValue(s)) == s
    ensures IsItem(ItemValue(it)) && ToItem(ItemValue(it)) == it
  {
  }

  lemma ItemsBack(items: seq<ItemLoby>)
    ensures forall v <- ItemValues(items) :: IsItem(v)
    ensures seq(|items|, i requires 0 <= i < |items| => ToItem(ItemValues(items)[i])) == items
  {
    hide ItemValue, IsItem, ToItem;
    forall i | 0 <= i < |items|
      ensures IsItem(ItemValue(items[i])) && ToItem(ItemValue(items[i])) == items[i]
    {
      PartsBack(NativeId(0), CharStats(0, 0, 0, 0, 0, 0), items[i]);
    }
  }

  lemma FirstFieldsAre(c: CharInfoLobby)
    ensures var f := Fields(c);
            && f[0] == VInt(c.dwCharID) && f[1] == VInt(c.clubDbNum) && f[2] == VInt(c.emClass)
            && f[3] == VInt(c.wSchool) && f[4] == VInt(c.wHair) && f[5] == VInt(c.wFace)
            && f[6] == VInt(c.wSex) && f[7] == VInt(c.wHairColor)
            && f[8] == VArr([VInt(c.sHP.dwData)])
            && f[9] == VArr([VInt(c.sExperience.lnData1), VInt(c.sExperience.lnData2)])
  {
    hide StatsValue, ItemValues, IdValue;
  }

  lemma LastFieldsAre(c: CharInfoLobby)
    ensures var f := Fields(c);
            && |f| == 20
            && f[10] == VInt(c.nBright) && f[11] == VInt(c.wLevel) && f[12] == StatsValue(c.sStats)
            && f[13] == VArr(ItemValues(c.putOnItems)) && f[14] == IdValue(c.sSaveMapID)
            && f[15] == VInt(c.clubRank) && f[16] == VStr(c.chaName) && f[17] == VStr(c.clubName)
            && f[18] == VBool(c.lock) && f[19] == VBool(c.bRanMobile)
  {
    hide StatsValue, ItemValues, IdValue;
  }

  lemma InfoOfFields(c: CharInfoLobby)
    ensures IsInfo(Fields(c)) && ToInfo(Fields(c)) == c
  {
    hide Fields, ItemValues, IsItem, ToItem, StatsValue, IsStats, ToStats;
    FirstFieldsAre(c);
    LastFieldsAre(c);
    ItemsBack(c.putOnItems);
    ItemCount(c.putOnItems);
    PartsBack(c.sSaveMapID, c.sStats, ItemLoby(NativeId(0), NativeId(0), 0, 0, 0, 0));
  }

  lemma ItemCount(items: seq<ItemLoby>)
    ensures |ItemValues(items)| == |items|
  {
  }

  /** Fewer than 2^32 items, and strings shorter than 2^32 bytes. */
  predicate WithinLengths(c: CharInfoLobby)
  {
    |c.putOnItems| < 0x1_0000_0000 && |c.chaName| < 0x1_0000_0000 && |c.clubName| < 0x1_0000_0000
  }

  lemma NumbersWellFormed()
    ensures forall i: int {:trigger VInt(i)} ::
              -0x8000_0000_0000_0000 <= i < 0x1_0000_0000_0000_0000 ==> WellFormed(VInt(i))
  {
  }

  lemma ArrayWellFormed(vs: seq<Value>)
    ensures WellFormed(VArr(vs)) <==> |vs| < 0x1_0000_0000 && forall v <- vs :: WellFormed(v)
  {
  }

  lemma PartsWellFormed(n: NativeId, s: CharStats, l: GlLlData)
    ensures WellFormed(IdValue(n)) && WellFormed(StatsValue(s))
    ensures WellFormed(VArr([VInt(l.lnData1), VInt(l.lnData2)]))
  {
    hide WellFormed;
    NumbersWellFormed();
    ArrayWellFormed(IdValue(n).vs);
    ArrayWellFormed(StatsValue(s).vs);
    ArrayWellFormed([VInt(l.lnData1), VInt(l.lnData2)]);
  }

  lemma ItemWellFormed(it: ItemLoby)
    ensures WellFormed(ItemValue(it))
  {
    hide WellFormed, IdValue;
    NumbersWellFormed();
    PartsWellFormed(it.sNativeID, CharStats(0, 0, 0, 0, 0, 0), GlLlData(0, 0));
    PartsWellFormed(it.nidDISGUISE, CharStats(0, 0, 0, 0, 0, 0), GlLlData(0, 0));
    ArrayWellFormed(ItemValue(it).vs);
  }

  lemma ItemsWellFormed(items: seq<ItemLoby>)
    ensures WellFormed(VArr(ItemValues(items))) <==> |items| < 0x1_0000_0000
  {
    hide ItemValue, WellFormed;
    forall i | 0 <= i < |items|
      ensures WellFormed(ItemValue(items[i]))
    {
      ItemWellFormed(items[i]);
    }
    ArrayWellFormed(ItemValues(items));
  }

  lemma LobbyWellFormed(c: CharInfoLobby)
    ensures WellFormed(LobbyValue(c)) <==> WithinLengths(c)
  {
    hide Fields, WellFormed;
    FieldsWellFormed(c);
    ArrayWellFormed([VArr(Fields(c))]);
    assert [VArr(Fields(c))][0] == VArr(Fields(c));
  }

  lemma FieldsWellFormed(c: CharInfoLobby)
    ensures WellFormed(VArr(Fields(c))) <==> WithinLengths(c)
  {
    hide Fields, ItemValues, StatsValue, IdValue, WellFormed;
    var f := Fields(c);
    FirstFieldsAre(c);
    LastFieldsAre(c);
    NumbersWellFormed();
    ScalarsWellFormed(c);
    ItemsWellFormed(c.putOnItems);
    PartsWellFormed(c.sSaveMapID, c.sStats, c.sExperience);
    HPWellFormed(c.sHP);
    ArrayWellFormed(f);
    assert f[13] in f && f[16] in f && f[17] in f;
    assert forall k :: 0 <= k < 20 && k != 13 && k != 16 && k != 17 ==> WellFormed(f[k]);
  }

  lemma HPWellFormed(d: GlPaData)
    ensures WellFormed(VArr([VInt(d.dwData)]))
  {
  }

  lemma ScalarsWellFormed(c: CharInfoLobby)
    ensures WellFormed(VBool(c.lock)) && WellFormed(VBool(c.bRanMobile))
    ensures WellFormed(VStr(c.chaName)) <==> |c.chaName| < 0x1_0000_0000
    ensures WellFormed(VStr(c.clubName)) <==> |c.clubName| < 0x1_0000_0000
  {
  }

  /**
    Unique decodability: a client reads exactly the packed record and stops exactly behind it, whatever
    follows, if and only if the lists and strings are shorter than 2^32.
   */
  lemma LobbyRoundTrip(c: CharInfoLobby, rest: seq<byte>)
    ensures DecodeLobby(Enc(LobbyValue(c)) + rest) == Some((c, rest)) <==> WithinLengths(c)
  {
    hide WellFormed, Dec, Enc, Fields, ToInfo, IsInfo;
    LobbyWellFormed(c);
    InfoOfFields(c);
    if WithinLengths(c) {
      DecOfEnc(LobbyValue(c), rest);
    } else {
      DecodedWithinLengths(Enc(LobbyValue(c)) + rest);
    }
  }

  lemma DecodedWithinLengths(b: seq<byte>)
    ensures DecodeLobby(b).Some? ==> WithinLengths(DecodeLobby(b).value.0)
  {
    DecIsWellFormed(b);
    if DecodeLobby(b).Some? {
      var f := Dec(b).value.0.vs[0].vs;
      assert WellFormed(Dec(b).value.0.vs[0]);
      assert f[13] in f && f[16] in f && f[17] in f;
    }
  }

  /** What a client finds in any packed record, member by member. */
  lemma LobbyMembers(c: CharInfoLobby, rest: seq<byte>)
    requires WithinLengths(c)
    ensures var r := Dec(Enc(LobbyValue(c)) + rest);
            && r.Some? && r.value.1 == rest && r.value.0.VArr? && |r.value.0.vs| == 1 && r.value.0.vs[0].VArr?
            && var f := r.value.0.vs[0].vs;
               && |f| == 20
               && f[0] == VInt(c.dwCharID) && f[1] == VInt(c.clubDbNum) && f[2] == VInt(c.emClass)
               && f[3] == VInt(c.wSchool) && f[4] == VInt(c.wHair) && f[5] == VInt(c.wFace)
               && f[6] == VInt(c.wSex) && f[7] == VInt(c.wHairColor) && f[8] == VArr([VInt(c.sHP.dwData)])
               && f[9] == VArr([VInt(c.sExperience.lnData1), VInt(c.sExperience.lnData2)])
               && f[10] == VInt(c.nBright) && f[11] == VInt(c.wLevel)
               && f[12] == VArr([VInt(c.sStats.wPow), VInt(c.sStats.wStr), VInt(c.sStats.wSpi),
                                 VInt(c.sStats.wDex), VInt(c.sStats.wInt), VInt(c.sStats.wSta)])
               && f[13].VArr? && |f[13].vs| == |c.putOnItems|
               && (forall i :: 0 <= i < |c.putOnItems| ==>
                     var it := c.putOnItems[i];
                     f[13].vs[i] == VArr([VArr([VInt(it.sNativeID.dwID)]), VArr([VInt(it.nidDISGUISE.dwID)]),
                                          VInt(it.dwMainColor), VInt(it.dwSubColor),
                                          VInt(it.cDAMAGE), VInt(it.cDEFENSE)]))
               && f[14] == VArr([VInt(c.sSaveMapID.dwID)]) && f[15] == VInt(c.clubRank)
               && f[16] == VStr(c.chaName) && f[17] == VStr(c.clubName)
               && f[18] == VBool(c.lock) && f[19] == VBool(c.bRanMobile)
  {
    hide Enc, Dec, Fields, WellFormed;
    FirstFieldsAre(c);
    LastFieldsAre(c);
    LobbyWellFormed(c);
    RoundTripExactly(LobbyValue(c), rest);
  }

  /** A record with a name of 2^32 bytes, whatever else it holds, is not read back. */
  lemma LongNameIsLost(c: CharInfoLobby, rest: seq<byte>)
    requires c.chaName == seq(0x1_0000_0000, _ => 0)
    ensures DecodeLobby(Enc(LobbyValue(c)) + rest) != Some((c, rest))
  {
    hide Enc, LobbyValue, DecodeLobby;
    LobbyRoundTrip(c, rest);
  }

  /** Records with equal bytes are equal. */
  lemma LobbyInjective(c: CharInfoLobby, d: CharInfoLobby)
    requires WithinLengths(c) && WithinLengths(d)
    requires Enc(LobbyValue(c)) == Enc(LobbyValue(d))
    ensures c == d
  {
    hide Enc, LobbyValue, DecodeLobby;
    LobbyRoundTrip(c, []);
    LobbyRoundTrip(d, []);
  }

  // ---- The size of the record ----

  lemma NumberSizes(i: int)
    ensures 0 <= i < 0x100 ==> |Enc(VInt(i))| <= 2
    ensures 0 <= i < 0x1_0000 ==> |Enc(VInt(i))| <= 3
    ensures -0x8000_0000 <= i < 0x1_0000_0000 ==> |Enc(VInt(i))| <= 5
    ensures |Enc(VInt(i))| <= 9
    ensures i == 0 ==> |Enc(VInt(i))| == 1
    ensures i == 0xFF ==> |Enc(VInt(i))| == 2
    ensures i == 0xFFFF ==> |Enc(VInt(i))| == 3
    ensures i == 0x7FFF_FFFF || i == 0xFFFF_FFFF || i == -0x8000_0000 ==> |Enc(VInt(i))| == 5
    ensures i == 0x7FFF_FFFF_FFFF_FFFF ==> |Enc(VInt(i))| == 9
  {
    hide BE;
  }

  lemma ArraySize(vs: seq<Value>)
    requires |vs| <= 0xFFFF
    ensures |Enc(VArr(vs))| == (if |vs| <= 15 then 1 else 3) + |EncAll(vs)|
  {
    hide BE, EncAll;
  }

  /** The bytes of a list from element k on. */
  function SizeFrom(vs: seq<Value>, k: nat): nat
    requires k <= |vs|
  {
    |EncAll(vs[k..])|
  }

  lemma Chopped(vs: seq<Value>, k: nat)
    requires k < |vs|
    ensures SizeFrom(vs, k) == |Enc(vs[k])| + SizeFrom(vs, k + 1)
  {
    assert vs[k..][1..] == vs[k + 1..];
  }

  /** The bytes of a list, one element after the other. */
  lemma ListSize(vs: seq<Value>)
    ensures forall k {:trigger SizeFrom(vs, k)} :: 0 <= k < |vs| ==>
              SizeFrom(vs, k) == |Enc(vs[k])| + SizeFrom(vs, k + 1)
    ensures SizeFrom(vs, |vs|) == 0
    ensures |EncAll(vs)| == SizeFrom(vs, 0)
  {
    hide Enc;
    forall k | 0 <= k < |vs|
      ensures SizeFrom(vs, k) == |Enc(vs[k])| + SizeFrom(vs, k + 1)
    {
      Chopped(vs, k);
    }
    assert vs[0..] == vs;
  }

  lemma IdSize(n: NativeId)
    ensures |Enc(IdValue(n))| <= 6
    ensures n.dwID == 0xFFFF_FFFF ==> |Enc(IdValue(n))| == 6
  {
    hide Enc;
    NumberSizes(n.dwID);
    ArraySize([VInt(n.dwID)]);
    EncAllOne(VInt(n.dwID));
  }

  lemma LlDataSize(d: GlLlData)
    ensures var v := VArr([VInt(d.lnData1), VInt(d.lnData2)]);
            |Enc(v)| <= 19 && (d == GlLlData(0x7FFF_FFFF_FFFF_FFFF, 0x7FFF_FFFF_FFFF_FFFF) ==> |Enc(v)| == 19)
  {
    hide Enc, EncAll, SizeFrom;
    var vs := [VInt(d.lnData1), VInt(d.lnData2)];
    NumberSizes(d.lnData1);
    NumberSizes(d.lnData2);
    ArraySize(vs);
    ListSize(vs);
  }

  lemma StatsSize(s: CharStats)
    ensures |Enc(StatsValue(s))| <= 19
    ensures s == CharStats(0xFFFF, 0xFFFF, 0xFFFF, 0xFFFF, 0xFFFF, 0xFFFF) ==> |Enc(StatsValue(s))| == 19
  {
    hide Enc, EncAll, SizeFrom;
    var vs := StatsValue(s).vs;
    NumberSizes(s.wPow);
    NumberSizes(s.wStr);
    NumberSizes(s.wSpi);
    NumberSizes(s.wDex);
    NumberSizes(s.wInt);
    NumberSizes(s.wSta);
    ArraySize(vs);
    ListSize(vs);
  }

  const WIDEST_ID: NativeId := NativeId(0xFFFF_FFFF)
  const WIDEST_ITEM: ItemLoby := ItemLoby(WIDEST_ID, WIDEST_ID, 0xFFFF_FFFF, 0xFFFF_FFFF, 0xFF, 0xFF)

  lemma ItemSize(it: ItemLoby)
    ensures |Enc(ItemValue(it))| <= 27
    ensures it == WIDEST_ITEM ==> |Enc(ItemValue(it))| == 27
  {
    hide Enc, EncAll, IdValue, SizeFrom;
    var vs := ItemValue(it).vs;
    IdSize(it.sNativeID);
    IdSize(it.nidDISGUISE);
    NumberSizes(it.dwMainColor);
    NumberSizes(it.dwSubColor);
    NumberSizes(it.cDAMAGE);
    NumberSizes(it.cDEFENSE);
    ArraySize(vs);
    ListSize(vs);
  }

  lemma {:induction false} ItemsSize(items: seq<ItemLoby>)
    ensures |EncAll(ItemValues(items))| <= 27 * |items|
    ensures (forall it <- items :: it == WIDEST_ITEM) ==> |EncAll(ItemValues(items))| == 27 * |items|
  {
    hide Enc, ItemValue;
    if items != [] {
      ItemSize(items[0]);
      ItemsSize(items[1..]);
      assert items[0] in items && forall it <- items[1..] :: it in items;
      assert ItemValues(items)[1..] == ItemValues(items[1..]);
    }
  }

  lemma StringSize(s: seq<byte>)
    requires |s| <= 0xFFFF
    ensures |Enc(VStr(s))| <= 3 + |s|
    ensures |s| > 0xFF ==> |Enc(VStr(s))| == 3 + |s|
  {
    hide BE;
  }

  /** A record all of whose numbers take the most bytes, with twenty such items. */
  function Widest(chaName: seq<byte>, clubName: seq<byte>): CharInfoLobby
  {
    CharInfoLobby(
      0xFFFF_FFFF, 0xFFFF_FFFF, 0xFFFF_FFFF, 0xFFFF, 0xFFFF, 0xFFFF, 0xFFFF, 0xFFFF,
      GlPaData(0xFFFF_FFFF), GlLlData(0x7FFF_FFFF_FFFF_FFFF, 0x7FFF_FFFF_FFFF_FFFF), -0x8000_0000, 0xFFFF,
      CharStats(0xFFFF, 0xFFFF, 0xFFFF, 0xFFFF, 0xFFFF, 0xFFFF), seq(20, _ => WIDEST_ITEM), WIDEST_ID, 0xFFFF_FFFF,
      chaName, clubName, true, true)
  }

  lemma FirstSizes(c: CharInfoLobby)
    ensures var f := Fields(c);
            && (forall k :: 0 <= k < 3 ==> |Enc(f[k])| <= 5)
            && (forall k :: 3 <= k < 8 ==> |Enc(f[k])| <= 3)
            && |Enc(f[8])| <= 6 && |Enc(f[9])| <= 19
    ensures c == Widest(c.chaName, c.clubName) ==>
              var f := Fields(c);
              && (forall k :: 0 <= k < 3 ==> |Enc(f[k])| == 5)
              && (forall k :: 3 <= k < 8 ==> |Enc(f[k])| == 3)
              && |Enc(f[8])| == 6 && |Enc(f[9])| == 19
  {
    hide Enc, Fields;
    FirstFieldsAre(c);
    LastFieldsAre(c);
    NumberSizes(c.dwCharID);
    NumberSizes(c.clubDbNum);
    NumberSizes(c.emClass);
    NumberSizes(c.wSchool);
    NumberSizes(c.wHair);
    NumberSizes(c.wFace);
    NumberSizes(c.wSex);
    NumberSizes(c.wHairColor);
    IdSize(NativeId(c.sHP.dwData));
    LlDataSize(c.sExperience);
  }

  lemma LastSizes(c: CharInfoLobby)
    requires |c.putOnItems| == SLOT_TSIZE && |c.chaName| <= 0xFFFF && |c.clubName| <= 0xFFFF
    ensures var f := Fields(c);
            && |Enc(f[10])| <= 5 && |Enc(f[11])| <= 3 && |Enc(f[12])| <= 19 && |Enc(f[13])| <= 543
            && |Enc(f[14])| <= 6 && |Enc(f[15])| <= 5
            && |Enc(f[16])| <= 3 + |c.chaName| && |Enc(f[17])| <= 3 + |c.clubName|
            && |Enc(f[18])| == 1 && |Enc(f[19])| == 1
    ensures c == Widest(c.chaName, c.clubName) ==>
              var f := Fields(c);
              && |Enc(f[10])| == 5 && |Enc(f[11])| == 3 && |Enc(f[12])| == 19 && |Enc(f[13])| == 543
              && |Enc(f[14])| == 6 && |Enc(f[15])| == 5
              && (|c.chaName| > 0xFF ==> |Enc(f[16])| == 3 + |c.chaName|)
              && (|c.clubName| > 0xFF ==> |Enc(f[17])| == 3 + |c.clubName|)
  {
    hide Enc, Fields, EncAll, ItemValues, StatsValue;
    LastFieldsAre(c);
    NumberSizes(c.nBright);
    NumberSizes(c.wLevel);
    StatsSize(c.sStats);
    ItemCount(c.putOnItems);
    ItemsSize(c.putOnItems);
    ArraySize(ItemValues(c.putOnItems));
    IdSize(c.sSaveMapID);
    NumberSizes(c.clubRank);
    StringSize(c.chaName);
    StringSize(c.clubName);
    BoolSize(c.lock);
    BoolSize(c.bRanMobile);
  }

  lemma BoolSize(b: bool)
    ensures |Enc(VBool(b))| == 1
  {
  }

  lemma LobbyHeads(c: CharInfoLobby)
    ensures |Enc(LobbyValue(c))| == 4 + |EncAll(Fields(c))|
  {
    hide Enc, EncAll;
    var f := Fields(c);
    ArraySize(f);
    ArraySize([VArr(f)]);
    EncAllOne(VArr(f));
  }

  /** A record with the twenty slots takes at most 648 bytes besides its strings, and the widest one takes them all. */
  lemma LobbySize(c: CharInfoLobby)
    requires |c.putOnItems| == SLOT_TSIZE && |c.chaName| <= 0xFFFF && |c.clubName| <= 0xFFFF
    ensures |Enc(LobbyValue(c))| <= 648 + |c.chaName| + |c.clubName|
    ensures c == Widest(c.chaName, c.clubName) && |c.chaName| > 0xFF && |c.clubName| > 0xFF ==>
              |Enc(LobbyValue(c))| == 648 + |c.chaName| + |c.clubName|
  {
    hide Enc, EncAll, Fields, Widest, SizeFrom;
    LobbyHeads(c);
    LastFieldsAre(c);
    ListSize(Fields(c));
    FirstSizes(c);
    LastSizes(c);
  }

  // ---- The reply ----

  /** The body of the reply: a zero checksum, the size of the packed record, and the record. */
  function ReplyBody(c: CharInfoLobby): seq<byte>
  {
    var packed := Enc(LobbyValue(c));
    LE32(0) + LE32(|packed| % 0x1_0000_0000) + packed
  }

  function ReplyFrame(c: CharInfoLobby): seq<byte>
    requires |Enc(LobbyValue(c))| < 0xFFFF_FFF0
  {
    Packet.EncodedMessage(NET_MSG_LOBBY_CHARINFO_AC, ReplyBody(c))
  }

  /** The reply carries the size of its record, and the record is read back from it. */
  lemma ReplyIsRead(c: CharInfoLobby)
    requires |Enc(LobbyValue(c))| < 0xFFFF_FFF0 && WithinLengths(c)
    ensures var r := ReplyFrame(c);
            && Packet.IsFrame(r) && ReadLE32(r, 4) == NET_MSG_LOBBY_CHARINFO_AC
            && ReadLE32(r, 12) == |r| - 16
            && DecodeLobby(r[16..]) == Some((c, []))
  {
    hide Enc, DecodeLobby, WithinLengths, LobbyValue, LE32, ReadLE32;
    var packed, r := Enc(LobbyValue(c)), ReplyFrame(c);
    Packet.EncodedMessageIsFrame(NET_MSG_LOBBY_CHARINFO_AC, ReplyBody(c));
    var head := LE32(Packet.HEADER_SIZE + |ReplyBody(c)|) + LE32(NET_MSG_LOBBY_CHARINFO_AC) + LE32(0);
    ReadWrittenWord(head, |packed|, packed);
    assert r == head + LE32(|packed|) + packed;
    assert r[16..] == packed;
    assert packed == packed + [];
    LobbyRoundTrip(c, []);
  }

  /** The replies whose 32-bit size fields do not wrap. */
  ghost predicate Sendable(c: CharInfoLobby) { |Enc(LobbyValue(c))| < 0xFFFF_FFF0 }

  lemma ReplyHead(c: CharInfoLobby)
    requires Sendable(c)
    ensures var r := ReplyFrame(c); |r| >= 16 && ReadLE32(r, 8) == 0 && r[16..] == Enc(LobbyValue(c))
  {
    hide Enc, LobbyValue;
    var r, packed := ReplyFrame(c), Enc(LobbyValue(c));
    ReadWrittenWord(r[..8], 0, r[12..]);
    assert r == r[..8] + LE32(0) + r[12..];
  }

  /** Send refuses a reply, and so closes the link, exactly when the packed record is over 2032 bytes. */
  lemma ReplyRefused(lib: Lzo.Library, b: SendBuffer.Pending, c: CharInfoLobby)
    requires Sendable(c)
    ensures Batching.SendFrame(lib, b, ReplyFrame(c)).refused <==>
            |Enc(LobbyValue(c))| > SendBuffer.NET_DATA_BUFSIZE - 16
  {
    hide Enc, LobbyValue;
    var r := ReplyFrame(c);
    assert |r| == 16 + |Enc(LobbyValue(c))|;
    assert Batching.Truncated(r) == r;
  }

  /** The reply for a record with the twenty slots is never refused by Send when the names total at most 1384 bytes. */
  lemma ReplyFits(c: CharInfoLobby)
    requires |c.putOnItems| == SLOT_TSIZE && |c.chaName| + |c.clubName| <= 1384
    ensures |Enc(LobbyValue(c))| < 0xFFFF_FFF0
    ensures |ReplyFrame(c)| <= SendBuffer.NET_DATA_BUFSIZE
    ensures forall lib: Lzo.Library, b: SendBuffer.Pending :: !Batching.SendFrame(lib, b, ReplyFrame(c)).refused
  {
    hide Enc, LobbyValue, Batching.SendFrame;
    LobbySize(c);
    forall lib: Lzo.Library, b: SendBuffer.Pending
      ensures !Batching.SendFrame(lib, b, ReplyFrame(c)).refused
    {
      ReplyRefused(lib, b, c);
    }
  }

  /** Send takes the reply. */
  ghost predicate Passes(lib: Lzo.Library, b: SendBuffer.Pending, c: CharInfoLobby)
  {
    Sendable(c) && !Batching.SendFrame(lib, b, ReplyFrame(c)).refused
  }

  /** No record of twenty items whose names total at most `total` bytes is refused. */
  ghost predicate AllFit(lib: Lzo.Library, b: SendBuffer.Pending, total: nat)
  {
    forall c: CharInfoLobby ::
      |c.putOnItems| == SLOT_TSIZE && |c.chaName| + |c.clubName| <= total ==>
        Passes(lib, b, c)
  }

  lemma WidestIsRefused(lib: Lzo.Library, b: SendBuffer.Pending)
    ensures var c := Widest(seq(692, _ => 0), seq(693, _ => 0));
            Sendable(c) && Batching.SendFrame(lib, b, ReplyFrame(c)).refused
  {
    hide Enc, LobbyValue, Batching.SendFrame, ReplyFrame;
    var c := Widest(seq(692, _ => 0), seq(693, _ => 0));
    LobbySize(c);
    ReplyRefused(lib, b, c);
  }

  /** For arbitrary records of twenty items the allowance for the names is 1384 bytes, and no more. */
  lemma AllFitExactly(lib: Lzo.Library, b: SendBuffer.Pending, total: nat)
    ensures AllFit(lib, b, total) <==> total <= 1384
  {
    hide Enc, LobbyValue, Batching.SendFrame, ReplyFrame;
    if total <= 1384 {
      forall c: CharInfoLobby | |c.putOnItems| == SLOT_TSIZE && |c.chaName| + |c.clubName| <= total
        ensures Passes(lib, b, c)
      {
        LobbySize(c);
        ReplyRefused(lib, b, c);
      }
    } else {
      WidestIsRefused(lib, b);
    }
  }

  // ---- The records the server builds ----

  /** A row of sp_GetChaLobbyInfo: the columns that are read, as 32-bit or 64-bit signed numbers. */
  datatype CharRow = CharRow(
    guNum: int32, chaName: seq<byte>, chaClass: int32, chaSchool: int32, chaDex: int32, chaIntel: int32,
    chaPower: int32, chaStrong: int32, chaSpirit: int32, chaStrength: int32, chaLevel: int32, chaHair: int32,
    chaFace: int32, chaBright: int32, chaSex: int32, chaHairColor: int32, chaExp: int64, chaSaveMap: int32,
    chaHP: int32, chaLock: int32)

  function Cast32(i: int32): uint32 { i % 0x1_0000_0000 }

  function Cast16(i: int32): uint16 { i % 0x1_0000 }

  const EMPTY_ITEM: ItemLoby := ItemLoby(NativeId(0), NativeId(0), 0, 0, 0, 0)

  /** ProcessCharDetail: a row cast into a default record, whose items, club and mobile flag stay as they are. */
  function ServerRecord(chaNum: int32, row: CharRow): CharInfoLobby
  {
    CharInfoLobby(
      Cast32(chaNum), Cast32(row.guNum), Cast32(row.chaClass),
      Cast16(row.chaSchool), Cast16(row.chaHair), Cast16(row.chaFace), Cast16(row.chaSex), Cast16(row.chaHairColor),
      GlPaData(Cast16(row.chaHP)), GlLlData(row.chaExp, 0), row.chaBright, Cast16(row.chaLevel),
      CharStats(Cast16(row.chaPower), Cast16(row.chaStrong), Cast16(row.chaSpirit),
                Cast16(row.chaDex), Cast16(row.chaIntel), Cast16(row.chaStrength)),
      seq(SLOT_TSIZE, _ => EMPTY_ITEM), NativeId(Cast32(row.chaSaveMap)), 0,
      row.chaName, [], row.chaLock != 0, false)
  }

  /** A row whose numbers take the most bytes after the casts. */
  function WidestRow(chaName: seq<byte>): CharRow
  {
    CharRow(-1, chaName, -1, -1, -1, -1, -1, -1, -1, -1, -1, -1, -1, -0x8000_0000, -1, -1,
            0x7FFF_FFFF_FFFF_FFFF, -1, -1, 1)
  }

  lemma {:induction false} EmptyItemsSize(n: nat)
    ensures |EncAll(ItemValues(seq(n, _ => EMPTY_ITEM)))| == 9 * n
  {
    hide Enc, ItemValue;
    if n > 0 {
      EmptyItemSize();
      EmptyItemsSize(n - 1);
      assert ItemValues(seq(n, _ => EMPTY_ITEM))[1..] == ItemValues(seq(n - 1, _ => EMPTY_ITEM));
    }
  }

  lemma EmptyItemSize()
    ensures |Enc(ItemValue(EMPTY_ITEM))| == 9
  {
    hide Enc, EncAll, SizeFrom;
    var vs := ItemValue(EMPTY_ITEM).vs;
    NumberSizes(0);
    EncAllOne(VInt(0));
    ArraySize([VInt(0)]);
    ArraySize(vs);
    ListSize(vs);
  }

  /** The members that the server leaves at their defaults or narrows. */
  lemma ServerSizes(chaNum: int32, row: CharRow)
    requires |row.chaName| <= 0xFFFF
    ensures var f := Fields(ServerRecord(chaNum, row));
            && |Enc(f[8])| <= 4 && |Enc(f[9])| <= 11 && |Enc(f[13])| == 183 && |Enc(f[15])| == 1 && |Enc(f[17])| == 1
    ensures row == WidestRow(row.chaName) ==>
              var f := Fields(ServerRecord(chaNum, row)); |Enc(f[8])| == 4 && |Enc(f[9])| == 11
  {
    hide Enc, Fields, EncAll, ItemValues, SizeFrom;
    var c := ServerRecord(chaNum, row);
    FirstFieldsAre(c);
    LastFieldsAre(c);
    NumberSizes(0);
    NumberSizes(c.sHP.dwData);
    ArraySize([VInt(c.sHP.dwData)]);
    EncAllOne(VInt(c.sHP.dwData));
    NumberSizes(row.chaExp);
    var vs := [VInt(row.chaExp), VInt(0)];
    ArraySize(vs);
    ListSize(vs);
    ItemCount(c.putOnItems);
    EmptyItemsSize(SLOT_TSIZE);
    ArraySize(ItemValues(c.putOnItems));
    EmptyStringSize();
  }

  lemma EmptyStringSize()
    ensures |Enc(VStr([]))| == 1
  {
  }

  /**
    What a client decodes from the reply to a row, column by column: the frame of type 298 with a zero checksum
    and the size of the record, and in the record the columns in this order, cut to 32 or 16 bits.
   */
  lemma ServerReplyColumns(chaNum: int32, row: CharRow)
    requires Sendable(ServerRecord(chaNum, row)) && 0 < chaNum && |row.chaName| < 0x1_0000_0000
    ensures var r := ReplyFrame(ServerRecord(chaNum, row));
            && ReadLE32(r, 0) == |r| && ReadLE32(r, 4) == 298 && ReadLE32(r, 8) == 0 && ReadLE32(r, 12) == |r| - 16
            && Dec(r[16..]) == Some((VArr([VArr(Fields(ServerRecord(chaNum, row)))]), []))
    ensures var f := Fields(ServerRecord(chaNum, row));
            && |f| == 20
            && f[0] == VInt(chaNum) && f[1] == VInt(row.guNum % 0x1_0000_0000)
            && f[2] == VInt(row.chaClass % 0x1_0000_0000) && f[3] == VInt(row.chaSchool % 0x1_0000)
            && f[4] == VInt(row.chaHair % 0x1_0000) && f[5] == VInt(row.chaFace % 0x1_0000)
            && f[6] == VInt(row.chaSex % 0x1_0000) && f[7] == VInt(row.chaHairColor % 0x1_0000)
            && f[8] == VArr([VInt(row.chaHP % 0x1_0000)]) && f[9] == VArr([VInt(row.chaExp), VInt(0)])
            && f[10] == VInt(row.chaBright) && f[11] == VInt(row.chaLevel % 0x1_0000)
    ensures var f := Fields(ServerRecord(chaNum, row));
            && |f| == 20
            && f[12] == VArr([VInt(row.chaPower % 0x1_0000), VInt(row.chaStrong % 0x1_0000),
                              VInt(row.chaSpirit % 0x1_0000), VInt(row.chaDex % 0x1_0000),
                              VInt(row.chaIntel % 0x1_0000), VInt(row.chaStrength % 0x1_0000)])
            && f[13].VArr? && |f[13].vs| == 20
            && (forall i :: 0 <= i < 20 ==>
                  f[13].vs[i] == VArr([VArr([VInt(0)]), VArr([VInt(0)]), VInt(0), VInt(0), VInt(0), VInt(0)]))
            && f[14] == VArr([VInt(row.chaSaveMap % 0x1_0000_0000)]) && f[15] == VInt(0)
            && f[16] == VStr(row.chaName) && f[17] == VStr([])
            && f[18] == VBool(row.chaLock != 0) && f[19] == VBool(false)
  {
    hide Enc, Dec, Fields, LE32, ReadLE32, WellFormed;
    var c := ServerRecord(chaNum, row);
    FirstFieldsAre(c);
    LastFieldsAre(c);
    ReplyIsRead(c);
    ReplyHead(c);
    LobbyWellFormed(c);
    RoundTripExactly(LobbyValue(c), []);
    assert Enc(LobbyValue(c)) + [] == Enc(LobbyValue(c));
  }

  /** In the widest row's record the other members are as wide as they can be. */
  lemma WidestRowSizes(chaName: seq<byte>)
    requires 0xFF < |chaName| <= 0xFFFF
    ensures var f := Fields(ServerRecord(0x7FFF_FFFF, WidestRow(chaName)));
            && (forall k :: 0 <= k < 3 ==> |Enc(f[k])| == 5)
            && (forall k :: 3 <= k < 8 ==> |Enc(f[k])| == 3)
            && |Enc(f[10])| == 5 && |Enc(f[11])| == 3 && |Enc(f[12])| == 19 && |Enc(f[14])| == 6
            && |Enc(f[16])| == 3 + |chaName|
  {
    hide Enc, Fields;
    var c, w := ServerRecord(0x7FFF_FFFF, WidestRow(chaName)), Widest(chaName, []);
    FirstFieldsAre(c);
    LastFieldsAre(c);
    FirstFieldsAre(w);
    LastFieldsAre(w);
    NumberSizes(0x7FFF_FFFF);
    FirstSizes(w);
    LastSizes(w);
  }

  /** A record the server builds takes at most 272 bytes besides its name, and the widest one takes them all. */
  lemma ServerRecordSize(chaNum: int32, row: CharRow)
    requires |row.chaName| <= 0xFFFF
    ensures |Enc(LobbyValue(ServerRecord(chaNum, row)))| <= 272 + |row.chaName|
    ensures chaNum == 0x7FFF_FFFF && row == WidestRow(row.chaName) && |row.chaName| > 0xFF ==>
              |Enc(LobbyValue(ServerRecord(chaNum, row)))| == 272 + |row.chaName|
  {
    hide Enc, EncAll, Fields, SizeFrom;
    var c := ServerRecord(chaNum, row);
    LobbyHeads(c);
    LastFieldsAre(c);
    ListSize(Fields(c));
    FirstSizes(c);
    LastSizes(c);
    ServerSizes(chaNum, row);
    if chaNum == 0x7FFF_FFFF && row == WidestRow(row.chaName) && |row.chaName| > 0xFF {
      WidestRowSizes(row.chaName);
    }
  }

  /** No reply with a name of at most n bytes is refused, whatever the row says. */
  ghost predicate ServerRepliesFit(lib: Lzo.Library, b: SendBuffer.Pending, n: nat)
  {
    forall chaNum: int32, row: CharRow ::
      0 < chaNum && |row.chaName| <= n ==> Passes(lib, b, ServerRecord(chaNum, row))
  }

  /** The row with the widest numbers and a name of 1761 bytes: Send refuses the reply and closes the link. */
  lemma LongNameIsRefused(lib: Lzo.Library, b: SendBuffer.Pending)
    ensures var c := ServerRecord(0x7FFF_FFFF, WidestRow(seq(1761, _ => 0)));
            Sendable(c) && Batching.SendFrame(lib, b, ReplyFrame(c)).refused
  {
    hide Enc, LobbyValue, Batching.SendFrame, ReplyFrame;
    var row := WidestRow(seq(1761, _ => 0));
    ServerRecordSize(0x7FFF_FFFF, row);
    ReplyRefused(lib, b, ServerRecord(0x7FFF_FFFF, row));
  }

  /** The server's own replies always get through up to names of 1760 bytes, and not beyond. */
  lemma ServerRepliesFitExactly(lib: Lzo.Library, b: SendBuffer.Pending, n: nat)
    ensures ServerRepliesFit(lib, b, n) <==> n <= 1760
  {
    hide Enc, LobbyValue, Batching.SendFrame, ReplyFrame, ServerRecord;
    if n <= 1760 {
      forall chaNum: int32, row: CharRow | 0 < chaNum && |row.chaName| <= n
        ensures Passes(lib, b, ServerRecord(chaNum, row))
      {
        ServerRecordSize(chaNum, row);
        ReplyRefused(lib, b, ServerRecord(chaNum, row));
      }
    } else {
      LongNameIsRefused(lib, b);
    }
  }
}
