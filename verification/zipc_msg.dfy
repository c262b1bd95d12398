/**
 The message functions of zipc/zipc_parse.c on buffers.
 */
module ZipcMsg {
  import opened Machine
  import opened Wrappers
  import opened Leb128
  import opened ZBuffer
  import opened TlvFormat
  import opened TlvLaws
  import opened Ztlv
  import opened Exchange
  import opened ZipcHeader
  import opened ZipcFrame
  import ErrCode

  class MsgCH {
    var sn: u32
    var req: bool
    var noti: bool

    constructor () { sn, req, noti := 0, false, false; }

    function View(): Hdr
      reads this
    {
      Hdr(sn, req, noti)
    }
  }

  // ---- Parsing ----

  // One round of the loop of zipc_parse_common_hdr
  method FetchEntry(ibuf: ZBuf, ch: MsgCH) returns (ok: bool)
    requires ibuf.Valid() && ParseEntry(ibuf.data[..], ibuf.len, ibuf.offset, ch.View()) != Beyond
    modifies ibuf`offset, ch
    ensures ibuf.Valid()
    ensures ParseEntry(ibuf.data[..], ibuf.len, old(ibuf.offset), old(ch.View())) == Parsed(ok, ch.View(), ibuf.offset)
  {
    var key := FetchString(ibuf);
    if key == None {
      return false;
    }
    if key.value.len <= 4 {
      ShortTextInside(ibuf.data[..], ibuf.len, old(ibuf.offset), key.value, ibuf.offset);
    }
    ok := FetchValue(ibuf, ch, key.value);
  }

  // zstr_buf_cmp(...) == 0
  method KeyCmp(ibuf: ZBuf, s: Slice, key: seq<u8>) returns (equal: bool)
    requires ibuf.Valid() && (s.len == |key| ==> s.pos + s.len <= ibuf.len)
    ensures equal == KeyIs(ibuf.data[..], s, key)
  {
    if s.len != |key| {
      return false;
    }
    return ibuf.data[s.pos..s.pos + s.len] == key;
  }

  method FetchSn(ibuf: ZBuf, ch: MsgCH) returns (ok: bool)
    requires ibuf.Valid() && TakeSn(ibuf.data[..], ibuf.len, ibuf.offset, ch.View()) != Beyond
    modifies ibuf`offset, ch
    ensures ibuf.Valid()
    ensures TakeSn(ibuf.data[..], ibuf.len, old(ibuf.offset), old(ch.View())) == Parsed(ok, ch.View(), ibuf.offset)
  {
    var v := FetchInt(ibuf);
    if v == None {
      return false;
    }
    ch.sn := U32(v.value);
    return true;
  }

  method FetchReq(ibuf: ZBuf, ch: MsgCH) returns (ok: bool)
    requires ibuf.Valid()
    modifies ibuf`offset, ch
    ensures ibuf.Valid()
    ensures TakeReq(ibuf.data[..], ibuf.len, old(ibuf.offset), old(ch.View())) == Parsed(ok, ch.View(), ibuf.offset)
  {
    var b := FetchBool(ibuf);
    if b == None {
      return false;
    }
    ch.req := b.value;
    return true;
  }

  method FetchNoti(ibuf: ZBuf, ch: MsgCH) returns (ok: bool)
    requires ibuf.Valid()
    modifies ibuf`offset, ch
    ensures ibuf.Valid()
    ensures TakeNoti(ibuf.data[..], ibuf.len, old(ibuf.offset), old(ch.View())) == Parsed(ok, ch.View(), ibuf.offset)
  {
    var n := FetchBool(ibuf);
    if n == None {
      return false;
    }
    ch.noti := n.value;
    return true;
  }

  method FetchValue(ibuf: ZBuf, ch: MsgCH, s: Slice) returns (ok: bool)
    requires ibuf.Valid() && (s.len <= 4 ==> s.pos + s.len <= ibuf.len)
    requires ibuf.grown || ParseValue(ibuf.data[..], ibuf.len, ibuf.offset, s, ch.View()) != Beyond
    modifies ibuf`offset, ch
    ensures ibuf.Valid()
    ensures ParseValue(ibuf.data[..], ibuf.len, old(ibuf.offset), s, old(ch.View()))
            == Parsed(ok, ch.View(), ibuf.offset)
  {
    if ibuf.grown {
      GrownHasSlack(ibuf);
      ValueBounded(ibuf.data[..], ibuf.len, ibuf.offset, s, ch.View());
    }
    var isSn := KeyCmp(ibuf, s, SN);
    if isSn {
      ok := FetchSn(ibuf, ch);
      return;
    }
    var isReq := KeyCmp(ibuf, s, REQ);
    if isReq {
      ok := FetchReq(ibuf, ch);
      return;
    }
    var isNoti := KeyCmp(ibuf, s, NOTI);
    if isNoti {
      ok := FetchNoti(ibuf, ch);
      return;
    }
    var _ := FetchIgnore(ibuf);
    return true;
  }

  // With k entries to go, r is what parsing comes to.
  method FetchNext(ibuf: ZBuf, ch: MsgCH, ghost k: nat, ghost r: Parsed) returns (ok: bool)
    requires ibuf.Valid() && k > 0 && ParseEntries(k, ibuf.data[..], ibuf.len, ibuf.offset, ch.View()) == r != Beyond
    modifies ibuf`offset, ch
    ensures ibuf.Valid()
    ensures ok ==> ParseEntries(k - 1, ibuf.data[..], ibuf.len, ibuf.offset, ch.View()) == r
    ensures !ok ==> r == Parsed(false, ch.View(), ibuf.offset)
  {
    NextEntry(k, ibuf.data[..], ibuf.len, ibuf.offset, ch.View());
    ok := FetchEntry(ibuf, ch);
  }

  method FetchEntries(ibuf: ZBuf, ch: MsgCH, cnt: u32) returns (ok: bool)
    requires ibuf.Valid() && ParseEntries(cnt, ibuf.data[..], ibuf.len, ibuf.offset, ch.View()) != Beyond
    modifies ibuf`offset, ch
    ensures ibuf.Valid()
    ensures ParseEntries(cnt, ibuf.data[..], ibuf.len, old(ibuf.offset), old(ch.View())) ==
              Parsed(ok, ch.View(), ibuf.offset)
  {
    ghost var r := ParseEntries(cnt, ibuf.data[..], ibuf.len, ibuf.offset, ch.View());
    var i: u32 := 0;
    ghost var k := cnt;
    while i < cnt
      invariant i + k == cnt && ibuf.Valid() && ParseEntries(k, ibuf.data[..], ibuf.len, ibuf.offset, ch.View()) == r
    {
      ok := FetchNext(ibuf, ch, k, r);
      if !ok {
        return;
      }
      i, k := i + 1, k - 1;
    }
    return true;
  }

  // zipc_parse_common_hdr
  method ParseCommonHdr(ibuf: ZBuf, ch: MsgCH) returns (ok: bool)
    requires ibuf.Valid() && (ibuf.grown || ParseHeader(ibuf.data[..], ibuf.len, ibuf.offset) != Beyond)
    modifies ibuf`offset, ch
    ensures ibuf.Valid()
    ensures ParseHeader(ibuf.data[..], ibuf.len, old(ibuf.offset)) == Parsed(ok, ch.View(), ibuf.offset)
    ensures FieldsAreRead(ibuf.data[..], ibuf.len, old(ibuf.offset), ok, ch.View())
  {
    if ibuf.grown {
      GrownHasSlack(ibuf);
      HeaderBounded(ibuf.data[..], ibuf.len, ibuf.offset);
    }
    HeaderIsFields(ibuf.data[..], ibuf.len, ibuf.offset);
    ch.sn, ch.req, ch.noti := 0, false, false;
    var cnt := FetchLen(ibuf);
    if cnt == None {
      return false;
    }
    ok := FetchEntries(ibuf, ch, cnt.value);
  }

  // ---- Encoding ----

  // The puts of zipc_encode_common_hdr, in order
  function SentVals(sn: u32, req: bool, noti: bool): seq<Val>
  {
    [VLen(3), VString(SN), VUint32(sn), VString(REQ), VBool(req), VString(NOTI), VBool(noti)]
  }

  // Those of zipc_parse_put_reply_commonhdr
  function ReplyVals(sn: u32, req: bool): seq<Val>
  {
    [VLen(2), VString(SN), VUint32(sn), VString(REQ), VBool(req)]
  }

  lemma {:induction false} EncAllConcat(a: seq<Val>, b: seq<Val>)
    ensures EncAll(a + b) == EncAll(a) + EncAll(b)
  {
    if a == [] {
      assert a + b == b;
    } else {
      assert (a + b)[1..] == a[1..] + b;
      EncAllConcat(a[1..], b);
    }
  }

  lemma EncOne(v: Val)
    ensures EncAll([v]) == v.Enc()
  {
    assert [v][1..] == [];
  }

  // A key and its value are what an entry encodes to.
  lemma EncPair(k: seq<u8>, v: Val, e: Entry)
    requires e.Key() == k && e.Value() == v.Enc()
    ensures EncAll([VString(k), v]) == e.Enc()
  {
    assert [VString(k), v] == [VString(k)] + [v];
    EncAllConcat([VString(k)], [v]);
    EncOne(VString(k));
    EncOne(v);
  }

  lemma {:induction false} EntriesConcat(a: seq<Entry>, b: seq<Entry>)
    ensures EncEntries(a + b) == EncEntries(a) + EncEntries(b)
  {
    if a == [] {
      assert a + b == b;
    } else {
      assert (a + b)[1..] == a[1..] + b;
      EntriesConcat(a[1..], b);
    }
  }

  // Adding a pair to the puts adds an entry to the header.
  lemma OneMorePair(vs: seq<Val>, es: seq<Entry>, c: seq<u8>, k: seq<u8>, v: Val, e: Entry)
    requires EncAll(vs) == c + EncEntries(es) && e.Key() == k && e.Value() == v.Enc()
    ensures EncAll(vs + [VString(k), v]) == c + EncEntries(es + [e])
  {
    EncAllConcat(vs, [VString(k), v]);
    EncPair(k, v, e);
    EntriesConcat(es, [e]);
    OneEntry(e);
    Assoc(c, EncEntries(es), e.Enc());
  }

  lemma OneEntry(e: Entry)
    ensures EncEntries([e]) == e.Enc()
  {
    assert [e][1..] == [];
  }

  lemma PairsAre(n: u32, sn: u32, req: bool)
    ensures EncAll([VLen(n), VString(SN), VUint32(sn), VString(REQ), VBool(req)]) ==
              Encode(n) + EncEntries(Reply(sn, req))
  {
    EncOne(VLen(n));
    OneMorePair([VLen(n)], [], Encode(n), SN, VUint32(sn), SnEntry(sn));
    var vs := [VLen(n)] + [VString(SN), VUint32(sn)];
    OneMorePair(vs, [SnEntry(sn)], Encode(n), REQ, VBool(req), Req(req));
    assert vs + [VString(REQ), VBool(req)] == [VLen(n), VString(SN), VUint32(sn), VString(REQ), VBool(req)];
    assert [SnEntry(sn)] + [Req(req)] == Reply(sn, req);
  }

  lemma ReplyValsAre(sn: u32, req: bool)
    ensures EncAll(ReplyVals(sn, req)) == EncHeader(Reply(sn, req))
  {
    PairsAre(2, sn, req);
  }

  lemma SentValsAre(sn: u32, req: bool, noti: bool)
    ensures EncAll(SentVals(sn, req, noti)) == EncHeader(Sent(sn, req, noti))
  {
    PairsAre(3, sn, req);
    var vs := [VLen(3), VString(SN), VUint32(sn), VString(REQ), VBool(req)];
    OneMorePair(vs, Reply(sn, req), Encode(3), NOTI, VBool(noti), Noti(noti));
    assert vs + [VString(NOTI), VBool(noti)] == SentVals(sn, req, noti);
    assert Reply(sn, req) + [Noti(noti)] == Sent(sn, req, noti);
  }

  // ---- Sending ----

  // zipc_parse_init_buf; the buffer is not emptied
  method InitBuf(buf: ZBuf, appType: nat)
    requires Room(buf, ZIPC_HEAD_LEN) && appType < 0x1_0000
    modifies buf, buf.data
    ensures Keeps(buf) && buf.Contents() == old(buf.Contents()) + Head(appType) && buf.offset == 0
  {
    buf.offset := 0;
    var _ := buf.Append(Head(appType));
  }

  // The capacities of a buffer that is appended to
  twostate predicate Keeps(buf: ZBuf)
    requires old(buf.Valid())
    reads buf, buf.data
  {
    && buf.Valid() && buf.maxlen >= old(buf.maxlen) && buf.data.Length >= old(buf.data.Length)
    && (buf.data == old(buf.data) || fresh(buf.data)) && (old(buf.grown) ==> buf.grown)
  }

  // zipc_encode_common_hdr; sn is the number from zcrt_unique_id
  method EncodeCommonHdr(buf: ZBuf, sn: u32, req: bool, noti: bool)
    requires Room(buf, 71)
    modifies buf, buf.data
    ensures Grown(buf, EncHeader(Sent(sn, req, noti))) && |EncHeader(Sent(sn, req, noti))| <= 71
  {
    SentNeeds(sn, req, noti);
    EncAllWithinNeed(SentVals(sn, req, noti));
    SentValsAre(sn, req, noti);
    PutAll(buf, SentVals(sn, req, noti));
  }

  // zipc_parse_put_reply_commonhdr
  method PutReplyCommonHdr(buf: ZBuf, ch: MsgCH, req: bool)
    requires Room(buf, 50)
    modifies buf, buf.data
    ensures Grown(buf, EncHeader(Reply(ch.sn, req)))
  {
    ReplyNeeds(ch.sn, req);
    ReplyValsAre(ch.sn, req);
    PutAll(buf, ReplyVals(ch.sn, req));
  }

  lemma PairNeeds(k: seq<u8>, v: Val)
    requires !v.VString?
    ensures NeedAll([VString(k), v]) == 17 + |k|
  {
    assert [VString(k), v][1..] == [v] && [v][1..] == [];
    assert NeedAll([v]) == 11 + NeedAll([]);
  }

  lemma NumberAndPairNeed(n: u32, sn: u32, req: bool)
    ensures NeedAll([VLen(n), VString(SN), VUint32(sn), VString(REQ), VBool(req)]) == 50
  {
    var a, b, c := [VLen(n)], [VString(SN), VUint32(sn)], [VString(REQ), VBool(req)];
    assert a[1..] == [];
    PairNeeds(SN, VUint32(sn));
    PairNeeds(REQ, VBool(req));
    NeedAllConcat(a, b);
    NeedAllConcat(a + b, c);
    assert a + b + c == [VLen(n), VString(SN), VUint32(sn), VString(REQ), VBool(req)];
  }

  lemma ReplyNeeds(sn: u32, req: bool)
    ensures NeedAll(ReplyVals(sn, req)) == 50
  {
    NumberAndPairNeed(2, sn, req);
  }

  lemma SentNeeds(sn: u32, req: bool, noti: bool)
    ensures NeedAll(SentVals(sn, req, noti)) == 71
  {
    NumberAndPairNeed(3, sn, req);
    PairNeeds(NOTI, VBool(noti));
    var vs := [VLen(3), VString(SN), VUint32(sn), VString(REQ), VBool(req)];
    NeedAllConcat(vs, [VString(NOTI), VBool(noti)]);
    assert vs + [VString(NOTI), VBool(noti)] == SentVals(sn, req, noti);
  }

  lemma {:induction false} NeedAllConcat(a: seq<Val>, b: seq<Val>)
    ensures NeedAll(a + b) == NeedAll(a) + NeedAll(b)
  {
    if a == [] {
      assert a + b == b;
    } else {
      assert (a + b)[1..] == a[1..] + b;
      NeedAllConcat(a[1..], b);
    }
  }

  // rhdr->payloadSize = htonl(size), at the front of the block
  method PatchSize(buf: ZBuf, size: u32)
    requires buf.Valid() && buf.len >= ZIPC_HEAD_LEN
    modifies buf.data
    ensures buf.Valid() && buf.Contents() == Patched(old(buf.Contents()), size)
  {
    ghost var was := buf.Contents();
    var bytes := Htonl(size);
    buf.data[6], buf.data[7], buf.data[8], buf.data[9] := bytes[0], bytes[1], bytes[2], bytes[3];
    assert buf.Contents() == was[..6] + bytes + was[ZIPC_HEAD_LEN..];
  }

  lemma BodyNeeds(evtid: u32)
    ensures NeedAll(EventBody(evtid)) == 44
  {
    var vs := EventBody(evtid);
    var a, b := [VLen(2), VInt(1)], [VUint32(evtid), VInt(2)];
    assert vs == a + b;
    NeedAllConcat(a, b);
    assert a[1..] == [VInt(1)] && [VInt(1)][1..] == [] && b[1..] == [VInt(2)] && [VInt(2)][1..] == [];
    assert NeedAll([VInt(1)]) == 11 + NeedAll([]) && NeedAll([VInt(2)]) == 11 + NeedAll([]);
  }

  // Everything of the frame but the encoder's bytes
  method PutFrame(buf: ZBuf, sn: u32, evtid: u32)
    requires Room(buf, 125)
    modifies buf, buf.data
    ensures Keeps(buf) && buf.Contents() == old(buf.Contents()) + Frame(sn, evtid, []) && buf.offset == 0
    ensures |Frame(sn, evtid, [])| <= 125
  {
    ghost var h, b := EncHeader(Sent(sn, false, true)), EncAll(EventBody(evtid));
    BodyNeeds(evtid);
    EncAllWithinNeed(EventBody(evtid));
    InitBuf(buf, ZEIPC_TYPE_LINK);
    EncodeCommonHdr(buf, sn, false, true);
    PutAll(buf, EventBody(evtid));
    FramePieces(old(buf.Contents()), sn, evtid, h, b);
  }

  lemma FramePieces(was: seq<u8>, sn: u32, evtid: u32, h: seq<u8>, b: seq<u8>)
    requires h == EncHeader(Sent(sn, false, true)) && b == EncAll(EventBody(evtid))
    ensures was + Head(ZEIPC_TYPE_LINK) + h + b == was + Frame(sn, evtid, [])
    ensures |Frame(sn, evtid, [])| == ZIPC_HEAD_LEN + |h| + |b|
  {
    assert Payload(sn, evtid, []) == h + b;
    Assoc(was, Head(ZEIPC_TYPE_LINK), h);
    Assoc(was, Head(ZEIPC_TYPE_LINK) + h, b);
    Assoc(Head(ZEIPC_TYPE_LINK), h, b);
  }

  lemma FrameData(sn: u32, evtid: u32, data: seq<u8>)
    ensures Frame(sn, evtid, []) + data == Frame(sn, evtid, data)
  {
    assert Payload(sn, evtid, []) + data == Payload(sn, evtid, data);
    Assoc(Head(ZEIPC_TYPE_LINK), Payload(sn, evtid, []), data);
  }

  // What the encoder that was set for the module does with this event: the bytes
  // it appends, and whether it returns 0
  datatype Encoded = Encoded(ok: bool, data: seq<u8>)

  method PutEvent(buf: ZBuf, sn: u32, evtid: u32, data: seq<u8>)
    requires Room(buf, 125 + |data|)
    modifies buf, buf.data
    ensures Keeps(buf) && buf.Contents() == old(buf.Contents()) + Frame(sn, evtid, data) && buf.offset == 0
  {
    PutFrame(buf, sn, evtid);
    var _ := buf.Append(data);
    FrameData(sn, evtid, data);
    Assoc(old(buf.Contents()), Frame(sn, evtid, []), data);
  }

  // The size is filled in when the encoder succeeds.
  function WithEvent(was: seq<u8>, fn: Encoded, sn: u32, evtid: u32): seq<u8>
  {
    var all := was + Frame(sn, evtid, fn.data);
    if fn.ok then Patched(all, U32(|all| - ZIPC_HEAD_LEN)) else all
  }

  // zipc_encode_event; fn is None when no encoder is set.
  method EncodeEvent(buf: ZBuf, fn: Option<Encoded>, sn: u32, evtid: u32) returns (err: int)
    requires Room(buf, 125 + if fn.Some? then |fn.value.data| else 0)
    modifies buf, buf.data
    ensures fn.None? ==> err == ErrCode.IPC_NOT_SUPPORT && unchanged(buf) && unchanged(buf.data)
    ensures fn.Some? ==>
              && err == (if fn.value.ok then ErrCode.SUCCESS else ErrCode.IPC_NOT_SUPPORT)
              && Keeps(buf) && buf.offset == 0
    ensures fn.Some? ==> buf.Contents() == WithEvent(old(buf.Contents()), fn.value, sn, evtid)
    ensures err == if fn.Some? && fn.value.ok then 0 else -77
    ensures fn.Some? && !fn.value.ok ==> buf.Contents() == old(buf.Contents()) + Frame(sn, evtid, fn.value.data)
  {
    if fn.None? {
      return ErrCode.IPC_NOT_SUPPORT;
    }
    PutEvent(buf, sn, evtid, fn.value.data);
    ghost var all := buf.Contents();
    assert buf.len == |all|;
    if fn.value.ok {
      PatchSize(buf, U32(buf.len - ZIPC_HEAD_LEN));
      return ErrCode.SUCCESS;
    }
    return ErrCode.IPC_NOT_SUPPORT;
  }

  // In a cleared buffer the result is one whole event frame.
  method EncodeFresh(buf: ZBuf, fn: Encoded, sn: u32, evtid: u32) returns (ghost o: nat)
    requires Room(buf, 125 + |fn.data|) && fn.ok
    modifies buf, buf.data
    ensures Keeps(buf) && buf.offset == 0 && IsEventFrame(buf.data[..], buf.len, sn, evtid, fn.data, o)
  {
    buf.Clear();
    ghost var was := buf.Contents();
    var _ := EncodeEvent(buf, Some(fn), sn, evtid);
    assert was + Frame(sn, evtid, fn.data) == Frame(sn, evtid, fn.data);
    o := BlockIsFrame(buf, sn, evtid, fn.data);
  }

  lemma BlockIsFrame(buf: ZBuf, sn: u32, evtid: u32, data: seq<u8>) returns (o: nat)
    requires buf.Valid()
    requires buf.Contents() == Patched(Frame(sn, evtid, data), U32(|Frame(sn, evtid, data)| - ZIPC_HEAD_LEN))
    ensures IsEventFrame(buf.data[..], buf.len, sn, evtid, data, o)
  {
    assert buf.data[..][..buf.len] == buf.Contents();
    o := FrameBack(buf.data[..], buf.len, sn, evtid, data);
  }

  // ---- Where the size goes ----

  // The frame behind was gets its size, and keeps the rest of its head, if and
  // only if the buffer was empty; but for one odd length that makes up for one
  // byte in front. With a whole message in front it never does.
  lemma SizeReachesFrame(was: seq<u8>, fn: Encoded, sn: u32, evtid: u32)
    requires fn.ok && |was| + |Frame(sn, evtid, fn.data)| < 0x7FFF_FFFF
    ensures var size := |Payload(sn, evtid, fn.data)|;
            IsHead(WithEvent(was, fn, sn, evtid)[|was|..], ZEIPC_TYPE_LINK, size)
            <==> was == [] || (|was| == 1 && size == 0x0101_0100)
  {
    var p := Payload(sn, evtid, fn.data);
    var n := |was| + |p|;
    var r := WithEvent(was, fn, sn, evtid)[|was|..];
    CastsKeep(n);
    PayloadNotEmpty(sn, evtid, fn.data);
    forall j | 0 <= j < ZIPC_HEAD_LEN ensures r[j] == HeadByte(|was|, n, j) {
      FrameByte(was, fn, sn, evtid, j);
    }
    IsHeadBytes(r, |p|);
    HeadReached(|was|, |p|);
  }

  lemma PayloadNotEmpty(sn: u32, evtid: u32, data: seq<u8>)
    ensures |Payload(sn, evtid, data)| > 0
  {
    var c, e := HeaderPieces(Sent(sn, false, true), EncHeader(Sent(sn, false, true)));
  }

  // Byte j of a head with w bytes in front of it, after n was written to the
  // bytes 6 to 9 of the block
  function HeadByte(w: nat, n: u32, j: nat): u8
    requires j < ZIPC_HEAD_LEN
  {
    if 6 <= w + j < ZIPC_HEAD_LEN then Htonl(n)[w + j - 6] else Head(ZEIPC_TYPE_LINK)[j]
  }

  lemma FrameByte(was: seq<u8>, fn: Encoded, sn: u32, evtid: u32, j: nat)
    requires fn.ok && j < ZIPC_HEAD_LEN && |was| + |Frame(sn, evtid, fn.data)| < 0x7FFF_FFFF
    ensures |was| + j < |WithEvent(was, fn, sn, evtid)|
    ensures WithEvent(was, fn, sn, evtid)[|was| + j] ==
              HeadByte(|was|, |was| + |Payload(sn, evtid, fn.data)|, j)
  {
    var f := Frame(sn, evtid, fn.data);
    assert (was + f)[|was| + j] == f[j] == Head(ZEIPC_TYPE_LINK)[j];
    CastsKeep(|was| + |Payload(sn, evtid, fn.data)|);
  }

  lemma IsHeadBytes(r: seq<u8>, size: nat)
    requires |r| >= ZIPC_HEAD_LEN
    ensures IsHead(r, ZEIPC_TYPE_LINK, size)
            <==> && r[0] as int * 0x100 + r[1] as int == SIGNATURE && r[4] as int * 0x100 + r[5] as int == 1
                 && (r[6] as int * 0x100 + r[7] as int) * 0x1_0000 + r[8] as int * 0x100 + r[9] as int == size
  {
    assert r[6..10][..2] == r[6..8] && r[6..10][2..] == r[8..10];
  }

  // The four bytes of a word
  lemma WordBytes(n: u32)
    ensures var b := Htonl(n); (b[0] as int * 0x100 + b[1] as int) * 0x1_0000 + b[2] as int * 0x100 + b[3] as int == n
  {
    WordBack(n);
    var b := Htonl(n);
    assert b[..2] == [b[0], b[1]] && b[2..] == [b[2], b[3]];
  }

  // The type and size bytes of a head with w bytes in front of it
  ghost predicate TypeAndSize(w: nat, n: u32, size: nat)
  {
    && HeadByte(w, n, 4) as int * 0x100 + HeadByte(w, n, 5) as int == 1
    && (HeadByte(w, n, 6) as int * 0x100 + HeadByte(w, n, 7) as int) * 0x1_0000
       + HeadByte(w, n, 8) as int * 0x100 + HeadByte(w, n, 9) as int == size
  }

  lemma HeadReached(w: nat, size: nat)
    requires 0 < size && w + size < 0x7FFF_FFFF
    ensures TypeAndSize(w, w + size, size) && HeadByte(w, w + size, 0) == 0x47 && HeadByte(w, w + size, 1) == 0x4C
            <==> w == 0 || (w == 1 && size == 0x0101_0100)
  {
    HeadBytes();
    if w == 0 {
      WordBytes(size);
    } else if w < 4 {
      NearFront(w, size);
    } else {
      assert HeadByte(w, w + size, 6) == 0 && HeadByte(w, w + size, 7) == 0;
      assert HeadByte(w, w + size, 8) == 0 && HeadByte(w, w + size, 9) == 0;
    }
  }

  lemma HeadBytes()
    ensures Head(ZEIPC_TYPE_LINK) == [0x47, 0x4C, 0, 0, 0, 1, 0, 0, 0, 0]
  {}

  // One to three bytes in front: the size reaches into the type.
  lemma NearFront(w: nat, size: nat)
    requires 1 <= w <= 3 && 0 < size && w + size < 0x7FFF_FFFF
    ensures TypeAndSize(w, w + size, size) <==> w == 1 && size == 0x0101_0100
    ensures HeadByte(w, w + size, 0) == 0x47 && HeadByte(w, w + size, 1) == 0x4C
  {
    HeadBytes();
    WordBytes(w + size);
  }
}
