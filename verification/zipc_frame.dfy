/**
 The frame of an event message: a fixed head, the common header, and a table of
 the event id and its data.
 */
module ZipcFrame {
  import opened Machine
  import opened Wrappers
  import opened Leb128
  import opened TlvFormat
  import opened TlvLaws
  import opened ZipcHeader

  const ZIPC_HEAD_LEN: nat := 10
  const ZEIPC_TYPE_LINK: nat := 1

  // ---- Network byte order ----

  function Htons(x: nat): (r: seq<u8>)
    requires x < 0x1_0000
    ensures |r| == 2
  {
    [U8(x / 0x100), U8(x)]
  }

  function Htonl(x: u32): (r: seq<u8>)
    ensures |r| == 4
  {
    Htons(x / 0x1_0000) + Htons(x % 0x1_0000)
  }

  function Ntohs(s: seq<u8>): (x: nat)
    requires |s| == 2
    ensures x < 0x1_0000
  {
    s[0] as int * 0x100 + s[1] as int
  }

  function Ntohl(s: seq<u8>): nat
    requires |s| == 4
  {
    Ntohs(s[..2]) * 0x1_0000 + Ntohs(s[2..])
  }

  lemma ShortBack(x: nat)
    requires x < 0x1_0000
    ensures Ntohs(Htons(x)) == x
  {}

  lemma WordBack(y: u32)
    ensures Ntohl(Htonl(y)) == y
  {
    ShortBack(y / 0x1_0000);
    ShortBack(y % 0x1_0000);
    var s := Htonl(y);
    assert s[..2] == Htons(y / 0x1_0000) && s[2..] == Htons(y % 0x1_0000);
  }

  // ---- The head ----

  // s_zipc_sig
  const SIGNATURE: nat := 0x47 * 0x100 + 0x4C

  // signature, version, appType, payloadSize, as zipc_parse_init_buf fills them
  function Head(appType: nat): (h: seq<u8>)
    requires appType < 0x1_0000
    ensures |h| == ZIPC_HEAD_LEN
  {
    Htons(SIGNATURE) + [0, 0] + Htons(appType) + [0, 0, 0, 0]
  }

  // zipc_parse_check_hdr
  predicate CheckHdr(mem: seq<u8>)
    requires |mem| >= ZIPC_HEAD_LEN
  {
    Ntohs(mem[0..2]) == SIGNATURE
  }

  // payloadSize = n, at the front of the block
  function Patched(s: seq<u8>, n: u32): (r: seq<u8>)
    requires |s| >= ZIPC_HEAD_LEN
    ensures |r| == |s|
  {
    s[..6] + Htonl(n) + s[ZIPC_HEAD_LEN..]
  }

  // ---- The event frame ----

  // The table {1=evtid, 2=...}, up to its second value
  function EventBody(evtid: u32): seq<Val>
  {
    [VLen(2), VInt(1), VUint32(evtid), VInt(2)]
  }

  function Payload(sn: u32, evtid: u32, data: seq<u8>): seq<u8>
  {
    EncHeader(Sent(sn, false, true)) + EncAll(EventBody(evtid)) + data
  }

  // What zipc_encode_event appends
  function Frame(sn: u32, evtid: u32, data: seq<u8>): (f: seq<u8>)
    ensures |f| == ZIPC_HEAD_LEN + |Payload(sn, evtid, data)|
  {
    Head(ZEIPC_TYPE_LINK) + Payload(sn, evtid, data)
  }

  // The head tells the kind of the message and the exact number of bytes behind
  // it.
  ghost predicate IsHead(mem: seq<u8>, appType: nat, size: nat)
    requires |mem| >= ZIPC_HEAD_LEN
  {
    CheckHdr(mem) && Ntohs(mem[4..6]) == appType && Ntohl(mem[6..10]) == size
  }

  // The common header says that this is no request but a notification, and the
  // body has two entries, the first the event id, the second the data.
  ghost predicate IsEventPayload(mem: seq<u8>, len: nat, off: nat, sn: u32, evtid: u32, data: seq<u8>, o: nat)
    requires Ready(mem, len, off) && Ready(mem, len, o) && |data| <= len
  {
    && ParseHeader(mem, len, off) == Parsed(true, Hdr(sn, false, true), o)
    && ReadsAll([VLen(2), VInt(1), VUint32(evtid), VInt(2)], mem, len, o, len - |data|)
    && Holds(mem, len, len - |data|, data)
  }

  // "GL", version 0.0, type 1, and the size of what follows, high byte first
  ghost predicate SizeAt(mem: seq<u8>, size: nat)
    requires |mem| >= 10
  {
    mem[6] as int * 0x100_0000 + mem[7] as int * 0x1_0000 + mem[8] as int * 0x100 + mem[9] as int == size
  }

  // The whole buffer is one event frame.
  ghost predicate IsEventFrame(mem: seq<u8>, len: nat, sn: u32, evtid: u32, data: seq<u8>, o: nat)
  {
    && len >= ZIPC_HEAD_LEN && |data| <= len
    && Ready(mem, len, ZIPC_HEAD_LEN) && Ready(mem, len, o)
    && IsHead(mem, ZEIPC_TYPE_LINK, len - ZIPC_HEAD_LEN)
    && mem[..6] == [0x47, 0x4C, 0, 0, 0, 1] && SizeAt(mem, len - 10)
    && IsEventPayload(mem, len, ZIPC_HEAD_LEN, sn, evtid, data, o)
  }

  lemma HeadBack(mem: seq<u8>, len: nat, p: seq<u8>)
    requires ZIPC_HEAD_LEN <= len <= |mem| && len - ZIPC_HEAD_LEN == |p| < 0x1_0000_0000
    requires mem[..len] == Patched(Head(ZEIPC_TYPE_LINK) + p, |p|)
    ensures IsHead(mem, ZEIPC_TYPE_LINK, |p|) && SizeAt(mem, |p|) && mem[..6] == [0x47, 0x4C, 0, 0, 0, 1]
    ensures mem[10..len] == p
  {
    var s := Head(ZEIPC_TYPE_LINK) + p;
    assert forall i :: 0 <= i < len ==> mem[i] == mem[..len][i];
    assert mem[0..2] == Htons(SIGNATURE);
    assert mem[4..6] == Htons(ZEIPC_TYPE_LINK);
    assert mem[6..10] == Htonl(|p|);
    assert mem[ZIPC_HEAD_LEN..len] == mem[..len][ZIPC_HEAD_LEN..] == s[ZIPC_HEAD_LEN..] == p;
    ShortBack(SIGNATURE);
    ShortBack(ZEIPC_TYPE_LINK);
    WordBack(|p|);
  }

  lemma FrameBack(mem: seq<u8>, len: nat, sn: u32, evtid: u32, data: seq<u8>) returns (o: nat)
    requires len == |Frame(sn, evtid, data)| && Ready(mem, len, 0)
    requires mem[..len] == Patched(Frame(sn, evtid, data), U32(len - ZIPC_HEAD_LEN))
    ensures IsEventFrame(mem, len, sn, evtid, data, o)
  {
    var p := Payload(sn, evtid, data);
    CastsKeep(|p|);
    HeadBack(mem, len, p);
    o := PayloadBack(mem, len, sn, evtid, data, p);
  }

  lemma PayloadBack(mem: seq<u8>, len: nat, sn: u32, evtid: u32, data: seq<u8>, p: seq<u8>) returns (o: nat)
    requires p == Payload(sn, evtid, data) && Holds(mem, len, ZIPC_HEAD_LEN, p) && ZIPC_HEAD_LEN + |p| == len
    ensures Ready(mem, len, ZIPC_HEAD_LEN) && Ready(mem, len, o)
            && IsEventPayload(mem, len, ZIPC_HEAD_LEN, sn, evtid, data, o)
  {
    o := HeaderThenBody(mem, len, ZIPC_HEAD_LEN, Sent(sn, false, true), EventBody(evtid), data, p);
    FoldOfSent(sn, false, true);
  }

  // Any header, any body and any data behind it are taken apart again.
  lemma HeaderThenBody(mem: seq<u8>, len: nat, off: nat, es: seq<Entry>, vs: seq<Val>, data: seq<u8>, p: seq<u8>)
      returns (o: nat)
    requires p == EncHeader(es) + EncAll(vs) + data && |es| < 0x1_0000_0000
    requires Holds(mem, len, off, p) && off + |p| == len
    ensures Ready(mem, len, off) && Ready(mem, len, o)
    ensures ParseHeader(mem, len, off) == Parsed(true, Fold(ZERO, es), o)
    ensures |data| <= len && ReadsAll(vs, mem, len, o, len - |data|) && Holds(mem, len, len - |data|, data)
  {
    var h;
    h, o := HeaderAndBody(mem, len, off, es, vs, data, p);
    HeaderBack(es, mem, len, off, h, o);
    RoundTrip(vs, mem, len, o);
  }

  lemma HeaderAndBody(mem: seq<u8>, len: nat, off: nat, es: seq<Entry>, vs: seq<Val>, data: seq<u8>, p: seq<u8>)
      returns (h: seq<u8>, o: nat)
    requires p == EncHeader(es) + EncAll(vs) + data && Holds(mem, len, off, p) && off + |p| == len
    ensures h == EncHeader(es) && Holds(mem, len, off, h) && o == off + |h|
    ensures Holds(mem, len, o, EncAll(vs)) && |data| <= len && o + |EncAll(vs)| == len - |data|
    ensures Holds(mem, len, len - |data|, data)
  {
    h := EncHeader(es);
    var b := EncAll(vs);
    o := off + |h|;
    HoldsParts(mem, len, off, h + b, data);
    HoldsParts(mem, len, off, h, b);
  }
}
