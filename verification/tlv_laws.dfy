/**
 Laws of the typed codec: what is put is read back, the integer tags agree,
 and no getter runs more than two bytes past the contents on any input.
 */
module TlvLaws {
  import opened Machine
  import opened Wrappers
  import opened Leb128
  import opened VarInt
  import opened ZBuffer
  import opened TlvFormat

  // ---- One value ----

  // The piece e lies at the cursor, within the contents.
  ghost predicate Holds(mem: seq<u8>, len: nat, off: nat, e: seq<u8>)
  {
    len <= |mem| && len < 0x7FFF_FFFF && off + |e| <= len && mem[off..off + |e|] == e
  }

  lemma HoldsParts(mem: seq<u8>, len: nat, off: nat, e: seq<u8>, f: seq<u8>)
    requires Holds(mem, len, off, e + f)
    ensures Holds(mem, len, off, e) && Holds(mem, len, off + |e|, f)
  {
    assert e == (e + f)[..|e|] && f == (e + f)[|e|..];
  }

  // The scan of a number stops right behind it, and its groups add up.
  lemma ScanBack(max: nat, mem: seq<u8>, len: nat, off: nat, e: seq<u8>)
    requires Terminated(e) && Holds(mem, len, off, e) && 0 < |e| <= max <= 10
    ensures ScanAt(max, mem, len, off) == Done(|e|) && SumAt(mem, off, |e|) == Sum(e)
  {
    SumOf(mem, off, e);
    LimitIsDifference(len, off);
    ScanDone(max, mem, off, len - off, |e|);
  }

  lemma SumOf(mem: seq<u8>, off: nat, e: seq<u8>)
    requires off + |e| <= |mem| && mem[off..off + |e|] == e
    ensures SumAt(mem, off, |e|) == Sum(e)
  {
    SumAtIsSum(mem, off, |e|);
  }

  lemma NumberIs(v: nat, e: seq<u8>)
    requires e == Encode(v)
    ensures Terminated(e) && Sum(e) == v && 0 < |e|
  {
    EncodeTerminated(v);
    SumEncode(v);
  }

  // Below, e is the encoding of a value.

  lemma LenBack(mem: seq<u8>, len: nat, off: nat, v: u32, e: seq<u8>)
    requires e == Encode(v) && Holds(mem, len, off, e)
    ensures Ready(mem, len, off) && GetLen(mem, len, off) == Got(Some(v), off + |e|)
  {
    EncodeFits(v);
    CastsKeep(v);
    NumberIs(v, e);
    ScanBack(NARROW, mem, len, off, e);
  }

  lemma WideBack(mem: seq<u8>, len: nat, off: nat, v: u64)
    requires Holds(mem, len, off, Encode(v))
    ensures GetWide(mem, len, off) == Got(Some(v), off + |Encode(v)|)
  {
    EncodeFits(v);
    CastsKeep(v);
    NumberIs(v, Encode(v));
    ScanBack(WIDE, mem, len, off, Encode(v));
  }

  lemma TagBack(mem: seq<u8>, len: nat, off: nat, tag: u8, e: seq<u8>)
    requires Holds(mem, len, off, [tag] + e)
    ensures Ready(mem, len, off) && TagAt(mem, len, off) == tag && AfterTag(len, off) == off + 1
    ensures Holds(mem, len, off + 1, e)
  {
    HoldsParts(mem, len, off, [tag], e);
  }

  lemma BoolBack(mem: seq<u8>, len: nat, off: nat, v: bool, e: seq<u8>)
    requires e == EncBool(v) && Holds(mem, len, off, e)
    ensures Ready(mem, len, off) && GetBool(mem, len, off) == Got(Some(v), off + |e|)
  {
    TagBack(mem, len, off, e[0], []);
  }

  // The short tag: the int32 getter and the int64 getter both return the value.
  lemma IntBack(mem: seq<u8>, len: nat, off: nat, v: i32, e: seq<u8>)
    requires e == EncInt(v) && Holds(mem, len, off, e)
    ensures Ready(mem, len, off)
    ensures GetInt(mem, len, off) == Got(Some(v), off + |e|) && GetInt64(mem, len, off) == Got(Some(v), off + |e|)
  {
    var u := ZigZag(v);
    TagBack(mem, len, off, ZTLV_INT, Encode(u));
    LenBack(mem, len, off + 1, u, Encode(u));
  }

  // The long tag: the int64 getter returns the value and the int32 getter its
  // low 32 bits, as a signed number.
  lemma LongBack(mem: seq<u8>, len: nat, off: nat, v: i64, e: seq<u8>)
    requires e == EncLong(v) && Holds(mem, len, off, e)
    ensures Ready(mem, len, off)
    ensures GetInt64(mem, len, off) == Got(Some(v), off + |e|) && GetInt(mem, len, off) == Got(Some(S32(v)), off + |e|)
  {
    var u := ZigZag(v);
    TagBack(mem, len, off, ZTLV_INT64, Encode(u));
    WideBack(mem, len, off + 1, u);
  }

  lemma SignedIs(v: i32)
    ensures S32(v) == v
  {}

  // Whichever tag ztlv_put_int64 picks, nothing is lost to ztlv_get_int64, and
  // ztlv_get_int returns the value modulo 2^32.
  lemma Int64Back(mem: seq<u8>, len: nat, off: nat, v: i64, e: seq<u8>)
    requires e == EncInt64(v) && Holds(mem, len, off, e)
    ensures Ready(mem, len, off)
    ensures GetInt64(mem, len, off) == Got(Some(v), off + |e|) && GetInt(mem, len, off) == Got(Some(S32(v)), off + |e|)
  {
    if IsInt32(v) {
      IntBack(mem, len, off, v, e);
      SignedIs(v);
    } else {
      LongBack(mem, len, off, v, e);
    }
  }

  // put/get uint32 is the identity on all 2^32 values, on both sides of the
  // switch between the tags.
  lemma Uint32Back(mem: seq<u8>, len: nat, off: nat, v: u32, e: seq<u8>)
    requires e == EncInt64(v) && Holds(mem, len, off, e)
    ensures Ready(mem, len, off) && GetUint32(mem, len, off) == Got(Some(v), off + |e|)
  {
    Int64Back(mem, len, off, v, e);
    Reinterpret(v);
  }

  // On the int32 range the two tags carry the same payload bytes.
  lemma SamePayload(v: i32)
    ensures EncInt(v)[1..] == EncLong(v)[1..]
    ensures EncInt64(v) == EncInt(v) <==> v != -0x8000_0000
  {
    assert EncInt(v)[1..] == Encode(ZigZag(v));
    assert EncLong(v)[1..] == Encode(ZigZag(v));
    assert EncInt(v)[0] != EncLong(v)[0];
  }

  lemma TableBack(mem: seq<u8>, len: nat, off: nat, n: u32, e: seq<u8>)
    requires e == EncTable(n) && Holds(mem, len, off, e)
    ensures Ready(mem, len, off) && GetTable(mem, len, off) == Got(Some(n), off + |e|)
  {
    TagBack(mem, len, off, ZTLV_TABLE, Encode(n));
    LenBack(mem, len, off + 1, n, Encode(n));
  }

  // A string comes back as the slice that holds it.
  lemma StringBack(mem: seq<u8>, len: nat, off: nat, s: seq<u8>, e: seq<u8>)
    requires e == EncString(s) && Holds(mem, len, off, e)
    ensures Ready(mem, len, off) && |s| <= |e|
    ensures GetString(mem, len, off) == Got(Some(Slice(off + |e| - |s|, |s|)), off + |e|)
    ensures Holds(mem, len, off + |e| - |s|, s)
  {
    var c := StringPieces(s);
    HoldsParts(mem, len, off, [ZTLV_STR] + c, s);
    TagBack(mem, len, off, ZTLV_STR, c);
    LenBack(mem, len, off + 1, |s|, c);
    StrBack(len, off + 1 + |c|, |s|);
  }

  lemma StringPieces(s: seq<u8>) returns (c: seq<u8>)
    ensures c == Encode(|s|) && EncString(s) == [ZTLV_STR] + c + s
  {
    c := Encode(|s|);
  }

  lemma StrBack(len: nat, off: nat, n: nat)
    requires off + n <= len < 0x7FFF_FFFF
    ensures StrAt(len, off, n) == Got(Some(Slice(off, n)), off + n)
  {
    CastsKeep(off + n);
  }

  // ---- Whole sequences ----

  datatype Val =
    | VBool(b: bool) | VInt(i: i32) | VUint32(u: u32) | VInt64(l: i64)
    | VString(s: seq<u8>) | VTable(cnt: u32) | VLen(n: u32)
  {
    function Enc(): seq<u8>
    {
      match this
      case VBool(b) => EncBool(b)
      case VInt(i) => EncInt(i)
      case VUint32(u) => EncInt64(u)
      case VInt64(l) => EncInt64(l)
      case VString(s) => EncString(s)
      case VTable(cnt) => EncTable(cnt)
      case VLen(n) => Encode(n)
    }

    function Kind(): Kind
    {
      match this
      case VBool(_) => KBool
      case VInt(_) => KInt
      case VUint32(_) => KUint32
      case VInt64(_) => KInt64
      case VString(_) => KString
      case VTable(_) => KTable
      case VLen(_) => KLen
    }
  }

  // Which getter is called
  datatype Kind = KBool | KInt | KUint32 | KInt64 | KString | KTable | KLen | KType | KIgnore

  // What a getter hands out: a string is a slice of the memory.
  datatype Item = Plain(v: Val) | Text(at: Slice) | Tag(t: u8) | Nothing

  function Fetch(k: Kind, mem: seq<u8>, len: nat, off: nat): Got<Item>
    requires Ready(mem, len, off)
  {
    match k
    case KBool => GetBool(mem, len, off).Map(v => Plain(VBool(v)))
    case KInt => GetInt(mem, len, off).Map((v: i32) => Plain(VInt(v)))
    case KUint32 => GetUint32(mem, len, off).Map((v: u32) => Plain(VUint32(v)))
    case KInt64 => GetInt64(mem, len, off).Map((v: i64) => Plain(VInt64(v)))
    case KString => GetString(mem, len, off).Map(v => Text(v))
    case KTable => GetTable(mem, len, off).Map((v: u32) => Plain(VTable(v)))
    case KLen => GetLen(mem, len, off).Map((v: u32) => Plain(VLen(v)))
    case KType => Got(Some(Tag(TagAt(mem, len, off))), AfterTag(len, off))
    case KIgnore => GetIgnore(mem, len, off).Map(_ => Nothing)
  }

  // The item is the value v, or a slice that holds it.
  ghost predicate Denotes(mem: seq<u8>, len: nat, item: Item, v: Val)
  {
    match item
    case Plain(w) => w == v
    case Text(at) => v.VString? && at.len == |v.s| && Holds(mem, len, at.pos, v.s)
    case _ => false
  }

  // The getter of its type reads the value v at off and ends at next.
  ghost predicate ComesBack(v: Val, mem: seq<u8>, len: nat, off: nat, next: nat)
  {
    && Ready(mem, len, off)
    && var g := Fetch(v.Kind(), mem, len, off);
       g.Got? && g.off == next && g.value.Some? && Denotes(mem, len, g.value.value, v)
  }

  lemma FetchBack(mem: seq<u8>, len: nat, off: nat, v: Val, e: seq<u8>, next: nat)
    requires e == v.Enc() && Holds(mem, len, off, e) && next == off + |e|
    ensures ComesBack(v, mem, len, off, next)
  {
    match v
    case VBool(b) => BoolBack(mem, len, off, b, e);
    case VString(s) => StringBack(mem, len, off, s, e);
    case VTable(cnt) => TableBack(mem, len, off, cnt, e);
    case VLen(n) => LenBack(mem, len, off, n, e);
    case _ => IntegerBack(mem, len, off, v, e, next);
  }

  lemma IntegerBack(mem: seq<u8>, len: nat, off: nat, v: Val, e: seq<u8>, next: nat)
    requires v.VInt? || v.VUint32? || v.VInt64?
    requires e == v.Enc() && Holds(mem, len, off, e) && next == off + |e|
    ensures ComesBack(v, mem, len, off, next)
  {
    match v
    case VInt(i) => IntBack(mem, len, off, i, e);
    case VUint32(u) => Uint32Back(mem, len, off, u, e);
    case VInt64(l) => Int64Back(mem, len, off, l, e);
  }

  function EncAll(vs: seq<Val>): seq<u8>
  {
    if vs == [] then [] else vs[0].Enc() + EncAll(vs[1..])
  }

  function Kinds(vs: seq<Val>): seq<Kind>
  {
    if vs == [] then [] else [vs[0].Kind()] + Kinds(vs[1..])
  }

  ghost predicate AllDenote(mem: seq<u8>, len: nat, items: seq<Item>, vs: seq<Val>)
  {
    if vs == [] then items == []
    else items != [] && Denotes(mem, len, items[0], vs[0]) && AllDenote(mem, len, items[1..], vs[1..])
  }

  // Getters called one after the other, as long as they return a value
  function FetchAll(ks: seq<Kind>, mem: seq<u8>, len: nat, off: nat): Got<seq<Item>>
    requires Ready(mem, len, off)
  {
    if ks == [] then Got(Some([]), off)
    else
      var g := Fetch(ks[0], mem, len, off);
      FetchCursor(ks[0], mem, len, off);
      match g
      case Outside => Outside
      case Got(None, o) => Got(None, o)
      case Got(Some(x), o) => Prepend([x], FetchAll(ks[1..], mem, len, o))
  }

  // The getters of the same types return these values and end at end.
  ghost predicate ReadsAll(vs: seq<Val>, mem: seq<u8>, len: nat, off: nat, end: nat)
    requires Ready(mem, len, off)
  {
    var g := FetchAll(Kinds(vs), mem, len, off);
    g.Got? && g.off == end && g.value.Some? && AllDenote(mem, len, g.value.value, vs)
  }

  // The main theorem of the codec: any sequence of values that was put, with
  // anything before it and anything behind it, is read back by the getters of
  // the same types as the same values, up to exactly where it ends.
  lemma {:induction false} RoundTrip(vs: seq<Val>, mem: seq<u8>, len: nat, off: nat)
    requires Holds(mem, len, off, EncAll(vs))
    ensures ReadsAll(vs, mem, len, off, off + |EncAll(vs)|)
  {
    if vs != [] {
      var next := Peel(vs, mem, len, off);
      RoundTrip(vs[1..], mem, len, next);
      ReadsCons(vs, mem, len, off, next, off + |EncAll(vs)|);
    }
  }

  lemma Peel(vs: seq<Val>, mem: seq<u8>, len: nat, off: nat) returns (next: nat)
    requires vs != [] && Holds(mem, len, off, EncAll(vs))
    ensures next + |EncAll(vs[1..])| == off + |EncAll(vs)|
    ensures Holds(mem, len, next, EncAll(vs[1..])) && ComesBack(vs[0], mem, len, off, next)
  {
    var e;
    e, next := PieceParts(vs, mem, len, off);
    FetchBack(mem, len, off, vs[0], e, next);
  }

  lemma PieceParts(vs: seq<Val>, mem: seq<u8>, len: nat, off: nat) returns (e: seq<u8>, next: nat)
    requires vs != [] && Holds(mem, len, off, EncAll(vs))
    ensures e == vs[0].Enc() && Holds(mem, len, off, e) && next == off + |e|
    ensures Holds(mem, len, next, EncAll(vs[1..])) && next + |EncAll(vs[1..])| == off + |EncAll(vs)|
  {
    var rest;
    e, rest := FirstPiece(vs);
    next := off + |e|;
    HoldsParts(mem, len, off, e, rest);
  }

  lemma FirstPiece(vs: seq<Val>) returns (e: seq<u8>, rest: seq<u8>)
    requires vs != []
    ensures e == vs[0].Enc() && rest == EncAll(vs[1..]) && EncAll(vs) == e + rest
  {
    e, rest := vs[0].Enc(), EncAll(vs[1..]);
  }

  lemma ReadsCons(vs: seq<Val>, mem: seq<u8>, len: nat, off: nat, next: nat, end: nat)
    requires vs != [] && ComesBack(vs[0], mem, len, off, next)
    requires Ready(mem, len, next) && ReadsAll(vs[1..], mem, len, next, end)
    ensures ReadsAll(vs, mem, len, off, end)
  {
    var g := Fetch(vs[0].Kind(), mem, len, off);
    assert Kinds(vs)[0] == vs[0].Kind() && Kinds(vs)[1..] == Kinds(vs[1..]);
    var rest := FetchAll(Kinds(vs[1..]), mem, len, g.off);
    assert FetchAll(Kinds(vs), mem, len, off) == Got(Some([g.value.value] + rest.value.value), end);
    assert ([g.value.value] + rest.value.value)[1..] == rest.value.value;
  }

  // ---- Arbitrary input ----

  lemma FetchCursor(k: Kind, mem: seq<u8>, len: nat, off: nat)
    requires Ready(mem, len, off)
    ensures var g := Fetch(k, mem, len, off); g.Got? ==> g.off <= len + 2
  {
    var o := AfterTag(len, off);
    CursorBound(NARROW, mem, len, o);
    CursorBound(WIDE, mem, len, o);
    CursorBound(NARROW, mem, len, off);
    IgnoreCursor(mem, len, off);
  }

  lemma IgnoreCursor(mem: seq<u8>, len: nat, off: nat)
    requires Ready(mem, len, off)
    ensures var g := GetIgnore(mem, len, off); g.Got? ==> g.off <= len + 2
  {
    var o := AfterTag(len, AfterTag(len, off));
    CursorBound(NARROW, mem, len, o);
    CursorBound(WIDE, mem, len, o);
  }

  // Two bytes behind the contents are all that a number reader may look at.
  lemma ScanAtBounded(max: nat, mem: seq<u8>, len: nat, off: nat)
    requires max <= 10 && Ready(mem, len, off) && len + 2 <= |mem|
    ensures ScanAt(max, mem, len, off) != Overrun
    ensures ScanAt(max, mem, len, off) == ScanAt(max, mem[..len + 2], len, off)
  {
    LimitIsDifference(len, off);
    ScanBounded(max, mem, off, 0, len - off);
  }

  lemma NumbersBounded(mem: seq<u8>, len: nat, off: nat)
    requires Ready(mem, len, off) && len + 2 <= |mem|
    ensures GetLen(mem, len, off) == GetLen(mem[..len + 2], len, off) != Outside
    ensures GetWide(mem, len, off) == GetWide(mem[..len + 2], len, off) != Outside
  {
    ScanAtBounded(NARROW, mem, len, off);
    ScanAtBounded(WIDE, mem, len, off);
    CursorBound(NARROW, mem, len, off);
    CursorBound(WIDE, mem, len, off);
    var n, w := ScanAt(NARROW, mem, len, off), ScanAt(WIDE, mem, len, off);
    if n.Done? { SumAtPrefix(mem, off, n.n, len + 2); }
    if w.Done? { SumAtPrefix(mem, off, w.n, len + 2); }
  }

  lemma {:induction false} SumAtPrefix(mem: seq<u8>, p: nat, n: nat, len: nat)
    requires p + n <= len <= |mem|
    ensures SumAt(mem[..len], p, n) == SumAt(mem, p, n)
    decreases n
  {
    if n > 0 { SumAtPrefix(mem, p, n - 1, len); }
  }

  lemma GettersBounded(mem: seq<u8>, len: nat, off: nat)
    requires Ready(mem, len, off) && len + 2 <= |mem|
    ensures GetLen(mem, len, off) == GetLen(mem[..len + 2], len, off) != Outside
    ensures GetBool(mem, len, off) == GetBool(mem[..len + 2], len, off) != Outside
    ensures GetInt(mem, len, off) == GetInt(mem[..len + 2], len, off) != Outside
    ensures GetString(mem, len, off) == GetString(mem[..len + 2], len, off) != Outside
    ensures GetTable(mem, len, off) == GetTable(mem[..len + 2], len, off) != Outside
  {
    NumbersBounded(mem, len, off);
    NumbersBounded(mem, len, AfterTag(len, off));
    assert TagAt(mem, len, off) == TagAt(mem[..len + 2], len, off);
  }

  lemma FetchBounded(k: Kind, mem: seq<u8>, len: nat, off: nat)
    requires Ready(mem, len, off) && len + 2 <= |mem|
    ensures Fetch(k, mem, len, off) == Fetch(k, mem[..len + 2], len, off) != Outside
  {
    GettersBounded(mem, len, off);
    if k == KIgnore {
      IgnoreBounded(mem, len, off);
    } else if k == KInt64 {
      Int64Bounded(mem, len, off);
    } else if k == KType {
      assert TagAt(mem, len, off) == TagAt(mem[..len + 2], len, off);
    }
  }

  lemma Int64Bounded(mem: seq<u8>, len: nat, off: nat)
    requires Ready(mem, len, off) && len + 2 <= |mem|
    ensures GetInt64(mem, len, off) == GetInt64(mem[..len + 2], len, off) != Outside
  {
    NumbersBounded(mem, len, AfterTag(len, off));
    assert TagAt(mem, len, off) == TagAt(mem[..len + 2], len, off);
  }

  lemma IgnoreBounded(mem: seq<u8>, len: nat, off: nat)
    requires Ready(mem, len, off) && len + 2 <= |mem|
    ensures GetIgnore(mem, len, off) == GetIgnore(mem[..len + 2], len, off) != Outside
  {
    var o := AfterTag(len, off);
    assert TagAt(mem, len, off) == TagAt(mem[..len + 2], len, off);
    assert TagAt(mem, len, o) == TagAt(mem[..len + 2], len, o);
    NumbersBounded(mem, len, AfterTag(len, o));
  }

  // Getters called one after the other, whatever they return: after a failure
  // the next one goes on from where the cursor was left.
  function FetchOn(ks: seq<Kind>, mem: seq<u8>, len: nat, off: nat): Got<seq<Option<Item>>>
    requires Ready(mem, len, off)
  {
    if ks == [] then Got(Some([]), off)
    else
      var g := Fetch(ks[0], mem, len, off);
      FetchCursor(ks[0], mem, len, off);
      match g
      case Outside => Outside
      case Got(r, o) => Prepend([r], FetchOn(ks[1..], mem, len, o))
  }

  // On any bytes, any run of getters stays in the block when the block is two
  // bytes longer than the contents, depends on nothing behind those two bytes,
  // and leaves the cursor at most two bytes behind the contents.
  lemma {:induction false} RunBounded(ks: seq<Kind>, mem: seq<u8>, len: nat, off: nat)
    requires Ready(mem, len, off) && len + 2 <= |mem|
    ensures var g := FetchOn(ks, mem, len, off);
            g == FetchOn(ks, mem[..len + 2], len, off) && g.Got? && g.value.Some? && g.off <= len + 2
  {
    if ks != [] {
      FetchBounded(ks[0], mem, len, off);
      FetchCursor(ks[0], mem, len, off);
      RunBounded(ks[1..], mem, len, Fetch(ks[0], mem, len, off).off);
    }
  }

  // A buffer that has been grown always has the two bytes.
  lemma GrownHasSlack(buf: ZBuf)
    requires buf.Valid() && buf.grown
    ensures Ready(buf.data[..], buf.len, buf.offset) && buf.len + 2 <= |buf.data[..]|
  {}

  // So every run of getters on it stays inside its block, whatever the bytes are.
  lemma GrownStaysInside(buf: ZBuf, ks: seq<Kind>)
    requires buf.Valid() && buf.grown
    ensures var g := FetchOn(ks, buf.data[..], buf.len, buf.offset);
            g.Got? && g.value.Some? && |g.value.value| == |ks| && g.off <= buf.len + 2 <= buf.data.Length
  {
    GrownHasSlack(buf);
    RunBounded(ks, buf.data[..], buf.len, buf.offset);
    OneEach(ks, buf.data[..], buf.len, buf.offset);
  }

  lemma {:induction false} OneEach(ks: seq<Kind>, mem: seq<u8>, len: nat, off: nat)
    requires Ready(mem, len, off)
    ensures var g := FetchOn(ks, mem, len, off); g.Got? && g.value.Some? ==> |g.value.value| == |ks|
  {
    if ks != [] {
      var g := Fetch(ks[0], mem, len, off);
      FetchCursor(ks[0], mem, len, off);
      if g.Got? { OneEach(ks[1..], mem, len, g.off); }
    }
  }

  // A number of nine zero groups behind a tag
  const NINE: seq<u8> := [ZTLV_INT64, 0x80, 0x80, 0x80, 0x80, 0x80, 0x80, 0x80, 0x80, 0]

  lemma NineIsRead()
    ensures ScanAt(WIDE, NINE, 8, 1) == Done(9) && SumAt(NINE, 1, 9) == 0
  {
    LimitIsDifference(8, 1);
    ScanDone(WIDE, NINE, 1, 7, 9);
    assert NINE[1..10] == [0x80, 0x80, 0x80, 0x80, 0x80, 0x80, 0x80, 0x80, 0];
    SumOfZeros(NINE[1..10]);
    SumAtIsSum(NINE, 1, 9);
  }

  lemma OneShortOverruns()
    ensures ScanAt(WIDE, NINE[..9], 8, 1) == Overrun
  {
    LimitIsDifference(8, 1);
    RunsOut(WIDE, NINE[..9], 1, 0, 7);
  }

  // A scan that finds only continuation bits leaves a block that is too short.
  lemma {:induction false} RunsOut(max: nat, mem: seq<u8>, p: nat, k: nat, limit: int)
    requires p + k <= |mem| < p + max && forall i :: p + k <= i < |mem| ==> mem[i] >= 0x80
    requires forall i: nat :: i <= |mem| - p ==> Fetches(i, limit)
    ensures ScanFrom(max, mem, p, k, limit) == Overrun
    decreases max - k
  {
    if p + k < |mem| { RunsOut(max, mem, p, k + 1, limit); }
  }

  // Neither bound can be lowered: this 64-bit number ends two bytes behind the
  // eight bytes of contents, and is out of reach of a block one byte shorter.
  lemma SlackIsNeeded()
    ensures Fetch(KInt64, NINE, 8, 0) == Got(Some(Plain(VInt64(0))), 10)
    ensures Fetch(KInt64, NINE[..9], 8, 0) == Outside
  {
    NineIsRead();
    OneShortOverruns();
  }

  lemma {:induction false} SumOfZeros(s: seq<u8>)
    requires forall i :: 0 <= i < |s| ==> s[i] % 0x80 == 0
    ensures Sum(s) == 0
  {
    if s != [] { SumOfZeros(s[1..]); }
  }

  // On success the slice of ztlv_get_string lies in the contents exactly when
  // the declared length does not carry the 32-bit cursor sum past 2^32.
  lemma SliceInside(len: nat, off: nat, n: u32)
    requires len < 0x7FFF_FFFF && off <= len + 2
    requires StrAt(len, off, n).value.Some?
    ensures off + n <= len <==> off + n < 0x1_0000_0000
  {}

  // Such a length can be received: six bytes that give a slice of almost 2^32
  // bytes, and put the cursor before the end of its length.
  lemma SliceCanWrap()
    ensures GetString([ZTLV_STR, 0xFF, 0xFF, 0xFF, 0xFF, 0x0F, 0, 0], 6, 0) == Got(Some(Slice(6, 0xFFFF_FFFF)), 5)
  {
    var mem: seq<u8> := [ZTLV_STR, 0xFF, 0xFF, 0xFF, 0xFF, 0x0F, 0, 0];
    var n: seq<u8> := [0xFF, 0xFF, 0xFF, 0xFF, 0x0F];
    LimitIsDifference(6, 1);
    assert mem[1..6] == n;
    ScanDone(NARROW, mem, 1, 5, 5);
    SumAtIsSum(mem, 1, 5);
    assert Sum(n) == 0xFFFF_FFFF by {
      assert n[1..][1..][1..][1..] == [0x0F] && Sum([0x0F]) == 0x0F;
      assert Sum(n[1..][1..][1..]) == 0x7F + 0x80 * 0x0F;
      assert Sum(n[1..][1..]) == 0x7F + 0x80 * (0x7F + 0x80 * 0x0F);
    }
  }
}
