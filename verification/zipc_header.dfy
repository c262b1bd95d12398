/**
 The common header of a message: a count, and then as many entries of a key and
 a value, in any order. What zipc_parse_common_hdr makes of it.
 */
module ZipcHeader {
  import opened Machine
  import opened Wrappers
  import opened Leb128
  import opened ZBuffer
  import opened TlvFormat
  import opened TlvLaws

  const SN: seq<u8> := [0x73, 0x6E]
  const REQ: seq<u8> := [0x72, 0x65, 0x71]
  const NOTI: seq<u8> := [0x6E, 0x6F, 0x74, 0x69]

  datatype Hdr = Hdr(sn: u32, req: bool, noti: bool)
  const ZERO: Hdr := Hdr(0, false, false)

  // ---- Entries ----

  // The serial number may come with either integer tag.
  datatype Entry = Sn(v: i32) | SnLong(w: i64) | Req(b: bool) | Noti(n: bool)
  {
    function Key(): seq<u8>
    {
      match this
      case Sn(_) => SN
      case SnLong(_) => SN
      case Req(_) => REQ
      case Noti(_) => NOTI
    }

    function Value(): seq<u8>
    {
      match this
      case Sn(v) => EncInt(v)
      case SnLong(w) => EncLong(w)
      case Req(b) => EncBool(b)
      case Noti(n) => EncBool(n)
    }

    function Enc(): seq<u8> { EncString(Key()) + Value() }

    function Set(h: Hdr): Hdr
    {
      match this
      case Sn(v) => h.(sn := U32(v))
      case SnLong(w) => h.(sn := U32(w))
      case Req(b) => h.(req := b)
      case Noti(n) => h.(noti := n)
    }
  }

  function EncEntries(es: seq<Entry>): seq<u8>
  {
    if es == [] then [] else es[0].Enc() + EncEntries(es[1..])
  }

  function Fold(h: Hdr, es: seq<Entry>): Hdr
    decreases |es|
  {
    if es == [] then h else Fold(es[0].Set(h), es[1..])
  }

  // ---- The parser ----

  // Beyond when a getter would leave the memory
  datatype Parsed = Parsed(ok: bool, h: Hdr, off: nat) | Beyond

  // zstr_buf_cmp(...) == 0
  predicate KeyIs(mem: seq<u8>, s: Slice, key: seq<u8>)
  {
    s.len == |key| && s.pos + s.len <= |mem| && mem[s.pos..s.pos + s.len] == key
  }

  function ParseEntry(mem: seq<u8>, len: nat, off: nat, h: Hdr): (r: Parsed)
    requires Ready(mem, len, off)
    ensures r.Parsed? ==> r.off <= len + 2
  {
    FetchCursor(KString, mem, len, off);
    match GetString(mem, len, off)
    case Outside => Beyond
    case Got(None, o) => Parsed(false, h, o)
    case Got(Some(s), o) => ParseValue(mem, len, o, s, h)
  }

  // What follows the key s
  function ParseValue(mem: seq<u8>, len: nat, off: nat, s: Slice, h: Hdr): (r: Parsed)
    requires Ready(mem, len, off)
    ensures r.Parsed? ==> r.off <= len + 2
  {
    if KeyIs(mem, s, SN) then TakeSn(mem, len, off, h)
    else if KeyIs(mem, s, REQ) then TakeReq(mem, len, off, h)
    else if KeyIs(mem, s, NOTI) then TakeNoti(mem, len, off, h)
    else TakeOther(mem, len, off, h)
  }

  function TakeSn(mem: seq<u8>, len: nat, off: nat, h: Hdr): (r: Parsed)
    requires Ready(mem, len, off)
    ensures r.Parsed? ==> r.off <= len + 2
  {
    FetchCursor(KInt, mem, len, off);
    match GetInt(mem, len, off)
    case Outside => Beyond
    case Got(None, o) => Parsed(false, h, o)
    case Got(Some(v), o) => Parsed(true, h.(sn := U32(v)), o)
  }

  function TakeReq(mem: seq<u8>, len: nat, off: nat, h: Hdr): (r: Parsed)
    requires Ready(mem, len, off)
    ensures r.Parsed? ==> r.off <= len + 2
  {
    match GetBool(mem, len, off)
    case Outside => Beyond
    case Got(None, o) => Parsed(false, h, o)
    case Got(Some(b), o) => Parsed(true, h.(req := b), o)
  }

  function TakeNoti(mem: seq<u8>, len: nat, off: nat, h: Hdr): (r: Parsed)
    requires Ready(mem, len, off)
    ensures r.Parsed? ==> r.off <= len + 2
  {
    match GetBool(mem, len, off)
    case Outside => Beyond
    case Got(None, o) => Parsed(false, h, o)
    case Got(Some(b), o) => Parsed(true, h.(noti := b), o)
  }

  // zipc_parse_common_hdr drops what ztlv_get_ignore returns.
  function TakeOther(mem: seq<u8>, len: nat, off: nat, h: Hdr): (r: Parsed)
    requires Ready(mem, len, off)
    ensures r.Parsed? ==> r.off <= len + 2
  {
    IgnoreCursor(mem, len, off);
    match GetIgnore(mem, len, off)
    case Outside => Beyond
    case Got(_, o) => Parsed(true, h, o)
  }

  // A step done cnt times, as long as it succeeds
  function Steps(step: (nat, Hdr) -> Parsed, cnt: nat, off: nat, h: Hdr): Parsed
    decreases cnt
  {
    if cnt == 0 then Parsed(true, h, off)
    else match step(off, h)
      case Parsed(true, h2, o) => Steps(step, cnt - 1, o, h2)
      case r => r
  }

  function EntryAt(mem: seq<u8>, len: nat): (nat, Hdr) -> Parsed
  {
    (o: nat, h: Hdr) => if Ready(mem, len, o) then ParseEntry(mem, len, o, h) else Beyond
  }

  function ParseEntries(cnt: nat, mem: seq<u8>, len: nat, off: nat, h: Hdr): Parsed
    requires Ready(mem, len, off)
  {
    Steps(EntryAt(mem, len), cnt, off, h)
  }

  // zipc_parse_common_hdr
  function ParseHeader(mem: seq<u8>, len: nat, off: nat): Parsed
    requires Ready(mem, len, off)
  {
    FetchCursor(KLen, mem, len, off);
    match GetLen(mem, len, off)
    case Outside => Beyond
    case Got(None, o) => Parsed(false, ZERO, o)
    case Got(Some(cnt), o) => ParseEntries(cnt, mem, len, o, ZERO)
  }

  // A string that is short is inside the contents: the sum of cursor and length
  // cannot wrap. So header keys, which are compared only when their lengths are
  // equal, and names are.
  lemma ShortTextInside(mem: seq<u8>, len: nat, off: nat, s: Slice, o: nat)
    requires Ready(mem, len, off) && GetString(mem, len, off) == Got(Some(s), o) && s.len < 0x1_0000
    ensures s.pos + s.len <= len
  {
    FetchCursor(KLen, mem, len, AfterTag(len, off));
    match GetLen(mem, len, AfterTag(len, off))
    case Got(Some(n), p) => StrInside(len, p, n, s, o);
    case Got(None, p) => StrInside(len, p, 0, s, o);
    case Outside =>
  }

  lemma StrInside(len: nat, off: nat, n: u32, s: Slice, o: nat)
    requires len < 0x7FFF_FFFF && off <= len + 2 && StrAt(len, off, n) == Got(Some(s), o) && s.len < 0x1_0000
    ensures s.pos + s.len <= len
  {}

  // ---- Arbitrary input ----

  lemma ValueBounded(mem: seq<u8>, len: nat, off: nat, s: Slice, h: Hdr)
    requires Ready(mem, len, off) && len + 2 <= |mem| && (s.len <= 4 ==> s.pos + s.len <= len)
    ensures ParseValue(mem, len, off, s, h) == ParseValue(mem[..len + 2], len, off, s, h) != Beyond
  {
    GettersBounded(mem, len, off);
    IgnoreBounded(mem, len, off);
    SameKey(mem, len, s, SN);
    SameKey(mem, len, s, REQ);
    SameKey(mem, len, s, NOTI);
  }

  lemma SameKey(mem: seq<u8>, len: nat, s: Slice, key: seq<u8>)
    requires len + 2 <= |mem| && |key| <= 4 && (s.len <= 4 ==> s.pos + s.len <= len)
    ensures KeyIs(mem, s, key) == KeyIs(mem[..len + 2], s, key)
  {
    if s.len == |key| {
      assert mem[..len + 2][s.pos..s.pos + s.len] == mem[s.pos..s.pos + s.len];
    }
  }

  lemma EntryBounded(mem: seq<u8>, len: nat, off: nat, h: Hdr)
    requires Ready(mem, len, off) && len + 2 <= |mem|
    ensures ParseEntry(mem, len, off, h) == ParseEntry(mem[..len + 2], len, off, h) != Beyond
  {
    GettersBounded(mem, len, off);
    FetchCursor(KString, mem, len, off);
    match GetString(mem, len, off)
    case Got(Some(s), o) =>
      if s.len <= 4 { ShortTextInside(mem, len, off, s, o); }
      ValueBounded(mem, len, o, s, h);
    case _ =>
  }

  lemma NextEntry(cnt: nat, mem: seq<u8>, len: nat, off: nat, h: Hdr)
    requires cnt > 0 && Ready(mem, len, off)
    ensures var e := ParseEntry(mem, len, off, h);
            ParseEntries(cnt, mem, len, off, h) ==
              if e.Parsed? && e.ok then ParseEntries(cnt - 1, mem, len, e.off, e.h) else e
  {}

  lemma {:induction false} StepsAgree(f: (nat, Hdr) -> Parsed, g: (nat, Hdr) -> Parsed, bound: nat,
                                      cnt: nat, off: nat, h: Hdr)
    requires forall o: nat, i: Hdr :: o <= bound ==> f(o, i) == g(o, i) && f(o, i).Parsed? && f(o, i).off <= bound
    requires off <= bound
    ensures Steps(f, cnt, off, h) == Steps(g, cnt, off, h) && Steps(f, cnt, off, h).Parsed?
    decreases cnt
  {
    if cnt > 0 && f(off, h).ok {
      StepsAgree(f, g, bound, cnt - 1, f(off, h).off, f(off, h).h);
    }
  }

  lemma EntriesBounded(cnt: nat, mem: seq<u8>, len: nat, off: nat, h: Hdr)
    requires Ready(mem, len, off) && len + 2 <= |mem|
    ensures ParseEntries(cnt, mem, len, off, h) == ParseEntries(cnt, mem[..len + 2], len, off, h) != Beyond
  {
    var short := mem[..len + 2];
    var f, g := EntryAt(mem, len), EntryAt(short, len);
    forall o: nat, i: Hdr | o <= len + 2
      ensures f(o, i) == g(o, i) && f(o, i).Parsed? && f(o, i).off <= len + 2
    {
      EntryBounded(mem, len, o, i);
    }
    StepsAgree(f, g, len + 2, cnt, off, h);
  }

  // On any bytes the parser stays in a block that is two bytes longer than the
  // contents, and nothing behind those two bytes makes a difference.
  lemma HeaderBounded(mem: seq<u8>, len: nat, off: nat)
    requires Ready(mem, len, off) && len + 2 <= |mem|
    ensures ParseHeader(mem, len, off) == ParseHeader(mem[..len + 2], len, off) != Beyond
  {
    GettersBounded(mem, len, off);
    FetchCursor(KLen, mem, len, off);
    match GetLen(mem, len, off)
    case Got(Some(cnt), o) => EntriesBounded(cnt, mem, len, o, ZERO);
    case _ =>
  }

  // ---- Which entries count ----

  // The key at off is these bytes.
  predicate HasKey(mem: seq<u8>, len: nat, off: nat, key: seq<u8>)
    requires Ready(mem, len, off)
  {
    match GetString(mem, len, off)
    case Got(Some(s), _) => s.pos + s.len <= |mem| && mem[s.pos..s.pos + s.len] == key
    case _ => false
  }

  // On any bytes an entry whose key is neither "sn" nor "req" nor "noti" succeeds
  // and changes nothing.
  lemma OtherKeyIgnored(mem: seq<u8>, len: nat, off: nat, h: Hdr)
    requires Ready(mem, len, off) && GetString(mem, len, off).Got? && GetString(mem, len, off).value.Some?
    requires !HasKey(mem, len, off, [0x73, 0x6E]) && !HasKey(mem, len, off, [0x72, 0x65, 0x71])
    requires !HasKey(mem, len, off, [0x6E, 0x6F, 0x74, 0x69])
    ensures var e := ParseEntry(mem, len, off, h); e.Parsed? ==> e.ok && e.h == h
    ensures len + 2 <= |mem| ==> ParseEntry(mem, len, off, h).Parsed?
  {
    if len + 2 <= |mem| { EntryBounded(mem, len, off, h); }
  }

  // An entry fails if and only if it has no key, or its key is one of the three and
  // a value of its type cannot be read.
  predicate EntryGood(mem: seq<u8>, len: nat, off: nat)
  {
    Ready(mem, len, off) && match GetString(mem, len, off)
      case Got(Some(_), o) =>
        && (HasKey(mem, len, off, [0x73, 0x6E]) ==> Ready(mem, len, o) && Reads(GetInt(mem, len, o)))
        && (HasKey(mem, len, off, [0x72, 0x65, 0x71]) ==> Ready(mem, len, o) && Reads(GetBool(mem, len, o)))
        && (HasKey(mem, len, off, [0x6E, 0x6F, 0x74, 0x69]) ==> Ready(mem, len, o) && Reads(GetBool(mem, len, o)))
      case _ => false
  }

  predicate Reads<T>(g: Got<T>) { g.Got? && g.value.Some? }

  lemma ValueFails(mem: seq<u8>, len: nat, off: nat, x: Slice, h: Hdr)
    requires Ready(mem, len, off) && ParseValue(mem, len, off, x, h).Parsed?
    ensures ParseValue(mem, len, off, x, h).ok <==>
              && (Shows(mem, x, [0x73, 0x6E]) ==> Reads(GetInt(mem, len, off)))
              && (Shows(mem, x, [0x72, 0x65, 0x71]) ==> Reads(GetBool(mem, len, off)))
              && (Shows(mem, x, [0x6E, 0x6F, 0x74, 0x69]) ==> Reads(GetBool(mem, len, off)))
  {}

  lemma EntryFails(mem: seq<u8>, len: nat, off: nat, h: Hdr)
    requires Ready(mem, len, off) && ParseEntry(mem, len, off, h).Parsed?
    ensures ParseEntry(mem, len, off, h).ok <==> EntryGood(mem, len, off)
  {
    FetchCursor(KString, mem, len, off);
    match GetString(mem, len, off)
    case Got(Some(x), o) => ValueFails(mem, len, o, x, h);
    case _ =>
  }

  // The serial number that the entry at off carries, if its key is "sn"
  function SnAt(mem: seq<u8>, len: nat, off: nat): Option<u32>
  {
    if !Ready(mem, len, off) || !HasKey(mem, len, off, [0x73, 0x6E]) then None
    else match GetInt(mem, len, GetString(mem, len, off).off)
      case Got(Some(v), _) => Some(U32(v))
      case _ => None
  }

  // The bool that it carries, if that is its key
  function FlagAt(mem: seq<u8>, len: nat, key: seq<u8>, off: nat): Option<bool>
  {
    if !Ready(mem, len, off) || !HasKey(mem, len, off, key) then None
    else match GetBool(mem, len, GetString(mem, len, off).off)
      case Got(Some(b), _) => Some(b)
      case _ => None
  }

  function Or<T>(x: Option<T>, v: T): T { if x.Some? then x.value else v }

  // What is in the fields does not matter for the cursor, or for failing.
  ghost predicate SameWay(a: Parsed, b: Parsed)
  {
    a.Parsed? == b.Parsed? && (a.Parsed? ==> a.ok == b.ok && a.off == b.off)
  }

  lemma ValuesDoNotSteer(mem: seq<u8>, len: nat, off: nat, h: Hdr, i: Hdr)
    requires Ready(mem, len, off)
    ensures SameWay(TakeSn(mem, len, off, h), TakeSn(mem, len, off, i))
    ensures SameWay(TakeReq(mem, len, off, h), TakeReq(mem, len, off, i))
    ensures SameWay(TakeNoti(mem, len, off, h), TakeNoti(mem, len, off, i))
    ensures SameWay(TakeOther(mem, len, off, h), TakeOther(mem, len, off, i))
  {}

  lemma FieldsDoNotSteer(mem: seq<u8>, len: nat, off: nat, h: Hdr, i: Hdr)
    requires Ready(mem, len, off)
    ensures SameWay(ParseEntry(mem, len, off, h), ParseEntry(mem, len, off, i))
  {
    FetchCursor(KString, mem, len, off);
    match GetString(mem, len, off)
    case Got(Some(_), o) => ValuesDoNotSteer(mem, len, o, h, i);
    case _ =>
  }

  // Each value sets its field to what it carries, and no other.
  lemma ValuesSet(mem: seq<u8>, len: nat, off: nat, h: Hdr)
    requires Ready(mem, len, off)
    ensures var e := TakeSn(mem, len, off, h); e.Parsed? ==>
              e.h == h.(sn := match GetInt(mem, len, off) case Got(Some(v), _) => U32(v) case _ => h.sn)
    ensures var e := TakeReq(mem, len, off, h); e.Parsed? ==>
              e.h == h.(req := match GetBool(mem, len, off) case Got(Some(b), _) => b case _ => h.req)
    ensures var e := TakeNoti(mem, len, off, h); e.Parsed? ==>
              e.h == h.(noti := match GetBool(mem, len, off) case Got(Some(b), _) => b case _ => h.noti)
    ensures var e := TakeOther(mem, len, off, h); e.Parsed? ==> e.h == h
  {}

  ghost function Set(mem: seq<u8>, len: nat, off: nat, h: Hdr): Hdr
  {
    Hdr(Or(SnAt(mem, len, off), h.sn), Or(FlagAt(mem, len, [0x72, 0x65, 0x71], off), h.req),
        Or(FlagAt(mem, len, [0x6E, 0x6F, 0x74, 0x69], off), h.noti))
  }

  // The bytes that slice x shows
  predicate Shows(mem: seq<u8>, x: Slice, key: seq<u8>)
  {
    x.pos + x.len <= |mem| && mem[x.pos..x.pos + x.len] == key
  }

  function SetBy(sn: bool, req: bool, noti: bool, i: Got<i32>, b: Got<bool>, h: Hdr): Hdr
  {
    Hdr(if sn && i.Got? && i.value.Some? then U32(i.value.value) else h.sn,
        if req && b.Got? && b.value.Some? then b.value.value else h.req,
        if noti && b.Got? && b.value.Some? then b.value.value else h.noti)
  }

  lemma SetIs(mem: seq<u8>, len: nat, off: nat, x: Slice, o: nat, h: Hdr)
    requires Ready(mem, len, off) && GetString(mem, len, off) == Got(Some(x), o) && Ready(mem, len, o)
    ensures Set(mem, len, off, h) ==
              SetBy(Shows(mem, x, [0x73, 0x6E]), Shows(mem, x, [0x72, 0x65, 0x71]),
                    Shows(mem, x, [0x6E, 0x6F, 0x74, 0x69]), GetInt(mem, len, o), GetBool(mem, len, o), h)
  {}

  lemma ValueSets(mem: seq<u8>, len: nat, off: nat, x: Slice, h: Hdr)
    requires Ready(mem, len, off) && ParseValue(mem, len, off, x, h).Parsed?
    ensures ParseValue(mem, len, off, x, h).h ==
              SetBy(Shows(mem, x, [0x73, 0x6E]), Shows(mem, x, [0x72, 0x65, 0x71]),
                    Shows(mem, x, [0x6E, 0x6F, 0x74, 0x69]), GetInt(mem, len, off), GetBool(mem, len, off), h)
  {
    ValuesSet(mem, len, off, h);
  }

  lemma EntrySets(mem: seq<u8>, len: nat, off: nat, h: Hdr)
    requires Ready(mem, len, off) && ParseEntry(mem, len, off, h).Parsed?
    ensures ParseEntry(mem, len, off, h).h == Set(mem, len, off, h)
  {
    FetchCursor(KString, mem, len, off);
    match GetString(mem, len, off)
    case Got(Some(x), o) =>
      SetIs(mem, len, off, x, o, h);
      ValueSets(mem, len, o, x, h);
    case _ =>
  }

  // Where the entries that are parsed start
  function Starts(step: (nat, Hdr) -> Parsed, cnt: nat, off: nat): seq<nat>
    decreases cnt
  {
    if cnt == 0 then []
    else match step(off, ZERO)
      case Parsed(true, _, o) => [off] + Starts(step, cnt - 1, o)
      case _ => [off]
  }

  // The last of the entries that carries something decides.
  function Newest<T>(carried: nat -> Option<T>, starts: seq<nat>, v: T): T
    decreases |starts|
  {
    if starts == [] then v else Newest(carried, starts[1..], Or(carried(starts[0]), v))
  }

  ghost function Fields(mem: seq<u8>, len: nat, starts: seq<nat>, h: Hdr): Hdr
  {
    Hdr(Newest(o => SnAt(mem, len, o), starts, h.sn),
        Newest(o => FlagAt(mem, len, [0x72, 0x65, 0x71], o), starts, h.req),
        Newest(o => FlagAt(mem, len, [0x6E, 0x6F, 0x74, 0x69], o), starts, h.noti))
  }

  ghost function SetAt(mem: seq<u8>, len: nat): (nat, Hdr) -> Hdr
  {
    (o: nat, h: Hdr) => Set(mem, len, o, h)
  }

  // One after the other the entries set the fields.
  function SetAll(put: (nat, Hdr) -> Hdr, starts: seq<nat>, h: Hdr): Hdr
    decreases |starts|
  {
    if starts == [] then h else SetAll(put, starts[1..], put(starts[0], h))
  }

  lemma {:induction false} StepsSet(step: (nat, Hdr) -> Parsed, put: (nat, Hdr) -> Hdr, cnt: nat, off: nat, h: Hdr)
    requires forall o: nat, i: Hdr :: step(o, i).Parsed? ==> step(o, i).h == put(o, i)
    requires forall o: nat, i: Hdr :: SameWay(step(o, i), step(o, ZERO))
    requires Steps(step, cnt, off, h).Parsed?
    ensures Steps(step, cnt, off, h).h == SetAll(put, Starts(step, cnt, off), h)
    decreases cnt
  {
    if cnt > 0 {
      var e := step(off, h);
      assert SameWay(e, step(off, ZERO));
      if e.ok {
        StepsSet(step, put, cnt - 1, e.off, e.h);
        assert ([off] + Starts(step, cnt - 1, e.off))[1..] == Starts(step, cnt - 1, e.off);
      } else {
        assert Starts(step, cnt, off) == [off] && [off][1..] == [];
      }
    }
  }

  // There are cnt entries, and all of them are good.
  ghost predicate All(good: nat -> bool, starts: seq<nat>, cnt: nat)
  {
    |starts| == cnt && forall i :: 0 <= i < cnt ==> good(starts[i])
  }

  lemma AllCons(good: nat -> bool, off: nat, rest: seq<nat>, cnt: nat)
    requires cnt > 0
    ensures All(good, [off] + rest, cnt) <==> good(off) && All(good, rest, cnt - 1)
  {
    var starts := [off] + rest;
    assert starts[0] == off;
    if All(good, starts, cnt) {
      forall i | 0 <= i < |rest| ensures good(rest[i]) { assert starts[i + 1] == rest[i]; }
    }
  }

  // The loop succeeds if and only if that is so.
  lemma {:induction false} StepsSucceed(step: (nat, Hdr) -> Parsed, good: nat -> bool, cnt: nat, off: nat, h: Hdr)
    requires forall o: nat, i: Hdr :: step(o, i).Parsed? ==> step(o, i).ok == good(o)
    requires forall o: nat, i: Hdr :: SameWay(step(o, i), step(o, ZERO))
    requires Steps(step, cnt, off, h).Parsed?
    ensures Steps(step, cnt, off, h).ok <==> All(good, Starts(step, cnt, off), cnt)
    decreases cnt
  {
    if cnt > 0 {
      var e := step(off, h);
      assert SameWay(e, step(off, ZERO)) && e.ok == good(off);
      if e.ok {
        StepsSucceed(step, good, cnt - 1, e.off, e.h);
        AllCons(good, off, Starts(step, cnt - 1, e.off), cnt);
      } else {
        assert Starts(step, cnt, off) == [off];
        assert !good(Starts(step, cnt, off)[0]);
      }
    }
  }

  ghost function GoodAt(mem: seq<u8>, len: nat): nat -> bool
  {
    (o: nat) => EntryGood(mem, len, o)
  }

  lemma {:induction false} SetAllIsFields(mem: seq<u8>, len: nat, starts: seq<nat>, h: Hdr)
    ensures SetAll(SetAt(mem, len), starts, h) == Fields(mem, len, starts, h)
    decreases |starts|
  {
    if starts != [] { SetAllIsFields(mem, len, starts[1..], Set(mem, len, starts[0], h)); }
  }

  // On any bytes and for any entries each field is what the last entry of its own
  // key carries; entries of other keys, known or not, do not count.
  lemma HeaderFields(cnt: nat, mem: seq<u8>, len: nat, off: nat, h: Hdr)
    requires Ready(mem, len, off) && ParseEntries(cnt, mem, len, off, h).Parsed?
    ensures ParseEntries(cnt, mem, len, off, h).h == Fields(mem, len, Starts(EntryAt(mem, len), cnt, off), h)
    ensures ParseEntries(cnt, mem, len, off, h).ok <==> All(GoodAt(mem, len), Starts(EntryAt(mem, len), cnt, off), cnt)
  {
    var step := EntryAt(mem, len);
    forall o: nat, i: Hdr
      ensures step(o, i).Parsed? ==> step(o, i).h == Set(mem, len, o, i) && step(o, i).ok == EntryGood(mem, len, o)
      ensures SameWay(step(o, i), step(o, ZERO))
    {
      if Ready(mem, len, o) {
        if step(o, i).Parsed? {
          EntrySets(mem, len, o, i);
          EntryFails(mem, len, o, i);
        }
        FieldsDoNotSteer(mem, len, o, i, ZERO);
      }
    }
    StepsSet(step, SetAt(mem, len), cnt, off, h);
    StepsSucceed(step, GoodAt(mem, len), cnt, off, h);
    SetAllIsFields(mem, len, Starts(step, cnt, off), h);
  }

  // So it is for a whole header, whose fields start from zero; without a count it
  // fails.
  ghost predicate FieldsAreRead(mem: seq<u8>, len: nat, off: nat, ok: bool, h: Hdr)
    requires Ready(mem, len, off)
  {
    match GetLen(mem, len, off)
    case Got(Some(cnt), o) =>
      var starts := Starts(EntryAt(mem, len), cnt, o);
      h == Fields(mem, len, starts, Hdr(0, false, false)) && (ok <==> All(GoodAt(mem, len), starts, cnt))
    case _ => h == Hdr(0, false, false) && !ok
  }

  lemma HeaderIsFields(mem: seq<u8>, len: nat, off: nat)
    requires Ready(mem, len, off) && ParseHeader(mem, len, off).Parsed?
    ensures FieldsAreRead(mem, len, off, ParseHeader(mem, len, off).ok, ParseHeader(mem, len, off).h)
  {
    FetchCursor(KLen, mem, len, off);
    match GetLen(mem, len, off)
    case Got(Some(cnt), o) => HeaderFields(cnt, mem, len, o, ZERO);
    case _ =>
  }

  // ---- What comes back ----

  lemma EntryBack(mem: seq<u8>, len: nat, off: nat, entry: Entry, h: Hdr, e: seq<u8>, next: nat)
    requires e == entry.Enc() && Holds(mem, len, off, e) && next == off + |e|
    ensures Ready(mem, len, off) && ParseEntry(mem, len, off, h) == Parsed(true, entry.Set(h), next)
  {
    var k, v := EncString(entry.Key()), entry.Value();
    HoldsParts(mem, len, off, k, v);
    StringBack(mem, len, off, entry.Key(), k);
    ValueBack(mem, len, off + |k|, entry, v);
  }

  // What the getter that goes with the key returns
  ghost predicate ReadsValue(mem: seq<u8>, len: nat, off: nat, e: Entry, next: nat)
    requires Ready(mem, len, off)
  {
    match e
    case Sn(v) => GetInt(mem, len, off) == Got(Some(v), next)
    case SnLong(w) => GetInt(mem, len, off) == Got(Some(S32(w)), next) && U32(S32(w)) == U32(w)
    case Req(b) => GetBool(mem, len, off) == Got(Some(b), next)
    case Noti(n) => GetBool(mem, len, off) == Got(Some(n), next)
  }

  lemma ValueBack(mem: seq<u8>, len: nat, off: nat, e: Entry, v: seq<u8>)
    requires v == e.Value() && Holds(mem, len, off, v)
    ensures Ready(mem, len, off) && ReadsValue(mem, len, off, e, off + |v|)
  {
    match e
    case Sn(x) => IntBack(mem, len, off, x, v);
    case SnLong(w) => LongValueBack(mem, len, off, w, v);
    case Req(b) => BoolBack(mem, len, off, b, v);
    case Noti(n) => BoolBack(mem, len, off, n, v);
  }

  lemma LongValueBack(mem: seq<u8>, len: nat, off: nat, w: i64, v: seq<u8>)
    requires v == EncLong(w) && Holds(mem, len, off, v)
    ensures Ready(mem, len, off) && GetInt(mem, len, off) == Got(Some(S32(w)), off + |v|) && U32(S32(w)) == U32(w)
  {
    LongBack(mem, len, off, w, v);
    LowWord(w);
  }

  lemma LowWord(w: i64)
    ensures U32(S32(w)) == U32(w)
  {}

  // Parsing takes the entries in and ends at end.
  ghost predicate TakesIn(es: seq<Entry>, mem: seq<u8>, len: nat, off: nat, h: Hdr, end: nat)
    requires Ready(mem, len, off)
  {
    ParseEntries(|es|, mem, len, off, h) == Parsed(true, Fold(h, es), end)
  }

  lemma {:induction false} EntriesBack(es: seq<Entry>, mem: seq<u8>, len: nat, off: nat, h: Hdr)
    requires Holds(mem, len, off, EncEntries(es))
    ensures Ready(mem, len, off) && TakesIn(es, mem, len, off, h, off + |EncEntries(es)|)
    decreases |es|
  {
    if es != [] {
      var next := PeelEntry(es, mem, len, off, h);
      EntriesBack(es[1..], mem, len, next, es[0].Set(h));
      TakesOneMore(es, mem, len, off, h, next, off + |EncEntries(es)|);
    }
  }

  lemma TakesOneMore(es: seq<Entry>, mem: seq<u8>, len: nat, off: nat, h: Hdr, next: nat, end: nat)
    requires es != [] && Ready(mem, len, off) && Ready(mem, len, next)
    requires ParseEntry(mem, len, off, h) == Parsed(true, es[0].Set(h), next)
    requires TakesIn(es[1..], mem, len, next, es[0].Set(h), end)
    ensures TakesIn(es, mem, len, off, h, end)
  {}

  lemma PeelEntry(es: seq<Entry>, mem: seq<u8>, len: nat, off: nat, h: Hdr) returns (next: nat)
    requires es != [] && Holds(mem, len, off, EncEntries(es))
    ensures next + |EncEntries(es[1..])| == off + |EncEntries(es)|
    ensures Holds(mem, len, next, EncEntries(es[1..]))
    ensures Ready(mem, len, off) && ParseEntry(mem, len, off, h) == Parsed(true, es[0].Set(h), next)
  {
    var e;
    e, next := EntryParts(es, mem, len, off);
    EntryBack(mem, len, off, es[0], h, e, next);
  }

  lemma EntryParts(es: seq<Entry>, mem: seq<u8>, len: nat, off: nat) returns (e: seq<u8>, next: nat)
    requires es != [] && Holds(mem, len, off, EncEntries(es))
    ensures e == es[0].Enc() && Holds(mem, len, off, e) && next == off + |e|
    ensures Holds(mem, len, next, EncEntries(es[1..])) && next + |EncEntries(es[1..])| == off + |EncEntries(es)|
  {
    var rest;
    e, rest := FirstEntry(es);
    next := off + |e|;
    HoldsParts(mem, len, off, e, rest);
  }

  lemma FirstEntry(es: seq<Entry>) returns (e: seq<u8>, rest: seq<u8>)
    requires es != []
    ensures e == es[0].Enc() && rest == EncEntries(es[1..]) && EncEntries(es) == e + rest
  {
    e, rest := es[0].Enc(), EncEntries(es[1..]);
  }

  function EncHeader(es: seq<Entry>): seq<u8>
  {
    Encode(|es|) + EncEntries(es)
  }

  // Any header with known keys and values of their types, in any order and with
  // repeats, parses to the fold of its entries over zeros.
  lemma HeaderBack(es: seq<Entry>, mem: seq<u8>, len: nat, off: nat, all: seq<u8>, next: nat)
    requires |es| < 0x1_0000_0000 && all == EncHeader(es) && Holds(mem, len, off, all) && next == off + |all|
    ensures ParseHeader(mem, len, off) == Parsed(true, Fold(ZERO, es), next)
  {
    var o := HeaderParts(es, mem, len, off, all, next);
    EntriesBack(es, mem, len, o, ZERO);
    CountThenEntries(es, mem, len, off, o, next);
  }

  lemma HeaderParts(es: seq<Entry>, mem: seq<u8>, len: nat, off: nat, all: seq<u8>, next: nat) returns (o: nat)
    requires |es| < 0x1_0000_0000 && all == EncHeader(es) && Holds(mem, len, off, all) && next == off + |all|
    ensures Ready(mem, len, off) && GetLen(mem, len, off) == Got(Some(|es|), o)
    ensures Holds(mem, len, o, EncEntries(es)) && o + |EncEntries(es)| == next
  {
    var c, e := HeaderPieces(es, all);
    HoldsParts(mem, len, off, c, e);
    LenBack(mem, len, off, |es|, c);
    o := off + |c|;
  }

  lemma CountThenEntries(es: seq<Entry>, mem: seq<u8>, len: nat, off: nat, o: nat, end: nat)
    requires |es| < 0x1_0000_0000 && Ready(mem, len, off) && GetLen(mem, len, off) == Got(Some(|es|), o)
    requires Ready(mem, len, o) && TakesIn(es, mem, len, o, ZERO, end)
    ensures ParseHeader(mem, len, off) == Parsed(true, Fold(ZERO, es), end)
  {}

  lemma HeaderPieces(es: seq<Entry>, all: seq<u8>) returns (c: seq<u8>, e: seq<u8>)
    requires all == EncHeader(es)
    ensures c == Encode(|es|) && e == EncEntries(es) && all == c + e
  {
    c, e := Encode(|es|), EncEntries(es);
  }

  // ---- The fold: of each key the last entry counts ----

  function LastSn(es: seq<Entry>): u32
  {
    if es == [] then 0
    else match es[|es| - 1]
      case Sn(v) => U32(v)
      case SnLong(w) => U32(w)
      case _ => LastSn(es[..|es| - 1])
  }

  function LastReq(es: seq<Entry>): bool
  {
    if es == [] then false
    else match es[|es| - 1]
      case Req(b) => b
      case _ => LastReq(es[..|es| - 1])
  }

  function LastNoti(es: seq<Entry>): bool
  {
    if es == [] then false
    else match es[|es| - 1]
      case Noti(n) => n
      case _ => LastNoti(es[..|es| - 1])
  }

  lemma {:induction false} FoldSnoc(h: Hdr, es: seq<Entry>, e: Entry)
    ensures Fold(h, es + [e]) == e.Set(Fold(h, es))
    decreases |es|
  {
    if es == [] {
      assert ([] + [e])[1..] == [];
    } else {
      assert (es + [e])[1..] == es[1..] + [e];
      FoldSnoc(es[0].Set(h), es[1..], e);
    }
  }

  // Last write wins, and a key that is absent gives zero.
  lemma {:induction false} FoldIsLast(es: seq<Entry>)
    ensures Fold(ZERO, es) == Hdr(LastSn(es), LastReq(es), LastNoti(es))
  {
    if es != [] {
      var a, e := es[..|es| - 1], es[|es| - 1];
      assert es == a + [e];
      FoldIsLast(a);
      FoldSnoc(ZERO, a, e);
    }
  }

  // ---- The headers that are sent ----

  // ztlv_put_uint32 chooses the tag by the value.
  function SnEntry(sn: u32): Entry
  {
    if IsInt32(sn) then Sn(sn) else SnLong(sn)
  }

  // zipc_encode_common_hdr
  function Sent(sn: u32, req: bool, noti: bool): seq<Entry>
  {
    [SnEntry(sn), Req(req), Noti(noti)]
  }

  // zipc_parse_put_reply_commonhdr
  function Reply(sn: u32, req: bool): seq<Entry>
  {
    [SnEntry(sn), Req(req)]
  }

  lemma FoldOfReply(sn: u32, req: bool)
    ensures Fold(ZERO, Reply(sn, req)) == Hdr(sn, req, false)
  {
    var a, b := SnEntry(sn), Req(req);
    assert Reply(sn, req) == ([] + [a]) + [b];
    FoldSnoc(ZERO, [] + [a], b);
    FoldSnoc(ZERO, [], a);
  }

  lemma FoldOfSent(sn: u32, req: bool, noti: bool)
    ensures Fold(ZERO, Sent(sn, req, noti)) == Hdr(sn, req, noti)
  {
    assert Sent(sn, req, noti) == Reply(sn, req) + [Noti(noti)];
    FoldSnoc(ZERO, Reply(sn, req), Noti(noti));
    FoldOfReply(sn, req);
  }

  // Both are undone by the parser, for every serial number.
  lemma SentHeaderBack(mem: seq<u8>, len: nat, off: nat, sn: u32, req: bool, noti: bool)
    requires Holds(mem, len, off, EncHeader(Sent(sn, req, noti)))
    ensures ParseHeader(mem, len, off) == Parsed(true, Hdr(sn, req, noti), off + |EncHeader(Sent(sn, req, noti))|)
  {
    var all := EncHeader(Sent(sn, req, noti));
    HeaderBack(Sent(sn, req, noti), mem, len, off, all, off + |all|);
    FoldOfSent(sn, req, noti);
  }

  lemma ReplyHeaderBack(mem: seq<u8>, len: nat, off: nat, sn: u32, req: bool)
    requires Holds(mem, len, off, EncHeader(Reply(sn, req)))
    ensures ParseHeader(mem, len, off) == Parsed(true, Hdr(sn, req, false), off + |EncHeader(Reply(sn, req))|)
  {
    var all := EncHeader(Reply(sn, req));
    HeaderBack(Reply(sn, req), mem, len, off, all, off + |all|);
    FoldOfReply(sn, req);
  }
}
