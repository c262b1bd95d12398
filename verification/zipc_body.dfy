/**
 The body of a request, {1=component, 2=action, 3=...}: what
 zipc_parse_body_info takes from it, and which component it names.
 */
module ZipcBody {
  import opened Machine
  import opened Wrappers
  import opened Leb128
  import opened Chains
  import opened ZBuffer
  import opened TlvFormat
  import opened TlvLaws
  import opened ZipcHeader
  import opened Ztlv
  import AssocList
  import ZHash
  import opened ComponentNames
  import Registry = ComponentRegistry
  import ErrCode

  // An index, and a string that is short enough for a name
  function GetName(mem: seq<u8>, len: nat, off: nat): (r: Got<Slice>)
    requires Ready(mem, len, off)
    ensures r.Got? ==> r.off <= len + 2
  {
    FetchCursor(KInt, mem, len, off);
    match GetInt(mem, len, off)
    case Outside => Outside
    case Got(None, o) => Got(None, o)
    case Got(Some(_), o) =>
      FetchCursor(KString, mem, len, o);
      match GetString(mem, len, o)
      case Outside => Outside
      case Got(None, o2) => Got(None, o2)
      case Got(Some(s), o2) => Got(if s.len >= ZCRT_NAME_LEN then None else Some(s), o2)
  }

  // zipc_parse_body_info: the component's name and the action's
  function GetBody(mem: seq<u8>, len: nat, off: nat): Got<(Slice, Slice)>
    requires Ready(mem, len, off)
  {
    FetchCursor(KLen, mem, len, off);
    match GetLen(mem, len, off)
    case Outside => Outside
    case Got(None, o) => Got(None, o)
    case Got(Some(cnt), o) => if cnt < 3 then Got(None, o) else GetNames(mem, len, o)
  }

  function GetNames(mem: seq<u8>, len: nat, off: nat): Got<(Slice, Slice)>
    requires Ready(mem, len, off)
  {
    match GetName(mem, len, off)
    case Outside => Outside
    case Got(None, o) => Got(None, o)
    case Got(Some(comp), o) =>
      match GetName(mem, len, o)
      case Outside => Outside
      case Got(None, o2) => Got(None, o2)
      case Got(Some(action), o2) => Got(Some((comp, action)), o2)
  }

  // ---- Arbitrary input ----

  lemma NameBounded(mem: seq<u8>, len: nat, off: nat)
    requires Ready(mem, len, off) && len + 2 <= |mem|
    ensures GetName(mem, len, off) == GetName(mem[..len + 2], len, off) != Outside
  {
    GettersBounded(mem, len, off);
    FetchCursor(KInt, mem, len, off);
    match GetInt(mem, len, off)
    case Got(Some(_), o) => GettersBounded(mem, len, o);
    case _ =>
  }

  lemma NamesBounded(mem: seq<u8>, len: nat, off: nat)
    requires Ready(mem, len, off) && len + 2 <= |mem|
    ensures GetNames(mem, len, off) == GetNames(mem[..len + 2], len, off) != Outside
  {
    NameBounded(mem, len, off);
    NameBounded(mem, len, GetName(mem, len, off).off);
  }

  // On any bytes the parser stays in a block that is two bytes longer than the
  // contents, and nothing behind those two bytes makes a difference.
  lemma BodyBounded(mem: seq<u8>, len: nat, off: nat)
    requires Ready(mem, len, off) && len + 2 <= |mem|
    ensures GetBody(mem, len, off) == GetBody(mem[..len + 2], len, off) != Outside
  {
    GettersBounded(mem, len, off);
    FetchCursor(KLen, mem, len, off);
    NamesBounded(mem, len, GetLen(mem, len, off).off);
  }

  // On any bytes two names are returned only behind a count of at least 3, each
  // behind a number that can be read, and shorter than 64 bytes.
  lemma BodyIsRead(mem: seq<u8>, len: nat, off: nat) returns (o1: nat, o2: nat, o3: nat, o4: nat)
    requires Ready(mem, len, off) && GetBody(mem, len, off).Got? && GetBody(mem, len, off).value.Some?
    ensures Ready(mem, len, o1) && Ready(mem, len, o2) && Ready(mem, len, o3) && Ready(mem, len, o4)
    ensures var g := GetBody(mem, len, off);
            && GetLen(mem, len, off).Got? && GetLen(mem, len, off).off == o1
            && GetLen(mem, len, off).value.Some? && GetLen(mem, len, off).value.value >= 3
            && GetInt(mem, len, o1).Got? && GetInt(mem, len, o1).value.Some? && GetInt(mem, len, o1).off == o2
            && GetString(mem, len, o2) == Got(Some(g.value.value.0), o3) && g.value.value.0.len < 64
            && GetInt(mem, len, o3).Got? && GetInt(mem, len, o3).value.Some? && GetInt(mem, len, o3).off == o4
            && GetString(mem, len, o4) == Got(Some(g.value.value.1), g.off) && g.value.value.1.len < 64
  {
    FetchCursor(KLen, mem, len, off);
    o1 := GetLen(mem, len, off).off;
    o2, o3 := NameIsRead(mem, len, o1);
    var o5;
    o4, o5 := NameIsRead(mem, len, o3);
  }

  lemma NameIsRead(mem: seq<u8>, len: nat, off: nat) returns (o: nat, next: nat)
    requires Ready(mem, len, off) && GetName(mem, len, off).Got? && GetName(mem, len, off).value.Some?
    ensures Ready(mem, len, o) && Ready(mem, len, next) && GetName(mem, len, off).off == next
    ensures GetInt(mem, len, off).Got? && GetInt(mem, len, off).value.Some? && GetInt(mem, len, off).off == o
    ensures GetString(mem, len, o) == GetName(mem, len, off) && GetName(mem, len, off).value.value.len < 64
  {
    FetchCursor(KInt, mem, len, off);
    o := GetInt(mem, len, off).off;
    FetchCursor(KString, mem, len, o);
    next := GetString(mem, len, o).off;
  }

  // ---- What comes back ----

  // An index and the string s are read, up to next. The string is taken for a
  // name if and only if it has fewer than 64 bytes.
  ghost predicate NameAt(mem: seq<u8>, len: nat, off: nat, s: seq<u8>, next: nat)
  {
    && Ready(mem, len, off) && Ready(mem, len, next) && |s| <= next && Holds(mem, len, next - |s|, s)
    && GetName(mem, len, off) == Got(if |s| < 64 then Some(Slice(next - |s|, |s|)) else None, next)
  }

  lemma NameBack(mem: seq<u8>, len: nat, off: nat, i: i32, s: seq<u8>, e: seq<u8>, next: nat)
    requires e == EncInt(i) + EncString(s) && Holds(mem, len, off, e) && next == off + |e|
    ensures NameAt(mem, len, off, s, next)
  {
    var k, t := NamePieces(i, s, e);
    var o := off + |k|;
    assert next == o + |t|;
    HoldsParts(mem, len, off, k, t);
    IntBack(mem, len, off, i, k);
    StringBack(mem, len, o, s, t);
    IndexThenText(mem, len, off, i, o, s, next);
  }

  lemma IndexThenText(mem: seq<u8>, len: nat, off: nat, i: i32, o: nat, s: seq<u8>, next: nat)
    requires Ready(mem, len, off) && GetInt(mem, len, off) == Got(Some(i), o) && Ready(mem, len, o)
    requires Ready(mem, len, next) && |s| <= next && Holds(mem, len, next - |s|, s)
    requires GetString(mem, len, o) == Got(Some(Slice(next - |s|, |s|)), next)
    ensures NameAt(mem, len, off, s, next)
  {}

  lemma NamePieces(i: i32, s: seq<u8>, e: seq<u8>) returns (k: seq<u8>, t: seq<u8>)
    requires e == EncInt(i) + EncString(s)
    ensures k == EncInt(i) && t == EncString(s) && e == k + t
  {
    k, t := EncInt(i), EncString(s);
  }

  ghost predicate IsText(mem: seq<u8>, len: nat, x: Slice, s: seq<u8>)
  {
    x.len == |s| && Holds(mem, len, x.pos, s)
  }

  // Both names of a body are returned, up to next, if and only if its count is at
  // least 3 and both have fewer than 64 bytes.
  ghost predicate BodyAt(mem: seq<u8>, len: nat, off: nat, n: u32, s: seq<u8>, t: seq<u8>, next: nat)
    requires Ready(mem, len, off)
  {
    var g := GetBody(mem, len, off);
    if n >= 3 && |s| < 64 && |t| < 64 then
      && g.Got? && g.off == next && g.value.Some?
      && IsText(mem, len, g.value.value.0, s) && IsText(mem, len, g.value.value.1, t)
    else g.Got? && g.value == None
  }

  lemma RequestBack(mem: seq<u8>, len: nat, off: nat, n: u32, i: i32, s: seq<u8>, j: i32, t: seq<u8>, e: seq<u8>)
    requires e == Encode(n) + (EncInt(i) + EncString(s)) + (EncInt(j) + EncString(t)) && Holds(mem, len, off, e)
    ensures Ready(mem, len, off) && BodyAt(mem, len, off, n, s, t, off + |e|)
  {
    var c, a, b := RequestPieces(n, i, s, j, t, e);
    HoldsParts(mem, len, off, c + a, b);
    HoldsParts(mem, len, off, c, a);
    var o1, o2, o3 := off + |c|, off + |c| + |a|, off + |c| + |a| + |b|;
    assert o3 == off + |e|;
    LenBack(mem, len, off, n, c);
    NameBack(mem, len, o1, i, s, a, o2);
    NameBack(mem, len, o2, j, t, b, o3);
    CountThenNames(mem, len, off, n, o1, s, o2, t, o3);
  }

  lemma CountThenNames(mem: seq<u8>, len: nat, off: nat, n: u32, o1: nat, s: seq<u8>, o2: nat, t: seq<u8>, o3: nat)
    requires Ready(mem, len, off) && GetLen(mem, len, off) == Got(Some(n), o1)
    requires NameAt(mem, len, o1, s, o2) && NameAt(mem, len, o2, t, o3)
    ensures BodyAt(mem, len, off, n, s, t, o3)
  {
    BothNames(mem, len, o1, GetName(mem, len, o1).value, o2, GetName(mem, len, o2).value, o3);
  }

  lemma BothNames(mem: seq<u8>, len: nat, off: nat, x: Option<Slice>, o: nat, y: Option<Slice>, next: nat)
    requires Ready(mem, len, off) && GetName(mem, len, off) == Got(x, o)
    requires Ready(mem, len, o) && GetName(mem, len, o) == Got(y, next)
    ensures GetNames(mem, len, off) ==
              if x.None? then Got(None, o) else if y.None? then Got(None, next) else Got(Some((x.value, y.value)), next)
  {}

  lemma RequestPieces(n: u32, i: i32, s: seq<u8>, j: i32, t: seq<u8>, e: seq<u8>)
      returns (c: seq<u8>, a: seq<u8>, b: seq<u8>)
    requires e == Encode(n) + (EncInt(i) + EncString(s)) + (EncInt(j) + EncString(t))
    ensures c == Encode(n) && a == EncInt(i) + EncString(s) && b == EncInt(j) + EncString(t) && e == c + a + b
  {
    c, a, b := Encode(n), EncInt(i) + EncString(s), EncInt(j) + EncString(t);
  }

  // The name that is handed to the lookup lies in the contents.
  lemma TakenNameIsInside(mem: seq<u8>, len: nat, off: nat, s: Slice, o: nat)
    requires Ready(mem, len, off) && GetName(mem, len, off) == Got(Some(s), o)
    ensures s.len < ZCRT_NAME_LEN && s.pos + s.len <= len
  {
    FetchCursor(KInt, mem, len, off);
    ShortTextInside(mem, len, GetInt(mem, len, off).off, s, o);
  }

  // A name that is taken is not cut off by the lookup: it finds exactly the
  // component that is registered under that very name.
  lemma TakenNameIsExact(log: seq<ZHash.Data>, name: seq<u8>, addr: Ptr, comp: ZHash.Data)
    requires Registry.DistinctNames(log) && |name| < ZCRT_NAME_LEN
    ensures AssocList.Find(log, Registry.COMP_EQ, ZHash.Data(addr, Padded(name))) == Some(comp)
            <==> comp in log && CStr(comp.bytes) == CStr(name)
  {
    Registry.LookupIs(log, name, addr, comp);
    CStrIsShorter(name);
  }

  // ---- The code ----

  method FetchName(ibuf: ZBuf) returns (r: Option<Slice>)
    requires ibuf.Valid() && GetName(ibuf.data[..], ibuf.len, ibuf.offset) != Outside
    modifies ibuf`offset
    ensures ibuf.Valid() && GetName(ibuf.data[..], ibuf.len, old(ibuf.offset)) == Got(r, ibuf.offset)
  {
    var idx := FetchInt(ibuf);
    if idx == None {
      return None;
    }
    r := FetchString(ibuf);
    if r == None || r.value.len >= ZCRT_NAME_LEN {
      return None;
    }
  }

  // zipc_parse_body_info
  method ParseBodyInfo(ibuf: ZBuf) returns (err: int, names: Option<(Slice, Slice)>)
    requires ibuf.Valid() && (ibuf.grown || GetBody(ibuf.data[..], ibuf.len, ibuf.offset) != Outside)
    modifies ibuf`offset
    ensures ibuf.Valid() && GetBody(ibuf.data[..], ibuf.len, old(ibuf.offset)) == Got(names, ibuf.offset)
    ensures err == if names.Some? then 0 else -78
  {
    if ibuf.grown {
      GrownHasSlack(ibuf);
      BodyBounded(ibuf.data[..], ibuf.len, ibuf.offset);
    }
    var cnt := FetchLen(ibuf);
    if cnt == None || cnt.value < 3 {
      return ErrCode.IPC_BODY_ERR, None;
    }
    names := FetchNames(ibuf);
    err := if names.Some? then ErrCode.SUCCESS else ErrCode.IPC_BODY_ERR;
  }

  method FetchNames(ibuf: ZBuf) returns (names: Option<(Slice, Slice)>)
    requires ibuf.Valid() && GetNames(ibuf.data[..], ibuf.len, ibuf.offset) != Outside
    modifies ibuf`offset
    ensures ibuf.Valid() && GetNames(ibuf.data[..], ibuf.len, old(ibuf.offset)) == Got(names, ibuf.offset)
  {
    var comp := FetchName(ibuf);
    if comp == None {
      return None;
    }
    var action := FetchName(ibuf);
    if action == None {
      return None;
    }
    return Some((comp.value, action.value));
  }
}
