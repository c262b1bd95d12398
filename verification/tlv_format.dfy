/**
 What the bytes of zipc/zipc_tlv.c mean: the encoding of each typed value, and
 what each getter returns on any memory, any length and any cursor.
 */
module TlvFormat {
  import opened Machine
  import opened Wrappers
  import opened Leb128
  import opened VarInt
  import opened ZBuffer

  const ZTLV_NIL: u8 := 1
  const ZTLV_FALSE: u8 := 2
  const ZTLV_TRUE: u8 := 3
  const ZTLV_INT: u8 := 4
  const ZTLV_INT64: u8 := 6
  const ZTLV_STR: u8 := 0x11
  const ZTLV_TABLE: u8 := 0x12

  // ---- Encodings ----

  // _ZTLV_VAL_IS_INT32: one short of the whole int32 range
  predicate IsInt32(v: i64)
  {
    -2147483647 <= v <= 2147483647
  }

  function EncBool(v: bool): seq<u8> { [if v then ZTLV_TRUE else ZTLV_FALSE] }
  function EncInt(v: i32): seq<u8> { [ZTLV_INT] + Encode(ZigZag(v)) }
  function EncLong(v: i64): seq<u8> { [ZTLV_INT64] + Encode(ZigZag(v)) }
  function EncInt64(v: i64): seq<u8> { if IsInt32(v) then EncInt(v) else EncLong(v) }
  function EncTable(n: u32): seq<u8> { [ZTLV_TABLE] + Encode(n) }
  function EncString(s: seq<u8>): seq<u8> { [ZTLV_STR] + Encode(|s|) + s }

  // ---- Getters ----

  // The value, if any, and the cursor afterwards; Outside when the getter
  // would read past the end of the memory.
  datatype Got<+T> = Got(value: Option<T>, off: nat) | Outside
  {
    function Map<U>(f: T -> U): Got<U>
    {
      match this
      case Got(Some(v), o) => Got(Some(f(v)), o)
      case Got(None, o) => Got(None, o)
      case Outside => Outside
    }
  }

  // What was read before, and then what a getter returns
  function Prepend<T>(xs: seq<T>, g: Got<seq<T>>): Got<seq<T>>
  {
    match g
    case Got(Some(ys), o) => Got(Some(xs + ys), o)
    case _ => g
  }

  // What a valid buffer offers a getter: mem is the whole block behind it.
  predicate Ready(mem: seq<u8>, len: nat, off: nat)
  {
    len <= |mem| && len < 0x7FFF_FFFF && off <= len + 2
  }

  // The limit handed to the readers: a difference of two unsigned words, as an int
  function Limit(len: nat, off: nat): i32 { S32(U32(len - off)) }

  lemma LimitIsDifference(len: nat, off: nat)
    requires len < 0x7FFF_FFFF && off <= len + 2
    ensures Limit(len, off) == len - off
  {}

  function ScanAt(max: nat, mem: seq<u8>, len: nat, off: nat): Scan
  {
    ScanFrom(max, mem, off, 0, Limit(len, off))
  }

  // A number read leaves the cursor at most two bytes behind the contents.
  lemma CursorBound(max: nat, mem: seq<u8>, len: nat, off: nat)
    requires max <= 10 && len < 0x7FFF_FFFF && off <= len + 2
    ensures var r := ScanAt(max, mem, len, off); r.Done? ==> 0 < r.n && off + r.n <= len + 2 && off + r.n <= |mem|
  {
    LimitIsDifference(len, off);
    ScanLong(max, mem, off, 0, len - off);
    var r := ScanAt(max, mem, len, off);
    if r.Done? {
      ScanDone(max, mem, off, len - off, r.n);
    }
  }

  // ztlv_get_len, and the unsigned words that ZigZag is applied to
  function GetLen(mem: seq<u8>, len: nat, off: nat): Got<u32>
  {
    match ScanAt(NARROW, mem, len, off)
    case Done(n) =>
      ScanLong(NARROW, mem, off, 0, Limit(len, off));
      Got(Some(U32(SumAt(mem, off, n))), off + n)
    case Fail => Got(None, off)
    case Overrun => Outside
  }

  function GetWide(mem: seq<u8>, len: nat, off: nat): Got<u64>
  {
    match ScanAt(WIDE, mem, len, off)
    case Done(n) =>
      ScanLong(WIDE, mem, off, 0, Limit(len, off));
      Got(Some(U64(SumAt(mem, off, n))), off + n)
    case Fail => Got(None, off)
    case Overrun => Outside
  }

  function GetVarInt(mem: seq<u8>, len: nat, off: nat): Got<i32>
  {
    match GetLen(mem, len, off)
    case Got(Some(v), o) => Got(Some(UnZigZag32(v)), o)
    case Got(None, o) => Got(None, o)
    case Outside => Outside
  }

  function GetVarInt64(mem: seq<u8>, len: nat, off: nat): Got<i64>
  {
    match GetWide(mem, len, off)
    case Got(Some(v), o) => Got(Some(UnZigZag64(v)), o)
    case Got(None, o) => Got(None, o)
    case Outside => Outside
  }

  // ztlv_get_type: tag zero stands for the end of the data
  function TagAt(mem: seq<u8>, len: nat, off: nat): u8
    requires Ready(mem, len, off)
  {
    if off + 1 > len then 0 else mem[off]
  }

  function AfterTag(len: nat, off: nat): nat
  {
    if off + 1 > len then off else off + 1
  }

  function GetBool(mem: seq<u8>, len: nat, off: nat): Got<bool>
    requires Ready(mem, len, off)
  {
    var tag := TagAt(mem, len, off);
    Got(if tag == ZTLV_TRUE then Some(true) else if tag == ZTLV_FALSE then Some(false) else None, AfterTag(len, off))
  }

  function GetInt(mem: seq<u8>, len: nat, off: nat): Got<i32>
    requires Ready(mem, len, off)
  {
    var tag, o := TagAt(mem, len, off), AfterTag(len, off);
    if tag == ZTLV_INT then GetVarInt(mem, len, o)
    else if tag == ZTLV_INT64 then
      match GetVarInt64(mem, len, o)
      case Got(Some(v), o2) => Got(Some(S32(v)), o2)
      case Got(None, o2) => Got(None, o2)
      case Outside => Outside
    else Got(None, o)
  }

  function GetInt64(mem: seq<u8>, len: nat, off: nat): Got<i64>
    requires Ready(mem, len, off)
  {
    var tag, o := TagAt(mem, len, off), AfterTag(len, off);
    if tag == ZTLV_INT then
      match GetVarInt(mem, len, o)
      case Got(Some(v), o2) => Got(Some(v as i64), o2)
      case Got(None, o2) => Got(None, o2)
      case Outside => Outside
    else if tag == ZTLV_INT64 then GetVarInt64(mem, len, o)
    else Got(None, o)
  }

  function GetUint32(mem: seq<u8>, len: nat, off: nat): Got<u32>
    requires Ready(mem, len, off)
  {
    match GetInt(mem, len, off)
    case Got(Some(v), o) => Got(Some(U32(v)), o)
    case Got(None, o) => Got(None, o)
    case Outside => Outside
  }

  function GetTable(mem: seq<u8>, len: nat, off: nat): Got<u32>
    requires Ready(mem, len, off)
  {
    if TagAt(mem, len, off) == ZTLV_TABLE then GetLen(mem, len, AfterTag(len, off))
    else Got(None, AfterTag(len, off))
  }

  // ztlv_get_string goes on with length zero when there is no length to read.
  function GetString(mem: seq<u8>, len: nat, off: nat): Got<Slice>
    requires Ready(mem, len, off)
  {
    if TagAt(mem, len, off) == ZTLV_STR then TextAt(GetLen(mem, len, AfterTag(len, off)), len)
    else Got(None, AfterTag(len, off))
  }

  function TextAt(n: Got<u32>, len: nat): Got<Slice>
  {
    match n
    case Got(Some(v), o) => StrAt(len, o, v)
    case Got(None, o) => StrAt(len, o, 0)
    case Outside => Outside
  }

  function StrAt(len: nat, off: nat, n: u32): Got<Slice>
  {
    var end := U32(off + n);
    if end > len then Got(None, len) else Got(Some(Slice(off, n)), end)
  }

  // ztlv_get_ignore: after the tag it calls a getter that takes a tag again.
  function GetIgnore(mem: seq<u8>, len: nat, off: nat): Got<()>
    requires Ready(mem, len, off)
  {
    var tag, o := TagAt(mem, len, off), AfterTag(len, off);
    if tag == ZTLV_FALSE || tag == ZTLV_TRUE then Skipped(GetBool(mem, len, o))
    else if tag == ZTLV_INT then Skipped(GetInt(mem, len, o))
    else if tag == ZTLV_STR then Skipped(GetString(mem, len, o))
    else Got(None, o)
  }

  function Skipped<T>(g: Got<T>): Got<()>
  {
    match g
    case Got(_, o) => Got(Some(()), o)
    case Outside => Outside
  }
}
