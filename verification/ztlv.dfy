/**
 The put and get functions of zipc/zipc_tlv.c on a buffer. A put appends the
 encoding of its value and a get does what TlvFormat says; each get may be
 called only where it stays inside the block behind the buffer.
 */
module Ztlv {
  import opened Machine
  import opened Wrappers
  import opened Leb128
  import opened VarInt
  import opened ZBuffer
  import opened TlvFormat
  import opened TlvLaws

  // ---- Writing ----

  // zcrt_buf_realloc(buf, buf->len + n) must end.
  ghost predicate Room(buf: ZBuf, n: nat)
    reads buf, buf.data
  {
    buf.Valid() && buf.len + n < 0x7FFF_FFFF
  }

  method PutType(buf: ZBuf, v: u8)
    requires Room(buf, 1)
    modifies buf, buf.data
    ensures Grown(buf, [v])
  {
    var _ := buf.Append([v]);
  }

  method PutLen(buf: ZBuf, v: u32)
    requires Room(buf, 5)
    modifies buf, buf.data
    ensures Grown(buf, Encode(v)) && |Encode(v)| <= 5
  {
    var _ := buf.Realloc(buf.len + 5);
    var n := WriteLen32(buf.data, buf.len, v);
    assert buf.Contents() == old(buf.Contents());
    buf.Take(n, Encode(v));
  }

  method PutWide(buf: ZBuf, v: u64)
    requires Room(buf, 10)
    modifies buf, buf.data
    ensures Grown(buf, Encode(v))
  {
    var _ := buf.Realloc(buf.len + 10);
    var n := WriteLen64(buf.data, buf.len, v);
    assert buf.Contents() == old(buf.Contents());
    buf.Take(n, Encode(v));
  }

  method PutBool(buf: ZBuf, v: bool)
    requires Room(buf, 1)
    modifies buf, buf.data
    ensures Grown(buf, EncBool(v))
  {
    PutType(buf, if v then ZTLV_TRUE else ZTLV_FALSE);
  }

  method PutInt(buf: ZBuf, v: i32)
    requires Room(buf, 6)
    modifies buf, buf.data
    ensures Grown(buf, EncInt(v)) && |EncInt(v)| <= 6
  {
    PutType(buf, ZTLV_INT);
    PutLen(buf, ZigZagEncode32(v));
  }

  method PutLong(buf: ZBuf, v: i64)
    requires Room(buf, 11)
    modifies buf, buf.data
    ensures Grown(buf, EncLong(v))
  {
    PutType(buf, ZTLV_INT64);
    PutWide(buf, ZigZagEncode64(v));
  }

  // ztlv_put_int64
  method PutInt64(buf: ZBuf, v: i64)
    requires Room(buf, 11)
    modifies buf, buf.data
    ensures Grown(buf, EncInt64(v))
  {
    if IsInt32(v) {
      PutInt(buf, v);
    } else {
      PutLong(buf, v);
    }
  }

  // ztlv_put_uint32: the value is widened, and narrowed again for the short tag
  method PutUint32(buf: ZBuf, v: u32)
    requires Room(buf, 11)
    modifies buf, buf.data
    ensures Grown(buf, EncInt64(v))
  {
    var nv: i64 := v;
    var sv := S32(v);
    if IsInt32(nv) {
      assert sv == nv;
      PutInt(buf, sv);
    } else {
      PutLong(buf, nv);
    }
  }

  method PutTable(buf: ZBuf, cnt: u32)
    requires Room(buf, 6)
    modifies buf, buf.data
    ensures Grown(buf, EncTable(cnt)) && |EncTable(cnt)| <= 6
  {
    PutType(buf, ZTLV_TABLE);
    PutLen(buf, cnt);
  }

  // ztlv_put_lstring; None is the NULL pointer.
  method PutString(buf: ZBuf, v: Option<seq<u8>>)
    requires Room(buf, 6 + if v.Some? then |v.value| else 0)
    modifies buf, buf.data
    ensures Grown(buf, match v case None => [1] case Some(s) => EncString(s))
  {
    if v == None {
      PutType(buf, ZTLV_NIL);
    } else {
      PutText(buf, v.value);
    }
  }

  method PutText(buf: ZBuf, s: seq<u8>)
    requires Room(buf, 6 + |s|)
    modifies buf, buf.data
    ensures Grown(buf, EncString(s))
  {
    PutType(buf, ZTLV_STR);
    PutLen(buf, |s|);
    var _ := buf.Append(s);
  }

  // ---- Reading ----

  method FetchType(buf: ZBuf) returns (tag: u8)
    requires buf.Valid()
    modifies buf`offset
    ensures buf.Valid() && buf.offset == AfterTag(buf.len, old(buf.offset))
    ensures tag == TagAt(buf.data[..], buf.len, old(buf.offset))
  {
    var at := buf.Get(1);
    if at.Some? {
      return buf.data[at.value];
    }
    return 0;
  }

  method FetchLen(buf: ZBuf) returns (r: Option<u32>)
    requires buf.Valid() && GetLen(buf.data[..], buf.len, buf.offset) != Outside
    modifies buf`offset
    ensures buf.Valid() && GetLen(buf.data[..], buf.len, old(buf.offset)) == Got(r, buf.offset)
  {
    CursorBound(NARROW, buf.data[..], buf.len, buf.offset);
    var ok, next, value := ReadLen32(buf.data, buf.offset, Limit(buf.len, buf.offset));
    if ok {
      buf.offset := next;
      return Some(value);
    }
    return None;
  }

  method FetchVarInt(buf: ZBuf) returns (r: Option<i32>)
    requires buf.Valid() && GetVarInt(buf.data[..], buf.len, buf.offset) != Outside
    modifies buf`offset
    ensures buf.Valid() && GetVarInt(buf.data[..], buf.len, old(buf.offset)) == Got(r, buf.offset)
  {
    var v := FetchLen(buf);
    return if v.Some? then Some(ZigZagDecode32(v.value)) else None;
  }

  method FetchWide(buf: ZBuf) returns (r: Option<u64>)
    requires buf.Valid() && GetWide(buf.data[..], buf.len, buf.offset) != Outside
    modifies buf`offset
    ensures buf.Valid() && GetWide(buf.data[..], buf.len, old(buf.offset)) == Got(r, buf.offset)
  {
    CursorBound(WIDE, buf.data[..], buf.len, buf.offset);
    ghost var scan := ScanAt(WIDE, buf.data[..], buf.len, buf.offset);
    var n, value := ReadLen64(buf.data, buf.offset, Limit(buf.len, buf.offset));
    if n > 0 {
      assert scan == Done(n);
      CastsKeep(buf.offset + n);
      buf.offset := U32(buf.offset + n);
      return Some(value);
    }
    return None;
  }

  method FetchVarInt64(buf: ZBuf) returns (r: Option<i64>)
    requires buf.Valid() && GetVarInt64(buf.data[..], buf.len, buf.offset) != Outside
    modifies buf`offset
    ensures buf.Valid() && GetVarInt64(buf.data[..], buf.len, old(buf.offset)) == Got(r, buf.offset)
  {
    var v := FetchWide(buf);
    return if v.Some? then Some(ZigZagDecode64(v.value)) else None;
  }

  method FetchBool(buf: ZBuf) returns (r: Option<bool>)
    requires buf.Valid()
    modifies buf`offset
    ensures buf.Valid() && GetBool(buf.data[..], buf.len, old(buf.offset)) == Got(r, buf.offset)
  {
    var ty := FetchType(buf);
    if ty == ZTLV_TRUE {
      return Some(true);
    } else if ty == ZTLV_FALSE {
      return Some(false);
    }
    return None;
  }

  method FetchInt(buf: ZBuf) returns (r: Option<i32>)
    requires buf.Valid() && GetInt(buf.data[..], buf.len, buf.offset) != Outside
    modifies buf`offset
    ensures buf.Valid() && GetInt(buf.data[..], buf.len, old(buf.offset)) == Got(r, buf.offset)
  {
    var ty := FetchType(buf);
    if ty == ZTLV_INT {
      r := FetchVarInt(buf);
    } else if ty == ZTLV_INT64 {
      var nv := FetchVarInt64(buf);
      r := if nv.Some? then Some(S32(nv.value)) else None;
    } else {
      r := None;
    }
  }

  method FetchInt64(buf: ZBuf) returns (r: Option<i64>)
    requires buf.Valid() && GetInt64(buf.data[..], buf.len, buf.offset) != Outside
    modifies buf`offset
    ensures buf.Valid() && GetInt64(buf.data[..], buf.len, old(buf.offset)) == Got(r, buf.offset)
  {
    var ty := FetchType(buf);
    if ty == ZTLV_INT {
      var nv := FetchVarInt(buf);
      r := if nv.Some? then Some(nv.value) else None;
    } else if ty == ZTLV_INT64 {
      r := FetchVarInt64(buf);
    } else {
      r := None;
    }
  }

  // ztlv_get_uint32: the int32 getter on a reinterpreted pointer
  method FetchUint32(buf: ZBuf) returns (r: Option<u32>)
    requires buf.Valid() && GetUint32(buf.data[..], buf.len, buf.offset) != Outside
    modifies buf`offset
    ensures buf.Valid() && GetUint32(buf.data[..], buf.len, old(buf.offset)) == Got(r, buf.offset)
  {
    var v := FetchInt(buf);
    return if v.Some? then Some(U32(v.value)) else None;
  }

  method FetchTable(buf: ZBuf) returns (r: Option<u32>)
    requires buf.Valid() && GetTable(buf.data[..], buf.len, buf.offset) != Outside
    modifies buf`offset
    ensures buf.Valid() && GetTable(buf.data[..], buf.len, old(buf.offset)) == Got(r, buf.offset)
  {
    var ty := FetchType(buf);
    if ty != ZTLV_TABLE {
      return None;
    }
    r := FetchLen(buf);
  }

  method FetchString(buf: ZBuf) returns (r: Option<Slice>)
    requires buf.Valid() && GetString(buf.data[..], buf.len, buf.offset) != Outside
    modifies buf`offset
    ensures buf.Valid() && GetString(buf.data[..], buf.len, old(buf.offset)) == Got(r, buf.offset)
  {
    var ty := FetchType(buf);
    if ty != ZTLV_STR {
      return None;
    }
    var n := FetchLen(buf);
    r := FetchText(buf, n);
  }

  // A failed read leaves zero in the length and is not looked at.
  method FetchText(buf: ZBuf, n: Option<u32>) returns (r: Option<Slice>)
    requires buf.Valid()
    modifies buf`offset
    ensures buf.Valid() && TextAt(Got(n, old(buf.offset)), buf.len) == Got(r, buf.offset)
  {
    r := buf.GetStr(if n.Some? then n.value else 0);
  }

  method FetchIgnore(buf: ZBuf) returns (r: Option<()>)
    requires buf.Valid() && (buf.grown || GetIgnore(buf.data[..], buf.len, buf.offset) != Outside)
    modifies buf`offset
    ensures buf.Valid() && GetIgnore(buf.data[..], buf.len, old(buf.offset)) == Got(r, buf.offset)
  {
    if buf.grown {
      GrownHasSlack(buf);
      IgnoreBounded(buf.data[..], buf.len, buf.offset);
    }
    var ty := FetchType(buf);
    if ty == ZTLV_FALSE || ty == ZTLV_TRUE {
      var _ := FetchBool(buf);
    } else if ty == ZTLV_INT {
      var _ := FetchInt(buf);
    } else if ty == ZTLV_STR {
      var _ := FetchString(buf);
    } else {
      return None;
    }
    return Some(());
  }
}
