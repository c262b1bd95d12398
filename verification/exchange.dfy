/**
 The codec end to end: values put into a live buffer, however often it is
 reallocated on the way, are fetched from it again.
 */
module Exchange {
  import opened Machine
  import opened Wrappers
  import opened Leb128
  import opened ZBuffer
  import opened TlvFormat
  import opened TlvLaws
  import opened Ztlv

  // What a put may reserve
  function Need(v: Val): nat
  {
    if v.VString? then 6 + |v.s| else 11
  }

  function NeedAll(vs: seq<Val>): nat
  {
    if vs == [] then 0 else Need(vs[0]) + NeedAll(vs[1..])
  }

  lemma EncWithinNeed(v: Val)
    requires v.VString? ==> |v.s| < 0x1_0000_0000
    ensures |v.Enc()| <= Need(v)
  {
    match v
    case VBool(b) =>
    case VInt(i) => EncodeFits(ZigZag(i));
    case VUint32(u) => EncodeFits(ZigZag(u));
    case VInt64(l) => EncodeFits(ZigZag(l));
    case VString(s) => EncodeFits(|s|);
    case VTable(cnt) => EncodeFits(cnt);
    case VLen(n) => EncodeFits(n);
  }

  method Put(buf: ZBuf, v: Val)
    requires Room(buf, Need(v))
    modifies buf, buf.data
    ensures Grown(buf, v.Enc())
  {
    match v
    case VBool(b) => PutBool(buf, b);
    case VInt(i) => PutInt(buf, i);
    case VUint32(u) => PutUint32(buf, u);
    case VInt64(l) => PutInt64(buf, l);
    case VString(s) => PutString(buf, Some(s));
    case VTable(cnt) => PutTable(buf, cnt);
    case VLen(n) => PutLen(buf, n);
  }

  method PutFirst(buf: ZBuf, vs: seq<Val>) returns (ghost e: seq<u8>)
    requires vs != [] && Room(buf, NeedAll(vs))
    modifies buf, buf.data
    ensures Grown(buf, e) && EncAll(vs) == e + EncAll(vs[1..]) && Room(buf, NeedAll(vs[1..]))
  {
    EncWithinNeed(vs[0]);
    e := vs[0].Enc();
    Put(buf, vs[0]);
  }

  method PutAll(buf: ZBuf, vs: seq<Val>)
    requires Room(buf, NeedAll(vs))
    modifies buf, buf.data
    ensures Grown(buf, EncAll(vs))
    decreases |vs|
  {
    if vs != [] {
      ghost var e := PutFirst(buf, vs);
      PutAll(buf, vs[1..]);
      Assoc(old(buf.Contents()), e, EncAll(vs[1..]));
    }
  }

  method FetchItem(buf: ZBuf, k: Kind) returns (r: Option<Item>)
    requires buf.Valid() && Fetch(k, buf.data[..], buf.len, buf.offset) != Outside
    modifies buf`offset
    ensures buf.Valid() && Fetch(k, buf.data[..], buf.len, old(buf.offset)) == Got(r, buf.offset)
  {
    match k
    case KBool => var v := FetchBool(buf); r := if v.Some? then Some(Plain(VBool(v.value))) else None;
    case KInt => var v := FetchInt(buf); r := if v.Some? then Some(Plain(VInt(v.value))) else None;
    case KUint32 => var v := FetchUint32(buf); r := if v.Some? then Some(Plain(VUint32(v.value))) else None;
    case KInt64 => var v := FetchInt64(buf); r := if v.Some? then Some(Plain(VInt64(v.value))) else None;
    case KString => var v := FetchString(buf); r := if v.Some? then Some(Text(v.value)) else None;
    case KTable => var v := FetchTable(buf); r := if v.Some? then Some(Plain(VTable(v.value))) else None;
    case KLen => var v := FetchLen(buf); r := if v.Some? then Some(Plain(VLen(v.value))) else None;
    case KType => var v := FetchType(buf); r := Some(Tag(v));
    case KIgnore => var v := FetchIgnore(buf); r := if v.Some? then Some(Nothing) else None;
  }

  // Getters one after the other, whatever they return. On a buffer that has
  // been grown this asks for nothing more.
  method FetchRun(buf: ZBuf, ks: seq<Kind>) returns (rs: seq<Option<Item>>)
    requires buf.Valid() && (buf.grown || FetchOn(ks, buf.data[..], buf.len, buf.offset) != Outside)
    modifies buf`offset
    ensures buf.Valid() && FetchOn(ks, buf.data[..], buf.len, old(buf.offset)) == Got(Some(rs), buf.offset)
    decreases |ks|
  {
    if ks == [] {
      return [];
    }
    if buf.grown {
      GrownHasSlack(buf);
      FetchBounded(ks[0], buf.data[..], buf.len, buf.offset);
    }
    var x := FetchItem(buf, ks[0]);
    var xs := FetchRun(buf, ks[1..]);
    rs := [x] + xs;
  }

  method FetchItems(buf: ZBuf, ks: seq<Kind>) returns (r: Option<seq<Item>>)
    requires buf.Valid() && FetchAll(ks, buf.data[..], buf.len, buf.offset) != Outside
    modifies buf`offset
    ensures buf.Valid() && FetchAll(ks, buf.data[..], buf.len, old(buf.offset)) == Got(r, buf.offset)
    decreases |ks|
  {
    if ks == [] {
      return Some([]);
    }
    var x := FetchItem(buf, ks[0]);
    if x == None {
      return None;
    }
    var xs := FetchItems(buf, ks[1..]);
    return if xs.Some? then Some([x.value] + xs.value) else None;
  }

  // Put the values behind what has been read so far, append any suffix, and
  // fetch: the same values come back and the cursor stands before the suffix.
  method PutAndFetch(buf: ZBuf, vs: seq<Val>, suffix: seq<u8>) returns (items: seq<Item>)
    requires Room(buf, NeedAll(vs) + |suffix|) && buf.offset == buf.len
    modifies buf, buf.data
    ensures buf.Valid() && buf.Contents() == old(buf.Contents()) + EncAll(vs) + suffix
    ensures AllDenote(buf.data[..], buf.len, items, vs)
    ensures buf.offset == buf.len - |suffix|
  {
    ghost var start := buf.len;
    PutAll(buf, vs);
    EncAllWithinNeed(vs);
    var _ := buf.Append(suffix);
    ghost var mem := buf.data[..];
    assert mem[start..start + |EncAll(vs)|] == buf.Contents()[start..start + |EncAll(vs)|];
    RoundTrip(vs, mem, buf.len, start);
    var r := FetchItems(buf, Kinds(vs));
    items := r.value;
  }

  lemma {:induction false} EncAllWithinNeed(vs: seq<Val>)
    requires NeedAll(vs) < 0x7FFF_FFFF
    ensures |EncAll(vs)| <= NeedAll(vs)
  {
    if vs != [] {
      EncWithinNeed(vs[0]);
      EncAllWithinNeed(vs[1..]);
    }
  }
}
