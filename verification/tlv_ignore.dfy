/**
 What ztlv_get_ignore does with a value that was put. It takes the tag before it
 calls a getter that takes one too, so that it rarely skips exactly the value.
 */
module TlvIgnore {
  import opened Machine
  import opened Wrappers
  import opened Leb128
  import opened VarInt
  import opened ZBuffer
  import opened TlvFormat
  import opened TlvLaws

  // It skips exactly one bool if and only if the bool ends the contents.
  lemma IgnoreBool(mem: seq<u8>, len: nat, off: nat, v: bool)
    requires Holds(mem, len, off, EncBool(v))
    ensures Ready(mem, len, off)
    ensures GetIgnore(mem, len, off) == Got(Some(()), off + |EncBool(v)|) <==> off + 1 == len
  {
    TagBack(mem, len, off, EncBool(v)[0], []);
  }

  predicate Returns<T>(g: Got<T>) { g.Got? && g.value.Some? }

  // It skips exactly one int if and only if the payload is a single byte that
  // is not taken for the tag of a number that follows.
  lemma IgnoreInt(mem: seq<u8>, len: nat, off: nat, v: i32)
    requires Holds(mem, len, off, EncInt(v)) && len + 2 <= |mem|
    ensures Ready(mem, len, off)
    ensures GetIgnore(mem, len, off) == Got(Some(()), off + |EncInt(v)|)
            <==> && -64 <= v <= 63
                 && (v == 2 ==> !Returns(GetLen(mem, len, off + 2)))
                 && (v == 3 ==> !Returns(GetWide(mem, len, off + 2)))
  {
    var u := ZigZag(v);
    TagBack(mem, len, off, ZTLV_INT, Encode(u));
    HoldsParts(mem, len, off + 1, [Encode(u)[0]], Encode(u)[1..]);
    assert TagAt(mem, len, off + 1) == Encode(u)[0] && AfterTag(len, off + 1) == off + 2;
    assert u < 0x80 <==> -64 <= v <= 63;
    NumbersBounded(mem, len, off + 2);
    CursorBound(NARROW, mem, len, off + 2);
    CursorBound(WIDE, mem, len, off + 2);
    if u < 0x80 {
      assert Encode(u) == [u];
    } else {
      assert Encode(u)[0] >= 0x80 && |Encode(u)| > 1;
    }
  }

  // ---- Strings ----

  // The first n bytes of s are a number.
  ghost predicate StartsWith(s: seq<u8>, n: nat, v: u32)
  {
    1 <= n <= NARROW && n <= |s| && Terminated(s[..n]) && v == U32(Sum(s[..n]))
  }

  // With a length byte that is the tag of a string, and a number in front that
  // leads to the end of the string, or beyond the contents when these end there.
  ghost predicate LeadsToEnd(s: seq<u8>, len: nat, off: nat, n: nat, v: u32)
  {
    StartsWith(s, n, v) && (v == 17 - n || (len == off + 19 && U32(off + 2 + n + v) > len))
  }

  // It skips exactly one string if and only if the string is empty, or has 17
  // bytes that start with such a number.
  lemma IgnoreString(mem: seq<u8>, len: nat, off: nat, s: seq<u8>)
    requires Holds(mem, len, off, EncString(s))
    ensures Ready(mem, len, off)
    ensures GetIgnore(mem, len, off) == Got(Some(()), off + |EncString(s)|)
            <==> s == [] || (|s| == 17 && exists n: nat, v: u32 :: LeadsToEnd(s, len, off, n, v))
  {
    var c := StringPieces(s);
    HoldsParts(mem, len, off, [ZTLV_STR] + c, s);
    TagBack(mem, len, off, ZTLV_STR, c);
    LengthByte(|s|, c);
    assert TagAt(mem, len, off + 1) == c[0] && AfterTag(len, off + 1) == off + 2;
    if |s| == 17 {
      IgnoreSeventeen(mem, len, off, s);
    }
  }

  lemma LengthByte(n: nat, c: seq<u8>)
    requires c == Encode(n)
    ensures |c| >= 1 && (n < 0x80 ==> c == [n]) && (n >= 0x80 ==> c[0] >= 0x80 && |c| > 1)
  {}

  lemma IgnoreSeventeen(mem: seq<u8>, len: nat, off: nat, s: seq<u8>)
    requires |s| == 17 && Holds(mem, len, off + 2, s)
    ensures var g := TextAt(GetLen(mem, len, off + 2), len);
            g.Got? && (g.off == off + 19 <==> exists n: nat, v: u32 :: LeadsToEnd(s, len, off, n, v))
  {
    var r := ReadsNumber(mem, len, off + 2, s);
    if r > 0 {
      var w := U32(Sum(s[..r]));
      EndIs(len, off, r, w);
      assert StartsWith(s, r, w);
      if LeadsToEnd(s, len, off, r, w) {
        assert exists n: nat, v: u32 :: LeadsToEnd(s, len, off, n, v);
      }
      assert forall n: nat, v: u32 :: LeadsToEnd(s, len, off, n, v) ==> n == r && v == w;
    } else {
      NothingIsRead(len, off + 2);
      assert forall n: nat, v: u32 :: !LeadsToEnd(s, len, off, n, v);
    }
  }

  lemma NothingIsRead(len: nat, off: nat)
    requires off <= len < 0x7FFF_FFFF
    ensures StrAt(len, off, 0) == Got(Some(Slice(off, 0)), off)
  {}

  // The length reader on 17 bytes of contents takes the number in front, if any.
  lemma ReadsNumber(mem: seq<u8>, len: nat, p: nat, s: seq<u8>) returns (r: nat)
    requires |s| == 17 && Holds(mem, len, p, s)
    ensures r == 0 ==> GetLen(mem, len, p) == Got(None, p) && forall n: nat, v: u32 :: !StartsWith(s, n, v)
    ensures r > 0 ==> r <= NARROW && Terminated(s[..r]) && GetLen(mem, len, p) == Got(Some(U32(Sum(s[..r]))), p + r)
    ensures r > 0 ==> forall n: nat, v: u32 :: StartsWith(s, n, v) ==> n == r
  {
    LimitIsDifference(len, p);
    NoOverrun(NARROW, mem, p, 0, len - p);
    forall n: nat | 1 <= n <= NARROW
      ensures mem[p..p + n] == s[..n] && (ScanAt(NARROW, mem, len, p) == Done(n) <==> Terminated(s[..n]))
    {
      assert mem[p..p + n] == mem[p..p + |s|][..n];
      ScanDone(NARROW, mem, p, len - p, n);
    }
    r := 0;
    var a := ScanAt(NARROW, mem, len, p);
    ScanLong(NARROW, mem, p, 0, len - p);
    if a.Done? {
      r := a.n;
      SumAtIsSum(mem, p, r);
    }
  }

  lemma {:induction false} NoOverrun(max: nat, mem: seq<u8>, p: nat, k: nat, limit: int)
    requires p + max <= |mem|
    ensures ScanFrom(max, mem, p, k, limit) != Overrun
    decreases max - k
  {
    if k < max { NoOverrun(max, mem, p, k + 1, limit); }
  }

  lemma EndIs(len: nat, off: nat, n: nat, v: u32)
    requires 1 <= n <= NARROW && off + 19 <= len < 0x7FFF_FFFF
    ensures var g := StrAt(len, off + 2 + n, v);
            g.Got? && (g.off == off + 19 <==> v == 17 - n || (len == off + 19 && U32(off + 2 + n + v) > len))
  {}

  // ---- The other tags ----

  // Anything else is refused, long integers, tables and nil among them; only the
  // tag is taken.
  lemma IgnoreRefuses(mem: seq<u8>, len: nat, off: nat, tag: u8, e: seq<u8>)
    requires tag != 2 && tag != 3 && tag != 4 && tag != 0x11 && Holds(mem, len, off, [tag] + e)
    ensures Ready(mem, len, off) && GetIgnore(mem, len, off) == Got(None, off + 1)
  {
    TagBack(mem, len, off, tag, e);
  }
}
