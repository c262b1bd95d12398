/**
 The growable byte buffer of zcrtlib/zbuf.c. The array stands for the block
 behind v->buf: its length is the real capacity, which growth makes larger
 than the recorded one, maxlen.
 */
module ZBuffer {
  import opened Machine
  import opened Wrappers

  // ---- The doubling loop of zcrt_buf_realloc on 32-bit words ----

  // cap after n doublings
  function CapAfter(n: nat): u32
  {
    if n == 0 then 1 else U32(CapAfter(n - 1) * 2)
  }

  // The loop leaves with CapAfter(n).
  ghost predicate Leaves(len: u32, n: nat)
  {
    && CapAfter(n) > U32(len + 1)
    && forall m :: 0 <= m < n ==> CapAfter(m) <= U32(len + 1)
  }

  lemma {:induction false} CapIsPower(n: nat)
    ensures CapAfter(n) == if n < 32 then Shl(1, n) else 0
    ensures n < 32 ==> Shl(1, n) <= 0x8000_0000
  {
    if n > 0 {
      CapIsPower(n - 1);
      WordSizes();
      if n < 32 { ShlMono(n, 31); }
    }
  }

  // The loop cannot get past 31 doublings.
  lemma StillRoom(len: u32, n: nat)
    requires len < 0x7FFF_FFFF && n < 32 && CapAfter(n) <= len + 1
    ensures n < 31
  {
    CapIsPower(31);
    WordSizes();
  }

  lemma {:induction false} EventuallyLeaves(len: u32, n: nat)
    requires len < 0x7FFF_FFFF && n < 32
    requires forall m :: 0 <= m < n ==> CapAfter(m) <= len + 1
    ensures exists k :: Leaves(len, k)
    decreases 32 - n
  {
    if CapAfter(n) > len + 1 {
      assert Leaves(len, n);
    } else {
      StillRoom(len, n);
      EventuallyLeaves(len, n + 1);
    }
  }

  // Below 2^31 - 1 the loop leaves with the least power of two above len + 1.
  lemma LeavesWithLeastPower(len: u32, n: nat)
    requires len < 0x7FFF_FFFF && Leaves(len, n)
    ensures CapAfter(n) == Shl(1, n) && IsGrowth(CapAfter(n), len, n)
  {
    CapIsPower(n);
    assert CapAfter(0) == 1;
    CapIsPower(n - 1);
    assert CapAfter(n - 1) <= len + 1;
  }

  // Growing for len bytes ends with a block that holds more than len + 1 bytes
  // exactly when len is below 2^31 - 1. (From there on the loop does not end,
  // except at 2^32 - 1, where len + 1 wraps and it ends with one byte.)
  lemma GrowthWorks(len: u32)
    ensures (exists n :: Leaves(len, n) && CapAfter(n) > len + 1) <==> len < 0x7FFF_FFFF
  {
    if len < 0x7FFF_FFFF {
      EventuallyLeaves(len, 0);
      var n :| Leaves(len, n);
      LeavesWithLeastPower(len, n);
    } else {
      forall n | Leaves(len, n)
        ensures CapAfter(n) <= len + 1
      {
        CapIsPower(n);
      }
    }
  }

  // cap is the least power of two above len + 1.
  ghost predicate IsGrowth(cap: nat, len: nat, k: nat)
  {
    cap == Shl(1, k) && len + 1 < cap <= 2 * (len + 1)
  }

  lemma GrowthIsLeastPower(cap: nat, len: nat, k: nat, j: nat)
    requires IsGrowth(cap, len, k) && Shl(1, j) > len + 1
    ensures cap <= Shl(1, j)
  {
    if j < k {
      ShlMono(j, k - 1);
    } else {
      ShlMono(k, j);
    }
  }

  // A longer request never ends with a shorter block.
  lemma GrowthMonotone(cap: nat, len: nat, k: nat, cap': nat, len': nat, k': nat)
    requires len <= len' && IsGrowth(cap, len, k) && IsGrowth(cap', len', k')
    ensures cap <= cap'
  {
    GrowthIsLeastPower(cap, len, k, k');
  }

  // v holds bytes behind what it held before; the cursor has not moved and the
  // capacities have not shrunk.
  twostate predicate Grown(v: ZBuf, bytes: seq<u8>)
    requires old(v.Valid())
    reads v, v.data
  {
    && v.Valid()
    && v.Contents() == old(v.Contents()) + bytes
    && v.offset == old(v.offset) && v.maxlen >= old(v.maxlen) && v.data.Length >= old(v.data.Length)
    && (v.data == old(v.data) || fresh(v.data))
    && (old(v.grown) ==> v.grown)
  }

  method DoubleUpTo(len: u32) returns (cap: u32, ghost n: nat)
    requires len < 0x7FFF_FFFF
    ensures Leaves(len, n) && cap == CapAfter(n) && IsGrowth(cap, len, n)
  {
    cap := 1;
    n := 0;
    while cap <= U32(len + 1)
      invariant cap == CapAfter(n)
      invariant forall m :: 0 <= m < n ==> CapAfter(m) <= len + 1
      invariant n < 32
      decreases 32 - n
    {
      StillRoom(len, n);
      cap := U32(cap * 2);
      n := n + 1;
    }
    LeavesWithLeastPower(len, n);
  }

  // zcrt_realloc to at least the old size: a new block that starts with the
  // old one. What follows is not initialised.
  method ReallocBlock(block: array<u8>, size: nat) returns (r: array<u8>)
    requires block.Length <= size
    ensures fresh(r) && r.Length == size && r[..block.Length] == block[..]
  {
    r := new u8[size];
    forall i | 0 <= i < block.Length {
      r[i] := block[i];
    }
  }

  // A zstr_t into the buffer: no bytes are copied.
  datatype Slice = Slice(pos: nat, len: nat)

  class ZBuf {
    var maxlen: u32
    var len: u32
    var offset: u32
    var data: array<u8>
    // has the block been grown since the buffer was initialised, and by how
    // many doublings?
    ghost var grown: bool
    ghost var doublings: nat

    ghost predicate Valid()
      reads this, data
    {
      && len <= maxlen <= data.Length
      && maxlen < 0x7FFF_FFFF
      && offset <= len + 2
      && if grown then IsGrowth(data.Length, maxlen, doublings) else data.Length == maxlen
    }

    ghost function Contents(): (s: seq<u8>)
      requires Valid()
      reads this, data
    {
      data[..len]
    }

    // zcrt_buf_init. No block at all (length 0) is modelled by an empty one.
    constructor (length: u32)
      requires length < 0x7FFF_FFFF
      ensures Valid() && Contents() == [] && offset == 0 && maxlen == data.Length == length && !grown
      ensures fresh(data)
    {
      data := new u8[length];
      maxlen, len, offset := length, 0, 0;
      grown, doublings := false, 0;
    }

    // zcrt_buf_realloc
    method Realloc(length: u32) returns (r: u32)
      requires Valid() && length < 0x7FFF_FFFF
      modifies this`data, this`maxlen, this`grown, this`doublings
      ensures r == length && Grown(this, []) && length <= maxlen
      ensures if old(maxlen) < length then fresh(data) && grown && maxlen == length
              else data == old(data) && maxlen == old(maxlen)
    {
      if length == 0 {
        return 0;
      }
      if maxlen < length {
        var cap, n := DoubleUpTo(length);
        if grown {
          GrowthMonotone(data.Length, maxlen, doublings, cap, length, n);
        }
        data := ReallocBlock(data, cap);
        maxlen := length;
        grown, doublings := true, n;
      }
      return length;
    }

    // zcrt_buf_append
    method Append(bytes: seq<u8>) returns (r: u32)
      requires Valid() && len + |bytes| < 0x7FFF_FFFF
      modifies this, data
      ensures r == |bytes| && Grown(this, bytes)
    {
      if |bytes| == 0 {
        return 0;
      }
      var newlen := U32(len + |bytes|);
      var _ := Realloc(newlen);
      forall i | 0 <= i < |bytes| {
        data[len + i] := bytes[i];
      }
      assert data[..newlen] == old(Contents()) + bytes;
      len := newlen;
      return |bytes|;
    }

    // buf->len += n, after n bytes have been written behind the contents
    method Take(n: nat, ghost bytes: seq<u8>)
      requires Valid() && len + n <= maxlen && data[len..len + n] == bytes
      modifies this`len
      ensures Grown(this, bytes)
    {
      assert data[..len + n] == data[..len] + data[len..len + n];
      len := len + n;
    }

    // zcrt_buf_get: where the next length bytes start
    method Get(length: u32) returns (r: Option<nat>)
      requires Valid()
      modifies this`offset
      ensures Valid()
      ensures var end := U32(old(offset) + length);
              if length == 0 || end > len then r == None && offset == old(offset)
              else r == Some(old(offset)) && offset == end
    {
      if length == 0 {
        return None;
      }
      var off := offset;
      if U32(off + length) > len {
        return None;
      }
      offset := U32(offset + length);
      return Some(off);
    }

    // zcrt_buf_getstr: the slice of length bytes at the cursor, unless it runs
    // past the end, which puts the cursor there. (The cursor is a 32-bit sum.)
    method GetStr(length: u32) returns (r: Option<Slice>)
      requires Valid()
      modifies this`offset
      ensures Valid()
      ensures var end := U32(old(offset) + length);
              if end > len then r == None && offset == len
              else r == Some(Slice(old(offset), length)) && offset == end
    {
      var str := Slice(offset, length);
      offset := U32(offset + length);
      if offset > len {
        offset := len;
        return None;
      }
      return Some(str);
    }

    // zcrt_buf_clear
    method Clear()
      requires Valid()
      modifies this`len, this`offset
      ensures Valid() && Contents() == [] && offset == 0
    {
      len := 0;
      offset := 0;
    }
  }
}
