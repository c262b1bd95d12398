/**
 The hand-unrolled variable-length integer routines of zipc/zipc_tlv.c, on an
 array that stands for the memory behind the buffer pointer.
 */
module VarInt {
  import opened Machine
  import opened Leb128

  // ---- ZigZag ----

  lemma Wrap32(n: i32)
    ensures U32(2 * n) == if n >= 0 then 2 * n else 2 * n + 0x1_0000_0000
    ensures U32(n / 0x8000_0000) == if n >= 0 then 0 else 0xFFFF_FFFF
  {}

  lemma Wrap64(n: i64)
    ensures U64(2 * n) == if n >= 0 then 2 * n else 2 * n + 0x1_0000_0000_0000_0000
    ensures U64(n / 0x8000_0000_0000_0000) == if n >= 0 then 0 else 0xFFFF_FFFF_FFFF_FFFF
  {}

  // n << 1 and n >> 31 are on a signed n; the shift right is arithmetic.
  function ZigZagEncode32(n: i32): (r: u32)
    ensures r == ZigZag(n)
  {
    Wrap32(n);
    XorMask(U32(2 * n));
    Xor(U32(2 * n), U32(n / 0x8000_0000))
  }

  function ZigZagDecode32(n: u32): (r: i32)
    ensures r == UnZigZag(n)
  {
    LowBit(n);
    DecodeMask32(n, n % 2);
    var low: int := And(n, 1);
    S32(Xor(n / 2, U32(-low)))
  }

  lemma DecodeMask32(n: u32, low: int)
    requires low == n % 2
    ensures S32(Xor(n / 2, U32(-low))) == UnZigZag(n)
  {
    SignedHalves(n / 2);
    if low == 0 {
      assert U32(-low) == 0;
    }
    XorMask(n / 2);
  }

  function ZigZagEncode64(n: i64): (r: u64)
    ensures r == ZigZag(n)
  {
    Wrap64(n);
    XorMask(U64(2 * n));
    Xor(U64(2 * n), U64(n / 0x8000_0000_0000_0000))
  }

  function ZigZagDecode64(n: u64): (r: i64)
    ensures r == UnZigZag(n)
  {
    LowBit(n);
    DecodeMask64(n, n % 2);
    var low: int := And(n, 1);
    S64(Xor(n / 2, U64(-low)))
  }

  lemma DecodeMask64(n: u64, low: int)
    requires low == n % 2
    ensures S64(Xor(n / 2, U64(-low))) == UnZigZag(n)
  {
    SignedHalves(n / 2);
    if low == 0 {
      assert U64(-low) == 0;
    }
    XorMask(n / 2);
  }

  // ---- What the readers do ----

  // The narrow reader looks at no more than five bytes, the wide one at ten.
  const NARROW := 5
  const WIDE := 10

  // Does a reader go on to fetch byte k when limit bytes are left? Its test
  // lets one byte beyond the limit through, and there is none before byte 8.
  predicate Fetches(k: nat, limit: int)
  {
    if k < 8 then k <= limit else k == 8 || k - 1 <= limit
  }

  // Done(n): an n-byte number was read. Fail: the reader gave up. Overrun: the
  // reader would fetch a byte past the end of the memory.
  datatype Scan = Done(n: nat) | Fail | Overrun

  function ScanFrom(max: nat, mem: seq<u8>, p: nat, k: nat, limit: int): Scan
    decreases max - k
  {
    if k >= max || !Fetches(k, limit) then Fail
    else if p + k >= |mem| then Overrun
    else if mem[p + k] < 0x80 then Done(k + 1)
    else ScanFrom(max, mem, p, k + 1, limit)
  }

  // The first n groups from p on, added up
  function SumAt(mem: seq<u8>, p: nat, n: nat): nat
    requires p + n <= |mem|
  {
    if n == 0 then 0 else SumAt(mem, p, n - 1) + Shl(mem[p + n - 1] % 0x80, 7 * (n - 1))
  }

  lemma {:induction false} SumAtIsSum(mem: seq<u8>, p: nat, n: nat)
    requires p + n <= |mem|
    ensures SumAt(mem, p, n) == Sum(mem[p..p + n]) < Shl(1, 7 * n)
  {
    SumSnoc(mem[p..p + n], 0);
    if n > 0 {
      SumAtIsSum(mem, p, n - 1);
      SumSnoc(mem[p..p + n - 1], mem[p + n - 1]);
      assert mem[p..p + n] == mem[p..p + n - 1] + [mem[p + n - 1]];
    }
  }

  lemma {:induction false} SumSnoc(s: seq<u8>, b: u8)
    ensures Sum(s) < Shl(1, 7 * |s|)
    ensures Sum(s + [b]) == Sum(s) + Shl(b % 0x80, 7 * |s|)
  {
    if s == [] {
      assert Sum([b]) == b % 0x80;
    } else {
      SumSnoc(s[1..], b);
      assert (s + [b])[1..] == s[1..] + [b];
      var k := 7 * |s[1..]|;
      ShlAdd(1, k, 7);
      ShlAdd(b % 0x80, k, 7);
      assert Shl(1, k + 7) == 0x80 * Shl(1, k) && Shl(b % 0x80, k + 7) == 0x80 * Shl(b % 0x80, k);
    }
  }

  lemma {:induction false} SumAtSplit(mem: seq<u8>, p: nat, a: nat, n: nat)
    requires p + a + n <= |mem|
    ensures SumAt(mem, p, a + n) == SumAt(mem, p, a) + Shl(SumAt(mem, p + a, n), 7 * a)
  {
    if n == 0 {
      ShlZero(7 * a);
    } else {
      SumAtSplit(mem, p, a, n - 1);
      var top := mem[p + a + n - 1] % 0x80;
      ShlAdd(top, 7 * (n - 1), 7 * a);
      ShlPlus(SumAt(mem, p + a, n - 1), Shl(top, 7 * (n - 1)), 7 * a);
    }
  }

  // result |= (b & 0x7F) << k, which adds the next group to the sum
  method Attach(result: nat, b: u8, k: nat, ghost mem: seq<u8>, ghost p: nat, ghost n: nat) returns (r: nat)
    requires k == 7 * n && p + n < |mem| && b == mem[p + n] && result == SumAt(mem, p, n)
    ensures r == SumAt(mem, p, n + 1)
  {
    SumAtIsSum(mem, p, n);
    OrAdd(k, result, Low7(b));
    r := Or(result, Shl(Low7(b), k));
  }

  // b & 0x80
  method HasMore(b: u8) returns (more: bool)
    ensures more <==> b >= 0x80
  {
    more := More(b);
  }

  datatype Step = Stop | Go | GiveUp

  // The block of four fetches, each after a test of the limit, that the narrow
  // reader opens with and the wide reader repeats for its first two parts. It
  // is byte base of a number that starts at p.
  method ReadFour(mem: array<u8>, start: nat, left: int, ghost max: nat, ghost p: nat, ghost base: nat)
      returns (step: Step, ptr: nat, rest: int, result: nat)
    requires start == p + base && base + 4 < max && base <= 4
    requires ScanFrom(max, mem[..], p, base, left + base) != Overrun
    ensures match step
            case Stop => start < ptr <= start + 4 && ptr <= mem.Length && result == SumAt(mem[..], start, ptr - start)
                         && ScanFrom(max, mem[..], p, base, left + base) == Done(ptr - p)
            case Go => rest == left - 4 && ptr == start + 4 <= mem.Length && result == SumAt(mem[..], start, 4)
                       && ScanFrom(max, mem[..], p, base, left + base) ==
                            ScanFrom(max, mem[..], p, base + 4, left + base)
            case GiveUp => ScanFrom(max, mem[..], p, base, left + base) == Fail
  {
    ghost var m := mem[..];
    ghost var limit := left + base;
    ghost var scan := ScanFrom(max, m, p, base, limit);
    rest, ptr, result := left, start, 0;

    if 0 > rest { step := GiveUp; return; }
    rest := rest - 1;
    var b := mem[ptr];
    ptr := ptr + 1;
    result := Attach(result, b, 0, m, start, ptr - 1 - start);
    var more := HasMore(b);
    if !more { step := Stop; return; }
    assert scan == ScanFrom(max, m, p, base + 1, limit);

    if 0 > rest { step := GiveUp; return; }
    rest := rest - 1;
    b := mem[ptr];
    ptr := ptr + 1;
    result := Attach(result, b, 7, m, start, ptr - 1 - start);
    more := HasMore(b);
    if !more { step := Stop; return; }
    assert scan == ScanFrom(max, m, p, base + 2, limit);

    if 0 > rest { step := GiveUp; return; }
    rest := rest - 1;
    b := mem[ptr];
    ptr := ptr + 1;
    result := Attach(result, b, 14, m, start, ptr - 1 - start);
    more := HasMore(b);
    if !more { step := Stop; return; }
    assert scan == ScanFrom(max, m, p, base + 3, limit);

    if 0 > rest { step := GiveUp; return; }
    rest := rest - 1;
    b := mem[ptr];
    ptr := ptr + 1;
    result := Attach(result, b, 21, m, start, ptr - 1 - start);
    more := HasMore(b);
    if !more { step := Stop; return; }
    assert scan == ScanFrom(max, m, p, base + 4, limit);

    step := Go;
  }

  // result |= b << 28 on a 32-bit word: bit seven of b is not masked, but it
  // is shifted out together with all but the low four bits.
  method AttachTop(result: nat, b: u8, ghost mem: seq<u8>, ghost p: nat, ghost n: nat) returns (r: u32)
    requires n == 4 && p + n < |mem| && b == mem[p + n] && result == SumAt(mem, p, n)
    ensures r == SumAt(mem, p, n + 1) % 0x1_0000_0000
  {
    SumAtFive(mem, p, b);
    OrTop32(result, b);
    r := Or(result, U32(Shl(b, 28)));
  }

  lemma SumAtFive(mem: seq<u8>, p: nat, b: nat)
    requires p + 4 < |mem| && b == mem[p + 4]
    ensures SumAt(mem, p, 4) < 0x1000_0000
    ensures SumAt(mem, p, 5) == SumAt(mem, p, 4) + 0x1000_0000 * (b % 0x80)
  {
    SumAtIsSum(mem, p, 4);
    Shl28(1);
    Shl28(b % 0x80);
  }

  lemma OrTop32(low: nat, b: u8)
    requires low < 0x1000_0000
    ensures Or(low, U32(Shl(b, 28))) == (low + 0x1000_0000 * (b % 0x80)) % 0x1_0000_0000
  {
    Shl28(b);
    Shl28(b % 0x10);
    Shl28(1);
    WrapTop(low, b, b / 0x10);
    OrAdd(28, low, b % 0x10);
  }

  lemma Shl28(a: nat)
    ensures Shl(a, 28) == 0x1000_0000 * a
  {
    assert forall x: nat :: Shl(x, 14) == 0x4000 * x;
    ShlAdd(a, 14, 14);
  }

  lemma WrapTop(low: nat, b: u8, h: nat)
    requires low < 0x1000_0000 && h == b / 0x10
    ensures U32(0x1000_0000 * b) == 0x1000_0000 * (b % 0x10)
    ensures (low + 0x1000_0000 * (b % 0x80)) % 0x1_0000_0000 == low + 0x1000_0000 * (b % 0x10)
  {
    assert 0x1000_0000 * b == 0x1000_0000 * (b % 0x10) + 0x1_0000_0000 * h;
    assert 0x1000_0000 * (b % 0x80) == 0x1000_0000 * (b % 0x10) + 0x1_0000_0000 * (h % 8);
  }

  // _zcrt_tlv_read_len
  method ReadLen32(mem: array<u8>, p: nat, limit: i32) returns (ok: bool, next: nat, value: u32)
    requires ScanFrom(NARROW, mem[..], p, 0, limit) != Overrun
    ensures match ScanFrom(NARROW, mem[..], p, 0, limit)
            case Done(n) => ok && next == p + n <= mem.Length && value == SumAt(mem[..], p, n) % 0x1_0000_0000
            case _ => !ok && value == 0
  {
    ok, value := false, 0;
    var step, ptr, left, result := ReadFour(mem, p, limit, NARROW, p, 0);
    next := ptr;
    if step == GiveUp { return; }
    if step == Go {
      if 0 > left { return; }
      left := left - 1;
      var b := mem[ptr];
      ptr := ptr + 1;
      result := AttachTop(result, b, mem[..], p, ptr - 1 - p);
      var more := HasMore(b);
      if more { return; }
    }
    ok, next, value := true, ptr, U32(result);
  }

  // The ninth byte, fetched with no test of the limit, and the tenth
  method ReadLast(mem: array<u8>, start: nat, left: int, ghost p: nat) returns (step: Step, ptr: nat, result: nat)
    requires start == p + 8
    requires ScanFrom(WIDE, mem[..], p, 8, left + 8) != Overrun
    ensures match step
            case Stop => start < ptr <= start + 2 && ptr <= mem.Length
                         && result == SumAt(mem[..], start, ptr - start)
                         && ScanFrom(WIDE, mem[..], p, 8, left + 8) == Done(ptr - p)
            case _ => step == GiveUp && ScanFrom(WIDE, mem[..], p, 8, left + 8) == Fail
  {
    ghost var m := mem[..];
    step, ptr := Stop, start;
    var b := mem[ptr];
    ptr := ptr + 1;
    result := Attach(0, b, 0, m, start, ptr - 1 - start);
    var more := HasMore(b);
    if more {
      if 0 > left { step := GiveUp; return; }
      b := mem[ptr];
      ptr := ptr + 1;
      result := Attach(result, b, 7, m, start, ptr - 1 - start);
      more := HasMore(b);
      if more { step := GiveUp; }
    }
  }

  // zcdr_ReadLEN64
  method ReadLen64(mem: array<u8>, p: nat, limit: i32) returns (n: int, value: u64)
    requires ScanFrom(WIDE, mem[..], p, 0, limit) != Overrun
    ensures match ScanFrom(WIDE, mem[..], p, 0, limit)
            case Done(k) => n == k && p + k <= mem.Length && value == SumAt(mem[..], p, k) % 0x1_0000_0000_0000_0000
            case _ => n == -1
  {
    n, value := -1, 0;
    var result1, result2 := 0, 0;
    var step, ptr, left, result0 := ReadFour(mem, p, limit, WIDE, p, 0);
    if step == GiveUp { return; }
    if step == Go {
      step, ptr, left, result1 := ReadFour(mem, ptr, left, WIDE, p, 4);
      if step == GiveUp { return; }
    }
    if step == Go {
      step, ptr, result2 := ReadLast(mem, ptr, left, p);
      if step == GiveUp { return; }
    }
    value := Combine(mem[..], p, ptr - p, result0, result1, result2);
    n := ptr - p;
  }

  function Min(a: nat, b: nat): nat { if a < b then a else b }

  // result0 | result1 << 28 | result2 << 56 on a 64-bit word: the first four,
  // the next four and the last two groups are put together.
  method Combine(ghost mem: seq<u8>, ghost p: nat, ghost n: nat, r0: nat, r1: nat, r2: nat) returns (value: u64)
    requires n <= 10 && p + n <= |mem|
    requires r0 == SumAt(mem, p, Min(n, 4))
    requires r1 == if n <= 4 then 0 else SumAt(mem, p + 4, Min(n, 8) - 4)
    requires r2 == if n <= 8 then 0 else SumAt(mem, p + 8, n - 8)
    ensures value == SumAt(mem[..], p, n) % 0x1_0000_0000_0000_0000
  {
    SumAtIsSum(mem, p, n);
    PartsSum(mem, p, n, r0, r1, r2);
    OrParts(r0, r1, r2);
    value := Or(Or(r0, Shl(r1, 28)), U64(Shl(r2, 56)));
  }

  lemma FourGroups(mem: seq<u8>, p: nat, n: nat)
    requires n <= 4 && p + n <= |mem|
    ensures SumAt(mem, p, n) < 0x1000_0000
  {
    SumAtIsSum(mem, p, n);
    ShlMono(7 * n, 28);
    Shl28(1);
  }

  lemma PartsSum(mem: seq<u8>, p: nat, n: nat, r0: nat, r1: nat, r2: nat)
    requires n <= 10 && p + n <= |mem|
    requires r0 == SumAt(mem, p, Min(n, 4))
    requires r1 == if n <= 4 then 0 else SumAt(mem, p + 4, Min(n, 8) - 4)
    requires r2 == if n <= 8 then 0 else SumAt(mem, p + 8, n - 8)
    ensures r0 < 0x1000_0000 && r1 < 0x1000_0000
    ensures SumAt(mem, p, n) == r0 + 0x1000_0000 * r1 + 0x100_0000_0000_0000 * r2
  {
    FourGroups(mem, p, Min(n, 4));
    if 4 < n <= 8 {
      TwoParts(mem, p, n, r0, r1);
    } else if n > 8 {
      TwoParts(mem, p, 8, r0, r1);
      SumAtSplit(mem, p, 8, n - 8);
      Shl56(r2);
    }
  }

  lemma TwoParts(mem: seq<u8>, p: nat, n: nat, r0: nat, r1: nat)
    requires 4 < n <= 8 && p + n <= |mem| && r0 == SumAt(mem, p, 4) && r1 == SumAt(mem, p + 4, n - 4)
    ensures r1 < 0x1000_0000 && SumAt(mem, p, n) == r0 + 0x1000_0000 * r1
  {
    FourGroups(mem, p + 4, n - 4);
    SumAtSplit(mem, p, 4, n - 4);
    Shl28(r1);
  }

  lemma Shl56(a: nat)
    ensures Shl(a, 56) == 0x100_0000_0000_0000 * a
  {
    ShlAdd(a, 28, 28);
    Shl28(a);
    Shl28(Shl(a, 28));
  }

  lemma OrParts(r0: nat, r1: nat, r2: nat)
    requires r0 < 0x1000_0000 && r1 < 0x1000_0000
    ensures Or(Or(r0, Shl(r1, 28)), U64(Shl(r2, 56)))
            == (r0 + 0x1000_0000 * r1 + 0x100_0000_0000_0000 * r2) % 0x1_0000_0000_0000_0000
  {
    Shl28(1);
    Shl28(r1);
    OrAdd(28, r0, r1);
    OrTop64(r0 + 0x1000_0000 * r1, r2);
  }

  lemma OrTop64(low: nat, a: nat)
    requires low < 0x100_0000_0000_0000
    ensures Or(low, U64(Shl(a, 56))) == (low + 0x100_0000_0000_0000 * a) % 0x1_0000_0000_0000_0000
  {
    WrapTop64(low, a, a / 0x100);
    assert U64(Shl(a, 56)) == Shl(a % 0x100, 56) by {
      Shl56(a);
      Shl56(a % 0x100);
    }
    Shl56(1);
    Shl56(a % 0x100);
    OrAdd(56, low, a % 0x100);
  }

  lemma WrapTop64(low: nat, a: nat, h: nat)
    requires low < 0x100_0000_0000_0000 && h == a / 0x100
    ensures U64(0x100_0000_0000_0000 * a) == 0x100_0000_0000_0000 * (a % 0x100)
    ensures (low + 0x100_0000_0000_0000 * a) % 0x1_0000_0000_0000_0000 == low + 0x100_0000_0000_0000 * (a % 0x100)
  {
    assert 0x100_0000_0000_0000 * a == 0x100_0000_0000_0000 * (a % 0x100) + 0x1_0000_0000_0000_0000 * h;
  }

  // ---- What the writers do ----

  // What is left of v after dropping i groups
  function Drop(v: nat, i: nat): nat
    decreases i
  {
    if i == 0 then v else Drop(v, i - 1) / 0x80
  }

  lemma DropValues(v: nat)
    ensures Drop(v, 1) == v / 0x80
    ensures Drop(v, 2) == v / 0x4000
    ensures Drop(v, 3) == v / 0x20_0000
    ensures Drop(v, 4) == v / 0x1000_0000
    ensures Drop(v, 5) == v / 0x8_0000_0000
    ensures Drop(v, 6) == v / 0x400_0000_0000
    ensures Drop(v, 7) == v / 0x2_0000_0000_0000
    ensures Drop(v, 8) == v / 0x100_0000_0000_0000
    ensures Drop(v, 9) == v / 0x8000_0000_0000_0000
  {
    assert Drop(v, 1) == v / 0x80;
    assert Drop(v, 2) == v / 0x4000;
    assert Drop(v, 3) == v / 0x20_0000;
    assert Drop(v, 4) == v / 0x1000_0000;
    assert Drop(v, 5) == v / 0x8_0000_0000;
    assert Drop(v, 6) == v / 0x400_0000_0000;
    assert Drop(v, 7) == v / 0x2_0000_0000_0000;
    assert Drop(v, 8) == v / 0x100_0000_0000_0000;
  }

  // The n bytes at p are the groups of v: all but the last marked, none left over.
  ghost predicate HasGroups(s: seq<u8>, p: nat, n: nat, v: nat)
  {
    && 0 < n && p + n <= |s|
    && (forall i :: 0 <= i < n - 1 ==> Drop(v, i) >= 0x80 && s[p + i] == Drop(v, i) % 0x80 + 0x80)
    && Drop(v, n - 1) < 0x80 && s[p + n - 1] == Drop(v, n - 1)
  }

  lemma {:induction false} GroupsEncode(s: seq<u8>, p: nat, n: nat, v: nat, i: nat)
    requires HasGroups(s, p, n, v) && i < n
    ensures s[p + i..p + n] == Encode(Drop(v, i))
    decreases n - i
  {
    if i < n - 1 {
      GroupsEncode(s, p, n, v, i + 1);
      assert s[p + i..p + n] == [s[p + i]] + s[p + i + 1..p + n];
    }
  }

  // n is the number of groups of v.
  ghost predicate HasSize(v: nat, n: nat)
  {
    && n >= 1
    && (n > 1 <==> v >= 0x80)
    && (n > 2 <==> v >= 0x4000)
    && (n > 3 <==> v >= 0x20_0000)
    && (n > 4 <==> v >= 0x1000_0000)
    && (n > 5 <==> v >= 0x8_0000_0000)
    && (n > 6 <==> v >= 0x400_0000_0000)
    && (n > 7 <==> v >= 0x2_0000_0000_0000)
    && (n > 8 <==> v >= 0x100_0000_0000_0000)
    && (n > 9 <==> v >= 0x8000_0000_0000_0000)
  }

  lemma SizeGroups(v: u64, n: nat)
    requires HasSize(v, n) && n <= 10
    ensures forall i :: 0 <= i < n - 1 ==> Drop(v, i) >= 0x80
    ensures Drop(v, n - 1) < 0x80
  {
    DropValues(v);
  }

  // (unsigned char)(v | 0x80)
  method Marked(v: nat) returns (r: u8)
    ensures r == v % 0x80 + 0x80
  {
    r := Mark(v);
  }

  // b & 0x7F
  method Unmarked(b: u8) returns (r: u8)
    ensures r == b % 0x80
  {
    r := Low7(b);
  }

  // b & 0x7F of a byte that was marked before
  method Unmark(b: u8, ghost d: nat) returns (r: u8)
    requires d < 0x80 && b == d % 0x80 + 0x80
    ensures r == d
  {
    r := Unmarked(b);
  }

  // Nothing changed but the n bytes at p.
  twostate predicate OnlyChanged(target: array<u8>, p: nat, n: nat)
    reads target
  {
    forall i :: 0 <= i < target.Length && !(p <= i < p + n) ==> target[i] == old(target[i])
  }

  // Both writers leave the encoding of value at p and touch nothing else.
  twostate predicate Wrote(target: array<u8>, p: nat, n: nat, value: nat)
    reads target
  {
    && p + n <= target.Length
    && target[p..p + n] == Encode(value)
    && OnlyChanged(target, p, n)
  }

  // Byte i of the n bytes at p, where d is what is left after dropping i groups
  ghost predicate GroupAt(s: seq<u8>, p: nat, n: nat, i: nat, d: nat)
    requires i < n && p + n <= |s|
  {
    && (d < 0x80 <==> i == n - 1)
    && s[p + i] == if d < 0x80 then d else d % 0x80 + 0x80
  }

  lemma Bytes32(s: seq<u8>, p: nat, n: nat, v: nat)
    requires 0 < n <= 5 && p + n <= |s|
    requires GroupAt(s, p, n, 0, v)
    requires n > 1 ==> GroupAt(s, p, n, 1, v / 0x80)
    requires n > 2 ==> GroupAt(s, p, n, 2, v / 0x4000)
    requires n > 3 ==> GroupAt(s, p, n, 3, v / 0x20_0000)
    requires n > 4 ==> GroupAt(s, p, n, 4, v / 0x1000_0000)
    ensures s[p..p + n] == Encode(v)
  {
    DropValues(v);
    forall i | 0 <= i < n ensures GroupAt(s, p, n, i, Drop(v, i)) {}
    GroupsEncode(s, p, n, v, 0);
  }

  // _zcrt_tlv_write_len
  method WriteLen32(target: array<u8>, p: nat, value: u32) returns (n: nat)
    requires p + 5 <= target.Length
    modifies target
    ensures n == |Encode(value)| <= 5 && Wrote(target, p, n, value)
  {
    var b := Marked(value);
    target[p] := b;
    if value >= 0x80 {
      b := Marked(value / 0x80);
      target[p + 1] := b;
      if value >= 0x4000 {
        b := Marked(value / 0x4000);
        target[p + 2] := b;
        if value >= 0x20_0000 {
          b := Marked(value / 0x20_0000);
          target[p + 3] := b;
          if value >= 0x1000_0000 {
            target[p + 4] := U8(value / 0x1000_0000);
            n := 5;
          } else {
            b := Unmark(target[p + 3], value / 0x20_0000);
            target[p + 3] := b;
            n := 4;
          }
        } else {
          b := Unmark(target[p + 2], value / 0x4000);
          target[p + 2] := b;
          n := 3;
        }
      } else {
        b := Unmark(target[p + 1], value / 0x80);
        target[p + 1] := b;
        n := 2;
      }
    } else {
      b := Unmark(target[p], value);
      target[p] := b;
      n := 1;
    }
    Bytes32(target[..], p, n, value);
  }

  // The three parts overlap: each is a 32-bit slice, 28 bits apart.
  ghost predicate AreParts(value: u64, part0: u32, part1: u32, part2: u32)
  {
    part0 == U32(value) && part1 == U32(value / 0x1000_0000) && part2 == U32(value / 0x100_0000_0000_0000)
  }

  // The search tree of zcdr_WriteLEN64
  method ChooseSize(part0: u32, part1: u32, part2: u32, ghost value: u64) returns (size: nat)
    requires AreParts(value, part0, part1, part2)
    ensures HasSize(value, size) && size <= 10
  {
    if part2 == 0 {
      if part1 == 0 {
        if part0 < 0x4000 {
          if part0 < 0x80 { size := 1; } else { size := 2; }
        } else {
          if part0 < 0x20_0000 { size := 3; } else { size := 4; }
        }
      } else {
        if part1 < 0x4000 {
          if part1 < 0x80 { size := 5; } else { size := 6; }
        } else {
          if part1 < 0x20_0000 { size := 7; } else { size := 8; }
        }
      }
    } else {
      if part2 < 0x80 { size := 9; } else { size := 10; }
    }
  }

  // Shifting a 32-bit slice of x right by less than 25 bits and keeping seven
  // bits loses nothing to the slice.
  lemma Slice(x: nat, i: nat)
    requires i < 4
    ensures Drop(U32(x), i) % 0x80 == Drop(x, i) % 0x80
  {
    var q, r := x / 0x1_0000_0000, U32(x);
    assert x == r + 0x1_0000_0000 * q;
    DropValues(x);
    DropValues(r);
    if i == 0 {
      ModGroup(r, 0x200_0000 * q);
    } else if i == 1 {
      assert x / 0x80 == r / 0x80 + 0x200_0000 * q;
      ModGroup(r / 0x80, 0x4_0000 * q);
    } else if i == 2 {
      assert x / 0x4000 == r / 0x4000 + 0x4_0000 * q;
      ModGroup(r / 0x4000, 0x800 * q);
    } else {
      assert x / 0x20_0000 == r / 0x20_0000 + 0x800 * q;
      ModGroup(r / 0x20_0000, 0x10 * q);
    }
  }

  lemma ModGroup(r: nat, q: nat)
    ensures (r + 0x80 * q) % 0x80 == r % 0x80
  {}

  lemma {:induction false} DropAdd(v: nat, i: nat, j: nat)
    ensures Drop(v, i + j) == Drop(Drop(v, i), j)
    decreases j
  {
    if j > 0 { DropAdd(v, i, j - 1); }
  }

  // The n bytes at p are the first groups of v, all marked.
  ghost predicate Marks(s: seq<u8>, p: nat, n: nat, v: nat)
  {
    p + n <= |s| && forall i :: 0 <= i < n ==> s[p + i] == Drop(v, i) % 0x80 + 0x80
  }

  // Labels size8 to size5 on part1, and size4 to size1 on part0
  method WriteFour(target: array<u8>, p: nat, count: nat, part: u32)
    requires count <= 4 && p + count <= target.Length
    modifies target
    ensures Marks(target[..], p, count, part) && OnlyChanged(target, p, count)
  {
    DropValues(part);
    var b: u8;
    if count >= 4 { b := Marked(part / 0x20_0000); target[p + 3] := b; }
    if count >= 3 { b := Marked(part / 0x4000); target[p + 2] := b; }
    if count >= 2 { b := Marked(part / 0x80); target[p + 1] := b; }
    if count >= 1 { b := Marked(part); target[p] := b; }
  }

  // Labels size10 and size9 on part2
  method WriteTwo(target: array<u8>, p: nat, count: nat, part: u32)
    requires count <= 2 && p + count <= target.Length
    modifies target
    ensures Marks(target[..], p, count, part) && OnlyChanged(target, p, count)
  {
    var b: u8;
    if count >= 2 { b := Marked(part / 0x80); target[p + 1] := b; }
    if count >= 1 { b := Marked(part); target[p] := b; }
  }

  lemma PartMarks(s: seq<u8>, p: nat, i: nat, n: nat, value: u64, x: nat)
    requires n <= 4 && x == Drop(value, i) && Marks(s, p + i, n, U32(x))
    ensures forall j :: i <= j < i + n ==> s[p + j] == Drop(value, j) % 0x80 + 0x80
  {
    forall j | i <= j < i + n
      ensures s[p + j] == Drop(value, j) % 0x80 + 0x80
    {
      assert s[p + i + (j - i)] == Drop(U32(x), j - i) % 0x80 + 0x80;
      Slice(x, j - i);
      DropAdd(value, i, j - i);
    }
  }

  function PartCount(n: nat, base: nat): nat
  {
    if n > base + 4 then 4 else if n > base then n - base else 0
  }

  // The marked groups of the three parts, with the last mark taken off
  lemma Assemble(s: seq<u8>, p: nat, n: nat, value: u64)
    requires HasSize(value, n) && n <= 10 && p + n <= |s|
    requires Marks(s, p, PartCount(n, 0), U32(value))
    requires Marks(s, p + 4, PartCount(n, 4), U32(value / 0x1000_0000))
    requires Marks(s, p + 8, PartCount(n, 8), U32(value / 0x100_0000_0000_0000))
    ensures s[p + n - 1 := s[p + n - 1] % 0x80][p..p + n] == Encode(value)
  {
    AllMarks(s, p, n, value);
    var t := s[p + n - 1 := s[p + n - 1] % 0x80];
    LastUnmarked(s, t, p, n, value);
    GroupsEncode(t, p, n, value, 0);
  }

  lemma LastUnmarked(s: seq<u8>, t: seq<u8>, p: nat, n: nat, value: u64)
    requires HasSize(value, n) && n <= 10 && Marks(s, p, n, value) && n > 0
    requires t == s[p + n - 1 := s[p + n - 1] % 0x80]
    ensures HasGroups(t, p, n, value)
  {
    SizeGroups(value, n);
  }

  lemma AllMarks(s: seq<u8>, p: nat, n: nat, value: u64)
    requires n <= 10 && p + n <= |s|
    requires Marks(s, p, PartCount(n, 0), U32(value))
    requires Marks(s, p + 4, PartCount(n, 4), U32(value / 0x1000_0000))
    requires Marks(s, p + 8, PartCount(n, 8), U32(value / 0x100_0000_0000_0000))
    ensures Marks(s, p, n, value)
  {
    assert Drop(value, 4) == value / 0x1000_0000 && Drop(value, 8) == value / 0x100_0000_0000_0000 by {
      DropValues(value);
    }
    PartMarks(s, p, 0, PartCount(n, 0), value, value);
    PartMarks(s, p, 4, PartCount(n, 4), value, value / 0x1000_0000);
    PartMarks(s, p, 8, PartCount(n, 8), value, value / 0x100_0000_0000_0000);
  }

  // zcdr_WriteLEN64
  method WriteLen64(target: array<u8>, p: nat, value: u64) returns (n: nat)
    requires p + 10 <= target.Length
    modifies target
    ensures n == |Encode(value)| <= 10 && Wrote(target, p, n, value)
  {
    var part0 := U32(value);
    var part1 := U32(value / 0x1000_0000);
    var part2 := U32(value / 0x100_0000_0000_0000);
    n := ChooseSize(part0, part1, part2, value);
    WriteTwo(target, p + 8, PartCount(n, 8), part2);
    WriteFour(target, p + 4, PartCount(n, 4), part1);
    WriteFour(target, p, PartCount(n, 0), part0);
    ghost var s := target[..];
    var last := Unmarked(target[p + n - 1]);
    target[p + n - 1] := last;
    assert target[..] == s[p + n - 1 := last];
    Assemble(s, p, n, value);
  }

  // ---- What the readers accept ----

  lemma {:induction false} ScanRun(max: nat, mem: seq<u8>, p: nat, k: nat, limit: int, n: nat)
    requires k < n
    ensures ScanFrom(max, mem, p, k, limit) == Done(n)
            <==> && n <= max && p + n <= |mem|
                 && Terminated(mem[p + k..p + n])
                 && forall i :: k <= i < n ==> Fetches(i, limit)
    decreases n - k
  {
    if n <= max && p + n <= |mem| {
      assert mem[p + k..p + n][0] == mem[p + k];
      if k + 1 < n {
        ScanRun(max, mem, p, k + 1, limit, n);
        TerminatedTail(mem[p + k..p + n]);
        assert mem[p + k..p + n][1..] == mem[p + k + 1..p + n];
      } else {
        ScanLong(max, mem, p, k + 1, limit);
      }
    } else {
      ScanLong(max, mem, p, k, limit);
    }
  }

  lemma TerminatedTail(s: seq<u8>)
    requires |s| > 1
    ensures Terminated(s) <==> s[0] >= 0x80 && Terminated(s[1..])
  {
    if s[0] >= 0x80 && Terminated(s[1..]) {
      forall i | 0 <= i < |s| - 1 ensures s[i] >= 0x80 {
        if i > 0 { assert s[i] == s[1..][i - 1]; }
      }
    }
  }

  lemma {:induction false} ScanLong(max: nat, mem: seq<u8>, p: nat, k: nat, limit: int)
    ensures var r := ScanFrom(max, mem, p, k, limit); r.Done? ==> k < r.n <= max && p + r.n <= |mem|
    decreases max - k
  {
    if k < max && Fetches(k, limit) && p + k < |mem| && mem[p + k] >= 0x80 {
      ScanLong(max, mem, p, k + 1, limit);
    }
  }

  // One byte beyond the limit is let through, and two when there are nine or ten.
  predicate LetsThrough(n: nat, limit: int)
  {
    n <= limit + if n < 9 then 1 else 2
  }

  // A reader stops after n bytes exactly when they are a terminated string of
  // at most max bytes that the tests of the limit let through.
  lemma ScanDone(max: nat, mem: seq<u8>, p: nat, limit: int, n: nat)
    requires 0 < n && max <= 10
    ensures ScanFrom(max, mem, p, 0, limit) == Done(n)
            <==> n <= max && p + n <= |mem| && Terminated(mem[p..p + n]) && LetsThrough(n, limit)
  {
    ScanRun(max, mem, p, 0, limit, n);
    if n <= max {
      assert LetsThrough(n, limit) <==> Fetches(n - 1, limit) && (n > 8 ==> Fetches(7, limit));
    }
  }

  // Two bytes of slack behind the limit are enough for any input, and the bytes
  // behind them make no difference.
  lemma {:induction false} ScanBounded(max: nat, mem: seq<u8>, p: nat, k: nat, limit: int)
    requires max <= 10 && 0 <= p + limit + 2 <= |mem|
    requires k >= 8 ==> 7 <= limit
    ensures ScanFrom(max, mem, p, k, limit) != Overrun
    ensures ScanFrom(max, mem, p, k, limit) == ScanFrom(max, mem[..p + limit + 2], p, k, limit)
    decreases max - k
  {
    if k < max && Fetches(k, limit) {
      ScanBounded(max, mem, p, k + 1, limit);
    }
  }
}
