/**
 C integers as bounded mathematical integers: casts wrap explicitly, and the
 bitwise operators are defined bit by bit so that expressions can be written
 the way the C code writes them.
 */
module Machine {

  type u8 = x: int | 0 <= x < 0x100
  type u32 = x: int | 0 <= x < 0x1_0000_0000
  type u64 = x: int | 0 <= x < 0x1_0000_0000_0000_0000
  type i32 = x: int | -0x8000_0000 <= x < 0x8000_0000
  type i64 = x: int | -0x8000_0000_0000_0000 <= x < 0x8000_0000_0000_0000

  // Casts. The signed ones are two's complement.
  function U8(x: int): u8 { x % 0x100 }
  function U32(x: int): u32 { x % 0x1_0000_0000 }
  function U64(x: int): u64 { x % 0x1_0000_0000_0000_0000 }
  function S32(x: int): i32 { (x + 0x8000_0000) % 0x1_0000_0000 - 0x8000_0000 }

  function S64(x: int): i64 { (x + 0x8000_0000_0000_0000) % 0x1_0000_0000_0000_0000 - 0x8000_0000_0000_0000 }

  lemma CastsKeep(x: nat)
    ensures x < 0x1_0000_0000 ==> U32(x) == x
    ensures x < 0x1_0000_0000_0000_0000 ==> U64(x) == x
  {}

  // A word read as signed and back again
  lemma Reinterpret(x: u32)
    ensures U32(S32(x)) == x
  {}

  // Two's complement of the two masks that a low bit makes
  lemma SignedHalves(x: nat)
    ensures U32(-1) == 0xFFFF_FFFF && U64(-1) == 0xFFFF_FFFF_FFFF_FFFF
    ensures x < 0x8000_0000 ==> S32(x) == x && S32(0xFFFF_FFFF - x) == -1 - x
    ensures x < 0x8000_0000_0000_0000 ==> S64(x) == x && S64(0xFFFF_FFFF_FFFF_FFFF - x) == -1 - x
  {}

  datatype BitOp = AND | OR | XOR {
    function Apply(p: bool, q: bool): nat {
      match this
      case AND => if p && q then 1 else 0
      case OR => if p || q then 1 else 0
      case XOR => if p != q then 1 else 0
    }
  }

  // The bitwise operator op on two naturals, from the low bit up
  function Bits(op: BitOp, x: nat, y: nat): nat
    decreases x + y
  {
    if x == 0 && y == 0 then 0
    else op.Apply(x % 2 == 1, y % 2 == 1) + 2 * Bits(op, x / 2, y / 2)
  }

  function And(x: nat, y: nat): nat { Bits(AND, x, y) }
  function Or(x: nat, y: nat): nat { Bits(OR, x, y) }
  function Xor(x: nat, y: nat): nat { Bits(XOR, x, y) }

  // a << k, before any truncation
  function Shl(a: nat, k: nat): nat
    decreases k
  {
    if k == 0 then a else 2 * Shl(a, k - 1)
  }

  lemma {:induction false} ShlZero(k: nat)
    ensures Shl(0, k) == 0
  {
    if k > 0 { ShlZero(k - 1); }
  }

  lemma {:induction false} ShlMono(j: nat, k: nat)
    requires j <= k
    ensures Shl(1, j) <= Shl(1, k)
  {
    if j < k { ShlMono(j, k - 1); }
  }

  lemma {:induction false} ShlPlus(a: nat, b: nat, k: nat)
    ensures Shl(a + b, k) == Shl(a, k) + Shl(b, k)
  {
    if k > 0 { ShlPlus(a, b, k - 1); }
  }

  lemma {:induction false} ShlAdd(a: nat, j: nat, k: nat)
    ensures Shl(a, j + k) == Shl(Shl(a, j), k)
    decreases k
  {
    if k > 0 { ShlAdd(a, j, k - 1); }
  }

  lemma WordSizes()
    ensures Shl(1, 31) == 0x8000_0000 && Shl(1, 32) == 0x1_0000_0000 && Shl(1, 64) == 0x1_0000_0000_0000_0000
  {
    assert forall a: nat :: Shl(a, 8) == 0x100 * a;
    ShlAdd(1, 8, 8);
    ShlAdd(1, 16, 8);
    ShlAdd(1, 24, 8);
    ShlAdd(1, 32, 8);
    ShlAdd(1, 40, 8);
    ShlAdd(1, 48, 8);
    ShlAdd(1, 56, 8);
  }

  lemma BitsUnfold(op: BitOp, x: nat, y: nat)
    ensures Bits(op, x, y) == op.Apply(x % 2 == 1, y % 2 == 1) + 2 * Bits(op, x / 2, y / 2)
  {}

  lemma BitsCarry(op: BitOp, x: nat, y: nat, p: nat, q: nat, r: nat)
    requires Bits(op, x / 2 + p, y / 2 + q) == Bits(op, x / 2, y / 2) + r
    ensures Bits(op, x + 2 * p, y + 2 * q) == Bits(op, x, y) + 2 * r
  {
    BitsUnfold(op, x + 2 * p, y + 2 * q);
    BitsUnfold(op, x, y);
  }

  // A bitwise operator works on the low k bits and on the rest independently.
  lemma {:induction false} BitsSplit(op: BitOp, k: nat, x: nat, a: nat, y: nat, b: nat)
    requires x < Shl(1, k) && y < Shl(1, k)
    ensures Bits(op, x + Shl(a, k), y + Shl(b, k)) == Bits(op, x, y) + Shl(Bits(op, a, b), k)
    decreases k
  {
    if k > 0 {
      BitsSplit(op, k - 1, x / 2, a, y / 2, b);
      BitsCarry(op, x, y, Shl(a, k - 1), Shl(b, k - 1), Shl(Bits(op, a, b), k - 1));
    }
  }

  lemma {:induction false} BitsZero(x: nat)
    ensures Or(x, 0) == Or(0, x) == Xor(x, 0) == x && And(x, 0) == And(0, x) == 0
  {
    if x > 0 { BitsZero(x / 2); }
  }

  lemma {:induction false} BitsOnes(k: nat, x: nat)
    requires x < Shl(1, k)
    ensures And(x, Shl(1, k) - 1) == x && Xor(x, Shl(1, k) - 1) == Shl(1, k) - 1 - x
  {
    if k > 0 {
      BitsUnfold(AND, x, Shl(1, k) - 1);
      BitsUnfold(XOR, x, Shl(1, k) - 1);
      assert (Shl(1, k) - 1) / 2 == Shl(1, k - 1) - 1;
      BitsOnes(k - 1, x / 2);
    }
  }

  // XOR with an all-ones word complements; with zero it does nothing.
  lemma XorMask(x: nat)
    ensures Xor(x, 0) == x
    ensures x < 0x1_0000_0000 ==> Xor(x, 0xFFFF_FFFF) == 0xFFFF_FFFF - x
    ensures x < 0x1_0000_0000_0000_0000 ==> Xor(x, 0xFFFF_FFFF_FFFF_FFFF) == 0xFFFF_FFFF_FFFF_FFFF - x
  {
    WordSizes();
    BitsZero(x);
    if x < Shl(1, 32) { BitsOnes(32, x); }
    if x < Shl(1, 64) { BitsOnes(64, x); }
  }

  lemma LowBit(n: nat)
    ensures And(n, 1) == n % 2
  {
    BitsUnfold(AND, n, 1);
    BitsZero(n / 2);
  }

  // OR-ing a shifted value onto one that fits below it is addition.
  lemma OrAdd(k: nat, x: nat, a: nat)
    requires x < Shl(1, k)
    ensures Or(x, Shl(a, k)) == x + Shl(a, k)
  {
    BitsSplit(OR, k, x, 0, 0, a);
    ShlZero(k);
    BitsZero(x);
    BitsZero(a);
  }

  // Bit seven and above, and the seven bits below it
  lemma SplitAt7(op: BitOp, v: nat, x: nat, b: nat)
    requires x < 0x80
    ensures Bits(op, v, x + 0x80 * b) == Bits(op, v % 0x80, x) + 0x80 * Bits(op, v / 0x80, b)
  {
    var a := v / 0x80;
    var r := Bits(op, a, b);
    assert Shl(1, 7) == 0x80 && Shl(a, 7) == 0x80 * a && Shl(b, 7) == 0x80 * b && Shl(r, 7) == 0x80 * r;
    BitsSplit(op, 7, v % 0x80, a, x, b);
  }

  // b & 0x7F
  function Low7(b: u8): (r: u8)
    ensures r == b % 0x80
  {
    Low7Split(b);
    And(b, 0x7F)
  }

  lemma Low7Split(b: nat)
    ensures And(b, 0x7F) == b % 0x80
  {
    SplitAt7(AND, b, 0x7F, 0);
    assert Shl(1, 7) == 0x80;
    BitsOnes(7, b % 0x80);
    BitsZero(b / 0x80);
  }

  // b & 0x80, as a condition
  predicate More(b: u8)
    ensures More(b) <==> b >= 0x80
  {
    MoreSplit(b);
    And(b, 0x80) != 0
  }

  lemma MoreSplit(b: u8)
    ensures And(b, 0x80) == 0 <==> b < 0x80
  {
    SplitAt7(AND, b, 0, 1);
    BitsZero(b % 0x80);
    assert And(0, 1) == 0 && And(1, 1) == 1;
  }

  // (unsigned char)(v | 0x80)
  function Mark(v: nat): (r: u8)
    ensures r == v % 0x80 + 0x80
  {
    MarkSplit(v);
    U8(Or(v, 0x80))
  }

  lemma MarkSplit(v: nat)
    ensures Or(v, 0x80) % 0x100 == v % 0x80 + 0x80
  {
    var r := OrMark(v);
    ModOdd(v % 0x80, r);
  }

  lemma OrMark(v: nat) returns (r: nat)
    ensures Or(v, 0x80) == v % 0x80 + 0x80 * r && r % 2 == 1
  {
    r := Bits(OR, v / 0x80, 1);
    SplitAt7(OR, v, 0, 1);
    BitsZero(v % 0x80);
    OddBits(v / 0x80);
  }

  lemma OddBits(w: nat)
    ensures Bits(OR, w, 1) % 2 == 1
  {
    BitsUnfold(OR, w, 1);
  }

  lemma ModOdd(x: nat, r: nat)
    requires x < 0x80 && r % 2 == 1
    ensures (x + 0x80 * r) % 0x100 == x + 0x80
  {}

  lemma Assoc<T>(a: seq<T>, b: seq<T>, c: seq<T>)
    ensures a + b + c == a + (b + c)
  {}
}
