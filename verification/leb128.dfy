/**
 The number format, independent of the C code: base-128 groups of seven bits,
 least significant first, bit seven set on every byte but the last
 (Protocol Buffers Encoding, "Base 128 Varints"; unsigned LEB128 of
 section 7.6 of DWARF 4).
 */
module Leb128 {
  import opened Machine

  function Encode(v: nat): (s: seq<u8>)
  {
    if v < 0x80 then [v] else [v % 0x80 + 0x80] + Encode(v / 0x80)
  }

  // The number that the groups of s denote, with no bound on its size
  function Sum(s: seq<u8>): nat
  {
    if s == [] then 0 else s[0] % 0x80 + 0x80 * Sum(s[1..])
  }

  ghost predicate Terminated(s: seq<u8>)
  {
    && s != []
    && s[|s| - 1] < 0x80
    && forall i :: 0 <= i < |s| - 1 ==> s[i] >= 0x80
  }

  lemma {:induction false} SumEncode(v: nat)
    ensures Sum(Encode(v)) == v
  {
    if v >= 0x80 {
      SumEncode(v / 0x80);
      assert Encode(v)[1..] == Encode(v / 0x80);
    }
  }

  lemma {:induction false} EncodeTerminated(v: nat)
    ensures Terminated(Encode(v))
  {
    if v >= 0x80 {
      EncodeTerminated(v / 0x80);
    }
  }

  // No byte string denotes its number in fewer bytes than Encode does.
  lemma {:induction false} Shortest(s: seq<u8>)
    requires s != []
    ensures |Encode(Sum(s))| <= |s|
  {
    if |s| > 1 {
      Shortest(s[1..]);
    }
  }

  // The encoding is determined by its number and being terminated and shortest.
  lemma {:induction false} EncodeUnique(s: seq<u8>)
    requires Terminated(s) && |s| == |Encode(Sum(s))|
    ensures s == Encode(Sum(s))
  {
    if |s| > 1 {
      assert s[0] >= 0x80;
      assert Sum(s[1..]) != 0;
      EncodeUnique(s[1..]);
      assert s == [s[0]] + s[1..];
    }
  }

  // 128 to the power n
  function Radix(n: nat): (r: nat)
    ensures r >= 1
  {
    if n == 0 then 1 else 0x80 * Radix(n - 1)
  }

  lemma {:induction false} EncodeLength(v: nat, n: nat)
    requires n > 0
    ensures |Encode(v)| <= n <==> v < Radix(n)
  {
    assert Radix(n) == 0x80 * Radix(n - 1);
    if n > 1 && v >= 0x80 {
      EncodeLength(v / 0x80, n - 1);
    }
  }

  // A 32-bit number takes at most five bytes and a 64-bit number at most ten.
  lemma EncodeFits(v: nat)
    ensures v < 0x1_0000_0000 ==> |Encode(v)| <= 5
    ensures v < 0x1_0000_0000_0000_0000 ==> |Encode(v)| <= 10
  {
    assert Radix(5) == 0x8_0000_0000 && Radix(10) == 0x40_0000_0000_0000_0000;
    EncodeLength(v, 5);
    EncodeLength(v, 10);
  }

  // ZigZag: signed numbers of small magnitude become small naturals
  // (Protocol Buffers Encoding, "Signed Integers").
  function ZigZag(n: int): nat
  {
    if n >= 0 then 2 * n else -2 * n - 1
  }

  function UnZigZag(u: nat): int
  {
    if u % 2 == 0 then u / 2 else -(u / 2) - 1
  }

  function UnZigZag32(u: u32): i32 { UnZigZag(u) }
  function UnZigZag64(u: u64): i64 { UnZigZag(u) }
}
