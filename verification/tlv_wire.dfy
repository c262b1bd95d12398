/**
 The typed values on the wire, in plain bytes, and what the getters make of bytes
 that nobody put there, tag by tag.
 */
module TlvWire {
  import opened Machine
  import opened Wrappers
  import opened Leb128
  import opened VarInt
  import opened ZBuffer
  import opened TlvFormat
  import opened TlvLaws

  // ---- What is written ----

  // One tag byte each, and the payload of small numbers in one byte
  lemma SmallValues(v: i32, n: u32, s: seq<u8>)
    requires -64 <= v < 64 && n < 0x80 && |s| < 0x80
    ensures EncBool(false) == [2] && EncBool(true) == [3]
    ensures EncInt(v) == [4, if v >= 0 then 2 * v else -2 * v - 1]
    ensures EncLong(v) == [6, if v >= 0 then 2 * v else -2 * v - 1]
    ensures EncTable(n) == [0x12, n] && EncString(s) == [0x11, |s|] + s
  {
    var u := ZigZag(v);
    assert u < 0x80 && Encode(u) == [u] && Encode(n) == [n] && Encode(|s|) == [|s|];
  }

  // A longer number starts with its lowest seven bits, marked.
  lemma LongerNumber(v: nat)
    requires v >= 0x80
    ensures Encode(v) == [v % 0x80 + 0x80] + Encode(v / 0x80) && Encode(300) == [0xAC, 0x02]
  {
    assert Encode(2) == [2];
    assert Encode(300) == [300 % 0x80 + 0x80] + Encode(2);
  }

  // ---- What is read ----

  // At the end of the contents every getter fails and leaves the cursor.
  lemma AtEnd(mem: seq<u8>, len: nat, off: nat)
    requires Ready(mem, len, off) && off >= len
    ensures TagAt(mem, len, off) == 0 && GetBool(mem, len, off) == Got(None, off)
    ensures GetInt(mem, len, off) == Got(None, off) && GetInt64(mem, len, off) == Got(None, off)
    ensures GetUint32(mem, len, off) == Got(None, off) && GetTable(mem, len, off) == Got(None, off)
    ensures GetString(mem, len, off) == Got(None, off) && GetIgnore(mem, len, off) == Got(None, off)
  {}

  // A tag of another type is taken, and the getter fails.
  lemma OtherTag(mem: seq<u8>, len: nat, off: nat)
    requires Ready(mem, len, off) && off < len
    ensures TagAt(mem, len, off) == mem[off]
    ensures mem[off] != 2 && mem[off] != 3 ==> GetBool(mem, len, off) == Got(None, off + 1)
    ensures mem[off] != 4 && mem[off] != 6 ==>
              GetInt(mem, len, off) == GetUint32(mem, len, off) == Got(None, off + 1)
    ensures mem[off] != 4 && mem[off] != 6 ==> GetInt64(mem, len, off) == Got(None, off + 1)
    ensures mem[off] != 0x12 ==> GetTable(mem, len, off) == Got(None, off + 1)
    ensures mem[off] != 0x11 ==> GetString(mem, len, off) == Got(None, off + 1)
    ensures mem[off] != 2 && mem[off] != 3 && mem[off] != 4 && mem[off] != 0x11 ==>
              GetIgnore(mem, len, off) == Got(None, off + 1)
  {}

  // A bool is its tag. A number is the group sum behind its tag, taken back from
  // ZigZag; without one the getter fails behind the tag.
  lemma NumberTag(mem: seq<u8>, len: nat, off: nat)
    requires Ready(mem, len, off) && off < len && len + 2 <= |mem|
    ensures mem[off] == 2 ==> GetBool(mem, len, off) == Got(Some(false), off + 1)
    ensures mem[off] == 3 ==> GetBool(mem, len, off) == Got(Some(true), off + 1)
    ensures mem[off] == 4 ==>
              match GetLen(mem, len, off + 1)
              case Got(Some(n), o) => GetInt(mem, len, off) == Got(Some(if n % 2 == 0 then n / 2 else -(n / 2) - 1), o)
              case _ => GetInt(mem, len, off) == GetInt64(mem, len, off) == Got(None, off + 1)
    ensures mem[off] == 6 ==>
              match GetWide(mem, len, off + 1)
              case Got(Some(n), o) =>
                GetInt64(mem, len, off) == Got(Some(if n % 2 == 0 then n / 2 else -(n / 2) - 1), o)
              case _ => GetInt(mem, len, off) == GetInt64(mem, len, off) == Got(None, off + 1)
  {
    NumbersBounded(mem, len, off + 1);
  }

  // A string that is as long as it says, or an empty one where no length can be
  // read; one that runs past the contents fails and puts the cursor there. Where
  // the sum of cursor and length wraps, the wrapped sum decides.
  function Wrapped(off: nat, n: u32): int { if off + n < 0x1_0000_0000 then off + n else off + n - 0x1_0000_0000 }

  lemma StringTag(mem: seq<u8>, len: nat, off: nat)
    requires Ready(mem, len, off) && off < len && mem[off] == 0x11 && len + 2 <= |mem|
    ensures match GetLen(mem, len, off + 1)
            case Got(Some(n), o) =>
              GetString(mem, len, off) ==
                if Wrapped(o, n) <= len then Got(Some(Slice(o, n)), Wrapped(o, n)) else Got(None, len)
            case _ => GetString(mem, len, off) == Got(Some(Slice(off + 1, 0)), off + 1)
  {
    NumbersBounded(mem, len, off + 1);
    CursorBound(NARROW, mem, len, off + 1);
    match GetLen(mem, len, off + 1)
    case Got(Some(n), o) => TextIs(len, o, n);
    case Got(None, o) => TextIs(len, o, 0);
    case Outside =>
  }

  lemma TextIs(len: nat, off: nat, n: u32)
    requires len < 0x7FFF_FFFF && off <= len + 2
    ensures StrAt(len, off, n) ==
              if Wrapped(off, n) <= len then Got(Some(Slice(off, n)), Wrapped(off, n)) else Got(None, len)
  {}
}
