/**
 Component names: 64-byte arrays that hold a C string, as zipc/zipc_parse.c
 fills, compares and hashes them.
 */
module ComponentNames {
  import opened Machine

  const ZCRT_NAME_LEN: nat := 64

  // char, which is signed
  function Char(b: u8): int { if b < 0x80 then b else b - 0x100 }

  // The string that starts a buffer, without its NUL
  function CStr(s: seq<u8>): seq<u8>
  {
    if s == [] || s[0] == 0 then [] else [s[0]] + CStr(s[1..])
  }

  ghost predicate HasNul(s: seq<u8>)
  {
    exists i :: 0 <= i < |s| && s[i] == 0
  }

  ghost predicate NulFree(s: seq<u8>)
  {
    forall i :: 0 <= i < |s| ==> s[i] != 0
  }

  // All characters but the first, and the NUL, added up
  function HashKey(s: seq<u8>): u32
  {
    if |s| < 2 || s[0] == 0 then 0 else U32(Char(s[1]) + HashKey(s[1..]))
  }

  // Names that strcmp calls equal have the same key, whatever follows the NUL.
  lemma {:induction false} EqualNamesEqualKeys(a: seq<u8>, b: seq<u8>)
    requires CStr(a) == CStr(b)
    ensures HashKey(a) == HashKey(b)
  {
    if a != [] && a[0] != 0 {
      assert CStr(a)[0] == a[0] && CStr(b)[0] == b[0];
      assert CStr(a)[1..] == CStr(a[1..]) && CStr(b)[1..] == CStr(b[1..]);
      NextChar(a);
      NextChar(b);
      EqualNamesEqualKeys(a[1..], b[1..]);
    }
  }

  // The first character of a string, or its NUL
  function First(str: seq<u8>): int { if str == [] then 0 else Char(str[0]) }

  lemma NextChar(s: seq<u8>)
    requires s != [] && s[0] != 0
    ensures HashKey(s) == U32(First(CStr(s[1..])) + HashKey(s[1..]))
  {
    if |s| >= 2 {
      assert First(CStr(s[1..])) == Char(s[1]);
    }
  }

  lemma OneCharMore(name: seq<u8>, i: nat, key: u32)
    requires i + 1 < |name| && name[i] != 0
    ensures U32(U32(key + Char(name[i + 1])) + HashKey(name[i + 1..])) == U32(key + HashKey(name[i..]))
  {
    assert name[i..][1..] == name[i + 1..];
    SumAssoc(key, Char(name[i + 1]), HashKey(name[i + 1..]));
  }

  // char by char, from the end
  function Added(s: seq<u8>): int
  {
    if s == [] then 0
    else
      var last: int := s[|s| - 1];
      Added(s[..|s| - 1]) + if last < 0x80 then last else last - 0x100
  }

  // The key is the sum of all characters of the string but the first.
  lemma {:induction false} KeyIsSum(s: seq<u8>)
    requires HasNul(s)
    ensures HashKey(s) == if CStr(s) == [] then 0 else U32(Added(CStr(s)[1..]))
  {
    if s[0] != 0 {
      NulIsLater(s);
      KeyIsSum(s[1..]);
      KeyCons(s, CStr(s[1..]));
    }
  }

  lemma NulIsLater(s: seq<u8>)
    requires HasNul(s) && s[0] != 0
    ensures HasNul(s[1..])
  {
    var i :| 0 <= i < |s| && s[i] == 0;
    assert s[1..][i - 1] == 0;
  }

  lemma KeyCons(s: seq<u8>, t: seq<u8>)
    requires |s| >= 2 && s[0] != 0 && t == CStr(s[1..])
    requires HashKey(s[1..]) == if t == [] then 0 else U32(Added(t[1..]))
    ensures CStr(s) != [] && CStr(s)[1..] == t && HashKey(s) == U32(Added(t))
  {
    if t == [] {
      assert s[1] == 0 && Char(s[1]) == 0;
    } else {
      FirstOf(s[1..], t);
      AddedCons(t);
      var total := Added(t);
      KeyStep(s, Char(s[1]), Added(t[1..]), total);
    }
  }

  lemma KeyStep(s: seq<u8>, c: int, rest: int, total: int)
    requires |s| >= 2 && s[0] != 0 && c == Char(s[1]) && HashKey(s[1..]) == U32(rest) && total == c + rest
    ensures HashKey(s) == U32(total)
  {
    SumInside(c, rest);
  }

  lemma FirstOf(s: seq<u8>, t: seq<u8>)
    requires t == CStr(s) && t != []
    ensures s != [] && s[0] != 0 && s[0] == t[0]
  {}

  lemma SumInside(a: int, b: int)
    ensures U32(a + U32(b)) == U32(a + b)
  {}

  lemma {:induction false} AddedCons(s: seq<u8>)
    requires s != []
    ensures Added(s) == Char(s[0]) + Added(s[1..])
  {
    if |s| > 1 {
      AddedCons(s[..|s| - 1]);
      assert s[..|s| - 1][1..] == s[1..][..|s| - 2];
    }
  }

  // zipc_component_hash_key on a terminated name
  method ComponentHashKey(name: seq<u8>) returns (key: u32)
    requires HasNul(name)
    ensures key == HashKey(name)
  {
    key := 0;
    var i := 0;
    ghost var end :| 0 <= end < |name| && name[end] == 0;
    while name[i] != 0
      invariant 0 <= i <= end
      invariant U32(key + HashKey(name[i..])) == HashKey(name)
      decreases end - i
    {
      OneCharMore(name, i, key);
      i := i + 1;
      key := U32(key + Char(name[i]));
    }
    assert HashKey(name[i..]) == 0;
  }

  lemma SumAssoc(a: int, b: int, c: int)
    ensures U32(U32(a + b) + c) == U32(a + U32(b + c))
  {}

  // ---- Bounded names ----

  function Trunc(s: seq<u8>): seq<u8>
  {
    if |s| >= ZCRT_NAME_LEN then s[..ZCRT_NAME_LEN - 1] else s
  }

  // What zipc_component_setlname leaves in the array
  function Padded(name: seq<u8>): (r: seq<u8>)
    ensures |r| == ZCRT_NAME_LEN && r[ZCRT_NAME_LEN - 1] == 0
  {
    Trunc(name) + seq(ZCRT_NAME_LEN - |Trunc(name)|, _ => 0)
  }

  // strlen
  method StrLen(s: seq<u8>) returns (n: nat)
    requires HasNul(s)
    ensures n == |CStr(s)| < |s| && s[..n] == CStr(s)
  {
    ghost var end :| 0 <= end < |s| && s[end] == 0;
    n := 0;
    while s[n] != 0
      invariant n <= end && forall i :: 0 <= i < n ==> s[i] != 0
      decreases end - n
    {
      n := n + 1;
    }
    CStrIs(s, n);
  }

  lemma {:induction false} CStrIs(s: seq<u8>, n: nat)
    requires n < |s| && s[n] == 0 && forall i :: 0 <= i < n ==> s[i] != 0
    ensures CStr(s) == s[..n]
  {
    if n > 0 { CStrIs(s[1..], n - 1); }
  }

  // zipc_component_setlname: memset, then memcpy of at most 63 bytes
  method SetLName(a: array<u8>, name: seq<u8>)
    requires a.Length == ZCRT_NAME_LEN
    modifies a
    ensures a.Length == 64 && a[..] == Padded(name)
    ensures forall i :: 0 <= i < 64 ==> a[i] == if i < |name| && i < 63 then name[i] else 0
  {
    forall i | 0 <= i < ZCRT_NAME_LEN {
      a[i] := 0;
    }
    var n := if |name| >= ZCRT_NAME_LEN then ZCRT_NAME_LEN - 1 else |name|;
    forall i | 0 <= i < n {
      a[i] := name[i];
    }
  }

  lemma {:induction false} CStrStops(s: seq<u8>, z: seq<u8>)
    requires z != [] && z[0] == 0
    ensures CStr(s + z) == CStr(s)
  {
    if s == [] {
      assert s + z == z;
    } else if s[0] != 0 {
      assert (s + z)[1..] == s[1..] + z;
      CStrStops(s[1..], z);
    }
  }

  lemma {:induction false} CStrOfPrefix(s: seq<u8>, n: nat)
    requires n <= |s|
    ensures CStr(s[..n]) == if |CStr(s)| <= n then CStr(s) else CStr(s)[..n]
  {
    if n > 0 && s[0] != 0 {
      assert s[..n][1..] == s[1..][..n - 1];
      CStrOfPrefix(s[1..], n - 1);
    }
  }

  lemma {:induction false} CStrIsShorter(s: seq<u8>)
    ensures |CStr(s)| <= |s|
    ensures NulFree(s) ==> CStr(s) == s
  {
    if s != [] && s[0] != 0 { CStrIsShorter(s[1..]); }
  }

  lemma {:induction false} CStrEndsBefore(s: seq<u8>)
    requires HasNul(s)
    ensures |CStr(s)| < |s|
  {
    if s[0] != 0 {
      var i :| 0 <= i < |s| && s[i] == 0;
      assert s[1..][i - 1] == 0;
      CStrEndsBefore(s[1..]);
    }
  }

  // Creation and lookup cut a name off at the same place.
  lemma PaddedHolds(name: seq<u8>)
    ensures CStr(Padded(name)) == Trunc(CStr(name))
    ensures HasNul(Padded(name))
  {
    CStrStops(Trunc(name), seq(ZCRT_NAME_LEN - |Trunc(name)|, _ => 0));
    CStrIsShorter(name);
    if |name| >= ZCRT_NAME_LEN {
      CStrOfPrefix(name, ZCRT_NAME_LEN - 1);
    }
    assert Padded(name)[ZCRT_NAME_LEN - 1] == 0;
  }
}
