/**
 Indexed arrays: ztlv_put_array and ztlv_get_array over any element codec, and
 the base-type macros of zipc/zipc_tlv.h as codecs.
 */
module TlvArray {
  import opened Machine
  import opened Wrappers
  import opened Leb128
  import opened ZBuffer
  import opened ZArray
  import opened TlvFormat
  import opened TlvLaws
  import opened Ztlv
  import opened Exchange

  // An element codec: whether the put function returns true for an element and
  // what it appends, and what the get function returns at a cursor. dom is the
  // elements that the codec is meant for.
  datatype Codec<!T> =
    Codec(dom: T -> bool, accepts: T -> bool, put: T -> seq<u8>, get: (seq<u8>, nat, nat) -> Got<T>)

  // An element that was put is what is got back, with the cursor behind it.
  ghost predicate RoundTrips<T(!new)>(c: Codec<T>)
  {
    && (forall x :: c.dom(x) ==> c.accepts(x))
    && (forall x, mem: seq<u8>, len: nat, off: nat :: c.dom(x) && Holds(mem, len, off, c.put(x)) ==>
          c.get(mem, len, off) == Got(Some(x), off + |c.put(x)|))
    && (forall mem: seq<u8>, len: nat, off: nat :: Ready(mem, len, off) && c.get(mem, len, off).Got? ==>
          c.get(mem, len, off).off <= len + 2)
  }

  // What follows the count: an index and an element, for every element. The
  // indices are any numbers that ztlv_put_int64 may have written.
  function EncItems<T>(c: Codec<T>, ks: seq<i64>, xs: seq<T>): seq<u8>
    requires |ks| == |xs|
    decreases |xs|
  {
    if xs == [] then [] else EncInt64(ks[0]) + c.put(xs[0]) + EncItems(c, ks[1..], xs[1..])
  }

  function EncArray<T>(c: Codec<T>, ks: seq<i64>, xs: seq<T>): seq<u8>
    requires |ks| == |xs| < 0x1_0000_0000
  {
    EncTable(|xs|) + EncItems(c, ks, xs)
  }

  // The indices that ztlv_put_array writes: 1 to n
  function Indices(n: nat): (ks: seq<i64>)
    requires n < 0x7FFF_FFFF
    ensures |ks| == n && forall i :: 0 <= i < n ==> ks[i] == i + 1
  {
    if n == 0 then [] else Indices(n - 1) + [n]
  }

  // An index and an element
  function GetItem<T>(c: Codec<T>, mem: seq<u8>, len: nat, off: nat): Got<T>
  {
    if !Ready(mem, len, off) then Outside
    else match GetInt(mem, len, off)
      case Outside => Outside
      case Got(None, o) => Got(None, o)
      case Got(Some(_), o) => if Ready(mem, len, o) then c.get(mem, len, o) else Outside
  }

  // What a getter returns n times, as long as it succeeds
  function Collect<T>(item: nat -> Got<T>, n: nat, off: nat): Got<seq<T>>
    decreases n
  {
    if n == 0 then Got(Some([]), off)
    else match item(off)
      case Outside => Outside
      case Got(None, o) => Got(None, o)
      case Got(Some(x), o) => Prepend([x], Collect(item, n - 1, o))
  }

  function ItemIn<T>(c: Codec<T>, mem: seq<u8>, len: nat): nat -> Got<T>
  {
    (o: nat) => GetItem(c, mem, len, o)
  }

  function GetItems<T>(c: Codec<T>, mem: seq<u8>, len: nat, off: nat, n: nat): Got<seq<T>>
  {
    Collect(ItemIn(c, mem, len), n, off)
  }

  function GetArray<T>(c: Codec<T>, mem: seq<u8>, len: nat, off: nat): Got<seq<T>>
    requires Ready(mem, len, off)
  {
    match GetTable(mem, len, off)
    case Outside => Outside
    case Got(None, o) => Got(None, o)
    case Got(Some(n), o) => GetItems(c, mem, len, o, n)
  }

  lemma {:induction false} ItemsBack<T(!new)>(c: Codec<T>, ks: seq<i64>, xs: seq<T>, mem: seq<u8>, len: nat, off: nat,
                                              enc: seq<u8>, end: nat)
    requires RoundTrips(c) && |ks| == |xs| && forall x :: x in xs ==> c.dom(x)
    requires enc == EncItems(c, ks, xs) && end == off + |enc| && Holds(mem, len, off, enc)
    ensures GetItems(c, mem, len, off, |xs|) == Got(Some(xs), end)
  {
    if xs != [] {
      var next, rest := PeelItem(c, ks, xs, mem, len, off, enc, end);
      ItemsBack(c, ks[1..], xs[1..], mem, len, next, rest, end);
      ItemsCons(c, mem, len, off, next, xs, end);
    }
  }

  // An index, whatever it is, and then the element x
  ghost predicate GetsItem<T>(c: Codec<T>, mem: seq<u8>, len: nat, off: nat, next: nat, x: T)
  {
    && Ready(mem, len, off) && GetInt(mem, len, off).Got? && GetInt(mem, len, off).value.Some?
    && var o := GetInt(mem, len, off).off;
       Ready(mem, len, o) && c.get(mem, len, o) == Got(Some(x), next)
  }

  lemma PeelItem<T(!new)>(c: Codec<T>, ks: seq<i64>, xs: seq<T>, mem: seq<u8>, len: nat, off: nat,
                          enc: seq<u8>, end: nat) returns (next: nat, rest: seq<u8>)
    requires RoundTrips(c) && |ks| == |xs| > 0 && c.dom(xs[0])
    requires enc == EncItems(c, ks, xs) && end == off + |enc| && Holds(mem, len, off, enc)
    ensures rest == EncItems(c, ks[1..], xs[1..]) && end == next + |rest|
    ensures Holds(mem, len, next, rest) && GetsItem(c, mem, len, off, next, xs[0])
  {
    var k, e, r := ItemPieces(c, ks, xs);
    next, rest := off + |k| + |e|, r;
    ThreeParts(mem, len, off, k, e, rest);
    Int64Back(mem, len, off, ks[0], k);
    ElementBack(c, mem, len, off + |k|, xs[0], e);
  }

  lemma ThreeParts(mem: seq<u8>, len: nat, off: nat, k: seq<u8>, e: seq<u8>, rest: seq<u8>)
    requires Holds(mem, len, off, k + e + rest)
    ensures Holds(mem, len, off, k) && Holds(mem, len, off + |k|, e) && Holds(mem, len, off + |k| + |e|, rest)
  {
    HoldsParts(mem, len, off, k + e, rest);
    HoldsParts(mem, len, off, k, e);
  }

  lemma ItemPieces<T>(c: Codec<T>, ks: seq<i64>, xs: seq<T>) returns (k: seq<u8>, e: seq<u8>, rest: seq<u8>)
    requires |ks| == |xs| > 0
    ensures k == EncInt64(ks[0]) && e == c.put(xs[0]) && rest == EncItems(c, ks[1..], xs[1..])
    ensures EncItems(c, ks, xs) == k + e + rest
  {
    k, e := FirstItem(c, ks, xs);
    rest := EncItems(c, ks[1..], xs[1..]);
  }

  lemma ElementBack<T(!new)>(c: Codec<T>, mem: seq<u8>, len: nat, off: nat, x: T, e: seq<u8>)
    requires RoundTrips(c) && c.dom(x) && e == c.put(x) && Holds(mem, len, off, e)
    ensures Ready(mem, len, off) && c.get(mem, len, off) == Got(Some(x), off + |e|)
  {}

  lemma FirstItem<T>(c: Codec<T>, ks: seq<i64>, xs: seq<T>) returns (k: seq<u8>, e: seq<u8>)
    requires |ks| == |xs| > 0
    ensures k == EncInt64(ks[0]) && e == c.put(xs[0])
    ensures EncItems(c, ks, xs) == k + e + EncItems(c, ks[1..], xs[1..])
  {
    k, e := EncInt64(ks[0]), c.put(xs[0]);
  }

  lemma ItemsCons<T>(c: Codec<T>, mem: seq<u8>, len: nat, off: nat, next: nat, xs: seq<T>, end: nat)
    requires xs != [] && GetsItem(c, mem, len, off, next, xs[0])
    requires GetItems(c, mem, len, next, |xs| - 1) == Got(Some(xs[1..]), end)
    ensures GetItems(c, mem, len, off, |xs|) == Got(Some(xs), end)
  {
    assert [xs[0]] + xs[1..] == xs;
  }

  // Whatever the indices say, the array comes back with its length and all of
  // its elements, for any element codec that round-trips.
  lemma ArrayBack<T(!new)>(c: Codec<T>, ks: seq<i64>, xs: seq<T>, mem: seq<u8>, len: nat, off: nat)
    requires RoundTrips(c) && |ks| == |xs| < 0x1_0000_0000 && forall x :: x in xs ==> c.dom(x)
    requires Holds(mem, len, off, EncArray(c, ks, xs))
    ensures Ready(mem, len, off)
    ensures GetArray(c, mem, len, off) == Got(Some(xs), off + |EncArray(c, ks, xs)|)
  {
    var items := off + |EncTable(|xs|)|;
    assert GetTable(mem, len, off) == Got(Some(|xs|), items) && Holds(mem, len, items, EncItems(c, ks, xs)) by {
      HoldsParts(mem, len, off, EncTable(|xs|), EncItems(c, ks, xs));
      TableBack(mem, len, off, |xs|, EncTable(|xs|));
    }
    ItemsBack(c, ks, xs, mem, len, items, EncItems(c, ks, xs), items + |EncItems(c, ks, xs)|);
  }

  // ---- Arbitrary input ----

  // From offs[i] on there are an index and the element xs[i], up to offs[i + 1].
  ghost predicate ItemsAt<T>(c: Codec<T>, mem: seq<u8>, len: nat, offs: seq<nat>, xs: seq<T>)
  {
    && |offs| == |xs| + 1
    && forall i :: 0 <= i < |xs| ==> ItemAt(c, mem, len, offs[i], xs[i], offs[i + 1])
  }

  ghost predicate ItemAt<T>(c: Codec<T>, mem: seq<u8>, len: nat, off: nat, x: T, next: nat)
  {
    Ready(mem, len, off) && match GetInt(mem, len, off)
      case Got(Some(_), o) => Ready(mem, len, o) && c.get(mem, len, o) == Got(Some(x), next)
      case _ => false
  }

  // The loop succeeds only if every index and every element can be read, and it
  // returns these elements.
  lemma {:induction false} ItemsAreRead<T>(c: Codec<T>, mem: seq<u8>, len: nat, off: nat, n: nat)
      returns (offs: seq<nat>)
    requires GetItems(c, mem, len, off, n).Got? && GetItems(c, mem, len, off, n).value.Some?
    ensures var g := GetItems(c, mem, len, off, n);
            && |g.value.value| == n && ItemsAt(c, mem, len, offs, g.value.value) && offs[0] == off && offs[n] == g.off
    decreases n
  {
    if n == 0 {
      offs := [off];
    } else {
      var x := GetItem(c, mem, len, off);
      var more := ItemsAreRead(c, mem, len, x.off, n - 1);
      offs := [off] + more;
      OneItemMore(c, mem, len, off, x.value.value, more, GetItems(c, mem, len, x.off, n - 1).value.value);
    }
  }

  lemma OneItemMore<T>(c: Codec<T>, mem: seq<u8>, len: nat, off: nat, x: T, offs: seq<nat>, xs: seq<T>)
    requires ItemsAt(c, mem, len, offs, xs) && ItemAt(c, mem, len, off, x, offs[0])
    ensures ItemsAt(c, mem, len, [off] + offs, [x] + xs)
  {}

  // On any bytes an array comes with a table's count and so many items.
  lemma ArrayIsRead<T>(c: Codec<T>, mem: seq<u8>, len: nat, off: nat) returns (offs: seq<nat>)
    requires Ready(mem, len, off) && GetArray(c, mem, len, off).Got? && GetArray(c, mem, len, off).value.Some?
    ensures var g := GetArray(c, mem, len, off);
            && |g.value.value| < 0x1_0000_0000 && ItemsAt(c, mem, len, offs, g.value.value)
            && GetTable(mem, len, off) == Got(Some(|g.value.value|), offs[0]) && offs[|g.value.value|] == g.off
  {
    var t := GetTable(mem, len, off);
    offs := ItemsAreRead(c, mem, len, t.off, t.value.value);
  }

  // The get function stays in a block that is two bytes longer than the contents.
  ghost predicate Bounded<T>(c: Codec<T>)
  {
    forall mem: seq<u8>, len: nat, off: nat :: Ready(mem, len, off) && len + 2 <= |mem| ==>
      StaysAt(c, mem, len, off)
  }

  ghost predicate StaysAt<T>(c: Codec<T>, mem: seq<u8>, len: nat, off: nat)
    requires len + 2 <= |mem|
  {
    var g := c.get(mem, len, off);
    g == c.get(mem[..len + 2], len, off) && g.Got? && g.off <= len + 2
  }

  lemma {:induction false} CollectAgrees<T>(f: nat -> Got<T>, g: nat -> Got<T>, bound: nat, n: nat, off: nat)
    requires forall o: nat :: o <= bound ==> f(o) == g(o) && f(o).Got? && f(o).off <= bound
    requires off <= bound
    ensures Collect(f, n, off) == Collect(g, n, off) != Outside
    decreases n
  {
    if n > 0 && f(off).value.Some? { CollectAgrees(f, g, bound, n - 1, f(off).off); }
  }

  lemma ItemsBounded<T>(c: Codec<T>, mem: seq<u8>, len: nat, off: nat, n: nat)
    requires Bounded(c) && Ready(mem, len, off) && len + 2 <= |mem|
    ensures GetItems(c, mem, len, off, n) == GetItems(c, mem[..len + 2], len, off, n) != Outside
  {
    var f, g := ItemIn(c, mem, len), ItemIn(c, mem[..len + 2], len);
    forall o: nat | o <= len + 2
      ensures f(o) == g(o) && f(o).Got? && f(o).off <= len + 2
    {
      ItemBounded(c, mem, len, o);
    }
    CollectAgrees(f, g, len + 2, n, off);
  }

  lemma ItemBounded<T>(c: Codec<T>, mem: seq<u8>, len: nat, off: nat)
    requires Bounded(c) && Ready(mem, len, off) && len + 2 <= |mem|
    ensures var x := GetItem(c, mem, len, off);
            x == GetItem(c, mem[..len + 2], len, off) && x.Got? && x.off <= len + 2
  {
    IndexBounded(mem, len, off);
    var k := GetInt(mem, len, off);
    if k.value.Some? { assert StaysAt(c, mem, len, k.off); }
  }

  lemma IndexBounded(mem: seq<u8>, len: nat, off: nat)
    requires Ready(mem, len, off) && len + 2 <= |mem|
    ensures var k := GetInt(mem, len, off); k == GetInt(mem[..len + 2], len, off) && k.Got? && k.off <= len + 2
  {
    GettersBounded(mem, len, off);
    FetchCursor(KInt, mem, len, off);
  }

  // On any bytes the array getter stays in such a block, and nothing behind the
  // two bytes makes a difference.
  lemma ArrayBounded<T>(c: Codec<T>, mem: seq<u8>, len: nat, off: nat)
    requires Bounded(c) && Ready(mem, len, off) && len + 2 <= |mem|
    ensures GetArray(c, mem, len, off) == GetArray(c, mem[..len + 2], len, off) != Outside
  {
    GettersBounded(mem, len, off);
    FetchCursor(KTable, mem, len, off);
    var t := GetTable(mem, len, off);
    if t.value.Some? { ItemsBounded(c, mem, len, t.off, t.value.value); }
  }

  // ---- The loops ----

  function ItemsNeed<T>(c: Codec<T>, xs: seq<T>): nat
  {
    if xs == [] then 0 else 6 + |c.put(xs[0])| + ItemsNeed(c, xs[1..])
  }

  lemma {:induction false} ItemsSnoc<T>(c: Codec<T>, ks: seq<i64>, xs: seq<T>, k: i64, x: T)
    requires |ks| == |xs|
    ensures EncItems(c, ks + [k], xs + [x]) == EncItems(c, ks, xs) + EncInt64(k) + c.put(x)
    decreases |xs|
  {
    var k0, e0 := FirstItem(c, ks + [k], xs + [x]);
    if xs != [] {
      ItemsSnoc(c, ks[1..], xs[1..], k, x);
      assert (ks + [k])[1..] == ks[1..] + [k] && (xs + [x])[1..] == xs[1..] + [x];
      var _, _ := FirstItem(c, ks, xs);
      JoinItem(k0 + e0, EncItems(c, ks[1..], xs[1..]), EncInt64(k), c.put(x));
    }
  }

  lemma JoinItem(a: seq<u8>, b: seq<u8>, k: seq<u8>, e: seq<u8>)
    ensures a + (b + k + e) == a + b + k + e
  {}

  // The first i items of xs, as the loop has written them
  ghost function Written<T>(c: Codec<T>, xs: seq<T>, i: nat): seq<u8>
    requires i <= |xs| < 0x7FFF_FFFF
  {
    if i == 0 then [] else Written(c, xs, i - 1) + (EncInt(i) + c.put(xs[i - 1]))
  }

  lemma {:induction false} WrittenIsItems<T>(c: Codec<T>, xs: seq<T>, i: nat)
    requires i <= |xs| < 0x7FFF_FFFF
    ensures Written(c, xs, i) == EncItems(c, Indices(i), xs[..i])
    decreases i
  {
    if i > 0 {
      WrittenIsItems(c, xs, i - 1);
      var e := OneMoreItem(c, xs, i);
      WrittenStep(c, xs, i, e);
    }
  }

  lemma OneMoreItem<T>(c: Codec<T>, xs: seq<T>, i: nat) returns (e: seq<u8>)
    requires 0 < i <= |xs| < 0x7FFF_FFFF
    ensures e == EncInt(i) + c.put(xs[i - 1])
    ensures EncItems(c, Indices(i), xs[..i]) == EncItems(c, Indices(i - 1), xs[..i - 1]) + e
  {
    var ks, ys := Indices(i - 1), xs[..i - 1];
    e := SnocPieces(c, ks, ys, i, xs[i - 1]);
    IndicesStep(i);
    assert xs[..i] == ys + [xs[i - 1]];
  }

  lemma IndicesStep(i: nat)
    requires 0 < i < 0x7FFF_FFFF
    ensures Indices(i) == Indices(i - 1) + [i]
  {}

  lemma SnocPieces<T>(c: Codec<T>, ks: seq<i64>, xs: seq<T>, i: nat, x: T) returns (e: seq<u8>)
    requires |ks| == |xs| && i < 0x7FFF_FFFF
    ensures e == EncInt(i) + c.put(x) && EncItems(c, ks + [i], xs + [x]) == EncItems(c, ks, xs) + e
  {
    ItemsSnoc(c, ks, xs, i, x);
    e := EncInt(i) + c.put(x);
    Assoc(EncItems(c, ks, xs), EncInt(i), c.put(x));
  }

  lemma WrittenStep<T>(c: Codec<T>, xs: seq<T>, i: nat, e: seq<u8>)
    requires 0 < i <= |xs| < 0x7FFF_FFFF && e == EncInt(i) + c.put(xs[i - 1])
    ensures Written(c, xs, i) == Written(c, xs, i - 1) + e
  {}

  method PutItem<T>(buf: ZBuf, c: Codec<T>, i: i32, x: T)
    requires i >= 0 && Room(buf, 6 + |c.put(x)|)
    modifies buf, buf.data
    ensures Grown(buf, EncInt(i) + c.put(x)) && |EncInt(i)| <= 6
  {
    PutInt(buf, i);
    var _ := buf.Append(c.put(x));
  }

  // Item i of the array, which is behind the items before it
  method PutItemAt<T(0)>(buf: ZBuf, arr: ZArrayList<T>, c: Codec<T>, i: u32)
      returns (ok: bool, ghost piece: seq<u8>)
    requires arr.Valid() && arr.data as object != buf.data && i < arr.len < 0x7FFF_FFFF
    requires Room(buf, ItemsNeed(c, arr.Contents()[i..]))
    modifies buf, buf.data
    ensures Grown(buf, piece) && arr.Contents() == old(arr.Contents()) && ok == c.accepts(arr.Contents()[i])
    ensures Room(buf, ItemsNeed(c, arr.Contents()[i + 1..]))
    ensures Written(c, arr.Contents(), i + 1) == Written(c, arr.Contents(), i) + piece
  {
    ghost var xs := arr.Contents();
    assert xs[i..][0] == xs[i] && xs[i..][1..] == xs[i + 1..];
    var x := arr.data[arr.Get(i).value];
    piece := EncInt(i + 1) + c.put(x);
    PutItem(buf, c, i + 1, x);
    ok := c.accepts(x);
  }

  // The put function was called on the first n items: on all of them if it
  // returned true each time, and otherwise up to the first where it did not.
  ghost predicate StopsAfter<T>(c: Codec<T>, xs: seq<T>, n: nat, ok: bool)
  {
    && n <= |xs| && (forall i :: 0 <= i < n - 1 ==> c.accepts(xs[i]))
    && if ok then n == |xs| && (n > 0 ==> c.accepts(xs[n - 1])) else n > 0 && !c.accepts(xs[n - 1])
  }

  // That, when the loop has dealt with n items and goes on if ok
  ghost predicate Accepted<T>(c: Codec<T>, xs: seq<T>, n: nat, ok: bool)
  {
    n <= |xs| && if ok then forall i :: 0 <= i < n ==> c.accepts(xs[i]) else StopsAfter(c, xs, n, false)
  }

  lemma OneMoreAccepted<T>(c: Codec<T>, xs: seq<T>, n: nat)
    requires n < |xs| && Accepted(c, xs, n, true)
    ensures Accepted(c, xs, n + 1, c.accepts(xs[n]))
  {}

  // The loop of ztlv_put_array
  method PutItems<T(0)>(buf: ZBuf, arr: ZArrayList<T>, c: Codec<T>)
      returns (ok: bool, ghost n: nat, ghost items: seq<u8>)
    requires arr.Valid() && arr.data as object != buf.data && arr.len < 0x7FFF_FFFF
    requires Room(buf, ItemsNeed(c, arr.Contents()))
    modifies buf, buf.data
    ensures Grown(buf, items) && arr.Contents() == old(arr.Contents()) && StopsAfter(c, arr.Contents(), n, ok)
    ensures items == EncItems(c, Indices(n), arr.Contents()[..n])
  {
    ghost var xs := arr.Contents();
    assert xs[0..] == xs;
    items := [];
    var i: u32 := 0;
    ok := true;
    while ok && i < arr.len
      invariant i <= arr.len && arr.Contents() == xs
      invariant Grown(buf, items) && items == Written(c, xs, i)
      invariant Room(buf, ItemsNeed(c, xs[i..]))
      invariant Accepted(c, xs, i, ok)
    {
      OneMoreAccepted(c, xs, i);
      ghost var piece;
      ok, piece := PutItemAt(buf, arr, c, i);
      Assoc(old(buf.Contents()), items, piece);
      items := items + piece;
      i := i + 1;
    }
    n := i;
    WrittenIsItems(c, xs, n);
  }

  // ztlv_put_array. The items stop behind the first that the put function fails
  // on, although the count is that of all.
  method PutArray<T(0)>(buf: ZBuf, arr: ZArrayList<T>, c: Codec<T>) returns (ok: bool, ghost n: nat)
    requires arr.Valid() && arr.data as object != buf.data && arr.len < 0x7FFF_FFFF
    requires Room(buf, 6 + ItemsNeed(c, arr.Contents()))
    modifies buf, buf.data
    ensures arr.Contents() == old(arr.Contents()) && StopsAfter(c, arr.Contents(), n, ok)
    ensures Grown(buf, EncTable(arr.len) + EncItems(c, Indices(n), arr.Contents()[..n]))
    ensures ok ==> Grown(buf, EncArray(c, Indices(arr.len), arr.Contents()))
  {
    PutTable(buf, arr.len);
    ghost var items;
    ok, n, items := PutItems(buf, arr, c);
    Assoc(old(buf.Contents()), EncTable(arr.len), items);
    assert arr.Contents()[..arr.len] == arr.Contents();
  }

  lemma PrependTwice<T>(xs: seq<T>, ys: seq<T>, g: Got<seq<T>>)
    ensures Prepend(xs, Prepend(ys, g)) == Prepend(xs + ys, g)
  {
    if g.Got? && g.value.Some? {
      assert xs + (ys + g.value.value) == (xs + ys) + g.value.value;
    }
  }

  ghost predicate KeepsCursor<T>(c: Codec<T>)
  {
    forall mem: seq<u8>, len: nat, off: nat :: Ready(mem, len, off) && c.get(mem, len, off).Got? ==>
      c.get(mem, len, off).off <= len + 2
  }

  // One round of the loop of ztlv_get_array, with n items to go
  method FetchElement<T(0)>(buf: ZBuf, slots: array<T>, i: nat, c: Codec<T>, ghost n: nat, ghost mem: seq<u8>)
      returns (ok: bool)
    requires buf.Valid() && buf.data[..] == mem && i < slots.Length && slots as object != buf.data && n > 0
             && KeepsCursor(c)
    requires GetItems(c, mem, buf.len, buf.offset, n) != Outside
    modifies buf`offset, slots
    ensures buf.Valid() && buf.data[..] == mem
    ensures var items := GetItems(c, mem, buf.len, old(buf.offset), n);
            if ok then items == Prepend([slots[i]], GetItems(c, mem, buf.len, buf.offset, n - 1))
            else items == Got(None, buf.offset)
    ensures slots[..i + 1] == old(slots[..i]) + [slots[i]] && slots[i + 1..] == old(slots[i + 1..])
  {
    var idx := FetchInt(buf);
    if idx == None {
      return false;
    }
    var x := c.get(buf.data[..], buf.len, buf.offset);
    buf.offset := x.off;
    if x.value == None {
      return false;
    }
    slots[i] := x.value.value;
    return true;
  }

  lemma PrependNothing<T>(g: Got<seq<T>>)
    ensures Prepend([], g) == g
    ensures g.Got? && g.value == Some([]) ==>
              forall xs {:trigger Prepend(xs, g)} :: Prepend(xs, g) == Got(Some(xs), g.off)
  {
    forall xs: seq<T> | g.Got? && g.value == Some([])
      ensures Prepend(xs, g) == Got(Some(xs), g.off)
    {
      assert xs + [] == xs;
    }
    if g.Got? && g.value.Some? {
      assert [] + g.value.value == g.value.value;
    }
  }

  lemma Advance<T>(xs: seq<T>, x: T, all: Got<seq<T>>, g: Got<seq<T>>, rest: Got<seq<T>>)
    requires all == Prepend(xs, g) && g == Prepend([x], rest)
    ensures all == Prepend(xs + [x], rest)
  {
    PrependTwice(xs, [x], rest);
  }

  // tail(off, n) is what is left to return when the cursor is at off with n
  // items to go.
  ghost predicate IsTail<T>(tail: (nat, nat) -> Got<seq<T>>, c: Codec<T>, mem: seq<u8>, len: nat)
  {
    forall off: nat, n: nat {:trigger GetItems(c, mem, len, off, n)} :: tail(off, n) == GetItems(c, mem, len, off, n)
  }

  // The same round, seen from the whole loop, which is to return all
  method FillSlot<T(0)>(buf: ZBuf, slots: array<T>, i: nat, c: Codec<T>, ghost n: nat, ghost mem: seq<u8>,
                        ghost all: Got<seq<T>>, ghost tail: (nat, nat) -> Got<seq<T>>)
      returns (ok: bool)
    requires buf.Valid() && buf.data[..] == mem && i < slots.Length && slots as object != buf.data && n > 0
             && KeepsCursor(c)
    requires IsTail(tail, c, mem, buf.len) && all == Prepend(slots[..i], tail(buf.offset, n)) != Outside
    modifies buf`offset, slots
    ensures buf.Valid() && buf.data[..] == mem
    ensures if ok then all == Prepend(slots[..i + 1], tail(buf.offset, n - 1)) else all == Got(None, buf.offset)
  {
    ghost var before, items := slots[..i], GetItems(c, mem, buf.len, buf.offset, n);
    ok := FetchElement(buf, slots, i, c, n, mem);
    if ok {
      Advance(before, slots[i], all, items, GetItems(c, mem, buf.len, buf.offset, n - 1));
    }
  }

  // The loop of ztlv_get_array
  method FillSlots<T(0)>(buf: ZBuf, slots: array<T>, c: Codec<T>, n: u32, ghost mem: seq<u8>,
                         ghost tail: (nat, nat) -> Got<seq<T>>)
      returns (ok: bool)
    requires buf.Valid() && buf.data[..] == mem && n <= slots.Length && slots as object != buf.data && KeepsCursor(c)
    requires IsTail(tail, c, mem, buf.len) && tail(buf.offset, n) != Outside
    requires forall off: nat :: tail(off, 0) == Got(Some([]), off)
    modifies buf`offset, slots
    ensures buf.Valid() && buf.data[..] == mem
    ensures tail(old(buf.offset), n) == Got(if ok then Some(slots[..n]) else None, buf.offset)
  {
    ghost var all := tail(buf.offset, n);
    PrependNothing(all);
    var i: u32 := 0;
    while i < n
      invariant i <= n && buf.Valid() && buf.data[..] == mem
      invariant all == Prepend(slots[..i], tail(buf.offset, n - i))
    {
      ok := FillSlot(buf, slots, i, c, n - i, mem, all, tail);
      if !ok {
        return;
      }
      i := i + 1;
    }
    PrependNothing(tail(buf.offset, 0));
    return true;
  }

  // ztlv_get_array. A stream that ends early leaves the new length and the
  // elements read so far.
  method GetArrayInto<T(0)>(buf: ZBuf, arr: ZArrayList<T>, c: Codec<T>) returns (ok: bool)
    requires buf.Valid() && arr.Valid()
    requires (buf.grown && Bounded(c)) || GetArray(c, buf.data[..], buf.len, buf.offset) != Outside
    requires arr.data as object != buf.data && arr as object != buf && KeepsCursor(c)
    requires var g := GetTable(buf.data[..], buf.len, buf.offset);
             g.Got? && g.value.Some? ==> arr.Slots(g.value.value) < 0x1_0000_0000
    modifies buf`offset, arr`len, arr`alloced, arr`data, arr.data
    ensures buf.Valid() && arr.Valid()
    ensures GetArray(c, buf.data[..], buf.len, old(buf.offset))
            == Got(if ok then Some(arr.Contents()) else None, buf.offset)
  {
    if buf.grown && Bounded(c) {
      GrownHasSlack(buf);
      ArrayBounded(c, buf.data[..], buf.len, buf.offset);
    }
    var cnt := FetchTable(buf);
    if cnt == None {
      return false;
    }
    arr.SetLength(cnt.value);
    ghost var mem, len := buf.data[..], buf.len;
    ok := FillSlots(buf, arr.data, c, cnt.value, mem, (off: nat, n: nat) => GetItems(c, mem, len, off, n));
  }

  // ---- The base types ----

  // A slot of type bool_t is a byte. What is put is whether it is not zero, and
  // what is got back is 0 or 1.
  function BoolCodec(): Codec<u8>
  {
    Codec((x: u8) => x < 2,
          _ => true,
          (x: u8) => EncBool(x != 0),
          (mem, len, off) =>
            if Ready(mem, len, off) then GetBool(mem, len, off).Map((b: bool) => BoolSlot(b)) else Outside)
  }

  function BoolSlot(b: bool): u8 { if b then 1 else 0 }

  lemma BoolRoundTrips()
    ensures RoundTrips(BoolCodec())
  {
    var c := BoolCodec();
    forall x, mem: seq<u8>, len: nat, off: nat | c.dom(x) && Holds(mem, len, off, c.put(x))
      ensures c.get(mem, len, off) == Got(Some(x), off + |c.put(x)|)
    {
      BoolSlotBack(mem, len, off, x);
    }
  }

  lemma BoolBounded()
    ensures Bounded(BoolCodec())
  {
    forall mem: seq<u8>, len: nat, off: nat | Ready(mem, len, off) && len + 2 <= |mem|
      ensures StaysAt(BoolCodec(), mem, len, off)
    {
      GettersBounded(mem, len, off);
    }
  }

  // A slot comes back as it was if and only if it was 0 or 1.
  lemma BoolSlotBack(mem: seq<u8>, len: nat, off: nat, x: u8)
    requires Holds(mem, len, off, BoolCodec().put(x))
    ensures BoolCodec().get(mem, len, off) == Got(Some(x), off + |BoolCodec().put(x)|) <==> x < 2
  {
    BoolBack(mem, len, off, x != 0, EncBool(x != 0));
  }

  function Uint32Codec(): Codec<u32>
  {
    Codec((x: u32) => true,
          _ => true,
          (x: u32) => EncInt64(x),
          (mem, len, off) => if Ready(mem, len, off) then GetUint32(mem, len, off) else Outside)
  }

  lemma Uint32RoundTrips()
    ensures RoundTrips(Uint32Codec())
  {
    forall x: u32, mem: seq<u8>, len: nat, off: nat | Holds(mem, len, off, EncInt64(x))
      ensures Uint32Codec().get(mem, len, off) == Got(Some(x), off + |EncInt64(x)|)
    {
      Uint32Back(mem, len, off, x, EncInt64(x));
    }
    forall mem: seq<u8>, len: nat, off: nat | Ready(mem, len, off)
      ensures GetUint32(mem, len, off).Got? ==> GetUint32(mem, len, off).off <= len + 2
    {
      FetchCursor(KUint32, mem, len, off);
    }
  }

  lemma Uint32Bounded()
    ensures Bounded(Uint32Codec())
  {
    forall mem: seq<u8>, len: nat, off: nat | Ready(mem, len, off) && len + 2 <= |mem|
      ensures StaysAt(Uint32Codec(), mem, len, off)
    {
      GettersBounded(mem, len, off);
      FetchCursor(KUint32, mem, len, off);
    }
  }

  // (bty)v for an integer type of m values from lo on
  function Narrow(lo: int, m: nat, v: int): (r: int)
    requires m > 0
    ensures lo <= r < lo + m && exists k :: v == r + Times(m, k)
  {
    assert v == (v - lo) % m + lo + Times(m, (v - lo) / m);
    (v - lo) % m + lo
  }

  function Times(m: int, k: int): int { m * k }

  // int8_t, uint8_t, int16_t, uint16_t and int32_t slots, filled by way of an
  // int32_t: lo and m say which
  function IntCodec(lo: int, m: nat): Codec<int>
    requires m > 0
  {
    Codec(x => lo <= x < lo + m,
          _ => true,
          x => EncInt(S32(x)),
          (mem, len, off) =>
            if Ready(mem, len, off) then GetInt(mem, len, off).Map((v: i32) => Narrow(lo, m, v)) else Outside)
  }

  lemma NarrowKeeps(lo: int, m: nat, x: int)
    requires lo <= x < lo + m && -0x8000_0000 <= lo && lo + m <= 0x8000_0000
    ensures Narrow(lo, m, x) == x && S32(x) == x
  {
    SmallMod(x - lo, m);
  }

  lemma SmallMod(x: nat, m: nat)
    requires x < m
    ensures x % m == x
  {}

  lemma IntRoundTrips(lo: int, m: nat)
    requires m > 0 && -0x8000_0000 <= lo && lo + m <= 0x8000_0000
    ensures RoundTrips(IntCodec(lo, m))
  {
    var c := IntCodec(lo, m);
    forall x, mem: seq<u8>, len: nat, off: nat | c.dom(x) && Holds(mem, len, off, c.put(x))
      ensures c.get(mem, len, off) == Got(Some(x), off + |c.put(x)|)
    {
      NarrowKeeps(lo, m, x);
      IntBack(mem, len, off, x, EncInt(x));
    }
    forall mem: seq<u8>, len: nat, off: nat | Ready(mem, len, off)
      ensures GetInt(mem, len, off).Got? ==> GetInt(mem, len, off).off <= len + 2
    {
      FetchCursor(KInt, mem, len, off);
    }
  }

  lemma IntBounded(lo: int, m: nat)
    requires m > 0
    ensures Bounded(IntCodec(lo, m))
  {
    var c := IntCodec(lo, m);
    forall mem: seq<u8>, len: nat, off: nat | Ready(mem, len, off) && len + 2 <= |mem|
      ensures StaysAt(c, mem, len, off)
    {
      GettersBounded(mem, len, off);
      FetchCursor(KInt, mem, len, off);
    }
  }
}
