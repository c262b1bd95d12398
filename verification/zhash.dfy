/**
 The chained hash table of zcrtlib/zhash.c.
 */
module ZHash {
  import opened Machine
  import opened Wrappers
  import opened Chains
  import opened ChainsFree
  import opened AssocList

  // A data pointer, and the bytes that the callbacks read there
  datatype Data = Data(addr: Ptr, bytes: seq<u8>)

  // The bookkeeping: the nodes of every bucket, where every node is, and all
  // entries, newest first.
  datatype Book = Book(chains: seq<seq<Ptr>>, at: map<Ptr, Place>, log: seq<Data>)

  // The entries of the first n buckets
  ghost function Buckets(log: seq<Data>, key: Data -> u32, size: u32, n: nat): (l: seq<seq<Data>>)
    requires size > 0
    ensures |l| == n && forall c :: 0 <= c < n ==> l[c] == InBucket(log, key, size, c)
  {
    if n == 0 then [] else Buckets(log, key, size, n - 1) + [InBucket(log, key, size, n - 1)]
  }

  ghost function Lists(log: seq<Data>, key: Data -> u32, size: u32): seq<seq<Data>>
    requires size > 0
  {
    Buckets(log, key, size, size)
  }

  ghost predicate Inv(b: Book, m: Store<Data>, index: seq<Ptr>, key: Data -> u32, size: u32)
    requires size > 0
  {
    && |b.chains| == size && b.at.Keys == m.Keys && Placed(b.chains, b.at)
    && HeldNodes(b.at) == {}
    && AllLinked(m, index, b.chains) && AllCarry(m, b.chains, Lists(b.log, key, size))
  }

  // ---- Adding ----

  // The bookkeeping of a new node n in front of its bucket
  lemma PushBook(b: Book, key: Data -> u32, size: u32, x: Data, n: Ptr) returns (b': Book, c: seq<Ptr>)
    requires size > 0 && |b.chains| == size && Placed(b.chains, b.at)
    requires n !in b.at && HeldNodes(b.at) == {}
    ensures var k := Bucket(key, size, x);
            && Inserted(b.chains[k], 0, n, c) && b'.chains == b.chains[k := c] && Placed(b'.chains, b'.at)
            && b'.at.Keys == b.at.Keys + {n} && HeldNodes(b'.at) == {}
            && b'.log == [x] + b.log
  {
    var k := Bucket(key, size, x);
    var at';
    c, at' := MoveIn(b.chains, b.at, k, 0, n);
    b' := Book(b.chains[k := c], at', [x] + b.log);
    forall p | p in at' ensures at'[p].In? {
      assert p == n || p in HeldNodes(b.at) || b.at[p].In?;
    }
  }

  lemma ListsPushed(log: seq<Data>, key: Data -> u32, size: u32, x: Data) returns (l: seq<Data>)
    requires size > 0
    ensures Inserted(Lists(log, key, size)[Bucket(key, size, x)], 0, x, l)
    ensures Lists([x] + log, key, size) == Lists(log, key, size)[Bucket(key, size, x) := l]
  {
    var q := Bucket(key, size, x);
    l := [x] + Lists(log, key, size)[q];
    assert ([x] + log)[1..] == log;
  }

  // nnode->next = index[key]; index[key] = nnode
  lemma PushLinks(m: Store<Data>, index: seq<Ptr>, chains: seq<seq<Ptr>>, at: map<Ptr, Place>, k: nat, n: Ptr,
                  c: seq<Ptr>, x: Data)
    requires Placed(chains, at) && AllLinked(m, index, chains) && k < |chains| && Inserted(chains[k], 0, n, c)
    requires n !in at && n != NULL && n !in m
    ensures AllLinked(Alloc(m, n, x, index[k]), index[k := n], chains[k := c])
  {
    var m' := Alloc(m, n, x, index[k]);
    forall d | 0 <= d < |chains|
      ensures Linked(m', index[d], chains[d])
    {
      LinkedFrame(m, m', index[d], chains[d]);
    }
    assert SetNext(m', n, index[k]) == m';
    LinkedFront(m', index[k], chains[k], n, c);
  }

  lemma PushCarry(m: Store<Data>, chains: seq<seq<Ptr>>, lists: seq<seq<Data>>, k: nat, n: Ptr, c: seq<Ptr>,
                  l: seq<Data>, x: Data, next: Ptr)
    requires AllCarry(m, chains, lists) && k < |lists| && n != NULL && n !in m
    requires Inserted(chains[k], 0, n, c) && Inserted(lists[k], 0, x, l)
    ensures AllCarry(Alloc(m, n, x, next), chains[k := c], lists[k := l])
  {
    var m' := Alloc(m, n, x, next);
    CarryFrame(m, m', chains, lists);
    CarryInserted(m', chains, lists, k, 0, n, c, l);
  }

  lemma Pushed(b: Book, m: Store<Data>, index: seq<Ptr>, key: Data -> u32, size: u32, x: Data, n: Ptr, m': Store<Data>)
      returns (b': Book)
    requires size > 0 && Inv(b, m, index, key, size) && n != NULL && n !in m
    requires m' == Alloc(m, n, x, index[Bucket(key, size, x)])
    ensures Inv(b', m', index[Bucket(key, size, x) := n], key, size) && b'.log == [x] + b.log
  {
    var k, c := Bucket(key, size, x), [];
    b', c := PushBook(b, key, size, x, n);
    PushLinks(m, index, b.chains, b.at, k, n, c, x);
    var l := ListsPushed(b.log, key, size, x);
    PushCarry(m, b.chains, Lists(b.log, key, size), k, n, c, l, x, index[k]);
  }

  // ---- Removing ----

  // The bookkeeping of taking out the first equal entry, node k of bucket q
  ghost predicate DroppedTo(b: Book, m: Store<Data>, eq: Cmp<Data>, key: Data -> u32, size: u32, x: Data,
                                     q: nat, k: nat, b': Book, c: seq<Ptr>)
    requires size > 0 && q < |b.chains|
  {
    && Removed(b.chains[q], k, c) && b'.chains == b.chains[q := c]
    && MovedOut(b.at, q, k, b.chains[q][k], b'.at) && Placed(b'.chains, b'.at)
    && AllCarry(m, b'.chains, Lists(b'.log, key, size))
    && b'.log == Drop(b.log, eq, x)
  }

  lemma Dropped(b: Book, m: Store<Data>, index: seq<Ptr>, eq: Cmp<Data>, key: Data -> u32, size: u32, x: Data, k: nat)
      returns (b': Book, c: seq<Ptr>)
    requires size > 0 && Respects(eq, key, size) && Inv(b, m, index, key, size)
    requires IsFirst(Lists(b.log, key, size)[Bucket(key, size, x)], eq, x, k)
    ensures DroppedTo(b, m, eq, key, size, x, Bucket(key, size, x), k, b', c) && |b'.log| == |b.log| - 1
  {
    var q := Bucket(key, size, x);
    assert Carry(m, b.chains[q], Lists(b.log, key, size)[q]);
    var at';
    c, at' := MoveOut(b.chains, b.at, q, k);
    b' := Book(b.chains[q := c], at', Drop(b.log, eq, x));
    var l := ListsDropped(b.log, eq, key, size, x, k);
    CarryRemoved(m, b.chains, Lists(b.log, key, size), q, k, c, l);
  }

  lemma ListsDropped(log: seq<Data>, eq: Cmp<Data>, key: Data -> u32, size: u32, x: Data, k: nat) returns (l: seq<Data>)
    requires size > 0 && Respects(eq, key, size) && IsFirst(Lists(log, key, size)[Bucket(key, size, x)], eq, x, k)
    ensures Removed(Lists(log, key, size)[Bucket(key, size, x)], k, l) && |Drop(log, eq, x)| == |log| - 1
    ensures Lists(Drop(log, eq, x), key, size) == Lists(log, key, size)[Bucket(key, size, x) := l]
  {
    var was := Lists(log, key, size)[Bucket(key, size, x)];
    FirstIsFound(was, eq, x, k);
    l := RemoveAt(was, k);
    FindInBucket(log, eq, key, size, x);
    DropLength(log, eq, x);
    forall d | 0 <= d < size
      ensures Lists(log, key, size)[Bucket(key, size, x) := l][d] == InBucket(Drop(log, eq, x), key, size, d)
    {
      DropInBucket(log, eq, key, size, x, d);
    }
  }

  ghost predicate SameVals(m: Store<Data>, m': Store<Data>)
  {
    m'.Keys == m.Keys && forall p :: p in m ==> m'[p].val == m[p].val
  }

  lemma OnlyNext(m: Store<Data>, p: Ptr, q: Ptr)
    requires p in m
    ensures SameVals(m, SetNext(m, p, q))
  {}

  lemma NoneHeld(at: map<Ptr, Place>, q: nat, k: nat, n: Ptr, at': map<Ptr, Place>)
    requires HeldNodes(at) == {} && MovedOut(at, q, k, n, at')
    ensures (at' - {n}).Keys == at.Keys - {n} && HeldNodes(at' - {n}) == {}
  {
    forall p | p in at' - {n} ensures (at' - {n})[p].In? {
      assert p in HeldNodes(at) || at[p].In?;
    }
  }

  // The node is out of its chain in m1, and is freed.
  lemma Freed(b: Book, m: Store<Data>, index: seq<Ptr>, eq: Cmp<Data>, key: Data -> u32, size: u32, x: Data,
                       q: nat, k: nat, b1: Book, c: seq<Ptr>, m1: Store<Data>, index1: seq<Ptr>) returns (b': Book)
    requires size > 0 && q < size && Inv(b, m, index, key, size) && DroppedTo(b, m, eq, key, size, x, q, k, b1, c)
    requires SameVals(m, m1)
    requires AllLinked(m1, index1, b.chains[q := c])
    ensures b.chains[q][k] in m && Inv(b', Free(m1, b.chains[q][k]), index1, key, size) && b'.log == b1.log
  {
    var n := b.chains[q][k];
    b' := b1.(at := b1.at - {n});
    NoneHeld(b.at, q, k, n, b1.at);
    HeldFreed(m1, index1, b1.chains, b1.at, n);
    CarryFreed(m, b1.chains, Lists(b1.log, key, size), b1.at, n, m1);
  }

  lemma CarryFreed(m: Store<Data>, chains: seq<seq<Ptr>>, lists: seq<seq<Data>>, at: map<Ptr, Place>, n: Ptr,
                   m1: Store<Data>)
    requires AllCarry(m, chains, lists) && Placed(chains, at) && n in at && at[n] == Held && n in m
    requires SameVals(m, m1)
    ensures AllCarry(Free(m1, n), chains, lists)
  {
    forall c, i | 0 <= c < |lists| && 0 <= i < |chains[c]|
      ensures chains[c][i] in Free(m, n)
    {
      assert at[chains[c][i]] == In(c, i);
      assert Carry(m, chains[c], lists[c]);
    }
    CarryFrame(m, Free(m1, n), chains, lists);
  }

  // index[key] = node->next
  lemma PoppedFront(b: Book, m: Store<Data>, index: seq<Ptr>, eq: Cmp<Data>, key: Data -> u32, size: u32, x: Data,
                    m': Store<Data>, index': seq<Ptr>) returns (b': Book)
    requires size > 0 && Respects(eq, key, size) && Inv(b, m, index, key, size)
    requires IsFirst(Lists(b.log, key, size)[Bucket(key, size, x)], eq, x, 0)
    requires index[Bucket(key, size, x)] in m && m' == Free(m, index[Bucket(key, size, x)])
    requires index' == index[Bucket(key, size, x) := m[index[Bucket(key, size, x)]].next]
    ensures Inv(b', m', index', key, size) && b'.log == Drop(b.log, eq, x) && |b'.log| == |b.log| - 1
  {
    var q, c, b1 := Bucket(key, size, x), [], b;
    b1, c := Dropped(b, m, index, eq, key, size, x, 0);
    TakeFront(m, index, b.chains, b.at, q, c);
    b' := Freed(b, m, index, eq, key, size, x, q, 0, b1, c, m, index');
  }

  // prev->next = node->next
  lemma PoppedBehind(b: Book, m: Store<Data>, index: seq<Ptr>, eq: Cmp<Data>, key: Data -> u32, size: u32, x: Data,
                     k: nat, prev: Ptr, node: Ptr, m': Store<Data>) returns (b': Book)
    requires size > 0 && Respects(eq, key, size) && Inv(b, m, index, key, size)
    requires 0 < k < |b.chains[Bucket(key, size, x)]|
             && IsFirst(Lists(b.log, key, size)[Bucket(key, size, x)], eq, x, k)
    requires prev == b.chains[Bucket(key, size, x)][k - 1] && node == b.chains[Bucket(key, size, x)][k]
    requires prev in m && node in m && m' == Free(SetNext(m, prev, m[node].next), node)
    ensures Inv(b', m', index, key, size) && b'.log == Drop(b.log, eq, x) && |b'.log| == |b.log| - 1
  {
    var q, c, b1 := Bucket(key, size, x), [], b;
    b1, c := Dropped(b, m, index, eq, key, size, x, k);
    TakeBehind(m, index, b.chains, b.at, q, k, c);
    OnlyNext(m, prev, m[node].next);
    b' := Freed(b, m, index, eq, key, size, x, q, k, b1, c, SetNext(m, prev, m[node].next), index);
  }

  // count++ and count--; both wrap.
  function Inc(x: u32): u32 { if x == 0xFFFF_FFFF then 0 else x + 1 }
  function Dec(x: u32): u32 { if x == 0 then 0xFFFF_FFFF else x - 1 }

  // The counter after n increments
  ghost function Counted(n: nat): u32
  {
    if n == 0 then 0 else Inc(Counted(n - 1))
  }

  lemma {:induction false} CountedIs(n: nat)
    ensures Counted(n) == n % 0x1_0000_0000
  {
    if n > 0 { CountedIs(n - 1); }
  }

  lemma CountUp(count: u32, log: seq<Data>, log': seq<Data>)
    requires count == Counted(|log|) && |log'| == |log| + 1
    ensures Inc(count) == Counted(|log'|)
  {}

  lemma CountDown(count: u32, log: seq<Data>, log': seq<Data>)
    requires count == Counted(|log|) && |log'| == |log| - 1
    ensures Dec(count) == Counted(|log'|)
  {}

  // ---- Enumerating ----

  ghost function Flat(lists: seq<seq<Data>>): seq<Data>
  {
    if lists == [] then [] else Flat(lists[..|lists| - 1]) + lists[|lists| - 1]
  }

  lemma FlatOneMore(lists: seq<seq<Data>>, i: nat)
    requires i < |lists|
    ensures Flat(lists[..i + 1]) == Flat(lists[..i]) + lists[i]
  {
    assert lists[..i + 1][..i] == lists[..i];
  }

  ghost function Count(s: seq<Data>, y: Data): nat { multiset(s)[y] }

  lemma CountConcat(s: seq<Data>, t: seq<Data>, y: Data)
    ensures Count(s + t, y) == Count(s, y) + Count(t, y)
  {}

  // How often y is in the first n buckets
  ghost function CountUpTo(log: seq<Data>, key: Data -> u32, size: u32, n: nat, y: Data): nat
    requires size > 0
  {
    if n == 0 then 0 else CountUpTo(log, key, size, n - 1, y) + Count(InBucket(log, key, size, n - 1), y)
  }

  // An added entry is one more in the buckets up to n if its own is among them.
  lemma {:induction false} CountPushed(log: seq<Data>, key: Data -> u32, size: u32, x: Data, n: nat, y: Data)
    requires size > 0
    ensures CountUpTo([x] + log, key, size, n, y)
            == CountUpTo(log, key, size, n, y) + if y == x && Bucket(key, size, x) < n then 1 else 0
  {
    if n > 0 {
      CountPushed(log, key, size, x, n - 1, y);
      BucketPushed(log, key, size, x, n - 1, y);
    }
  }

  lemma BucketPushed(log: seq<Data>, key: Data -> u32, size: u32, x: Data, b: nat, y: Data)
    requires size > 0
    ensures Count(InBucket([x] + log, key, size, b), y)
            == Count(InBucket(log, key, size, b), y) + if y == x && Bucket(key, size, x) == b then 1 else 0
  {
    assert ([x] + log)[1..] == log;
    CountConcat([x], InBucket(log, key, size, b), y);
  }

  lemma {:induction false} CountFlat(log: seq<Data>, key: Data -> u32, size: u32, n: nat, y: Data)
    requires size > 0
    ensures CountInFlat(log, key, size, n, y) == CountUpTo(log, key, size, n, y)
  {
    if n > 0 {
      CountFlat(log, key, size, n - 1, y);
      CountLast(log, key, size, n, y);
    }
  }

  ghost function CountInFlat(log: seq<Data>, key: Data -> u32, size: u32, n: nat, y: Data): nat
    requires size > 0
  {
    Count(Flat(Buckets(log, key, size, n)), y)
  }

  lemma CountLast(log: seq<Data>, key: Data -> u32, size: u32, n: nat, y: Data)
    requires size > 0 && n > 0
    ensures CountInFlat(log, key, size, n, y) ==
              CountInFlat(log, key, size, n - 1, y) + Count(InBucket(log, key, size, n - 1), y)
  {
    FlatLast(log, key, size, n);
    CountConcat(Flat(Buckets(log, key, size, n - 1)), InBucket(log, key, size, n - 1), y);
  }

  lemma FlatLast(log: seq<Data>, key: Data -> u32, size: u32, n: nat)
    requires size > 0 && n > 0
    ensures Flat(Buckets(log, key, size, n)) == Flat(Buckets(log, key, size, n - 1)) + InBucket(log, key, size, n - 1)
  {
    var l := Buckets(log, key, size, n);
    assert l[..|l| - 1] == Buckets(log, key, size, n - 1);
  }

  lemma {:induction false} AllCounted(log: seq<Data>, key: Data -> u32, size: u32, y: Data)
    requires size > 0
    ensures CountUpTo(log, key, size, size, y) == Count(log, y)
  {
    if log == [] {
      NoneCounted(log, key, size, size, y);
    } else {
      AllCounted(log[1..], key, size, y);
      assert log == [log[0]] + log[1..];
      CountPushed(log[1..], key, size, log[0], size, y);
      CountConcat([log[0]], log[1..], y);
    }
  }

  lemma {:induction false} NoneCounted(log: seq<Data>, key: Data -> u32, size: u32, n: nat, y: Data)
    requires size > 0 && log == []
    ensures CountUpTo(log, key, size, n, y) == 0
  {
    if n > 0 { NoneCounted(log, key, size, n - 1, y); }
  }

  // Every entry is enumerated, as often as it is there.
  lemma FlatIsLog(log: seq<Data>, key: Data -> u32, size: u32)
    requires size > 0
    ensures multiset(Flat(Lists(log, key, size))) == multiset(log)
  {
    forall y ensures multiset(Flat(Lists(log, key, size)))[y] == multiset(log)[y] {
      CountFlat(log, key, size, size, y);
      AllCounted(log, key, size, y);
    }
  }

  // ---- The code ----

  class Hash {
    const size: u32
    const key: Data -> u32
    const eq: Cmp<Data>
    var count: u32
    const index: array<Ptr>
    var store: Store<Data>
    ghost var book: Book

    ghost predicate Valid()
      reads this, index
    {
      && size > 0 && index.Length == size
      && Inv(book, store, index[..], key, size)
      && count == Counted(|book.log|)
    }

    // zcrt_hash_new
    constructor (size: u32, key: Data -> u32, eq: Cmp<Data>)
      requires size > 0
      ensures Valid() && fresh(index) && book.log == [] && this.size == size && this.key == key && this.eq == eq
    {
      this.size, this.key, this.eq, count := size, key, eq, 0;
      index := new Ptr[size](_ => NULL);
      store := map[];
      book := Book(seq(size, _ => []), map[], []);
    }

    // The loops of lookup and remove: along a chain to the first equal entry
    method FirstEqual(head: Ptr, x: Data, ghost c: seq<Ptr>, ghost l: seq<Data>)
      returns (node: Ptr, prev: Ptr, ghost k: nat)
      requires Linked(store, head, c) && Carry(store, c, l)
      ensures node == NULL ==> forall i :: 0 <= i < |l| ==> !eq(l[i], x)
      ensures node != NULL ==>
                && IsFirst(l, eq, x, k) && node == c[k] && node in store
                && (k > 0 ==> prev == c[k - 1] && prev in store)
    {
      node, prev, k := head, NULL, 0;
      while node != NULL && !eq(store[node].val, x)
        invariant k <= |c| && node == After(c, k - 1) && (k > 0 ==> prev == c[k - 1])
        invariant forall i :: 0 <= i < k ==> !eq(l[i], x)
        decreases |c| - k
      {
        prev := node;
        node := store[node].next;
        k := k + 1;
      }
    }

    lemma BucketShape(q: nat)
      requires Valid() && q < size
      ensures |book.chains| == |Lists(book.log, key, size)| == size && Linked(store, index[q], book.chains[q])
      ensures Carry(store, book.chains[q], Lists(book.log, key, size)[q]) && Distinct(book.chains[q])
    {
      assert index[..][q] == index[q];
      ChainIsDistinct(book.chains, book.at, q);
    }

    // zcrt_hash_lookup
    method Lookup(x: Data) returns (r: Option<Data>)
      requires Valid()
      ensures r == Find(book.log, Same(), x)
      ensures Respects(eq, key, size) ==> r == Find(book.log, eq, x)
      ensures r.Some? ==> r.value in book.log && eq(r.value, x) && key(r.value) % size == key(x) % size
      ensures r.None? ==> forall y :: y in book.log && key(y) % size == key(x) % size ==> !eq(y, x)
    {
      FoundIsSame(book.log, x);
      BucketShape(Bucket(key, size, x));
      ghost var c, l := SearchIn(x);
      var node, _, k := FirstEqual(index[Bucket(key, size, x)], x, c, l);
      if node == NULL {
        NotFound(l, Same(), x);
        return None;
      }
      FirstIsFound(l, Same(), x, k);
      return Some(store[node].val);
    }

    // What is found is equal and in the same bucket, and so is nothing otherwise.
    lemma {:induction false} FoundIsSame(l: seq<Data>, x: Data)
      requires size > 0
      ensures match Find(l, Same(), x)
              case Some(y) => y in l && eq(y, x) && key(y) % size == key(x) % size
              case None => forall y :: y in l && key(y) % size == key(x) % size ==> !eq(y, x)
    {
      if l != [] {
        FoundIsSame(l[1..], x);
        assert l == [l[0]] + l[1..];
      }
    }

    ghost function Same(): Cmp<Data>
      requires size > 0
    {
      Within(eq, key, size)
    }

    // What a search for x runs along, and that it is enough
    lemma SearchIn(x: Data) returns (c: seq<Ptr>, l: seq<Data>)
      requires Valid()
      ensures |book.chains| == size && c == book.chains[Bucket(key, size, x)]
      ensures l == Lists(book.log, key, size)[Bucket(key, size, x)]
      ensures Respects(Same(), key, size) && Find(l, Same(), x) == Find(book.log, Same(), x)
      ensures forall k: nat :: IsFirst(l, eq, x, k) ==> IsFirst(l, Same(), x, k)
      ensures (forall i :: 0 <= i < |l| ==> !eq(l[i], x)) ==> forall i :: 0 <= i < |l| ==> !Same()(l[i], x)
      ensures Respects(eq, key, size) ==> Find(book.log, Same(), x) == Find(book.log, eq, x)
      ensures Respects(eq, key, size) ==> Drop(book.log, Same(), x) == Drop(book.log, eq, x)
    {
      c, l := book.chains[Bucket(key, size, x)], Lists(book.log, key, size)[Bucket(key, size, x)];
      WithinRespects(eq, key, size);
      FindInBucket(book.log, Same(), key, size, x);
      FirstWithin(book.log, eq, key, size, x, l);
      if Respects(eq, key, size) {
        WithinIsSame(book.log, eq, key, size, x);
      }
    }

    // index[q] = p
    method SetHead(q: nat, p: Ptr)
      requires q < index.Length
      modifies index
      ensures index[..] == old(index[..])[q := p]
    {
      index[q] := p;
    }

    // nnode->next = index[key]; index[key] = nnode; count++
    method Push(q: nat, nnode: Ptr, x: Data, ghost b': Book)
      requires Valid() && q < index.Length && nnode != NULL && nnode !in store && |b'.log| == |book.log| + 1
      requires Inv(b', Alloc(store, nnode, x, index[q]), index[..][q := nnode], key, size)
      modifies this`count, this`store, this`book, index
      ensures Valid() && book == b' && store == Alloc(old(store), nnode, x, old(index[q]))
    {
      CountUp(count, book.log, b'.log);
      count := Inc(count);
      store := Alloc(store, nnode, x, index[q]);
      SetHead(q, nnode);
      book := b';
    }

    // zcrt_hash_add
    method Add(x: Data) returns (nnode: Ptr)
      requires Valid()
      modifies this`count, this`store, this`book, index
      ensures Valid() && book.log == [x] + old(book.log)
      ensures nnode !in old(store) && nnode in store
    {
      var q := Bucket(key, size, x);
      FreshPtr(store);
      nnode :| nnode != NULL && nnode !in store;
      ghost var b' := Pushed(book, store, index[..], key, size, x, nnode, Alloc(store, nnode, x, index[q]));
      Push(q, nnode, x, b');
    }

    // index[key] = node->next
    method PopFront(q: nat, node: Ptr, ghost b': Book)
      requires Valid() && q < index.Length && node in store && |b'.log| == |book.log| - 1
      requires Inv(b', Free(store, node), index[..][q := store[node].next], key, size)
      modifies this`count, this`store, this`book, index
      ensures Valid() && book == b'
    {
      CountDown(count, book.log, b'.log);
      count := Dec(count);
      SetHead(q, store[node].next);
      store := Free(store, node);
      book := b';
    }

    // prev->next = node->next
    method PopBehind(prev: Ptr, node: Ptr, ghost b': Book)
      requires Valid() && prev in store && node in store && |b'.log| == |book.log| - 1
      requires Inv(b', Free(SetNext(store, prev, store[node].next), node), index[..], key, size)
      modifies this`count, this`store, this`book
      ensures Valid() && book == b'
    {
      CountDown(count, book.log, b'.log);
      count := Dec(count);
      store := Free(SetNext(store, prev, store[node].next), node);
      book := b';
    }

    // zcrt_hash_enumerate: what the callback is called on
    method Enumerate() returns (visited: seq<Data>)
      requires Valid()
      ensures visited == Flat(Lists(book.log, key, size)) && multiset(visited) == multiset(book.log)
    {
      visited := [];
      ghost var lists := Lists(book.log, key, size);
      for i := 0 to size
        invariant visited == Flat(lists[..i])
      {
        BucketShape(i);
        FlatOneMore(lists, i);
        var d := EnumerateBucket(index[i], book.chains[i], lists[i]);
        visited := visited + d;
      }
      assert lists[..size] == lists;
      FlatIsLog(book.log, key, size);
    }

    method EnumerateBucket(head: Ptr, ghost c: seq<Ptr>, ghost l: seq<Data>) returns (visited: seq<Data>)
      requires Linked(store, head, c) && Carry(store, c, l)
      ensures visited == l
    {
      visited := [];
      var node := head;
      while node != NULL
        invariant |visited| <= |c| && node == After(c, |visited| - 1)
        invariant visited == l[..|visited|]
        decreases |c| - |visited|
      {
        visited := visited + [store[node].val];
        node := store[node].next;
      }
    }

    // zcrt_hash_delete, as far as the nodes go: every node is freed, none twice
    method Delete() returns (freed: seq<Ptr>)
      requires Valid()
      modifies this`store
      ensures store == map[] && Distinct(freed) && forall n :: n in freed <==> n in old(store)
    {
      store, freed := FreeNodes(store, index[..], book);
    }

    method FreeNodes(m0: Store<Data>, heads: seq<Ptr>, ghost b: Book) returns (m: Store<Data>, freed: seq<Ptr>)
      requires size > 0 && Inv(b, m0, heads, key, size)
      ensures m == map[] && Distinct(freed) && forall n :: n in freed <==> n in m0
    {
      m, freed := m0, [];
      for i := 0 to size
        invariant FreedBefore(b.at, m0, m, freed, i, 0)
      {
        m, freed := FreeChain(m, heads[i], freed, b.chains, b.at, m0, heads, i);
      }
      AllFreed(b.chains, b.at, m0, m, freed);
    }

    // zcrt_hash_remove
    method Remove(x: Data)
      requires Valid()
      modifies this`count, this`store, this`book, index
      ensures Valid() && book.log == Drop(old(book.log), Same(), x)
      ensures Respects(eq, key, size) ==> book.log == Drop(old(book.log), eq, x)
      ensures Find(old(book.log), Same(), x).None? ==> unchanged(this) && unchanged(index)
    {
      var q := Bucket(key, size, x);
      BucketShape(q);
      ghost var c, l := SearchIn(x);
      DropLength(book.log, Same(), x);
      var head := index[q];
      // the code tests the head first, and then walks from it
      var node, prev, k := FirstEqual(head, x, c, l);
      if node == NULL {
        NotFound(l, Same(), x);
        return;
      }
      FirstIsFound(l, Same(), x, k);
      ghost var b';
      if node == head {
        ghost var index' := index[..][q := store[node].next];
        b' := PoppedFront(book, store, index[..], Same(), key, size, x, Free(store, node), index');
        PopFront(q, node, b');
      } else {
        ghost var m' := Free(SetNext(store, prev, store[node].next), node);
        b' := PoppedBehind(book, store, index[..], Same(), key, size, x, k, prev, node, m');
        PopBehind(prev, node, b');
      }
    }
  }

  // ---- The guards of the C functions: a null table, or data that is NULL ----

  method HashNew(size: u32, key: Option<Data -> u32>, eq: Option<Cmp<Data>>) returns (ht: Hash?)
    requires size > 0
    ensures ht == null <==> key.None? || eq.None?
    ensures ht != null ==> fresh(ht) && fresh(ht.index) && ht.Valid() && ht.book.log == []
    ensures ht != null ==> ht.size == size && ht.key == key.value && ht.eq == eq.value
  {
    if key.None? || eq.None? {
      return null;
    }
    ht := new Hash(size, key.value, eq.value);
  }

  method HashAdd(ht: Hash?, data: Option<Data>) returns (node: Ptr)
    requires ht != null ==> ht.Valid()
    modifies ht, if ht != null then {ht.index} else {}
    ensures ht != null ==> ht.Valid()
    ensures ht != null ==> ht.book.log == if data.None? then old(ht.book.log) else [data.value] + old(ht.book.log)
    ensures node == NULL <==> ht == null || data.None?
  {
    if ht == null || data.None? {
      return NULL;
    }
    node := ht.Add(data.value);
  }

  method HashRemove(ht: Hash?, data: Option<Data>)
    requires ht != null ==> ht.Valid()
    modifies ht, if ht != null then {ht.index} else {}
    ensures ht != null ==> ht.Valid()
    ensures ht != null ==>
              ht.book.log == if data.None? then old(ht.book.log) else Drop(old(ht.book.log), ht.Same(), data.value)
  {
    if ht != null && data.Some? {
      ht.Remove(data.value);
    }
  }

  method HashLookup(ht: Hash?, data: Option<Data>) returns (r: Option<Data>)
    requires ht != null ==> ht.Valid()
    ensures r == if ht == null || data.None? then None else Find(ht.book.log, ht.Same(), data.value)
  {
    if ht == null || data.None? {
      return None;
    }
    r := ht.Lookup(data.value);
  }
}
