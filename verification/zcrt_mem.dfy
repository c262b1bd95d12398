/**
 The allocator of the kernel build, zcrtlib/zcrt_mem_kernal.c, with its list of
 records. kmalloc may fail whenever it is called, and chooses addresses and
 contents as it likes; but for size 0, where it has one address for everybody.
 */
module ZcrtMem {
  import opened Machine
  import opened Chains

  // memblock_t
  datatype Rec = Rec(ptr: Ptr, size: nat)

  const MEMBLOCK_SIZE: nat := 32

  // memmove(nbuf, ptr, m->size), which must stay inside the new block
  function MemMove(nbuf: seq<u8>, bytes: seq<u8>): (r: seq<u8>)
    requires |bytes| <= |nbuf|
    ensures |r| == |nbuf| && bytes <= r
  {
    bytes + nbuf[|bytes|..]
  }

  // list_del
  lemma ListDel(s: seq<Ptr>, k: nat, s': seq<Ptr>)
    requires Distinct(s) && k < |s| && s' == s[..k] + s[k + 1..]
    ensures Distinct(s') && forall x :: x in s' <==> x in s && x != s[k]
  {
    forall x | x in s && x != s[k] ensures x in s' {
      var j :| 0 <= j < |s| && s[j] == x;
      assert x == if j < k then s'[j] else s'[j - 1];
    }
  }

  // The records of pointer p
  ghost function RecsOf(recs: map<Ptr, Rec>, p: Ptr): set<Ptr>
  {
    set r | r in recs && recs[r].ptr == p
  }

  lemma OneMoreRec(recs: map<Ptr, Rec>, m: Ptr, rec: Rec, p: Ptr)
    requires m !in recs
    ensures |RecsOf(recs[m := rec], p)| == |RecsOf(recs, p)| + if rec.ptr == p then 1 else 0
  {
    var now := RecsOf(recs[m := rec], p);
    assert now == if rec.ptr == p then RecsOf(recs, p) + {m} else RecsOf(recs, p);
  }

  lemma OneLessRec(recs: map<Ptr, Rec>, m: Ptr, p: Ptr)
    requires m in recs
    ensures |RecsOf(recs - {m}, p)| == |RecsOf(recs, p)| - if recs[m].ptr == p then 1 else 0
  {
    var now := RecsOf(recs - {m}, p);
    assert RecsOf(recs, p) == if recs[m].ptr == p then now + {m} else now;
  }

  // One record, of the right size, for each block but pending; the other records
  // are of size 0 and share one pointer.
  ghost predicate Inv(zero: Ptr, heap: map<Ptr, seq<u8>>, recs: map<Ptr, Rec>, memblocks: seq<Ptr>,
                      recOf: map<Ptr, Ptr>, pending: set<Ptr>)
  {
    && zero != NULL && zero !in heap && zero !in recs
    && NULL !in heap && NULL !in recs && heap.Keys !! recs.Keys
    && Distinct(memblocks) && (forall r :: r in memblocks <==> r in recs)
    && recOf.Keys == heap.Keys - pending && pending <= heap.Keys
    && (forall p :: p in heap ==> heap[p] != [])
    && (forall p :: p in recOf ==> recOf[p] in recs && recs[recOf[p]] == Rec(p, |heap[p]|))
    && (forall r :: r in recs ==>
          if recs[r].ptr == zero then recs[r].size == 0 else recs[r].ptr in recOf && recOf[recs[r].ptr] == r)
  }

  lemma RecAdded(zero: Ptr, heap: map<Ptr, seq<u8>>, recs: map<Ptr, Rec>, memblocks: seq<Ptr>,
                 recOf: map<Ptr, Ptr>, pending: set<Ptr>, n: Ptr, rec: Rec)
    requires Inv(zero, heap, recs, memblocks, recOf, pending)
    requires n != NULL && n != zero && n !in heap && n !in recs
    requires if rec.ptr == zero then rec.size == 0 else rec.ptr in pending && rec.size == |heap[rec.ptr]|
    ensures Inv(zero, heap, recs[n := rec], [n] + memblocks, if rec.ptr == zero then recOf else recOf[rec.ptr := n],
                pending - {rec.ptr})
  {
    assert n !in memblocks;
  }

  lemma RecDropped(zero: Ptr, heap: map<Ptr, seq<u8>>, recs: map<Ptr, Rec>, memblocks: seq<Ptr>,
                   recOf: map<Ptr, Ptr>, m: Ptr, rest: seq<Ptr>)
    requires Inv(zero, heap, recs, memblocks, recOf, {}) && m in recs
    requires Distinct(rest) && forall x :: x in rest <==> x in memblocks && x != m
    ensures Inv(zero, heap, recs - {m}, rest, recOf - {recs[m].ptr}, if recs[m].ptr == zero then {} else {recs[m].ptr})
  {
    var ptr := recs[m].ptr;
    var recOf' := recOf - {ptr};
    assert recOf'.Keys == heap.Keys - if ptr == zero then {} else {ptr};
    forall p | p in recOf' ensures recOf'[p] in recs - {m} {
      assert recs[recOf[p]].ptr == p;
    }
  }

  lemma BlockAdded(zero: Ptr, heap: map<Ptr, seq<u8>>, recs: map<Ptr, Rec>, memblocks: seq<Ptr>,
                   recOf: map<Ptr, Ptr>, p: Ptr, bytes: seq<u8>)
    requires Inv(zero, heap, recs, memblocks, recOf, {})
    requires p != NULL && p != zero && p !in heap && p !in recs && bytes != []
    ensures Inv(zero, heap[p := bytes], recs, memblocks, recOf, {p})
  {
  }

  lemma TakenBack(heap: map<Ptr, seq<u8>>, p: Ptr, bytes: seq<u8>)
    requires p !in heap
    ensures heap[p := bytes] - {p} == heap && heap - {p} == heap
  {
  }

  lemma BlockFreed(zero: Ptr, heap: map<Ptr, seq<u8>>, recs: map<Ptr, Rec>, memblocks: seq<Ptr>,
                   recOf: map<Ptr, Ptr>, p: Ptr)
    requires Inv(zero, heap, recs, memblocks, recOf, {p})
    ensures Inv(zero, heap - {p}, recs, memblocks, recOf, {})
  {
  }

  class Ledger {
    const zero: Ptr                 // what kmalloc returns for size 0
    var heap: map<Ptr, seq<u8>>     // the blocks given out, with their contents
    var recs: map<Ptr, Rec>         // the records, which are allocated too
    var memblocks: seq<Ptr>         // memblock_list
    ghost var recOf: map<Ptr, Ptr>  // which record is that of a block

    ghost predicate ValidBut(pending: set<Ptr>)
      reads this
    {
      Inv(zero, heap, recs, memblocks, recOf, pending)
    }

    ghost predicate Valid()
      reads this
    {
      ValidBut({})
    }

    // How many allocations of size 0 have not been freed
    ghost function Zeros(): nat
      reads this
    {
      |RecsOf(recs, zero)|
    }

    constructor (zero: Ptr)
      requires zero != NULL
      ensures Valid() && heap == map[] && Zeros() == 0 && this.zero == zero
    {
      this.zero := zero;
      heap, recs, memblocks, recOf := map[], map[], [], map[];
    }

    // kmalloc; gives says whether it succeeds this time.
    method Kmalloc(size: nat, gives: bool) returns (p: Ptr, bytes: seq<u8>)
      requires zero != NULL
      ensures p != NULL <==> gives
      ensures p != NULL && size == 0 ==> p == zero && bytes == []
      ensures p != NULL && size > 0 ==> p != zero && p !in heap && p !in recs && |bytes| == size
    {
      if !gives {
        return NULL, [];
      }
      if size == 0 {
        return zero, [];
      }
      p :| p != NULL && p != zero && p !in heap && p !in recs by {
        ghost var m := MaxPtr(heap.Keys + recs.Keys + {zero});
        assert m + 1 !in heap.Keys + recs.Keys + {zero};
      }
      bytes :| |bytes| == size by {
        assert |seq(size, _ => 0 as u8)| == size;
      }
    }

    // kfree, which does nothing for the pointer of size 0
    method Kfree(p: Ptr)
      requires ValidBut(if p == zero then {} else {p})
      modifies this`heap
      ensures Valid() && heap == old(heap) - {p}
    {
      if p != zero {
        BlockFreed(zero, heap, recs, memblocks, recOf, p);
        heap := heap - {p};
      } else {
        assert heap - {p} == heap;
      }
    }

    method MemblockAdd(ptr: Ptr, size: nat, gives: bool, ghost pending: set<Ptr>) returns (ok: bool, ghost m: Ptr)
      requires ValidBut(pending) && if ptr == zero then size == 0 else ptr in pending && size == |heap[ptr]|
      modifies this`recs, this`memblocks, this`recOf
      ensures ok == gives
      ensures ok ==> ValidBut(pending - {ptr}) && m !in old(recs) && recs == old(recs)[m := Rec(ptr, size)]
      ensures !ok ==> unchanged(this)
    {
      var n, _ := Kmalloc(MEMBLOCK_SIZE, gives);
      m := n;
      if n == NULL {
        return false, m;
      }
      RecAdded(zero, heap, recs, memblocks, recOf, pending, n, Rec(ptr, size));
      recs := recs[n := Rec(ptr, size)];
      memblocks := [n] + memblocks;
      if ptr != zero {
        recOf := recOf[ptr := n];
      }
      return true, m;
    }

    method MemblockDel(m: Ptr)
      requires Valid() && m in recs
      modifies this`recs, this`memblocks, this`recOf
      ensures ValidBut(if old(recs)[m].ptr == zero then {} else {old(recs)[m].ptr}) && recs == old(recs) - {m}
    {
      var k :| 0 <= k < |memblocks| && memblocks[k] == m;
      ListDel(memblocks, k, memblocks[..k] + memblocks[k + 1..]);
      var rest := memblocks[..k] + memblocks[k + 1..];
      RecDropped(zero, heap, recs, memblocks, recOf, m, rest);
      recOf := recOf - {recs[m].ptr};
      memblocks := rest;
      recs := recs - {m};
    }

    method MemblockGet(ptr: Ptr) returns (m: Ptr)
      requires Valid()
      ensures m == NULL <==> RecsOf(recs, ptr) == {}
      ensures m != NULL ==> m in recs && recs[m].ptr == ptr
    {
      for i := 0 to |memblocks|
        invariant forall j :: 0 <= j < i ==> recs[memblocks[j]].ptr != ptr
      {
        if recs[memblocks[i]].ptr == ptr {
          m := memblocks[i];
          assert m in RecsOf(recs, ptr);
          return;
        }
      }
      m := NULL;
      forall r | r in recs ensures recs[r].ptr != ptr {
        assert r in memblocks;
      }
    }

    // What the records say of a pointer
    lemma Known(ptr: Ptr)
      requires Valid()
      ensures ptr in heap <==> ptr != zero && RecsOf(recs, ptr) != {}
      ensures forall r :: r in RecsOf(recs, ptr) ==> recs[r].size == if ptr in heap then |heap[ptr]| else 0
      ensures ptr == zero ==> (RecsOf(recs, ptr) == {} <==> Zeros() == 0)
    {
      if ptr in heap {
        assert recOf[ptr] in RecsOf(recs, ptr);
      }
    }

    // A block and its record. The block goes back if there is no record for it.
    method Record(ptr: Ptr, bytes: seq<u8>, gives: bool) returns (ok: bool)
      requires Valid()
      requires if ptr == zero then bytes == [] else bytes != [] && ptr != NULL && ptr !in heap && ptr !in recs
      modifies this
      ensures Valid() && ok == gives
      ensures ok ==> heap == if ptr == zero then old(heap) else old(heap)[ptr := bytes]
      ensures ok ==> Zeros() == old(Zeros()) + if ptr == zero then 1 else 0
      ensures ok ==> forall r :: r in old(recs) ==> r in recs && recs[r] == old(recs)[r]
      ensures !ok ==> unchanged(this)
    {
      ghost var was, held, pending := recs, heap, if ptr == zero then {} else {ptr};
      assert pending - {ptr} == {};
      if ptr != zero {
        BlockAdded(zero, heap, recs, memblocks, recOf, ptr, bytes);
        heap := heap[ptr := bytes];
      }
      ghost var m;
      ok, m := MemblockAdd(ptr, |bytes|, gives, pending);
      if ok {
        OneMoreRec(was, m, Rec(ptr, |bytes|), zero);
      } else {
        TakenBack(held, ptr, bytes);
        Kfree(ptr);
      }
    }

    // zcrt_malloc; block and record say whether kmalloc succeeds for each.
    method Malloc(size: nat, block: bool, record: bool) returns (ptr: Ptr)
      requires Valid()
      modifies this
      ensures Valid() && (ptr != NULL <==> block && record)
      ensures ptr == NULL ==> unchanged(this)
      ensures ptr != NULL && size > 0 ==>
                && ptr !in old(heap) && ptr != zero && ptr in heap && |heap[ptr]| == size
                && heap == old(heap)[ptr := heap[ptr]] && Zeros() == old(Zeros())
      ensures ptr != NULL && size == 0 ==> ptr == zero && heap == old(heap) && Zeros() == old(Zeros()) + 1
    {
      var bytes;
      ptr, bytes := Kmalloc(size, block);
      if ptr == NULL {
        return;
      }
      var ok := Record(ptr, bytes, record);
      if !ok {
        return NULL;
      }
    }

    // zcrt_free
    method ZcrtFree(ptr: Ptr)
      requires Valid()
      modifies this
      ensures Valid() && heap == old(heap) - {ptr}
      ensures Zeros() == if ptr == zero && old(Zeros()) > 0 then old(Zeros()) - 1 else old(Zeros())
      ensures ptr !in old(heap) && !(ptr == zero && old(Zeros()) > 0) ==> unchanged(this)
    {
      if ptr == NULL {
        return;
      }
      Known(ptr);
      var m := MemblockGet(ptr);
      if m == NULL {
        assert heap - {ptr} == heap;
        return;
      }
      Drop(m);
    }

    // Both deletions at the end of zcrt_free and zcrt_realloc
    method Drop(m: Ptr)
      requires Valid() && m in recs
      modifies this
      ensures Valid() && heap == old(heap) - {old(recs)[m].ptr}
      ensures Zeros() == old(Zeros()) - if old(recs)[m].ptr == zero then 1 else 0
    {
      var ptr := recs[m].ptr;
      OneLessRec(recs, m, zero);
      MemblockDel(m);
      Kfree(ptr);
    }

    // What is at a pointer that has a record
    ghost function Bytes(ptr: Ptr): seq<u8>
      reads this
    {
      if ptr in heap then heap[ptr] else []
    }

    // zcrt_realloc of a pointer that is recorded; a block may be asked to grow,
    // or be given back with size 0.
    method Realloc(ptr: Ptr, size: nat, block: bool, record: bool) returns (nbuf: Ptr)
      requires Valid() && (ptr in heap && size != 0 ==> |heap[ptr]| <= size)
      modifies this
      ensures Valid()
      ensures ptr in old(heap) && size == 0 ==>
                nbuf == NULL && heap == old(heap) - {ptr} && Zeros() == old(Zeros())
      ensures ptr in old(heap) && size == |old(heap)[ptr]| ==> nbuf == ptr
      ensures ptr == zero && old(Zeros()) > 0 && size == 0 ==> nbuf == ptr
      ensures nbuf == ptr ==> unchanged(this)
      ensures nbuf == ptr && ptr != NULL ==> size == |old(Bytes(ptr))|
      ensures (ptr == NULL || ptr in old(heap) || (ptr == zero && old(Zeros()) > 0)) && size > 0
              && (ptr != NULL ==> size != |old(Bytes(ptr))|) ==>
                (nbuf != NULL <==> block && record)
      ensures ptr != NULL && ptr !in old(heap) && !(ptr == zero && old(Zeros()) > 0) ==> nbuf == NULL
      ensures nbuf == NULL && !(ptr in old(heap) && size == 0) ==> unchanged(this)
      ensures nbuf != NULL && nbuf != ptr ==>
                && nbuf !in old(heap) && nbuf != zero && nbuf in heap && |heap[nbuf]| == size
                && heap == old(heap)[nbuf := heap[nbuf]] - {ptr}
                && (ptr in old(heap) ==> old(heap)[ptr] <= heap[nbuf])
                && Zeros() == old(Zeros()) - if ptr == zero then 1 else 0
    {
      if ptr == NULL {
        if size == 0 {
          return NULL;
        }
        nbuf := Malloc(size, block, record);
        return;
      }
      Known(ptr);
      var m := MemblockGet(ptr);
      if m == NULL {
        return NULL;
      }
      assert m in RecsOf(recs, ptr);
      if size == recs[m].size {
        return ptr;
      }
      if size == 0 {
        Drop(m);
        return NULL;
      }
      nbuf := Move(ptr, m, size, block, record);
    }

    // A new block with the old contents; the old block goes.
    method Move(ptr: Ptr, m: Ptr, size: nat, block: bool, record: bool) returns (nbuf: Ptr)
      requires Valid() && m in recs && recs[m] == Rec(ptr, |Bytes(ptr)|) && |Bytes(ptr)| <= size && size > 0
      modifies this
      ensures Valid() && (nbuf != NULL ==> nbuf != ptr) && (nbuf != NULL <==> block && record)
      ensures nbuf == NULL ==> unchanged(this)
      ensures nbuf != NULL ==>
                && nbuf !in old(heap) && nbuf != zero && nbuf in heap && |heap[nbuf]| == size
                && heap == old(heap)[nbuf := heap[nbuf]] - {ptr} && old(Bytes(ptr)) <= heap[nbuf]
                && Zeros() == old(Zeros()) - if ptr == zero then 1 else 0
    {
      var bytes;
      nbuf, bytes := Kmalloc(size, block);
      if nbuf == NULL {
        return;
      }
      Known(ptr);
      assert m in RecsOf(recs, ptr);
      var ok := Record(nbuf, MemMove(bytes, if ptr == zero then [] else heap[ptr]), record);
      if !ok {
        return NULL;
      }
      Drop(m);
    }
  }

  // A pointer to a block has one record, of the block's size.
  lemma OneRecordEach(l: Ledger, p: Ptr)
    requires l.Valid() && p != l.zero
    ensures if p in l.heap then exists r :: RecsOf(l.recs, p) == {r} && l.recs[r] == Rec(p, |l.heap[p]|)
            else RecsOf(l.recs, p) == {}
  {
    l.Known(p);
    if p in l.heap {
      var r := l.recOf[p];
      forall s | s in RecsOf(l.recs, p) ensures s == r {
        assert l.recOf[l.recs[s].ptr] == s;
      }
      assert RecsOf(l.recs, p) == {r};
    }
  }

  // No two records share a pointer if and only if at most one allocation of size
  // 0 is out: each of them has a record, and kmalloc gives all one pointer.
  lemma SharedOnlyByZeros(l: Ledger)
    requires l.Valid()
    ensures (forall r, s :: r in l.recs && s in l.recs && l.recs[r].ptr == l.recs[s].ptr ==> r == s) <==> l.Zeros() <= 1
  {
    var z := RecsOf(l.recs, l.zero);
    if |z| > 1 {
      var r :| r in z;
      assert |z - {r}| > 0;
      var s :| s in z - {r};
    } else {
      forall r, s | r in l.recs && s in l.recs && l.recs[r].ptr == l.recs[s].ptr ensures r == s {
        if l.recs[r].ptr == l.zero && r != s {
          assert {r, s} <= z;
          SubsetSize({r, s}, z);
        }
      }
    }
  }

  lemma SubsetSize(a: set<Ptr>, b: set<Ptr>)
    requires a <= b
    ensures |a| <= |b|
  {
    assert b == a + (b - a);
  }

  // ---- Runs ----

  // block and record say whether kmalloc succeeds, if it is called for them.
  datatype Op =
    | Malloc(size: nat, block: bool, record: bool)
    | Free(ptr: Ptr)
    | Realloc(ptr: Ptr, size: nat, block: bool, record: bool)

  // What calls have allocated and not given back: the blocks with their sizes,
  // and the number of allocations of size 0
  datatype Live = Live(sizes: map<Ptr, nat>, zeros: nat)
  {
    predicate Knows(zero: Ptr, ptr: Ptr) { ptr in sizes || (ptr == zero && zeros > 0) }
    function Size(ptr: Ptr): nat { if ptr in sizes then sizes[ptr] else 0 }
    function Less(zero: Ptr, ptr: Ptr): Live
    {
      Live(sizes - {ptr}, if ptr == zero && zeros > 0 then zeros - 1 else zeros)
    }

    // A call that runs leave out: the code copies the whole old block into a
    // smaller one.
    predicate Shrinks(op: Op) { op.Realloc? && op.ptr in sizes && 0 < op.size < sizes[op.ptr] }
  }

  // A new block when kmalloc succeeds twice, and NULL when it does not
  predicate NewBlock(zero: Ptr, v: Live, block: bool, record: bool, r: Ptr)
  {
    if block && record then r != NULL && r != zero && r !in v.sizes else r == NULL
  }

  // What a call returns, but for the address of a new block
  predicate Answers(zero: Ptr, v: Live, op: Op, r: Ptr)
  {
    match op
    case Malloc(size, block, record) =>
      if size == 0 then r == (if block && record then zero else NULL) else NewBlock(zero, v, block, record, r)
    case Free(_) => r == NULL
    case Realloc(ptr, size, block, record) =>
      if ptr == NULL then (if size == 0 then r == NULL else NewBlock(zero, v, block, record, r))
      else if !v.Knows(zero, ptr) then r == NULL
      else if v.Shrinks(op) || size == v.Size(ptr) then r == ptr
      else if size == 0 then r == NULL
      else NewBlock(zero, v, block, record, r)
  }

  // What is allocated when it has returned r
  function After(zero: Ptr, v: Live, op: Op, r: Ptr): Live
  {
    match op
    case Malloc(size, _, _) =>
      if r == NULL then v else if size == 0 then v.(zeros := v.zeros + 1) else v.(sizes := v.sizes[r := size])
    case Free(ptr) => v.Less(zero, ptr)
    case Realloc(ptr, size, _, _) =>
      if r == NULL then (if size == 0 then v.Less(zero, ptr) else v)
      else if r == ptr then v
      else var w := v.Less(zero, ptr); w.(sizes := w.sizes[r := size])
  }

  predicate AnswersAll(zero: Ptr, v: Live, ops: seq<Op>, rs: seq<Ptr>)
    requires |rs| == |ops|
    decreases |ops|
  {
    ops == [] || (Answers(zero, v, ops[0], rs[0]) && AnswersAll(zero, After(zero, v, ops[0], rs[0]), ops[1..], rs[1..]))
  }

  function AfterAll(zero: Ptr, v: Live, ops: seq<Op>, rs: seq<Ptr>): Live
    requires |rs| == |ops|
    decreases |ops|
  {
    if ops == [] then v else AfterAll(zero, After(zero, v, ops[0], rs[0]), ops[1..], rs[1..])
  }

  ghost function Sizes(heap: map<Ptr, seq<u8>>): map<Ptr, nat>
  {
    map p | p in heap :: |heap[p]|
  }

  lemma SizesPut(heap: map<Ptr, seq<u8>>, p: Ptr, bytes: seq<u8>)
    ensures Sizes(heap[p := bytes]) == Sizes(heap)[p := |bytes|]
  {}

  lemma SizesCut(heap: map<Ptr, seq<u8>>, p: Ptr)
    ensures Sizes(heap - {p}) == Sizes(heap) - {p}
  {}

  lemma SizesMoved(heap: map<Ptr, seq<u8>>, p: Ptr, q: Ptr, bytes: seq<u8>)
    requires p != q
    ensures Sizes(heap[q := bytes] - {p}) == (Sizes(heap) - {p})[q := |bytes|]
  {}

  ghost function View(l: Ledger): Live
    reads l
  {
    Live(Sizes(l.heap), l.Zeros())
  }

  method PerformMalloc(l: Ledger, size: nat, block: bool, record: bool) returns (r: Ptr)
    requires l.Valid()
    modifies l
    ensures l.Valid() && Answers(l.zero, old(View(l)), Malloc(size, block, record), r)
    ensures View(l) == After(l.zero, old(View(l)), Malloc(size, block, record), r)
  {
    ghost var h := l.heap;
    r := l.Malloc(size, block, record);
    if r != NULL && size > 0 {
      SizesPut(h, r, l.heap[r]);
    }
  }

  method PerformFree(l: Ledger, ptr: Ptr)
    requires l.Valid()
    modifies l
    ensures l.Valid() && View(l) == After(l.zero, old(View(l)), Free(ptr), NULL)
  {
    SizesCut(l.heap, ptr);
    l.ZcrtFree(ptr);
  }

  method PerformRealloc(l: Ledger, ptr: Ptr, size: nat, block: bool, record: bool) returns (r: Ptr)
    requires l.Valid()
    modifies l
    ensures l.Valid() && Answers(l.zero, old(View(l)), Realloc(ptr, size, block, record), r)
    ensures View(l) == After(l.zero, old(View(l)), Realloc(ptr, size, block, record), r)
  {
    if ptr in l.heap && 0 < size < |l.heap[ptr]| {
      return ptr;
    }
    ghost var h := l.heap;
    SizesCut(h, ptr);
    r := l.Realloc(ptr, size, block, record);
    if r != NULL && r != ptr {
      SizesMoved(h, ptr, r, l.heap[r]);
    }
  }

  method Perform(l: Ledger, ops: seq<Op>) returns (rs: seq<Ptr>)
    requires l.Valid()
    modifies l
    ensures l.Valid() && |rs| == |ops| && AnswersAll(l.zero, old(View(l)), ops, rs)
    ensures View(l) == AfterAll(l.zero, old(View(l)), ops, rs)
    decreases |ops|
  {
    if ops == [] {
      return [];
    }
    var r := NULL;
    match ops[0] {
      case Malloc(size, block, record) => r := PerformMalloc(l, size, block, record);
      case Free(ptr) => PerformFree(l, ptr);
      case Realloc(ptr, size, block, record) => r := PerformRealloc(l, ptr, size, block, record);
    }
    var more := Perform(l, ops[1..]);
    rs := [r] + more;
    assert rs[1..] == more;
  }

  // Any run, with kmalloc failing exactly where the operations say: rs are the
  // pointers that the calls return, and live are exactly the blocks of the calls that succeeded and have
  // not been taken back, in their sizes.
  method Run(zero: Ptr, ops: seq<Op>) returns (l: Ledger, rs: seq<Ptr>)
    requires zero != NULL
    ensures fresh(l) && l.Valid() && l.zero == zero
    ensures |rs| == |ops| && AnswersAll(zero, Live(map[], 0), ops, rs)
    ensures View(l) == AfterAll(zero, Live(map[], 0), ops, rs)
  {
    l := new Ledger(zero);
    assert View(l) == Live(map[], 0);
    rs := Perform(l, ops);
  }
}
