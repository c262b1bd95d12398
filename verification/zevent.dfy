/**
 The event registry of zcrtlib/zevent.c: one chain of listeners per event, a
 free list, and nodes that a registering thread holds between its two lock
 sections. Chain MAX_EVT of the bookkeeping is the free list.
 */
module ZEvent {
  import opened Machine
  import opened Chains
  import opened EventOrder
  import opened EventRuns

  // The bookkeeping: the nodes of every chain, where every node is, and the
  // registrations of each event in the order of its list.
  datatype Book = Book(chains: seq<seq<Ptr>>, at: map<Ptr, Place>, lists: seq<seq<Reg>>)
  {
    ghost predicate Holds(p: Ptr) { p in at && at[p] == Held }
  }

  // heads holds evtlist and, behind it, freelist.
  ghost predicate Inv(b: Book, m: Store<Reg>, heads: seq<Ptr>)
  {
    && |b.chains| == ZCRT_MAX_EVT + 1 && |b.lists| == ZCRT_MAX_EVT
    && b.at.Keys == m.Keys && Placed(b.chains, b.at)
    && AllLinked(m, heads, b.chains)
    && AllCarry(m, b.chains, b.lists)
    && (forall e :: 0 <= e < ZCRT_MAX_EVT ==> Sorted(b.lists[e]))
  }

  // Callers hold the same nodes, but for p, and these have not changed.
  ghost predicate OthersHeld(b: Book, m: Store<Reg>, b': Book, m': Store<Reg>, p: Ptr)
  {
    forall n :: n != p ==>
      (b'.Holds(n) <==> b.Holds(n)) && (b.Holds(n) && n in m && n in m' ==> m'[n] == m[n])
  }

  lemma OthersHeldTrans(b0: Book, m0: Store<Reg>, b1: Book, m1: Store<Reg>, b2: Book, m2: Store<Reg>, p: Ptr, q: Ptr)
    requires OthersHeld(b0, m0, b1, m1, p) && OthersHeld(b1, m1, b2, m2, p) && b1.at.Keys == m1.Keys
    requires b0.Holds(p) <==> b2.Holds(p)
    requires b0.Holds(p) && p in m0 && p in m2 ==> m2[p] == m0[p]
    ensures OthersHeld(b0, m0, b2, m2, q)
  {}

  // ---- What each step does to the memory and the bookkeeping ----

  // Taking the head of the free list
  lemma PopFree(b: Book, m: Store<Reg>, heads: seq<Ptr>) returns (b': Book)
    requires Inv(b, m, heads) && heads[ZCRT_MAX_EVT] != NULL
    ensures var job := heads[ZCRT_MAX_EVT];
            && job in m && Inv(b', m, heads[ZCRT_MAX_EVT := m[job].next])
            && b'.lists == b.lists && OtherLists(b, ZCRT_MAX_EVT, b')
            && |b'.chains[ZCRT_MAX_EVT]| == |b.chains[ZCRT_MAX_EVT]| - 1
            && !b.Holds(job) && b'.Holds(job) && OthersHeld(b, m, b', m, job)
  {
    var f, job := ZCRT_MAX_EVT, heads[ZCRT_MAX_EVT];
    assert Linked(m, job, b.chains[f]);
    var r, at' := MoveOut(b.chains, b.at, f, 0);
    b' := Book(b.chains[f := r], at', b.lists);
    TakeFront(m, heads, b.chains, b.at, f, r);
  }

  // Filling in a node that a caller holds
  lemma Fill(b: Book, m: Store<Reg>, heads: seq<Ptr>, job: Ptr, r: Reg)
    requires Inv(b, m, heads) && b.Holds(job)
    ensures Inv(b, m[job := Cell(r, NULL)], heads)
  {
    HeldWritten(m, heads, b.chains, b.at, job, Cell(r, NULL));
    CarryFrame(m, m[job := Cell(r, NULL)], b.chains, b.lists);
  }

  // A node from the allocator
  lemma Allocated(b: Book, m: Store<Reg>, heads: seq<Ptr>, job: Ptr, r: Reg) returns (b': Book)
    requires Inv(b, m, heads) && job != NULL && job !in m
    ensures Inv(b', m[job := Cell(r, NULL)], heads) && b'.lists == b.lists && b'.chains == b.chains
    ensures !b.Holds(job) && b'.Holds(job) && OthersHeld(b, m, b', m[job := Cell(r, NULL)], job)
  {
    b' := Book(b.chains, b.at[job := Held], b.lists);
    HeldWritten(m, heads, b.chains, b.at, job, Cell(r, NULL));
    CarryFrame(m, m[job := Cell(r, NULL)], b.chains, b.lists);
  }

  // The bookkeeping of linking a node that a caller holds into place k of an
  // event's list
  lemma LinkBook(b: Book, m: Store<Reg>, heads: seq<Ptr>, evtid: nat, k: nat, job: Ptr) returns (b': Book, c: seq<Ptr>)
    requires Inv(b, m, heads) && evtid < ZCRT_MAX_EVT && b.Holds(job) && IsInsertPos(b.lists[evtid], m[job].val.pri, k)
    ensures Inserted(b.chains[evtid], k, job, c) && b'.chains == b.chains[evtid := c]
    ensures Placed(b'.chains, b'.at) && b'.at.Keys == b.at.Keys && !b'.Holds(job)
    ensures forall n :: n != job ==> (b'.Holds(n) <==> b.Holds(n))
    ensures b'.lists == b.lists[evtid := Insert(b.lists[evtid], m[job].val)]
    ensures AllCarry(m, b'.chains, b'.lists) && forall e :: 0 <= e < ZCRT_MAX_EVT ==> Sorted(b'.lists[e])
  {
    var at', l;
    var r := m[job].val;
    c, at' := MoveIn(b.chains, b.at, evtid, k, job);
    l := InsertAt(b.lists[evtid], k, r);
    InsertIsAt(b.lists[evtid], r, k, l);
    InsertKeepsSorted(b.lists[evtid], r, k, l);
    CarryInserted(m, b.chains, b.lists, evtid, k, job, c, l);
    b' := Book(b.chains[evtid := c], at', b.lists[evtid := l]);
  }

  // The lists other than c keep their nodes.
  ghost predicate OtherLists(b: Book, c: nat, b': Book)
  {
    |b'.chains| == |b.chains| && forall d :: 0 <= d < |b.chains| - 1 && d != c ==> b'.chains[d] == b.chains[d]
  }

  // Node job is new in chain c, where the list wants it.
  ghost predicate Grew(b: Book, c: nat, pri: u8, job: Ptr, b': Book)
    requires c < ZCRT_MAX_EVT == |b.lists| && |b.chains| == ZCRT_MAX_EVT + 1
  {
    && OtherLists(b, c, b')
    && exists k :: IsInsertPos(b.lists[c], pri, k) && Inserted(b.chains[c], k, job, b'.chains[c])
  }

  lemma GrewLater(b0: Book, b: Book, c: nat, pri: u8, job: Ptr, b': Book)
    requires c < ZCRT_MAX_EVT == |b0.lists| && |b0.chains| == ZCRT_MAX_EVT + 1
    requires b.lists == b0.lists && OtherLists(b0, ZCRT_MAX_EVT, b) && Grew(b, c, pri, job, b')
    ensures Grew(b0, c, pri, job, b')
  {}

  // What both ways of linking end with
  ghost predicate LinkedIn(b: Book, m: Store<Reg>, evtid: nat, job: Ptr, b': Book, m': Store<Reg>, heads': seq<Ptr>)
    requires evtid < ZCRT_MAX_EVT == |b.lists| && |b.chains| == ZCRT_MAX_EVT + 1 && job in m
  {
    && Inv(b', m', heads') && Grew(b, evtid, m[job].val.pri, job, b') && m'.Keys == m.Keys
    && b'.lists == b.lists[evtid := Insert(b.lists[evtid], m[job].val)]
    && !b'.Holds(job) && OthersHeld(b, m, b', m', job)
  }

  lemma LinkFront(b: Book, m: Store<Reg>, heads: seq<Ptr>, evtid: nat, job: Ptr, m': Store<Reg>, heads': seq<Ptr>)
      returns (b': Book)
    requires Inv(b, m, heads) && evtid < ZCRT_MAX_EVT && b.Holds(job) && IsInsertPos(b.lists[evtid], m[job].val.pri, 0)
    requires m' == SetNext(m, job, heads[evtid]) && heads' == heads[evtid := job]
    ensures LinkedIn(b, m, evtid, job, b', m', heads') && |b'.chains[ZCRT_MAX_EVT]| == |b.chains[ZCRT_MAX_EVT]|
  {
    var c;
    b', c := LinkBook(b, m, heads, evtid, 0, job);
    PutFront(m, heads, b.chains, b.at, evtid, job, c);
    CarryFrame(m, m', b'.chains, b'.lists);
  }

  lemma LinkAfter(b: Book, m: Store<Reg>, heads: seq<Ptr>, evtid: nat, k: nat, job: Ptr) returns (b': Book)
    requires Inv(b, m, heads) && evtid < ZCRT_MAX_EVT && b.Holds(job) && IsInsertPos(b.lists[evtid], m[job].val.pri, k)
    requires 0 < k
    ensures k <= |b.chains[evtid]| && b.chains[evtid][k - 1] in m
    ensures LinkedIn(b, m, evtid, job, b', LinkBehind(m, b.chains[evtid][k - 1], job), heads)
    ensures |b'.chains[ZCRT_MAX_EVT]| == |b.chains[ZCRT_MAX_EVT]|
  {
    var c;
    b', c := LinkBook(b, m, heads, evtid, k, job);
    assert b.at[b.chains[evtid][k - 1]] == In(evtid, k - 1);
    PutBehind(m, heads, b.chains, b.at, evtid, k, job, c);
    CarryFrame(m, LinkBehind(m, b.chains[evtid][k - 1], job), b'.chains, b'.lists);
  }

  // ---- Unregistering: out of a list, and in front of the free list ----

  // The node is out of the list but still points into it.
  ghost predicate Unlinked(b: Book, m: Store<Reg>, evtid: nat, key: Key, n: Ptr, b': Book, m': Store<Reg>,
                           heads': seq<Ptr>)
    requires evtid < ZCRT_MAX_EVT == |b.lists| && |b.chains| == ZCRT_MAX_EVT + 1
  {
    && OtherLists(b, evtid, b')
    && n in m' && Inv(b', m', heads') && b'.Holds(n) && !b.Holds(n) && m'.Keys == m.Keys
    && b'.lists == b.lists[evtid := RemoveFirst(b.lists[evtid], key)]
    && OthersHeld(b, m, b', m', n) && |b'.chains[ZCRT_MAX_EVT]| == |b.chains[ZCRT_MAX_EVT]|
  }

  lemma UnlinkBook(b: Book, m: Store<Reg>, heads: seq<Ptr>, evtid: nat, k: nat, key: Key)
    returns (b': Book, c: seq<Ptr>)
    requires Inv(b, m, heads) && evtid < ZCRT_MAX_EVT && IsMatchPos(b.lists[evtid], key, k)
    ensures k < |b.chains[evtid]| && Removed(b.chains[evtid], k, c) && b'.chains == b.chains[evtid := c]
    ensures Placed(b'.chains, b'.at) && b'.at.Keys == b.at.Keys && b'.Holds(b.chains[evtid][k])
            && !b.Holds(b.chains[evtid][k])
    ensures forall n :: n != b.chains[evtid][k] ==> (b'.Holds(n) <==> b.Holds(n))
    ensures b'.lists == b.lists[evtid := RemoveFirst(b.lists[evtid], key)]
    ensures AllCarry(m, b'.chains, b'.lists) && forall e :: 0 <= e < ZCRT_MAX_EVT ==> Sorted(b'.lists[e])
  {
    var at', l;
    assert Carry(m, b.chains[evtid], b.lists[evtid]);
    c, at' := MoveOut(b.chains, b.at, evtid, k);
    l := RemoveAt(b.lists[evtid], k);
    RemoveIsAt(b.lists[evtid], key, k, l);
    RemoveKeepsSorted(b.lists[evtid], k, l);
    CarryRemoved(m, b.chains, b.lists, evtid, k, c, l);
    b' := Book(b.chains[evtid := c], at', b.lists[evtid := l]);
  }

  lemma UnlinkFront(b: Book, m: Store<Reg>, heads: seq<Ptr>, evtid: nat, key: Key, heads': seq<Ptr>) returns (b': Book)
    requires Inv(b, m, heads) && evtid < ZCRT_MAX_EVT && IsMatchPos(b.lists[evtid], key, 0)
    requires heads[evtid] in m && heads' == heads[evtid := m[heads[evtid]].next]
    ensures Unlinked(b, m, evtid, key, heads[evtid], b', m, heads')
  {
    var c;
    b', c := UnlinkBook(b, m, heads, evtid, 0, key);
    TakeFront(m, heads, b.chains, b.at, evtid, c);
  }

  lemma UnlinkAfter(b: Book, m: Store<Reg>, heads: seq<Ptr>, evtid: nat, k: nat, key: Key, n: Ptr, prev: Ptr)
      returns (b': Book)
    requires Inv(b, m, heads) && evtid < ZCRT_MAX_EVT && IsMatchPos(b.lists[evtid], key, k)
    requires 0 < k < |b.chains[evtid]| && n == b.chains[evtid][k] && prev == b.chains[evtid][k - 1]
    ensures n in m && prev in m && Unlinked(b, m, evtid, key, n, b', SetNext(m, prev, m[n].next), heads)
  {
    var c;
    b', c := UnlinkBook(b, m, heads, evtid, k, key);
    UnlinkAfterShape(b, m, heads, evtid, k, b', c);
  }

  // The predecessor was written.
  lemma UnlinkAfterShape(b: Book, m: Store<Reg>, heads: seq<Ptr>, evtid: nat, k: nat, b': Book, c: seq<Ptr>)
    requires Placed(b.chains, b.at) && AllLinked(m, heads, b.chains) && evtid < |b.chains|
    requires 0 < k && Removed(b.chains[evtid], k, c) && b'.chains == b.chains[evtid := c] && Placed(b'.chains, b'.at)
    requires AllCarry(m, b'.chains, b'.lists)
    ensures var n, prev := b.chains[evtid][k], b.chains[evtid][k - 1];
            && n in m && prev in m && n != prev && !b.Holds(prev)
            && var m' := SetNext(m, prev, m[n].next);
               AllLinked(m', heads, b'.chains) && AllCarry(m', b'.chains, b'.lists)
  {
    var n, prev := b.chains[evtid][k], b.chains[evtid][k - 1];
    assert b.at[prev] == In(evtid, k - 1) && b.at[n] == In(evtid, k);
    TakeBehind(m, heads, b.chains, b.at, evtid, k, c);
    CarryFrame(m, SetNext(m, prev, m[n].next), b'.chains, b'.lists);
  }

  // job->fn = NULL
  function ClearFn(m: Store<Reg>, p: Ptr): Store<Reg>
    requires p in m
  {
    m[p := m[p].(val := m[p].val.(fn := 0))]
  }

  // job->next = mng->freelist; mng->freelist = job; job->fn = NULL
  lemma FreeFront(b: Book, m: Store<Reg>, heads: seq<Ptr>, n: Ptr, m': Store<Reg>) returns (b': Book)
    requires Inv(b, m, heads) && b.Holds(n)
    requires m' == ClearFn(SetNext(m, n, heads[ZCRT_MAX_EVT]), n)
    ensures Inv(b', m', heads[ZCRT_MAX_EVT := n]) && b'.lists == b.lists && OtherLists(b, ZCRT_MAX_EVT, b')
    ensures !b'.Holds(n) && OthersHeld(b, m, b', m', n)
    ensures |b'.chains[ZCRT_MAX_EVT]| == |b.chains[ZCRT_MAX_EVT]| + 1
  {
    var f := ZCRT_MAX_EVT;
    var m1 := ClearFn(m, n);
    var c, at' := MoveIn(b.chains, b.at, f, 0, n);
    b' := Book(b.chains[f := c], at', b.lists);
    HeldWritten(m, heads, b.chains, b.at, n, m1[n]);
    PutFront(m1, heads, b.chains, b.at, f, n, c);
    assert SetNext(m1, n, heads[f]) == m';
    CarryFrame(m, m', b.chains, b.lists);
  }

  // Empty list: the code leaves the next pointer of the node as it is.
  lemma NextUnchanged(m: Store<Reg>, p: Ptr)
    requires p in m && m[p].next == NULL
    ensures SetNext(m, p, NULL) == m
  {}

  // What unregistering a listener comes to
  ghost predicate TakenOut(b: Book, m: Store<Reg>, evtid: nat, key: Key, b': Book, m': Store<Reg>)
    requires evtid < |b.lists|
  {
    && b'.lists == b.lists[evtid := RemoveFirst(b.lists[evtid], key)]
    && OtherLists(b, evtid, b') && m'.Keys == m.Keys && OthersHeld(b, m, b', m', NULL)
  }

  lemma FreedIsTakenOut(b: Book, m: Store<Reg>, evtid: nat, key: Key, n: Ptr,
                        b1: Book, m1: Store<Reg>, heads1: seq<Ptr>, b2: Book, m2: Store<Reg>)
    requires evtid < ZCRT_MAX_EVT == |b.lists| && |b.chains| == ZCRT_MAX_EVT + 1
    requires Unlinked(b, m, evtid, key, n, b1, m1, heads1)
    requires b2.lists == b1.lists && OtherLists(b1, ZCRT_MAX_EVT, b2) && m2.Keys == m1.Keys
    requires OthersHeld(b1, m1, b2, m2, n) && !b2.Holds(n)
    ensures TakenOut(b, m, evtid, key, b2, m2)
  {
    OthersHeldTrans(b, m, b1, m1, b2, m2, n, NULL);
  }

  lemma OneKeyMore(keys: set<Ptr>, p: Ptr, keys': set<Ptr>)
    requires keys' == keys + {p}
    ensures keys <= keys' && (p in keys ==> keys' == keys)
  {}

  lemma HeadsUpdate(evtlist: seq<Ptr>, freelist: Ptr, c: nat, h: Ptr)
    requires c < |evtlist|
    ensures (evtlist + [freelist])[c := h] == evtlist[c := h] + [freelist]
  {}

  // ---- The code ----

  // The registrations and what a thread in a call holds, before and after a step
  class EventMng {
    var store: Store<Reg>
    var freelist: Ptr
    var freesize: int
    var lastEvtid: nat
    var evtlist: seq<Ptr>
    ghost var book: Book

    function Heads(): seq<Ptr>
      reads this
    {
      evtlist + [freelist]
    }

    ghost predicate Valid()
      reads this
    {
      && |evtlist| == ZCRT_MAX_EVT
      && Inv(book, store, Heads())
      && freesize == |book.chains[ZCRT_MAX_EVT]|
    }

    twostate predicate Keeps(p: Ptr)
      reads this
    {
      OthersHeld(old(book), old(store), book, store, p)
    }

    // zcrt_event_manage_init
    constructor ()
      ensures Valid() && book.lists == NO_LISTS && store == map[] && lastEvtid == 0
    {
      store, freelist, freesize, lastEvtid := map[], NULL, 0, 0;
      evtlist := seq(ZCRT_MAX_EVT, _ => NULL);
      book := Book(seq(ZCRT_MAX_EVT + 1, _ => []), map[], NO_LISTS);
    }

    // The lock section of _zcrt_Event_malloc_cb, when the free list is not empty.
    // The node still points to its old successor.
    method TakeFree() returns (job: Ptr)
      requires Valid() && freelist != NULL
      modifies this`freelist, this`freesize, this`book
      ensures Valid() && book.lists == old(book.lists) && OtherLists(old(book), ZCRT_MAX_EVT, book)
      ensures job == old(freelist) && !old(book).Holds(job) && book.Holds(job) && Keeps(job)
      ensures job in store && freelist == store[job].next && freesize == old(freesize) - 1
    {
      ghost var heads := Heads();
      ghost var b' := PopFree(book, store, heads);
      job := freelist;
      freelist := store[job].next;
      freesize := freesize - 1;
      book := b';
      assert heads[ZCRT_MAX_EVT := freelist] == Heads();
    }

    // A node from the allocator, outside the lock, at an address of its choice
    method NewNode() returns (job: Ptr)
      requires Valid()
      modifies this`store, this`book
      ensures Valid() && book.lists == old(book.lists) && book.chains == old(book.chains)
      ensures store.Keys == old(store).Keys + {job} && job !in old(store)
      ensures !old(book).Holds(job) && book.Holds(job) && Keeps(job)
    {
      FreshPtr(store);
      job :| job != NULL && job !in store;
      ghost var b' := Allocated(book, store, Heads(), job, Reg(0, 0, All, 0, 0, 0));
      store := store[job := Cell(Reg(0, 0, All, 0, 0, 0), NULL)];
      book := b';
    }

    // The end of _zcrt_Event_malloc_cb, outside the lock
    method FillIn(job: Ptr, r: Reg)
      requires Valid() && book.Holds(job)
      modifies this`store
      ensures Valid() && store == old(store)[job := Cell(r, NULL)]
    {
      Fill(book, store, Heads(), job, r);
      store := store[job := Cell(r, NULL)];
    }

    // _zcrt_Event_malloc_cb
    method MallocCb(r: Reg) returns (job: Ptr)
      requires Valid()
      modifies this`store, this`freelist, this`freesize, this`book
      ensures Valid() && book.lists == old(book.lists) && OtherLists(old(book), ZCRT_MAX_EVT, book)
      ensures job in store && store.Keys == old(store).Keys + {job} && (old(freelist) != NULL ==> job in old(store))
      ensures !old(book).Holds(job) && book.Holds(job) && store[job] == Cell(r, NULL) && Keeps(job)
    {
      if freelist != NULL {
        job := TakeFree();
      } else {
        job := NewNode();
      }
      FillIn(job, r);
    }

    // The loop of zcrt_event_register_ex
    method FindPlace(evtid: nat, priority: u8) returns (prev: Ptr, ghost k: nat)
      requires Valid() && evtid < ZCRT_MAX_EVT
      ensures IsInsertPos(book.lists[evtid], priority, k) && k <= |book.chains[evtid]|
      ensures prev == if k == 0 then NULL else book.chains[evtid][k - 1]
    {
      ghost var c, l := book.chains[evtid], book.lists[evtid];
      assert Linked(store, (Heads())[evtid], c) && Carry(store, c, l);
      var cur := evtlist[evtid];
      prev := NULL;
      k := 0;
      while cur != NULL && store[cur].val.pri >= priority
        invariant k <= |c| && cur == After(c, k - 1) && prev == if k == 0 then NULL else c[k - 1]
        invariant forall i :: 0 <= i < k ==> l[i].pri >= priority
        decreases |c| - k
      {
        prev := cur;
        cur := store[cur].next;
        k := k + 1;
      }
    }

    // evtlist[evtid] = job, with or without a successor
    method LinkFirst(job: Ptr, evtid: nat)
      requires Valid() && evtid < ZCRT_MAX_EVT && book.Holds(job)
      requires IsInsertPos(book.lists[evtid], store[job].val.pri, 0) && store[job].next == NULL
      modifies this`store, this`book, this`evtlist
      ensures LinkedIn(old(book), old(store), evtid, job, book, store, Heads()) && Valid()
    {
      ghost var m, m', heads := store, SetNext(store, job, evtlist[evtid]), Heads();
      HeadsUpdate(evtlist, freelist, evtid, job);
      ghost var b' := LinkFront(book, m, heads, evtid, job, m', evtlist[evtid := job] + [freelist]);
      NextUnchanged(store, job);
      if evtlist[evtid] != NULL {
        store := SetNext(store, job, evtlist[evtid]);
      }
      evtlist := evtlist[evtid := job];
      book := b';
    }

    // Nodes are written, and heads are not.
    method Write(m: Store<Reg>, ghost b: Book)
      requires |evtlist| == ZCRT_MAX_EVT && Inv(b, m, Heads()) && freesize == |b.chains[ZCRT_MAX_EVT]|
      modifies this`store, this`book
      ensures Valid() && store == m && book == b
    {
      store, book := m, b;
    }

    // job->next = prev->next; prev->next = job
    method LinkNext(job: Ptr, evtid: nat, prev: Ptr, ghost k: nat)
      requires Valid() && evtid < ZCRT_MAX_EVT && book.Holds(job) && 0 < k <= |book.chains[evtid]|
      requires IsInsertPos(book.lists[evtid], store[job].val.pri, k) && prev == book.chains[evtid][k - 1]
      modifies this`store, this`book
      ensures LinkedIn(old(book), old(store), evtid, job, book, store, Heads()) && Valid()
    {
      ghost var heads := Heads();
      ghost var b' := LinkAfter(book, store, heads, evtid, k, job);
      var m' := LinkBehind(store, prev, job);
      Write(m', b');
    }

    // The second lock section of zcrt_event_register_ex
    method LinkCb(job: Ptr, evtid: nat)
      requires Valid() && evtid < ZCRT_MAX_EVT && book.Holds(job) && store[job].next == NULL
      modifies this`store, this`book, this`evtlist
      ensures LinkedIn(old(book), old(store), evtid, job, book, store, Heads()) && Valid()
    {
      // the loop runs over an empty list too, and then finds no predecessor
      var prev, k := FindPlace(evtid, store[job].val.pri);
      if prev == NULL {
        LinkFirst(job, evtid);
      } else {
        LinkNext(job, evtid, prev, k);
      }
    }

    // The loop of zcrt_event_unregister
    method FindMatch(evtid: nat, key: Key) returns (cur: Ptr, prev: Ptr, ghost k: nat)
      requires Valid() && evtid < ZCRT_MAX_EVT
      ensures cur == NULL ==> NoMatch(book.lists[evtid], key)
      ensures cur != NULL ==> IsMatchPos(book.lists[evtid], key, k)
      ensures cur != NULL ==> k < |book.chains[evtid]| && cur == book.chains[evtid][k] && cur in store
      ensures cur != NULL ==>
                && prev == (if k == 0 then NULL else book.chains[evtid][k - 1])
                && (k == 0 <==> cur == evtlist[evtid])
    {
      ghost var c, l := book.chains[evtid], book.lists[evtid];
      assert Linked(store, Heads()[evtid], c) && Carry(store, c, l);
      ChainIsDistinct(book.chains, book.at, evtid);
      cur := evtlist[evtid];
      prev := NULL;
      k := 0;
      while cur != NULL && !(store[cur].val.fn == key.fn && store[cur].val.p1 == key.p1 && store[cur].val.p2 == key.p2)
        invariant k <= |c| && cur == After(c, k - 1) && prev == if k == 0 then NULL else c[k - 1]
        invariant forall i :: 0 <= i < k ==> !key.Matches(l[i])
        decreases |c| - k
      {
        prev := cur;
        cur := store[cur].next;
        k := k + 1;
      }
    }

    // evtlist[evtid] = cur->next
    method UnlinkFirst(evtid: nat, key: Key, cur: Ptr)
      requires Valid() && evtid < ZCRT_MAX_EVT && IsMatchPos(book.lists[evtid], key, 0)
      requires cur == evtlist[evtid] && cur in store
      modifies this`evtlist, this`book
      ensures Unlinked(old(book), old(store), evtid, key, cur, book, store, Heads()) && Valid()
    {
      HeadsUpdate(evtlist, freelist, evtid, store[cur].next);
      ghost var b' := UnlinkFront(book, store, Heads(), evtid, key, evtlist[evtid := store[cur].next] + [freelist]);
      evtlist := evtlist[evtid := store[cur].next];
      book := b';
    }

    // prev->next = cur->next
    method UnlinkNext(evtid: nat, key: Key, cur: Ptr, prev: Ptr, ghost k: nat)
      requires Valid() && evtid < ZCRT_MAX_EVT && IsMatchPos(book.lists[evtid], key, k) && 0 < k < |book.chains[evtid]|
      requires cur == book.chains[evtid][k] && prev == book.chains[evtid][k - 1]
      modifies this`store, this`book
      ensures Unlinked(old(book), old(store), evtid, key, cur, book, store, Heads()) && Valid()
    {
      ghost var heads := Heads();
      ghost var b' := UnlinkAfter(book, store, heads, evtid, k, key, cur, prev);
      var m' := SetNext(store, prev, store[cur].next);
      Write(m', b');
    }

    // Taking the match out of its list
    method Unlink(evtid: nat, key: Key, cur: Ptr, prev: Ptr, ghost k: nat)
      requires Valid() && evtid < ZCRT_MAX_EVT && IsMatchPos(book.lists[evtid], key, k)
      requires k < |book.chains[evtid]| && cur == book.chains[evtid][k] && cur in store
      requires prev == (if k == 0 then NULL else book.chains[evtid][k - 1]) && (k == 0 <==> cur == evtlist[evtid])
      modifies this`store, this`evtlist, this`book
      ensures Unlinked(old(book), old(store), evtid, key, cur, book, store, Heads()) && Valid()
    {
      if cur != evtlist[evtid] {
        UnlinkNext(evtid, key, cur, prev, k);
      } else {
        UnlinkFirst(evtid, key, cur);
      }
    }

    // _zcrt_Event_free_cb_no_protected
    method FreeCb(job: Ptr)
      requires Valid() && book.Holds(job)
      modifies this`store, this`freelist, this`freesize, this`book
      ensures Valid() && book.lists == old(book).lists && store.Keys == old(store).Keys
      ensures OtherLists(old(book), ZCRT_MAX_EVT, book) && !book.Holds(job) && Keeps(job)
      ensures freelist == job && freesize == old(freesize) + 1
      ensures job in old(store) && store == old(store)[job := Cell(old(store)[job].val.(fn := 0), old(freelist))]
    {
      ghost var heads := Heads();
      ghost var b' := FreeFront(book, store, heads, job, ClearFn(SetNext(store, job, freelist), job));
      store := SetNext(store, job, freelist);
      freelist := job;
      store := ClearFn(store, job);
      freesize := freesize + 1;
      book := b';
      assert heads[ZCRT_MAX_EVT := job] == Heads();
    }

    // zcrt_event_register_ex behind its guards
    method Add(evtid: nat, r: Reg)
      requires Valid() && evtid < ZCRT_MAX_EVT
      modifies this`store, this`freelist, this`freesize, this`book, this`evtlist
      ensures Valid() && book.lists == old(book.lists)[evtid := Insert(old(book.lists)[evtid], r)]
      ensures exists job :: Grew(old(book), evtid, r.pri, job, book)
      ensures Keeps(NULL) && old(store).Keys <= store.Keys
      ensures old(freelist) != NULL ==> store.Keys == old(store).Keys
    {
      var job := MallocCb(r);
      OneKeyMore(old(store).Keys, job, store.Keys);
      ghost var b, m := book, store;
      LinkCb(job, evtid);
      OthersHeldTrans(old(book), old(store), b, m, book, store, job, NULL);
      GrewLater(old(book), b, evtid, r.pri, job, book);
    }

    method TakeOut(evtid: nat, key: Key, cur: Ptr, prev: Ptr, ghost k: nat)
      requires Valid() && evtid < ZCRT_MAX_EVT && IsMatchPos(book.lists[evtid], key, k)
      requires k < |book.chains[evtid]| && cur == book.chains[evtid][k] && cur in store
      requires prev == (if k == 0 then NULL else book.chains[evtid][k - 1]) && (k == 0 <==> cur == evtlist[evtid])
      modifies this`store, this`freelist, this`freesize, this`book, this`evtlist
      ensures Valid() && TakenOut(old(book), old(store), evtid, key, book, store)
    {
      Unlink(evtid, key, cur, prev, k);
      ghost var b, m, heads := book, store, Heads();
      FreeCb(cur);
      FreedIsTakenOut(old(book), old(store), evtid, key, cur, b, m, heads, book, store);
    }

    // zcrt_event_unregister behind its guards
    method Remove(evtid: nat, key: Key)
      requires Valid() && evtid < ZCRT_MAX_EVT
      modifies this`store, this`freelist, this`freesize, this`book, this`evtlist
      ensures Valid() && TakenOut(old(book), old(store), evtid, key, book, store)
      ensures NoMatch(old(book).lists[evtid], key) ==> unchanged(this)
    {
      var cur, prev, k := FindMatch(evtid, key);
      if cur == NULL {
        RemoveNone(book.lists[evtid], key);
      } else {
        TakeOut(evtid, key, cur, prev, k);
      }
    }
  }
}
