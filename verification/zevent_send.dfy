/**
 zcrt_event_send_ex of zcrtlib/zevent.c: the walk along the list of the event
 while its callbacks change that list and others.
 */
module ZEventSend {
  import opened Machine
  import opened Chains
  import opened EventOrder
  import opened EventRuns
  import opened EventSend
  import opened ZEvent
  import Api = ZEventApi

  // The walk stands at listener i of event e, which is node cur.
  ghost predicate At(b: Book, e: nat, i: nat, cur: Ptr)
  {
    e < ZCRT_MAX_EVT == |b.lists| < |b.chains| && i < |b.chains[e]| == |b.lists[e]| && b.chains[e][i] == cur
  }

  // Callbacks must not unregister from the event that is being sent.
  predicate Permitted(ops: seq<Op>, e: nat)
  {
    forall i :: 0 <= i < |ops| ==>
      ops[i].evtid < 0x1_0000_0000 && (ops[i].Unregister? && ops[i].Accepted() ==> ops[i].evtid != e)
  }

  // Where the listener at i, and what is behind it, goes when r is registered
  lemma {:induction false} InsertTail(l: seq<Reg>, r: Reg, i: nat) returns (i': nat)
    requires Sorted(l) && i < |l|
    ensures i' == if r.pri <= l[i].pri then i else i + 1
    ensures i' < |Insert(l, r)| && Insert(l, r)[i'] == l[i]
    ensures Insert(l, r)[i' + 1..] == if r.pri <= l[i].pri then Insert(l[i + 1..], r) else l[i + 1..]
  {
    if l[0].pri < r.pri {
      i' := i + 1;
    } else if i == 0 {
      i' := 0;
      assert l[0 + 1..] == l[1..];
    } else {
      var k := InsertTail(l[1..], r, i - 1);
      i' := k + 1;
      assert l[1..][i - 1 + 1..] == l[i + 1..];
      ConsTail(l[0], Insert(l[1..], r), k);
    }
  }

  lemma ConsTail<T>(x: T, l: seq<T>, k: nat)
    requires k < |l|
    ensures ([x] + l)[k + 1] == l[k] && ([x] + l)[k + 2..] == l[k + 1..]
  {}

  lemma AtMoves(b: Book, e: nat, i: nat, cur: Ptr, r: Reg, job: Ptr, b': Book, i': nat)
    requires At(b, e, i, cur) && Sorted(b.lists[e]) && |b.chains| == ZCRT_MAX_EVT + 1
    requires Grew(b, e, r.pri, job, b') && i' == if r.pri <= b.lists[e][i].pri then i else i + 1
    requires |b'.lists| == |b.lists| && |b'.chains[e]| == |b'.lists[e]|
    ensures At(b', e, i', cur)
  {}

  lemma ListShape(mng: EventMng, e: nat)
    requires mng.Valid() && e < ZCRT_MAX_EVT
    ensures |mng.book.lists| == ZCRT_MAX_EVT && |mng.book.chains| == ZCRT_MAX_EVT + 1
    ensures Sorted(mng.book.lists[e]) && |mng.book.chains[e]| == |mng.book.lists[e]|
  {
    assert Carry(mng.store, mng.book.chains[e], mng.book.lists[e]);
  }

  // What the walk sees of a callback: its listener stays where it is, and behind
  // it come the new listeners of no higher priority.
  ghost predicate Seen(b: Book, e: nat, i: nat, ops: seq<Op>, b': Book, i': nat)
    requires e < |b.lists| && i < |b.lists[e]| && e < |b'.lists| && i' < |b'.lists[e]|
  {
    && b'.lists[e][i'] == b.lists[e][i]
    && b'.lists[e][i' + 1..] == InsertAll(b.lists[e][i + 1..], Late(ops, e, b.lists[e][i].pri))
  }

  lemma SeenOne(b: Book, e: nat, i: nat, op: Op, b': Book, i': nat)
    requires e < ZCRT_MAX_EVT == |b.lists| == |b'.lists| && i < |b.lists[e]| && i' < |b'.lists[e]|
             && b'.lists[e][i'] == b.lists[e][i]
    requires b'.lists[e][i' + 1..] ==
             if AddsBehind(op, e, b.lists[e][i].pri) then Insert(b.lists[e][i + 1..], op.r) else b.lists[e][i + 1..]
    ensures Seen(b, e, i, [op], b', i')
  {
    var pri, l := b.lists[e][i].pri, b.lists[e][i + 1..];
    assert [op][1..] == [];
    assert Late([op], e, pri) == if AddsBehind(op, e, pri) then [op.r] else [];
    if AddsBehind(op, e, pri) {
      assert [op.r][1..] == [];
      assert InsertAll(l, [op.r]) == InsertAll(Insert(l, op.r), []);
    }
  }

  method StepRegister(mng: EventMng, evtid: u32, r: Reg, ghost e: nat, ghost i: nat, ghost cur: Ptr)
    returns (ghost i': nat)
    requires mng.Valid() && At(mng.book, e, i, cur)
    modifies mng
    ensures mng.Valid() && mng.lastEvtid == old(mng.lastEvtid) && mng.Keeps(NULL)
    ensures mng.book.lists == Apply(old(mng.book.lists), Register(evtid, r))
    ensures At(mng.book, e, i', cur) && Seen(old(mng.book), e, i, [Register(evtid, r)], mng.book, i')
  {
    ghost var b := mng.book;
    ListShape(mng, e);
    var _ := Api.RegisterEx(mng, evtid, r);
    ListShape(mng, e);
    i' := Registered(b, e, i, cur, evtid, r, mng.book);
  }

  lemma Registered(b: Book, e: nat, i: nat, cur: Ptr, evtid: u32, r: Reg, b': Book) returns (i': nat)
    requires At(b, e, i, cur) && Sorted(b.lists[e]) && |b.chains| == ZCRT_MAX_EVT + 1
    requires b'.lists == Apply(b.lists, Register(evtid, r)) && e < |b'.chains| && |b'.chains[e]| == |b'.lists[e]|
    requires if Register(evtid, r).Accepted() then exists job :: Grew(b, evtid, r.pri, job, b') else b' == b
    ensures At(b', e, i', cur) && Seen(b, e, i, [Register(evtid, r)], b', i')
  {
    i' := i;
    if evtid == e && r.fn != NULL {
      var job :| Grew(b, evtid, r.pri, job, b');
      i' := InsertTail(b.lists[e], r, i);
      AtMoves(b, e, i, cur, r, job, b', i');
    }
    SeenOne(b, e, i, Register(evtid, r), b', i');
  }

  // The assertion of zcrt_event_unregister holds.
  method StepUnregister(mng: EventMng, evtid: u32, key: Key, ghost e: nat, ghost i: nat, ghost cur: Ptr)
      returns (idle: bool)
    requires mng.Valid() && mng.lastEvtid == e && At(mng.book, e, i, cur)
             && (evtid < ZCRT_MAX_EVT && key.fn != NULL ==> evtid != e)
    modifies mng
    ensures mng.Valid() && mng.lastEvtid == old(mng.lastEvtid) && mng.Keeps(NULL)
    ensures idle && mng.book.lists == Apply(old(mng.book.lists), Unregister(evtid, key))
    ensures At(mng.book, e, i, cur) && Seen(old(mng.book), e, i, [Unregister(evtid, key)], mng.book, i)
  {
    ghost var b := mng.book;
    idle := Api.Unregister(mng, evtid, key);
    ListShape(mng, e);
    SeenOne(b, e, i, Unregister(evtid, key), mng.book, i);
  }

  lemma SeenTrans(b: Book, e: nat, i: nat, ops: seq<Op>, b1: Book, i1: nat, b2: Book, i2: nat)
    requires ops != [] && e < |b.lists| && i < |b.lists[e]| && e < |b1.lists| && i1 < |b1.lists[e]|
    requires e < |b2.lists| && i2 < |b2.lists[e]|
    requires Seen(b, e, i, [ops[0]], b1, i1) && Seen(b1, e, i1, ops[1..], b2, i2)
    ensures Seen(b, e, i, ops, b2, i2)
  {
    var l, p := b.lists[e][i + 1..], b.lists[e][i].pri;
    assert [ops[0]][1..] == [];
    var late := Late(ops[1..], e, p);
    if AddsBehind(ops[0], e, p) {
      var r := ops[0].r;
      assert Late([ops[0]], e, p) == [r] && [r][1..] == [];
      assert InsertAll(l, [r]) == InsertAll(Insert(l, r), []);
      assert ([r] + late)[1..] == late;
    } else {
      assert Late([ops[0]], e, p) == [] && InsertAll(l, []) == l;
    }
  }

  lemma NullIsNotHeld(mng: EventMng)
    requires mng.Valid()
    ensures !mng.book.Holds(NULL)
  {
    assert NULL !in mng.store;
  }

  // cur->fn(...)
  method Callback(mng: EventMng, ops: seq<Op>, ghost e: nat, ghost i: nat, ghost cur: Ptr) returns (ghost i': nat)
    requires mng.Valid() && mng.lastEvtid == e && At(mng.book, e, i, cur) && Permitted(ops, e)
    modifies mng
    ensures mng.Valid() && mng.lastEvtid == old(mng.lastEvtid) && mng.Keeps(NULL)
    ensures mng.book.lists == ApplyAll(old(mng.book.lists), ops)
    ensures At(mng.book, e, i', cur) && Seen(old(mng.book), e, i, ops, mng.book, i')
    decreases |ops|
  {
    i' := i;
    if ops == [] {
      return;
    }
    ghost var b, m := mng.book, mng.store;
    NullIsNotHeld(mng);
    match ops[0] {
      case Register(evtid, r) => i' := StepRegister(mng, evtid, r, e, i, cur);
      case Unregister(evtid, key) => var _ := StepUnregister(mng, evtid, key, e, i, cur);
    }
    ghost var b1, m1, i1 := mng.book, mng.store, i';
    assert mng.book.at.Keys == mng.store.Keys;
    i' := Callback(mng, ops[1..], e, i', cur);
    NullIsNotHeld(mng);
    OthersHeldTrans(b, m, b1, m1, mng.book, mng.store, NULL, NULL);
    SeenTrans(b, e, i, ops, b1, i1, mng.book, i');
  }

  // ---- The loop ----

  // The listeners from the cursor on
  ghost function Pending(b: Book, e: nat, i: nat, cur: Ptr): seq<Reg>
    requires cur != NULL ==> At(b, e, i, cur)
  {
    if cur == NULL then [] else b.lists[e][i..]
  }

  lemma Advance(mng: EventMng, e: nat, i: nat, cur: Ptr)
    requires mng.Valid() && At(mng.book, e, i, cur)
    ensures cur in mng.store && mng.store[cur].val == mng.book.lists[e][i]
    ensures var next := mng.store[cur].next;
            && (next != NULL ==> At(mng.book, e, i + 1, next))
            && Pending(mng.book, e, i + 1, next) == mng.book.lists[e][i + 1..]
  {
    ListShape(mng, e);
    assert Carry(mng.store, mng.book.chains[e], mng.book.lists[e]);
    assert Linked(mng.store, mng.Heads()[e], mng.book.chains[e]);
  }

  lemma Start(mng: EventMng, e: nat)
    requires mng.Valid() && e < ZCRT_MAX_EVT
    ensures mng.evtlist[e] != NULL ==> At(mng.book, e, 0, mng.evtlist[e])
    ensures Pending(mng.book, e, 0, mng.evtlist[e]) == mng.book.lists[e]
  {
    ListShape(mng, e);
    assert Linked(mng.store, mng.Heads()[e], mng.book.chains[e]);
  }

  // After called, sending goes on with what is left, to the same end.
  ghost predicate Continues(l: Lists, pending: seq<Reg>, script: Script, called: seq<Reg>,
                            l': Lists, pending': seq<Reg>, script': Script, kind: EvtType, e: nat)
  {
    var calls, calls' := Calls(pending, kind, e, script), Calls(pending', kind, e, script');
    && calls == called + calls'
    && ApplyAll(l, Performed(script, |calls|)) == ApplyAll(l', Performed(script', |calls'|))
    && (|script'| < |script| || (script' == script && |pending'| < |pending|))
  }

  lemma CallContinues(l: Lists, pending: seq<Reg>, script: Script, ops: seq<Op>,
                      l': Lists, later: seq<Reg>, rest: Script, kind: EvtType, e: nat)
    requires pending != [] && Hits(pending[0], kind)
    requires ops == (if script == [] then [] else script[0]) && rest == if script == [] then [] else script[1..]
    requires later == InsertAll(pending[1..], Late(ops, e, pending[0].pri)) && l' == ApplyAll(l, ops)
    ensures Continues(l, pending, script, [pending[0]], l', later, rest, kind, e)
  {
    var calls' := Calls(later, kind, e, rest);
    CallsStep(pending, script, ops, later, rest, kind, e);
    PerformedStep(script, ops, rest, |calls'|);
    ApplyConcat(l, ops, Performed(rest, |calls'|));
  }

  lemma CallsStep(pending: seq<Reg>, script: Script, ops: seq<Op>, later: seq<Reg>, rest: Script, kind: EvtType, e: nat)
    requires pending != [] && Hits(pending[0], kind)
    requires ops == (if script == [] then [] else script[0]) && rest == if script == [] then [] else script[1..]
    requires later == InsertAll(pending[1..], Late(ops, e, pending[0].pri))
    ensures Calls(pending, kind, e, script) == [pending[0]] + Calls(later, kind, e, rest)
  {}

  lemma PerformedStep(script: Script, ops: seq<Op>, rest: Script, n: nat)
    requires ops == (if script == [] then [] else script[0]) && rest == if script == [] then [] else script[1..]
    ensures Performed(script, 1 + n) == ops + Performed(rest, n)
  {}

  // A listener that does not match is passed over.
  lemma SkipContinues(l: Lists, pending: seq<Reg>, script: Script, kind: EvtType, e: nat)
    requires pending != [] && !Hits(pending[0], kind)
    ensures Continues(l, pending, script, [], l, pending[1..], script, kind, e)
  {}

  // A listener that matches is called.
  method Call(mng: EventMng, e: nat, kind: EvtType, script: Script, ghost i: nat, cur: Ptr)
      returns (called: seq<Reg>, rest: Script, ghost i': nat)
    requires mng.Valid() && mng.lastEvtid == e && At(mng.book, e, i, cur)
    requires forall c :: 0 <= c < |script| ==> Permitted(script[c], e)
    requires Hits(mng.book.lists[e][i], kind)
    modifies mng
    ensures mng.Valid() && mng.lastEvtid == old(mng.lastEvtid) && mng.Keeps(NULL)
    ensures At(mng.book, e, i', cur) && forall c :: 0 <= c < |rest| ==> Permitted(rest[c], e)
    ensures Continues(old(mng.book.lists), old(mng.book.lists)[e][i..], script, called,
                      mng.book.lists, mng.book.lists[e][i' + 1..], rest, kind, e)
  {
    ghost var l := mng.book.lists;
    Advance(mng, e, i, cur);
    called := [mng.store[cur].val];
    var ops := if script == [] then [] else script[0];
    rest := if script == [] then [] else script[1..];
    i' := Callback(mng, ops, e, i, cur);
    CallContinues(l, l[e][i..], script, ops, mng.book.lists, mng.book.lists[e][i' + 1..], rest, kind, e);
  }

  lemma SkipAt(l: Lists, i: nat, script: Script, kind: EvtType, e: nat)
    requires e < ZCRT_MAX_EVT && i < |l[e]| && !Hits(l[e][i], kind)
    ensures Continues(l, l[e][i..], script, [], l, l[e][i + 1..], script, kind, e)
  {
    SkipContinues(l, l[e][i..], script, kind, e);
    assert l[e][i..][1..] == l[e][i + 1..];
  }

  // A listener that does not match is passed over.
  method Skip(mng: EventMng, e: nat, kind: EvtType, script: Script, ghost i: nat, cur: Ptr)
      returns (called: seq<Reg>, rest: Script, ghost i': nat)
    requires mng.Valid() && At(mng.book, e, i, cur) && !Hits(mng.book.lists[e][i], kind)
    ensures At(mng.book, e, i', cur) && rest == script
    ensures Continues(mng.book.lists, mng.book.lists[e][i..], script, called,
                      mng.book.lists, mng.book.lists[e][i' + 1..], rest, kind, e)
  {
    called, rest, i' := [], script, i;
    SkipAt(mng.book.lists, i, script, kind, e);
  }

  method Matches(mng: EventMng, kind: EvtType, cur: Ptr, ghost e: nat, ghost i: nat) returns (hit: bool)
    requires mng.Valid() && At(mng.book, e, i, cur)
    ensures hit == Hits(mng.book.lists[e][i], kind)
  {
    Advance(mng, e, i, cur);
    hit := Hits(mng.store[cur].val, kind);
  }

  lemma NothingMoved(mng: EventMng)
    ensures OthersHeld(mng.book, mng.store, mng.book, mng.store, NULL)
  {}

  method CallOrSkip(mng: EventMng, e: nat, kind: EvtType, script: Script, ghost i: nat, cur: Ptr)
      returns (called: seq<Reg>, rest: Script, ghost i': nat)
    requires mng.Valid() && mng.lastEvtid == e && At(mng.book, e, i, cur)
    requires forall c :: 0 <= c < |script| ==> Permitted(script[c], e)
    modifies mng
    ensures mng.Valid() && mng.lastEvtid == old(mng.lastEvtid) && mng.Keeps(NULL)
    ensures At(mng.book, e, i', cur) && forall c :: 0 <= c < |rest| ==> Permitted(rest[c], e)
    ensures Continues(old(mng.book.lists), old(mng.book.lists)[e][i..], script, called,
                      mng.book.lists, mng.book.lists[e][i' + 1..], rest, kind, e)
  {
    var hit := Matches(mng, kind, cur, e, i);
    if hit {
      called, rest, i' := Call(mng, e, kind, script, i, cur);
    } else {
      called, rest, i' := Skip(mng, e, kind, script, i, cur);
      NothingMoved(mng);
    }
  }

  // One round of the loop
  method Visit(mng: EventMng, e: nat, kind: EvtType, script: Script, ghost i: nat, cur: Ptr)
      returns (called: seq<Reg>, rest: Script, ghost i': nat, next: Ptr)
    requires mng.Valid() && mng.lastEvtid == e && At(mng.book, e, i, cur)
    requires forall c :: 0 <= c < |script| ==> Permitted(script[c], e)
    modifies mng
    ensures mng.Valid() && mng.lastEvtid == old(mng.lastEvtid) && mng.Keeps(NULL)
    ensures (next != NULL ==> At(mng.book, e, i', next)) && forall c :: 0 <= c < |rest| ==> Permitted(rest[c], e)
    ensures Continues(old(mng.book.lists), old(mng.book.lists)[e][i..], script, called,
                      mng.book.lists, Pending(mng.book, e, i', next), rest, kind, e)
  {
    called, rest, i' := CallOrSkip(mng, e, kind, script, i, cur);
    Advance(mng, e, i', cur);
    i' := i' + 1;
    next := mng.store[cur].next;
  }

  // zcrt_event_send_ex. The script says what the callbacks do; calls are the
  // listeners called, in order.
  method SendEx(mng: EventMng?, evtid: u32, kind: EvtType, script: Script) returns (calls: seq<Reg>)
    requires mng != null ==> mng.Valid()
    requires forall c :: 0 <= c < |script| ==> Permitted(script[c], evtid)
    modifies mng
    ensures mng == null || evtid >= 256 ==> calls == [] && (mng != null ==> unchanged(mng))
    ensures mng != null ==> mng.Valid()
    ensures mng != null && evtid < ZCRT_MAX_EVT ==>
              calls == Calls(old(mng.book.lists)[evtid], kind, evtid, script) && mng.lastEvtid == 0
    ensures mng != null && evtid < ZCRT_MAX_EVT && kind == All && script == [] ==> calls == old(mng.book.lists)[evtid]
    ensures forall r :: r in calls ==> kind == All || r.kind == All || r.kind == kind
    ensures mng != null && evtid < ZCRT_MAX_EVT ==>
              forall r :: r in old(mng.book.lists)[evtid] && (kind == All || r.kind == All || r.kind == kind) ==>
                r in calls
    ensures mng != null && evtid < ZCRT_MAX_EVT ==>
              mng.book.lists == ApplyAll(old(mng.book.lists), Performed(script, |calls|)) && mng.Keeps(NULL)
  {
    calls := [];
    if mng == null || evtid >= ZCRT_MAX_EVT {
      return;
    }
    KindsCalled(mng.book.lists[evtid], kind, evtid);
    KindsMatched(mng.book.lists[evtid], kind, evtid, script);
    mng.lastEvtid := evtid;
    calls := Walk(mng, evtid, kind, script);
    mng.lastEvtid := 0;
  }

  // The loop
  method Walk(mng: EventMng, e: nat, kind: EvtType, script: Script) returns (calls: seq<Reg>)
    requires mng.Valid() && mng.lastEvtid == e < ZCRT_MAX_EVT
    requires forall c :: 0 <= c < |script| ==> Permitted(script[c], e)
    modifies mng
    ensures mng.Valid() && mng.Keeps(NULL)
    ensures calls == Calls(old(mng.book.lists)[e], kind, e, script)
    ensures mng.book.lists == ApplyAll(old(mng.book.lists), Performed(script, |calls|))
  {
    ghost var l, b, m := mng.book.lists, mng.book, mng.store;
    var cur, rest := mng.evtlist[e], script;
    ghost var i, pending := 0, l[e];
    calls := [];
    Start(mng, e);
    while cur != NULL
      invariant mng.Valid() && mng.lastEvtid == e && (cur != NULL ==> At(mng.book, e, i, cur))
                && pending == Pending(mng.book, e, i, cur)
      invariant forall c :: 0 <= c < |rest| ==> Permitted(rest[c], e)
      invariant calls + Calls(pending, kind, e, rest) == Calls(l[e], kind, e, script)
      invariant ApplyAll(mng.book.lists, Performed(rest, |Calls(pending, kind, e, rest)|))
                == ApplyAll(l, Performed(script, |Calls(l[e], kind, e, script)|))
      invariant OthersHeld(b, m, mng.book, mng.store, NULL)
      decreases |rest|, |pending|
    {
      ghost var b1, m1 := mng.book, mng.store;
      var called;
      called, rest, i, cur := Visit(mng, e, kind, rest, i, cur);
      pending := Pending(mng.book, e, i, cur);
      Assoc(calls, called, Calls(pending, kind, e, rest));
      calls := calls + called;
      NullIsNotHeld(mng);
      OthersHeldTrans(b, m, b1, m1, mng.book, mng.store, NULL, NULL);
    }
  }

  // ---- Runs with sends ----

  datatype Request = Do(op: Op) | Send(evtid: u32, kind: EvtType, script: Script)
  {
    predicate Allowed()
    {
      match this
      case Do(op) => op.evtid < 0x1_0000_0000
      case Send(e, _, script) => forall c :: 0 <= c < |script| ==> Permitted(script[c], e)
    }
  }

  // What a request registers and unregisters, by callbacks too
  function Done(lists: seq<seq<Reg>>, req: Request): seq<Op>
    requires |lists| == ZCRT_MAX_EVT
  {
    match req
    case Do(op) => [op]
    case Send(e, kind, script) =>
      if e < ZCRT_MAX_EVT then Performed(script, |Calls(lists[e], kind, e, script)|) else []
  }

  function AllDone(lists: seq<seq<Reg>>, reqs: seq<Request>): seq<Op>
    requires |lists| == ZCRT_MAX_EVT
    decreases |reqs|
  {
    if reqs == [] then []
    else var d := Done(lists, reqs[0]); d + AllDone(ApplyAll(lists, d), reqs[1..])
  }

  method Serve(mng: EventMng, req: Request)
    requires mng.Valid() && mng.lastEvtid == 0 && req.Allowed()
    modifies mng
    ensures mng.Valid() && mng.lastEvtid == 0
    ensures mng.book.lists == ApplyAll(old(mng.book.lists), Done(old(mng.book.lists), req))
  {
    match req {
      case Do(op) => Api.Perform(mng, [op]);
      case Send(e, kind, script) => var _ := SendEx(mng, e, kind, script);
    }
  }

  method ServeAll(mng: EventMng, reqs: seq<Request>)
    requires mng.Valid() && mng.lastEvtid == 0 && forall i :: 0 <= i < |reqs| ==> reqs[i].Allowed()
    modifies mng
    ensures mng.Valid() && mng.lastEvtid == 0
    ensures mng.book.lists == ApplyAll(old(mng.book.lists), AllDone(old(mng.book.lists), reqs))
    decreases |reqs|
  {
    if reqs == [] {
      return;
    }
    ghost var l := mng.book.lists;
    ghost var d := Done(l, reqs[0]);
    Serve(mng, reqs[0]);
    ghost var rest := AllDone(mng.book.lists, reqs[1..]);
    ServeAll(mng, reqs[1..]);
    ApplyConcat(l, d, rest);
  }

  // After any run of registering, unregistering and sending on a new registry
  // the lists are the stable sorts of what is left of everything done.
  method RunRequests(reqs: seq<Request>) returns (mng: EventMng)
    requires forall i :: 0 <= i < |reqs| ==> reqs[i].Allowed()
    ensures fresh(mng) && mng.Valid() && mng.lastEvtid == 0
    ensures forall e :: 0 <= e < ZCRT_MAX_EVT ==>
              mng.book.lists[e] == StableSort(Surviving([], AllDone(NO_LISTS, reqs), e))
  {
    mng := new EventMng();
    ServeAll(mng, reqs);
    forall e | 0 <= e < ZCRT_MAX_EVT
      ensures mng.book.lists[e] == StableSort(Surviving([], AllDone(NO_LISTS, reqs), e))
    {
      RunFromEmpty(AllDone(NO_LISTS, reqs), e);
    }
  }

  // After any such run, when nothing is being sent, the assertion of
  // zcrt_event_unregister holds for every event but event 0.
  method UnregisterAfter(reqs: seq<Request>, evtid: u32, key: Key) returns (mng: EventMng, idle: bool)
    requires forall i :: 0 <= i < |reqs| ==> reqs[i].Allowed()
    requires Unregister(evtid, key).Accepted()
    ensures mng.Valid() && (idle <==> evtid != 0)
  {
    mng := RunRequests(reqs);
    idle := Api.Unregister(mng, evtid, key);
  }
}
