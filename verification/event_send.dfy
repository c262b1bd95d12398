/**
 Sending an event whose listeners may themselves register and unregister: which
 listeners are called, in terms of the list at the start and of what the
 callbacks do.
 */
module EventSend {
  import opened Machine
  import opened Chains
  import opened EventOrder
  import opened EventRuns

  // What each callback does, in the order of the calls; none when it is used up
  type Script = seq<seq<Op>>

  predicate Hits(r: Reg, kind: EvtType)
  {
    r.kind == kind || r.kind == All || kind == All
  }

  // Registers on event e with no higher priority than pri: the new listener comes
  // to stand behind the listener of that priority that is being called.
  predicate AddsBehind(op: Op, e: nat, pri: u8)
  {
    op.Register? && op.evtid == e && op.r.fn != NULL && op.r.pri <= pri
  }

  function Late(ops: seq<Op>, e: nat, pri: u8): seq<Reg>
  {
    if ops == [] then []
    else if AddsBehind(ops[0], e, pri) then [ops[0].r] + Late(ops[1..], e, pri)
    else Late(ops[1..], e, pri)
  }

  function InsertAll(l: seq<Reg>, rs: seq<Reg>): seq<Reg>
    decreases |rs|
  {
    if rs == [] then l else InsertAll(Insert(l, rs[0]), rs[1..])
  }

  // The calls made for the listeners still to come. A callback changes only
  // what comes behind it.
  function Calls(pending: seq<Reg>, kind: EvtType, e: nat, script: Script): seq<Reg>
    decreases |script|, |pending|
  {
    if pending == [] then []
    else if !Hits(pending[0], kind) then Calls(pending[1..], kind, e, script)
    else if script == [] then [pending[0]] + Calls(pending[1..], kind, e, [])
    else [pending[0]] + Calls(InsertAll(pending[1..], Late(script[0], e, pending[0].pri)), kind, e, script[1..])
  }

  // What the first n calls do
  function Performed(script: Script, n: nat): seq<Op>
  {
    if n == 0 || script == [] then [] else script[0] + Performed(script[1..], n - 1)
  }

  // ---- The listeners that were there are called once each and in order ----

  // The registrations of l whose ids are in ids
  function Among(l: seq<Reg>, ids: set<nat>): seq<Reg>
  {
    if l == [] then [] else if l[0].id in ids then [l[0]] + Among(l[1..], ids) else Among(l[1..], ids)
  }

  function Hit(l: seq<Reg>, kind: EvtType): seq<Reg>
  {
    if l == [] then [] else if Hits(l[0], kind) then [l[0]] + Hit(l[1..], kind) else Hit(l[1..], kind)
  }

  // The script registers nothing with one of these ids.
  predicate Avoids(script: Script, ids: set<nat>)
  {
    forall c, i :: 0 <= c < |script| && 0 <= i < |script[c]| && script[c][i].Register? ==> script[c][i].r.id !in ids
  }

  lemma {:induction false} AmongInsert(l: seq<Reg>, r: Reg, ids: set<nat>)
    requires r.id !in ids
    ensures Among(Insert(l, r), ids) == Among(l, ids)
  {
    if l == [] || l[0].pri < r.pri {
      assert ([r] + l)[1..] == l;
    } else {
      AmongInsert(l[1..], r, ids);
      assert Insert(l, r)[1..] == Insert(l[1..], r);
    }
  }

  lemma {:induction false} AmongInsertAll(l: seq<Reg>, rs: seq<Reg>, ids: set<nat>)
    requires forall i :: 0 <= i < |rs| ==> rs[i].id !in ids
    ensures Among(InsertAll(l, rs), ids) == Among(l, ids)
    decreases |rs|
  {
    if rs != [] {
      AmongInsert(l, rs[0], ids);
      AmongInsertAll(Insert(l, rs[0]), rs[1..], ids);
    }
  }

  lemma {:induction false} LateIsRegistered(ops: seq<Op>, e: nat, pri: u8)
    ensures forall x :: x in Late(ops, e, pri) <==> Register(e, x) in ops && AddsBehind(Register(e, x), e, pri)
  {
    if ops != [] {
      LateIsRegistered(ops[1..], e, pri);
      assert ops == [ops[0]] + ops[1..];
    }
  }

  lemma LateAvoids(ops: seq<Op>, e: nat, pri: u8, ids: set<nat>)
    requires Avoids([ops], ids)
    ensures forall i :: 0 <= i < |Late(ops, e, pri)| ==> Late(ops, e, pri)[i].id !in ids
  {
    LateIsRegistered(ops, e, pri);
    forall i | 0 <= i < |Late(ops, e, pri)| ensures Late(ops, e, pri)[i].id !in ids {
      var x := Late(ops, e, pri)[i];
      assert x in Late(ops, e, pri);
      var j :| 0 <= j < |ops| && ops[j] == Register(e, x);
      assert [ops][0][j].Register?;
    }
  }

  // However the callbacks register, the calls to the listeners that were there
  // at the start are exactly those that match, each once, in list order.
  lemma {:induction false} OriginalsCalledOnce(pending: seq<Reg>, kind: EvtType, e: nat, script: Script, ids: set<nat>)
    requires Avoids(script, ids)
    ensures Among(Calls(pending, kind, e, script), ids) == Among(Hit(pending, kind), ids)
    decreases |script|, |pending|
  {
    if pending != [] {
      var p, rest := pending[0], pending[1..];
      if !Hits(p, kind) {
        OriginalsCalledOnce(rest, kind, e, script, ids);
      } else if script == [] {
        OriginalsCalledOnce(rest, kind, e, [], ids);
        AmongCons(p, Calls(rest, kind, e, []), Hit(rest, kind), ids);
      } else {
        var late := Late(script[0], e, p.pri);
        assert Avoids([script[0]], ids) by { assert [script[0]][0] == script[0]; }
        LateAvoids(script[0], e, p.pri, ids);
        OriginalsCalledOnce(InsertAll(rest, late), kind, e, script[1..], ids);
        HitInsertAll(rest, late, kind, ids);
        AmongCons(p, Calls(InsertAll(rest, late), kind, e, script[1..]), Hit(rest, kind), ids);
      }
    }
  }

  lemma AmongCons(p: Reg, a: seq<Reg>, b: seq<Reg>, ids: set<nat>)
    requires Among(a, ids) == Among(b, ids)
    ensures Among([p] + a, ids) == Among([p] + b, ids)
  {
    assert ([p] + a)[1..] == a && ([p] + b)[1..] == b;
  }

  lemma {:induction false} HitInsert(l: seq<Reg>, r: Reg, kind: EvtType, ids: set<nat>)
    requires r.id !in ids
    ensures Among(Hit(Insert(l, r), kind), ids) == Among(Hit(l, kind), ids)
  {
    if l == [] || l[0].pri < r.pri {
      assert ([r] + l)[1..] == l;
      assert ([r] + Hit(l, kind))[1..] == Hit(l, kind);
    } else {
      HitInsert(l[1..], r, kind, ids);
      assert Insert(l, r)[1..] == Insert(l[1..], r);
      AmongCons(l[0], Hit(Insert(l[1..], r), kind), Hit(l[1..], kind), ids);
    }
  }

  lemma {:induction false} HitInsertAll(l: seq<Reg>, rs: seq<Reg>, kind: EvtType, ids: set<nat>)
    requires forall i :: 0 <= i < |rs| ==> rs[i].id !in ids
    ensures Among(Hit(InsertAll(l, rs), kind), ids) == Among(Hit(l, kind), ids)
    decreases |rs|
  {
    if rs != [] {
      HitInsert(l, rs[0], kind, ids);
      HitInsertAll(Insert(l, rs[0]), rs[1..], kind, ids);
    }
  }

  // ---- Which kinds match ----

  // Without callbacks a send calls exactly the listeners whose kind is that of the
  // send, and every listener where either of the two is All.
  lemma {:induction false} KindsCalled(l: seq<Reg>, kind: EvtType, e: nat)
    ensures kind == All ==> Calls(l, kind, e, []) == l
    ensures forall r :: r in Calls(l, kind, e, []) <==> r in l && (kind == All || r.kind == All || r.kind == kind)
  {
    if l != [] {
      KindsCalled(l[1..], kind, e);
      assert l == [l[0]] + l[1..];
    }
  }

  // Whatever the callbacks do, no listener of another kind is called, and none
  // that was there and matches is left out.
  lemma KindsMatched(l: seq<Reg>, kind: EvtType, e: nat, script: Script)
    ensures forall r :: r in Calls(l, kind, e, script) ==> kind == All || r.kind == All || r.kind == kind
    ensures forall r :: r in l && (kind == All || r.kind == All || r.kind == kind) ==> r in Calls(l, kind, e, script)
  {
    forall r ensures r in Calls(l, kind, e, script) ==> kind == All || r.kind == All || r.kind == kind
      ensures r in l && (kind == All || r.kind == All || r.kind == kind) ==> r in Calls(l, kind, e, script)
    {
      CalledIff(l, kind, e, script, r);
    }
  }

  // ---- Exactly who is called ----

  lemma {:induction false} InsertMembers(l: seq<Reg>, r: Reg)
    ensures forall x :: x in Insert(l, r) <==> x in l || x == r
  {
    if l != [] && l[0].pri >= r.pri {
      InsertMembers(l[1..], r);
      assert l == [l[0]] + l[1..];
    }
  }

  lemma {:induction false} InsertAllMembers(l: seq<Reg>, rs: seq<Reg>)
    ensures forall x :: x in InsertAll(l, rs) <==> x in l || x in rs
    decreases |rs|
  {
    if rs != [] {
      InsertMembers(l, rs[0]);
      InsertAllMembers(Insert(l, rs[0]), rs[1..]);
      assert rs == [rs[0]] + rs[1..];
    }
  }

  // A registration is called if and only if it matches and was there at the
  // start, or was registered on this event, in some call, with a priority no
  // higher than that of the listener called.
  lemma {:induction false} CalledIff(pending: seq<Reg>, kind: EvtType, e: nat, script: Script, x: Reg)
    ensures x in Calls(pending, kind, e, script)
            <==> && (kind == All || x.kind == All || x.kind == kind)
                 && (x in pending || AddedBehind(Calls(pending, kind, e, script), e, script, x))
    decreases |script|, |pending|
  {
    if pending != [] {
      var p, rest := pending[0], pending[1..];
      assert pending == [p] + rest;
      var calls := Calls(pending, kind, e, script);
      if !Hits(p, kind) {
        CalledIff(rest, kind, e, script, x);
      } else if script == [] {
        CalledIff(rest, kind, e, [], x);
      } else {
        var late := Late(script[0], e, p.pri);
        var more := Calls(InsertAll(rest, late), kind, e, script[1..]);
        CalledIff(InsertAll(rest, late), kind, e, script[1..], x);
        InsertAllMembers(rest, late);
        LateIsRegistered(script[0], e, p.pri);
        AddedShift(p, more, e, script, x);
      }
    }
  }

  // Call number c, to calls[c], registered x on e with no higher priority.
  ghost predicate AddedBehind(calls: seq<Reg>, e: nat, script: Script, x: Reg)
  {
    exists c :: 0 <= c < |calls| && c < |script| && Register(e, x) in script[c]
      && AddsBehind(Register(e, x), e, calls[c].pri)
  }

  lemma AddedShift(p: Reg, more: seq<Reg>, e: nat, script: Script, x: Reg)
    requires script != []
    ensures AddedBehind([p] + more, e, script, x)
            <==> (Register(e, x) in script[0] && AddsBehind(Register(e, x), e, p.pri))
                 || AddedBehind(more, e, script[1..], x)
  {
    var calls := [p] + more;
    if AddedBehind(more, e, script[1..], x) {
      var c :| 0 <= c < |more| && c < |script[1..]| && Register(e, x) in script[1..][c]
               && AddsBehind(Register(e, x), e, more[c].pri);
      assert script[c + 1] == script[1..][c] && calls[c + 1] == more[c];
    }
    if AddedBehind(calls, e, script, x) {
      var c :| 0 <= c < |calls| && c < |script| && Register(e, x) in script[c]
               && AddsBehind(Register(e, x), e, calls[c].pri);
      if c > 0 {
        assert script[1..][c - 1] == script[c] && more[c - 1] == calls[c];
      }
    }
    assert calls[0] == p;
  }
}
