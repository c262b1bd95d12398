/**
 Several threads in zcrtlib/zevent.c at once: registering takes two lock
 sections, and between them the thread alone holds the node. Then the end of a
 registry, when no thread is in it.
 */
module ZEventThreads {
  import opened Machine
  import opened Chains
  import opened EventOrder
  import opened EventRuns
  import opened ChainsFree
  import opened ZEvent
  import Api = ZEventApi

  // How far a thread is in zcrt_event_register_ex
  datatype Stage =
    | Outside
    | SawEmpty(evtid: u32, r: Reg)          // the free list was empty; nothing allocated yet
    | Blank(job: Ptr, evtid: u32, r: Reg)   // has a node with whatever was in it
    | Filled(job: Ptr, evtid: u32, r: Reg)  // before the second lock section
  {
    predicate HasJob() { Blank? || Filled? }
    ghost predicate Proper() { Outside? || Register(evtid, r).Accepted() }
  }

  datatype Action =
    | Begin(t: nat, evtid: u32, r: Reg)
    | Proceed(t: nat)
    | Unreg(t: nat, evtid: u32, key: Key)

  // ---- The reference: what every thread does, step by step ----

  // A call of thread t
  datatype Entry = Entry(t: nat, op: Op)

  // What an action makes of its thread. A thread that is in a call starts no
  // other; one that is in none does not proceed.
  predicate Goes(s: Stage, a: Action, s': Stage)
  {
    match a
    case Begin(_, evtid, r) =>
      if s.Outside? && Register(evtid, r).Accepted() then
        s' == SawEmpty(evtid, r) || (s'.Blank? && s' == Blank(s'.job, evtid, r))
      else s' == s
    case Proceed(_) =>
      (match s
       case Outside => s' == Outside
       case SawEmpty(evtid, r) => s'.Blank? && s' == Blank(s'.job, evtid, r)
       case Blank(job, evtid, r) => s' == Filled(job, evtid, r)
       case Filled(_, _, _) => s' == Outside)
    case Unreg(_, _, _) => s' == s
  }

  // The calls that get past their guards with this action
  function Started(threads: seq<Stage>, a: Action): (es: seq<Entry>)
    ensures |es| <= 1
  {
    if a.t >= |threads| || !threads[a.t].Outside? then []
    else match a
      case Begin(t, evtid, r) => if Register(evtid, r).Accepted() then [Entry(t, Register(evtid, r))] else []
      case Proceed(_) => []
      case Unreg(t, evtid, key) => [Entry(t, Unregister(evtid, key))]
  }

  // The calls whose lock section on the lists this action is
  function Done(threads: seq<Stage>, a: Action): (es: seq<Entry>)
    ensures |es| <= 1
  {
    if a.t >= |threads| then []
    else match a
      case Begin(_, _, _) => []
      case Proceed(t) => if threads[t].Filled? then [Entry(t, Register(threads[t].evtid, threads[t].r))] else []
      case Unreg(t, evtid, key) => if threads[t].Outside? then [Entry(t, Unregister(evtid, key))] else []
  }

  // The node that it allocates
  function NewNodes(threads: seq<Stage>, a: Action, threads': seq<Stage>): set<Ptr>
    requires |threads'| == |threads|
  {
    if a.Proceed? && a.t < |threads| && threads[a.t].SawEmpty? && threads'[a.t].Blank? then {threads'[a.t].job} else {}
  }

  ghost predicate Moves(threads: seq<Stage>, a: Action, threads': seq<Stage>)
  {
    && |threads'| == |threads|
    && (forall u :: 0 <= u < |threads| && u != a.t ==> threads'[u] == threads[u])
    && (a.t < |threads| ==> Goes(threads[a.t], a, threads'[a.t]))
  }

  // The threads; the calls begun; those that have had their lock section, in the
  // order of these; and every node ever allocated
  datatype World = World(threads: seq<Stage>, calls: seq<Entry>, log: seq<Entry>, nodes: set<Ptr>)

  ghost predicate Follows(w: World, a: Action, w': World)
  {
    && Moves(w.threads, a, w'.threads)
    && w'.calls == w.calls + Started(w.threads, a)
    && w'.log == w.log + Done(w.threads, a)
    && NewNodes(w.threads, a, w'.threads) !! w.nodes
    && w'.nodes == w.nodes + NewNodes(w.threads, a, w'.threads)
  }

  function Start(n: nat): World
  {
    World(seq(n, _ => Outside), [], [], {})
  }

  ghost predicate Runs(w: World, schedule: seq<Action>, w': World)
    decreases |schedule|
  {
    if schedule == [] then w' == w
    else
      var last := |schedule| - 1;
      exists mid :: Runs(w, schedule[..last], mid) && Follows(mid, schedule[last], w')
  }

  lemma RunsOn(w: World, schedule: seq<Action>, i: nat, mid: World, w': World)
    requires i < |schedule| && Runs(w, schedule[..i], mid) && Follows(mid, schedule[i], w')
    ensures Runs(w, schedule[..i + 1], w')
  {
    assert schedule[..i + 1][..i] == schedule[..i];
  }

  // The entries of thread t
  function Of(es: seq<Entry>, t: nat): seq<Op>
  {
    if es == [] then []
    else Of(es[..|es| - 1], t) + if es[|es| - 1].t == t then [es[|es| - 1].op] else []
  }

  function Ops(es: seq<Entry>): seq<Op>
  {
    seq(|es|, i requires 0 <= i < |es| => es[i].op)
  }

  // What an action does to the lists
  function Performed(l: Lists, done: seq<Entry>): Lists
    requires |done| <= 1
  {
    if done == [] then l else Apply(l, done[0].op)
  }

  function InFlight(s: Stage): seq<Op>
  {
    if s.Outside? then [] else [Register(s.evtid, s.r)]
  }

  // Every thread's calls have their lock sections in the order in which it makes
  // them, each has one, and no other call has: only the registration that the
  // thread is in may be missing.
  ghost predicate InOrder(w: World)
  {
    forall t :: 0 <= t < |w.threads| ==> Of(w.calls, t) == Of(w.log, t) + InFlight(w.threads[t])
  }

  // That of a step
  function By(es: seq<Entry>, t: nat): seq<Op>
    requires |es| <= 1
  {
    if es != [] && es[0].t == t then [es[0].op] else []
  }

  lemma OfSnoc(es: seq<Entry>, more: seq<Entry>, t: nat)
    requires |more| <= 1
    ensures Of(es + more, t) == Of(es, t) + By(more, t)
  {
    if more == [] {
      assert es + more == es;
    } else {
      assert (es + more)[..|es|] == es;
    }
  }

  // What a thread was in, or starts, it finishes with this step or is in now.
  lemma Conserved(threads: seq<Stage>, a: Action, threads': seq<Stage>, t: nat)
    requires t < |threads| && Moves(threads, a, threads')
    ensures InFlight(threads[t]) + By(Started(threads, a), t) == By(Done(threads, a), t) + InFlight(threads'[t])
  {}

  lemma Regroup(calls: seq<Op>, log: seq<Op>, was: seq<Op>, started: seq<Op>, done: seq<Op>, now: seq<Op>)
    requires calls == log + was && was + started == done + now
    ensures calls + started == log + done + now
  {
    assert calls + started == log + (was + started);
  }

  lemma ThreadKeepsOrder(w: World, a: Action, w': World, t: nat)
    requires t < |w.threads| && Follows(w, a, w') && Of(w.calls, t) == Of(w.log, t) + InFlight(w.threads[t])
    ensures Of(w'.calls, t) == Of(w'.log, t) + InFlight(w'.threads[t])
  {
    var started, done := Started(w.threads, a), Done(w.threads, a);
    OfSnoc(w.calls, started, t);
    OfSnoc(w.log, done, t);
    Conserved(w.threads, a, w'.threads, t);
    Regroup(Of(w.calls, t), Of(w.log, t), InFlight(w.threads[t]), By(started, t), By(done, t), InFlight(w'.threads[t]));
  }

  lemma StepKeepsOrder(w: World, a: Action, w': World)
    requires InOrder(w) && Follows(w, a, w')
    ensures InOrder(w')
  {
    forall t | 0 <= t < |w'.threads| ensures Of(w'.calls, t) == Of(w'.log, t) + InFlight(w'.threads[t]) {
      ThreadKeepsOrder(w, a, w', t);
    }
  }

  lemma {:induction false} RunKeepsOrder(n: nat, schedule: seq<Action>, w: World)
    requires Runs(Start(n), schedule, w)
    ensures InOrder(w) && |w.threads| == n
    decreases |schedule|
  {
    if schedule != [] {
      var last := |schedule| - 1;
      var mid :| Runs(Start(n), schedule[..last], mid) && Follows(mid, schedule[last], w);
      RunKeepsOrder(n, schedule[..last], mid);
      StepKeepsOrder(mid, schedule[last], w);
    }
  }

  // ---- Who holds what ----

  // The nodes in flight are held by one thread each: who says by which.
  ghost predicate Owned(b: Book, m: Store<Reg>, threads: seq<Stage>, who: map<Ptr, nat>)
  {
    && (forall n :: n in who <==> b.Holds(n))
    && (forall n :: n in who ==> who[n] < |threads| && threads[who[n]].HasJob() && threads[who[n]].job == n)
    && (forall t :: 0 <= t < |threads| && threads[t].HasJob() ==> threads[t].job in who && who[threads[t].job] == t)
    && (forall t :: 0 <= t < |threads| && threads[t].Filled? ==>
          threads[t].job in m && m[threads[t].job] == Cell(threads[t].r, NULL))
    && (forall t :: 0 <= t < |threads| ==> threads[t].Proper())
  }

  lemma GetsJob(b: Book, m: Store<Reg>, b': Book, m': Store<Reg>, threads: seq<Stage>, who: map<Ptr, nat>, t: nat,
                s: Stage)
    requires Owned(b, m, threads, who) && t < |threads| && !threads[t].HasJob() && s.Blank? && s.Proper()
    requires !b.Holds(s.job) && b'.Holds(s.job) && OthersHeld(b, m, b', m', s.job) && b'.at.Keys == m'.Keys
    ensures Owned(b', m', threads[t := s], who[s.job := t])
  {}

  lemma FillsJob(b: Book, m: Store<Reg>, m': Store<Reg>, threads: seq<Stage>, who: map<Ptr, nat>, t: nat, s: Stage)
    requires Owned(b, m, threads, who) && t < |threads| && threads[t].Blank?
    requires s == Filled(threads[t].job, threads[t].evtid, threads[t].r) && m' == m[s.job := Cell(s.r, NULL)]
    ensures Owned(b, m', threads[t := s], who)
  {}

  lemma LosesJob(b: Book, m: Store<Reg>, b': Book, m': Store<Reg>, threads: seq<Stage>, who: map<Ptr, nat>, t: nat)
    requires Owned(b, m, threads, who) && t < |threads| && threads[t].HasJob()
    requires !b'.Holds(threads[t].job) && OthersHeld(b, m, b', m', threads[t].job) && m'.Keys == m.Keys
    ensures Owned(b', m', threads[t := Outside], who - {threads[t].job})
  {}

  lemma NoJob(b: Book, m: Store<Reg>, b': Book, m': Store<Reg>, threads: seq<Stage>, who: map<Ptr, nat>, t: nat,
              s: Stage)
    requires Owned(b, m, threads, who) && t < |threads| && !threads[t].HasJob() && !s.HasJob() && s.Proper()
    requires OthersHeld(b, m, b', m', NULL) && NULL !in b.at && NULL !in b'.at && b'.at.Keys == m'.Keys
    ensures Owned(b', m', threads[t := s], who)
  {}

  // The first lock section finds a free node
  method EnterTaking(mng: EventMng, threads: seq<Stage>, t: nat, evtid: u32, r: Reg, ghost who: map<Ptr, nat>)
      returns (threads': seq<Stage>, ghost who': map<Ptr, nat>)
    requires mng.Valid() && t < |threads| && threads[t].Outside? && Register(evtid, r).Accepted()
    requires Owned(mng.book, mng.store, threads, who) && mng.freelist != NULL
    modifies mng
    ensures mng.Valid() && mng.book.lists == old(mng.book.lists) && mng.store == old(mng.store)
    ensures Owned(mng.book, mng.store, threads', who')
    ensures threads' == threads[t := Blank(old(mng.freelist), evtid, r)]
  {
    ghost var b := mng.book;
    var job := mng.TakeFree();
    threads', who' := threads[t := Blank(job, evtid, r)], who[job := t];
    GetsJob(b, mng.store, mng.book, mng.store, threads, who, t, Blank(job, evtid, r));
  }

  // The first lock section
  method Enter(mng: EventMng, threads: seq<Stage>, t: nat, evtid: u32, r: Reg, ghost who: map<Ptr, nat>)
      returns (threads': seq<Stage>, ghost who': map<Ptr, nat>)
    requires mng.Valid() && t < |threads| && threads[t].Outside? && Register(evtid, r).Accepted()
    requires Owned(mng.book, mng.store, threads, who)
    modifies mng
    ensures mng.Valid() && mng.book.lists == old(mng.book.lists) && mng.store == old(mng.store)
    ensures Owned(mng.book, mng.store, threads', who')
    ensures threads' == threads[t := if old(mng.freelist) == NULL then SawEmpty(evtid, r)
                                     else Blank(old(mng.freelist), evtid, r)]
  {
    if mng.freelist != NULL {
      threads', who' := EnterTaking(mng, threads, t, evtid, r, who);
    } else {
      threads', who' := threads[t := SawEmpty(evtid, r)], who;
      NoJob(mng.book, mng.store, mng.book, mng.store, threads, who, t, SawEmpty(evtid, r));
    }
  }

  // The nodes that are there are those that were, and what the action allocated.
  ghost predicate GetsNodes(m: Store<Reg>, threads: seq<Stage>, a: Action, threads': seq<Stage>, m': Store<Reg>)
    requires |threads'| == |threads|
  {
    && NewNodes(threads, a, threads') !! m.Keys
    && m'.Keys == m.Keys + NewNodes(threads, a, threads')
  }

  // The allocation, outside the lock
  method Allocate(mng: EventMng, threads: seq<Stage>, t: nat, ghost who: map<Ptr, nat>)
      returns (threads': seq<Stage>, job: Ptr, ghost who': map<Ptr, nat>)
    requires mng.Valid() && t < |threads| && threads[t].SawEmpty? && Owned(mng.book, mng.store, threads, who)
    modifies mng
    ensures mng.Valid() && mng.book.lists == old(mng.book.lists) && Owned(mng.book, mng.store, threads', who')
    ensures threads' == threads[t := Blank(job, threads[t].evtid, threads[t].r)]
    ensures job !in old(mng.store) && mng.store.Keys == old(mng.store).Keys + {job}
  {
    ghost var b, m := mng.book, mng.store;
    job := mng.NewNode();
    var s := Blank(job, threads[t].evtid, threads[t].r);
    threads', who' := threads[t := s], who[job := t];
    GetsJob(b, m, mng.book, mng.store, threads, who, t, s);
  }

  // Filling the node in, outside the lock
  method Fill(mng: EventMng, threads: seq<Stage>, t: nat, ghost who: map<Ptr, nat>) returns (threads': seq<Stage>)
    requires mng.Valid() && t < |threads| && threads[t].Blank? && Owned(mng.book, mng.store, threads, who)
    modifies mng
    ensures mng.Valid() && mng.book.lists == old(mng.book.lists) && Owned(mng.book, mng.store, threads', who)
    ensures threads' == threads[t := Filled(threads[t].job, threads[t].evtid, threads[t].r)]
    ensures mng.store.Keys == old(mng.store).Keys
  {
    ghost var b, m := mng.book, mng.store;
    var s := Filled(threads[t].job, threads[t].evtid, threads[t].r);
    mng.FillIn(s.job, s.r);
    threads' := threads[t := s];
    FillsJob(b, m, mng.store, threads, who, t, s);
  }

  // The second lock section
  method Link(mng: EventMng, threads: seq<Stage>, t: nat, ghost who: map<Ptr, nat>)
      returns (threads': seq<Stage>, ghost who': map<Ptr, nat>)
    requires mng.Valid() && t < |threads| && threads[t].Filled? && Owned(mng.book, mng.store, threads, who)
    modifies mng
    ensures mng.Valid() && Owned(mng.book, mng.store, threads', who') && threads' == threads[t := Outside]
    ensures mng.book.lists == Apply(old(mng.book.lists), Register(threads[t].evtid, threads[t].r))
    ensures mng.store.Keys == old(mng.store).Keys
  {
    ghost var b, m := mng.book, mng.store;
    mng.LinkCb(threads[t].job, threads[t].evtid);
    threads', who' := threads[t := Outside], who - {threads[t].job};
    LosesJob(b, m, mng.book, mng.store, threads, who, t);
  }

  // The thread's next step
  method Advance(mng: EventMng, threads: seq<Stage>, t: nat, ghost who: map<Ptr, nat>)
      returns (threads': seq<Stage>, ghost who': map<Ptr, nat>)
    requires mng.Valid() && t < |threads| && !threads[t].Outside? && Owned(mng.book, mng.store, threads, who)
    modifies mng
    ensures mng.Valid() && mng.book.lists == Performed(old(mng.book.lists), Done(threads, Proceed(t)))
    ensures Owned(mng.book, mng.store, threads', who') && Moves(threads, Proceed(t), threads')
    ensures GetsNodes(old(mng.store), threads, Proceed(t), threads', mng.store)
  {
    who' := who;
    match threads[t] {
      case SawEmpty(_, _) =>
        var job;
        threads', job, who' := Allocate(mng, threads, t, who);
      case Blank(_, _, _) =>
        threads' := Fill(mng, threads, t, who);
      case Filled(_, _, _) =>
        threads', who' := Link(mng, threads, t, who);
    }
  }

  // zcrt_event_unregister by a thread that holds nothing
  method Leave(mng: EventMng, threads: seq<Stage>, t: nat, evtid: u32, key: Key, ghost who: map<Ptr, nat>)
    requires mng.Valid() && t < |threads| && threads[t].Outside? && Owned(mng.book, mng.store, threads, who)
    modifies mng
    ensures mng.Valid() && mng.book.lists == Apply(old(mng.book.lists), Unregister(evtid, key))
    ensures Owned(mng.book, mng.store, threads, who) && mng.store.Keys == old(mng.store).Keys
  {
    ghost var b, m := mng.book, mng.store;
    var _ := Api.Unregister(mng, evtid, key);
    assert NULL !in m && NULL !in mng.store;
    NoJob(b, m, mng.book, mng.store, threads, who, t, Outside);
    assert threads[t := Outside] == threads;
  }

  method Step(mng: EventMng, threads: seq<Stage>, a: Action, ghost who: map<Ptr, nat>)
      returns (threads': seq<Stage>, ghost who': map<Ptr, nat>)
    requires mng.Valid() && Owned(mng.book, mng.store, threads, who)
    modifies mng
    ensures mng.Valid() && mng.book.lists == Performed(old(mng.book.lists), Done(threads, a))
    ensures Owned(mng.book, mng.store, threads', who') && Moves(threads, a, threads')
    ensures GetsNodes(old(mng.store), threads, a, threads', mng.store)
  {
    threads', who' := threads, who;
    if a.t < |threads| {
      match a {
        case Begin(t, evtid, r) =>
          if threads[t].Outside? && Register(evtid, r).Accepted() {
            threads', who' := Enter(mng, threads, t, evtid, r, who);
          }
        case Proceed(t) =>
          if !threads[t].Outside? {
            threads', who' := Advance(mng, threads, t, who);
          }
        case Unreg(t, evtid, key) =>
          if threads[t].Outside? {
            Leave(mng, threads, t, evtid, key, who);
          }
      }
    }
  }

  lemma LogOn(log: seq<Entry>, done: seq<Entry>)
    requires |done| <= 1
    ensures ApplyAll(NO_LISTS, Ops(log + done)) == Performed(ApplyAll(NO_LISTS, Ops(log)), done)
  {
    assert Ops(log + done) == Ops(log) + Ops(done);
    ApplyConcat(NO_LISTS, Ops(log), Ops(done));
    if done != [] {
      assert Ops(done) == [done[0].op] && [done[0].op][1..] == [];
    }
  }

  // The registry, the threads and the reference agree.
  ghost predicate Agree(mng: EventMng, threads: seq<Stage>, who: map<Ptr, nat>, w: World)
    reads mng
  {
    && mng.Valid() && Owned(mng.book, mng.store, threads, who)
    && w.threads == threads && mng.store.Keys == w.nodes
    && mng.book.lists == ApplyAll(NO_LISTS, Ops(w.log))
  }

  method Round(mng: EventMng, threads: seq<Stage>, a: Action, ghost who: map<Ptr, nat>, ghost w: World)
      returns (threads': seq<Stage>, ghost who': map<Ptr, nat>, ghost w': World)
    requires Agree(mng, threads, who, w)
    modifies mng
    ensures Agree(mng, threads', who', w') && Follows(w, a, w')
  {
    threads', who' := Step(mng, threads, a, who);
    LogOn(w.log, Done(threads, a));
    w' := World(threads', w.calls + Started(threads, a), w.log + Done(threads, a),
                w.nodes + NewNodes(threads, a, threads'));
  }

  // Any number of threads, any schedule: the code makes a run of the reference.
  // At its end, and so after every step, every node ever allocated is in one list
  // at one place or in the hands of one thread, and the lists are those of the
  // threads' calls, each thread's in its order, in the order of their lock
  // sections.
  method Interleave(n: nat, schedule: seq<Action>)
      returns (mng: EventMng, threads: seq<Stage>, ghost who: map<Ptr, nat>, ghost w: World)
    ensures fresh(mng) && mng.Valid() && Owned(mng.book, mng.store, threads, who)
    ensures Runs(Start(n), schedule, w) && w.threads == threads && |threads| == n && InOrder(w)
    ensures mng.store.Keys == w.nodes && mng.book.lists == ApplyAll(NO_LISTS, Ops(w.log))
    ensures forall e :: 0 <= e < ZCRT_MAX_EVT ==> mng.book.lists[e] == StableSort(Surviving([], Ops(w.log), e))
  {
    mng := new EventMng();
    threads, who, w := seq(n, _ => Outside), map[], Start(n);
    for i := 0 to |schedule|
      invariant fresh(mng) && Agree(mng, threads, who, w) && Runs(Start(n), schedule[..i], w)
    {
      ghost var before := w;
      threads, who, w := Round(mng, threads, schedule[i], who, w);
      RunsOn(Start(n), schedule, i, before, w);
    }
    assert schedule[..|schedule|] == schedule;
    RunKeepsOrder(n, schedule, w);
    forall e | 0 <= e < ZCRT_MAX_EVT ensures mng.book.lists[e] == StableSort(Surviving([], Ops(w.log), e)) {
      RunFromEmpty(Ops(w.log), e);
    }
  }

  lemma Quiescent(b: Book, m: Store<Reg>, threads: seq<Stage>, who: map<Ptr, nat>)
    requires Owned(b, m, threads, who) && forall t :: 0 <= t < |threads| ==> threads[t].Outside?
    ensures forall n :: !b.Holds(n)
  {
    forall n ensures !b.Holds(n) {
      assert n in who ==> threads[who[n]].HasJob();
    }
  }

  // ---- The end ----

  // zcrt_event_manage_delete, when no thread holds a node: every node is freed,
  // and none twice or after it was freed.
  method Delete(mng: EventMng?) returns (freed: seq<Ptr>)
    requires mng != null ==> mng.Valid() && forall n :: !mng.book.Holds(n)
    modifies mng
    ensures mng != null ==> mng.store == map[] && Distinct(freed) && forall n :: n in freed <==> n in old(mng.store)
  {
    freed := [];
    if mng == null {
      return;
    }
    mng.store, freed := FreeAll(mng.store, mng.evtlist, mng.freelist, mng.book);
  }

  // The end of a registry that threads have used and left
  method Shutdown(mng: EventMng, threads: seq<Stage>, ghost who: map<Ptr, nat>) returns (freed: seq<Ptr>)
    requires mng.Valid() && Owned(mng.book, mng.store, threads, who)
    requires forall t :: 0 <= t < |threads| ==> threads[t].Outside?
    modifies mng
    ensures mng.store == map[] && Distinct(freed) && forall n :: n in freed <==> n in old(mng.store)
  {
    Quiescent(mng.book, mng.store, threads, who);
    freed := Delete(mng);
  }

  // A registry from its creation to its end: if the schedule leaves no thread in
  // a call, all nodes ever allocated are freed, each once.
  method Lifetime(n: nat, schedule: seq<Action>)
      returns (threads: seq<Stage>, freed: seq<Ptr>, ghost w: World)
    ensures Runs(Start(n), schedule, w) && w.threads == threads && |threads| == n
    ensures (forall t :: 0 <= t < n ==> threads[t].Outside?) ==>
              Distinct(freed) && forall p :: p in freed <==> p in w.nodes
  {
    var mng;
    ghost var who;
    mng, threads, who, w := Interleave(n, schedule);
    freed := [];
    if forall t :: 0 <= t < n ==> threads[t].Outside? {
      freed := Shutdown(mng, threads, who);
    }
  }

  method FreeAll(m0: Store<Reg>, evtlist: seq<Ptr>, freelist: Ptr, ghost b: Book)
    returns (m: Store<Reg>, freed: seq<Ptr>)
    requires |evtlist| == ZCRT_MAX_EVT && Inv(b, m0, evtlist + [freelist]) && forall n :: !b.Holds(n)
    ensures m == map[] && Distinct(freed) && forall n :: n in freed <==> n in m0
  {
    ghost var heads := evtlist + [freelist];
    m, freed := m0, [];
    for e := 0 to ZCRT_MAX_EVT
      invariant FreedBefore(b.at, m0, m, freed, e, 0)
    {
      m, freed := FreeChain(m, evtlist[e], freed, b.chains, b.at, m0, heads, e);
    }
    m, freed := FreeChain(m, freelist, freed, b.chains, b.at, m0, heads, ZCRT_MAX_EVT);
    forall n ensures n !in HeldNodes(b.at) {
      assert !b.Holds(n);
    }
    AllFreed(b.chains, b.at, m0, m, freed);
  }
}
