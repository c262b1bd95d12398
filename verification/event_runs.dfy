/**
 Runs of registering and unregistering, over the lists of all events, and the
 log of what is left of them.
 */
module EventRuns {
  import opened Wrappers
  import opened Machine
  import opened Chains
  import opened EventOrder

  datatype Op = Register(evtid: nat, r: Reg) | Unregister(evtid: nat, key: Key)
  {
    // The guards of both functions
    predicate Accepted()
    {
      evtid < ZCRT_MAX_EVT && (if Register? then r.fn != NULL else key.fn != NULL)
    }
  }

  type Lists = l: seq<seq<Reg>> | |l| == ZCRT_MAX_EVT witness seq(ZCRT_MAX_EVT, _ => [])

  function Apply(l: Lists, op: Op): Lists
  {
    if !op.Accepted() then l
    else match op
      case Register(e, r) => l[e := Insert(l[e], r)]
      case Unregister(e, key) => l[e := RemoveFirst(l[e], key)]
  }

  // The first listener of event e with these fields is taken out, and no other.
  ghost predicate TakesFrom(l: Lists, e: nat, fn: nat, p1: nat, p2: nat, l': Lists)
    requires e < 256
  {
    && TakesFirst(l[e], fn, p1, p2, l'[e])
    && forall i :: 0 <= i < 256 && i != e ==> l'[i] == l[i]
  }

  lemma UnregisterTakes(l: Lists, e: nat, key: Key)
    requires e < 256 && key.fn != 0
    ensures TakesFrom(l, e, key.fn, key.p1, key.p2, Apply(l, Unregister(e, key)))
  {
    RemoveTakesFirst(l[e], key);
  }

  function ApplyAll(l: Lists, ops: seq<Op>): Lists
    decreases |ops|
  {
    if ops == [] then l else ApplyAll(Apply(l, ops[0]), ops[1..])
  }

  lemma {:induction false} ApplyConcat(l: Lists, a: seq<Op>, b: seq<Op>)
    ensures ApplyAll(l, a + b) == ApplyAll(ApplyAll(l, a), b)
    decreases |a|
  {
    if a == [] {
      assert a + b == b;
    } else {
      ApplyConcat(Apply(l, a[0]), a[1..], b);
      assert (a + b)[1..] == a[1..] + b;
    }
  }

  // ---- The log ----

  // Of the registrations that match, the earliest of the highest priority
  function Victim(log: seq<Reg>, key: Key): (v: Option<nat>)
    ensures v.None? ==> NoMatch(log, key)
    ensures v.Some? ==> IsVictim(log, key, v.value)
  {
    if log == [] then None
    else match Victim(log[1..], key)
      case None => if key.Matches(log[0]) then Some(0) else None
      case Some(v) => if key.Matches(log[0]) && log[0].pri >= log[v + 1].pri then Some(0) else Some(v + 1)
  }

  // The registrations on event e that have not been taken back
  function Surviving(log: seq<Reg>, ops: seq<Op>, e: nat): seq<Reg>
    decreases |ops|
  {
    if ops == [] then log
    else if !ops[0].Accepted() || ops[0].evtid != e then Surviving(log, ops[1..], e)
    else match ops[0]
      case Register(_, r) => Surviving(log + [r], ops[1..], e)
      case Unregister(_, key) =>
        match Victim(log, key)
        case None => Surviving(log, ops[1..], e)
        case Some(v) => Surviving(Without(log, v), ops[1..], e)
  }

  // After every run each list is the stable sort of its surviving registrations.
  lemma {:induction false} RunSorts(l: Lists, log: seq<Reg>, ops: seq<Op>, e: nat)
    requires e < ZCRT_MAX_EVT && l[e] == StableSort(log)
    ensures ApplyAll(l, ops)[e] == StableSort(Surviving(log, ops, e))
    decreases |ops|
  {
    if ops != [] {
      var l' := Apply(l, ops[0]);
      if !ops[0].Accepted() || ops[0].evtid != e {
        RunSorts(l', log, ops[1..], e);
      } else {
        match ops[0]
        case Register(_, r) =>
          InsertSorts(log, r);
          RunSorts(l', log + [r], ops[1..], e);
        case Unregister(_, key) =>
          match Victim(log, key) {
            case None =>
              RemoveNothing(log, key);
              RunSorts(l', log, ops[1..], e);
            case Some(v) =>
              RemoveSorts(log, key, v);
              RunSorts(l', Without(log, v), ops[1..], e);
          }
      }
    }
  }

  const NO_LISTS: Lists := seq(ZCRT_MAX_EVT, _ => [])

  lemma RunFromEmpty(ops: seq<Op>, e: nat)
    requires e < ZCRT_MAX_EVT
    ensures ApplyAll(NO_LISTS, ops)[e] == StableSort(Surviving([], ops, e))
  {
    NothingSorted(0x100);
    RunSorts(NO_LISTS, [], ops, e);
  }
}
