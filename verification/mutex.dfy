/**
 The recursive mutex of zcrtlib/zcrt_os_kernal.c as a protocol: any number of
 threads run zcrt_mutex_lock, zcrt_mutex_unlock and zcrt_mutex_trylock, and the
 reads and writes of the shared fields interleave freely.
 */
module KernelMutex {

  // current->pid; zero, which owner holds when nobody claims it, is no thread.
  type Tid = t: nat | t > 0 witness 1

  // Where a thread stands in a call
  datatype Pc =
    | Out        // in none of the functions
    | Reenter    // lock: owner was this thread; the count is to be incremented
    | Claim      // lock: owner was another; owner is to be written
    | Wait       // lock: owner is written; in down()
    | Leave      // unlock: the count was positive and is to be decremented
    | Clear      // unlock: the count was zero; owner is to be cleared
    | Raise      // unlock: owner is cleared; up() is to be called

  // depth: how many lock calls have returned and not been undone by an unlock
  datatype Thread = Thread(pc: Pc, depth: nat)

  datatype State = State(owner: nat, count: int, sem: nat, threads: map<Tid, Thread>)
  {
    function Depth(t: Tid): nat { if t in threads then threads[t].depth else 0 }
    function At(t: Tid): Pc { if t in threads then threads[t].pc else Out }
    function Set(t: Tid, pc: Pc, depth: nat): State { this.(threads := threads[t := Thread(pc, depth)]) }
  }

  datatype Action =
    | LockRead(t: Tid) | Increment(t: Tid) | WriteOwner(t: Tid) | Down(t: Tid)
    | UnlockRead(t: Tid) | Decrement(t: Tid) | ClearOwner(t: Tid) | Up(t: Tid)
    | TryLock(t: Tid, success: bool)

  // A thread starts a call when it is in none, unlocks only what it has locked,
  // and gets past down() only when the semaphore is up. down_trylock succeeds
  // exactly then.
  predicate Enabled(s: State, a: Action)
  {
    a.t in s.threads &&
    match a
    case LockRead(t) => s.At(t) == Out
    case TryLock(t, success) => s.At(t) == Out && success == (s.sem > 0)
    case UnlockRead(t) => s.At(t) == Out && s.Depth(t) > 0
    case Increment(t) => s.At(t) == Reenter
    case WriteOwner(t) => s.At(t) == Claim
    case Down(t) => s.At(t) == Wait && s.sem > 0
    case Decrement(t) => s.At(t) == Leave
    case ClearOwner(t) => s.At(t) == Clear
    case Up(t) => s.At(t) == Raise
  }

  function Next(s: State, a: Action): State
    requires Enabled(s, a)
  {
    var d := s.Depth(a.t);
    match a
    case LockRead(t) => s.Set(t, if s.owner == t then Reenter else Claim, d)
    case Increment(t) => s.Set(t, Out, d + 1).(count := s.count + 1)
    case WriteOwner(t) => s.Set(t, Wait, d).(owner := t)
    case Down(t) => s.Set(t, Out, d + 1).(sem := s.sem - 1)
    case UnlockRead(t) => s.Set(t, if s.count > 0 then Leave else Clear, d)
    case Decrement(t) => s.Set(t, Out, if d > 0 then d - 1 else 0).(count := s.count - 1)
    case ClearOwner(t) => s.Set(t, Raise, d).(owner := 0)
    case Up(t) => s.Set(t, Out, if d > 0 then d - 1 else 0).(sem := s.sem + 1)
    case TryLock(t, success) => if success then s.Set(t, Out, d + 1).(sem := s.sem - 1) else s
  }

  // zcrt_mutex_create, before any thread calls
  predicate Initial(s: State)
  {
    s.owner == 0 && s.count == 0 && s.sem == 1 && forall t :: t in s.threads ==> s.threads[t] == Thread(Out, 0)
  }

  ghost predicate Runs(s: State, schedule: seq<Action>, s': State)
    decreases schedule
  {
    if schedule == [] then s == s'
    else Enabled(s, schedule[0]) && Runs(Next(s, schedule[0]), schedule[1..], s')
  }

  ghost predicate Reachable(s: State)
  {
    exists s0, schedule :: Initial(s0) && Runs(s0, schedule, s)
  }

  // ---- The invariant ----

  // One token: it is in the semaphore, or exactly one thread has it.
  ghost predicate OneToken(s: State)
  {
    && s.sem <= 1
    && (s.sem == 1 ==> forall t: Tid :: s.Depth(t) == 0)
    && (s.sem == 0 ==> exists h: Tid :: s.Depth(h) > 0)
    && (forall t: Tid, u: Tid :: s.Depth(t) > 0 && s.Depth(u) > 0 ==> t == u)
  }

  // Owner names a thread only between its own write and its own clearing; it
  // need not name the holder.
  ghost predicate OwnerIsSelf(s: State)
  {
    forall t: Tid :: s.owner == t ==> s.At(t) == Wait || (s.Depth(t) > 0 && s.At(t) != Raise)
  }

  // The count is the holder's nesting depth less one, and zero while the
  // semaphore is up.
  ghost predicate CountIsDepth(s: State)
  {
    && (s.sem == 1 ==> s.count == 0)
    && (forall t: Tid :: s.Depth(t) > 0 ==> s.count == s.Depth(t) - 1)
  }

  // Only the holder is in the parts of the calls that touch the count or
  // release, and it releases at depth one.
  ghost predicate PathsAreHeld(s: State)
  {
    forall t: Tid ::
      && (s.At(t) in {Reenter, Leave, Clear, Raise} ==> s.Depth(t) > 0)
      && (s.At(t) == Leave ==> s.Depth(t) > 1)
      && (s.At(t) in {Clear, Raise} ==> s.Depth(t) == 1)
  }

  ghost predicate Inv(s: State)
  {
    OneToken(s) && OwnerIsSelf(s) && CountIsDepth(s) && PathsAreHeld(s)
  }

  lemma Frame(s: State, a: Action, u: Tid)
    requires Enabled(s, a) && u != a.t
    ensures Next(s, a).Depth(u) == s.Depth(u) && Next(s, a).At(u) == s.At(u)
  {}

  lemma StepKeepsToken(s: State, a: Action)
    requires Inv(s) && Enabled(s, a)
    ensures OneToken(Next(s, a))
  {
    var s', t := Next(s, a), a.t;
    forall u: Tid | u != t ensures s'.Depth(u) == s.Depth(u) { Frame(s, a, u); }
    if s'.sem == 0 && s'.Depth(t) == 0 {
      var h: Tid :| s.Depth(h) > 0;
      assert s'.Depth(h) > 0;
    }
  }

  lemma StepKeepsRest(s: State, a: Action)
    requires Inv(s) && Enabled(s, a)
    ensures OwnerIsSelf(Next(s, a)) && CountIsDepth(Next(s, a)) && PathsAreHeld(Next(s, a))
  {
    var s', t := Next(s, a), a.t;
    forall u: Tid | u != t ensures s'.Depth(u) == s.Depth(u) && s'.At(u) == s.At(u) { Frame(s, a, u); }
  }

  lemma {:induction false} RunKeepsInv(s: State, schedule: seq<Action>, s': State)
    requires Inv(s) && Runs(s, schedule, s')
    ensures Inv(s')
    decreases schedule
  {
    if schedule != [] {
      StepKeepsToken(s, schedule[0]);
      StepKeepsRest(s, schedule[0]);
      RunKeepsInv(Next(s, schedule[0]), schedule[1..], s');
    }
  }

  lemma ReachableInv(s: State)
    requires Reachable(s)
    ensures Inv(s)
  {
    var s0, schedule :| Initial(s0) && Runs(s0, schedule, s);
    assert forall t: Tid :: s0.Depth(t) == 0 && s0.At(t) == Out;
    RunKeepsInv(s0, schedule, s);
  }

  lemma {:induction false} RunsSnoc(s: State, schedule: seq<Action>, s': State, a: Action)
    requires Runs(s, schedule, s') && Enabled(s', a)
    ensures Runs(s, schedule + [a], Next(s', a))
    decreases schedule
  {
    if schedule == [] {
      assert Runs(Next(s, a), [], Next(s', a));
      assert [a][1..] == [];
    } else {
      RunsSnoc(Next(s, schedule[0]), schedule[1..], s', a);
      assert (schedule + [a])[1..] == schedule[1..] + [a];
    }
  }

  lemma ReachableStep(s: State, a: Action)
    requires Reachable(s) && Enabled(s, a)
    ensures Reachable(Next(s, a))
  {
    var s0, schedule :| Initial(s0) && Runs(s0, schedule, s);
    RunsSnoc(s0, schedule, s, a);
  }

  // ---- What the mutex is for ----

  // In every interleaving at most one thread holds the mutex, and none does
  // while the semaphore is up.
  lemma MutualExclusion(s: State, t: Tid, u: Tid)
    requires Reachable(s) && s.Depth(t) > 0 && s.Depth(u) > 0
    ensures t == u && s.sem == 0
  {
    ReachableInv(s);
  }

  // A thread that finds itself in owner, and so takes the path that does not
  // touch the semaphore, really holds the mutex.
  lemma ReentryIsHeld(s: State, t: Tid)
    requires Reachable(s) && Enabled(s, LockRead(t)) && s.owner == t
    ensures s.Depth(t) > 0
  {
    ReachableInv(s);
  }

  // The count is the holder's depth less one whenever it holds, so the unlock
  // that raises the semaphore is the one that undoes the outermost lock.
  lemma CountFollowsDepth(s: State, t: Tid)
    requires Reachable(s) && s.Depth(t) > 0
    ensures s.count == s.Depth(t) - 1
    ensures Enabled(s, UnlockRead(t)) ==> (Next(s, UnlockRead(t)).At(t) == Clear <==> s.Depth(t) == 1)
    ensures Enabled(s, Up(t)) ==> s.Depth(t) == 1
  {
    ReachableInv(s);
  }

  // Only the holder ever reads or writes the count, so its increments and
  // decrements need not be atomic.
  lemma CountIsPrivate(s: State, a: Action)
    requires Reachable(s) && Enabled(s, a) && (a.Increment? || a.Decrement? || a.UnlockRead?)
    ensures s.Depth(a.t) > 0 && forall u: Tid :: s.Depth(u) > 0 ==> u == a.t
  {
    ReachableInv(s);
  }

  // ---- What a schedule comes to ----

  // By how much an action changes the depth of thread t, the semaphore and the
  // count
  function Gain(a: Action, t: Tid): int
  {
    if a.t != t then 0
    else match a
      case Down(_) => 1
      case Increment(_) => 1
      case TryLock(_, success) => if success then 1 else 0
      case Up(_) => -1
      case Decrement(_) => -1
      case _ => 0
  }

  function SemGain(a: Action): int
  {
    match a
    case Down(_) => -1
    case TryLock(_, success) => if success then -1 else 0
    case Up(_) => 1
    case _ => 0
  }

  function CountGain(a: Action): int
  {
    if a.Increment? then 1 else if a.Decrement? then -1 else 0
  }

  function Total(gain: Action -> int, schedule: seq<Action>): int
  {
    if schedule == [] then 0 else gain(schedule[0]) + Total(gain, schedule[1..])
  }

  // What the owner field holds after the last write to it
  function LastOwner(owner: nat, schedule: seq<Action>): nat
  {
    if schedule == [] then owner
    else match schedule[|schedule| - 1]
      case WriteOwner(t) => t
      case ClearOwner(_) => 0
      case _ => LastOwner(owner, schedule[..|schedule| - 1])
  }

  lemma StepAccounts(s: State, a: Action, t: Tid)
    requires Inv(s) && Enabled(s, a)
    ensures Next(s, a).Depth(t) == s.Depth(t) + Gain(a, t)
    ensures Next(s, a).sem == s.sem + SemGain(a) && Next(s, a).count == s.count + CountGain(a)
  {
    if a.t != t { Frame(s, a, t); }
  }

  // Over every run each thread is as much deeper as it has acquired the mutex
  // more often than released it; the semaphore and the count follow likewise.
  lemma {:induction false} RunAccounts(s: State, schedule: seq<Action>, s': State, t: Tid)
    requires Inv(s) && Runs(s, schedule, s')
    ensures s'.Depth(t) - s.Depth(t) == Total(a => Gain(a, t), schedule)
    ensures s'.sem - s.sem == Total(SemGain, schedule) && s'.count - s.count == Total(CountGain, schedule)
    decreases schedule
  {
    if schedule != [] {
      var a := schedule[0];
      StepAccounts(s, a, t);
      StepKeepsToken(s, a);
      StepKeepsRest(s, a);
      RunAccounts(Next(s, a), schedule[1..], s', t);
    }
  }

  lemma {:induction false} RunOwner(s: State, schedule: seq<Action>, s': State)
    requires Runs(s, schedule, s')
    ensures s'.owner == LastOwner(s.owner, schedule)
    decreases schedule
  {
    if schedule != [] {
      RunOwner(Next(s, schedule[0]), schedule[1..], s');
      OwnerCons(s.owner, Next(s, schedule[0]).owner, schedule);
    }
  }

  lemma {:induction false} OwnerCons(owner: nat, next: nat, schedule: seq<Action>)
    requires schedule != [] && next == LastOwner(owner, schedule[..1])
    ensures LastOwner(owner, schedule) == LastOwner(next, schedule[1..])
    decreases schedule
  {
    var n := |schedule| - 1;
    if n > 0 {
      var last := schedule[n];
      assert schedule[1..][n - 1] == last && schedule[1..][..n - 1] == schedule[..n][1..];
      if !last.WriteOwner? && !last.ClearOwner? {
        assert schedule[..n][..1] == schedule[..1];
        OwnerCons(owner, next, schedule[..n]);
      }
    } else {
      assert schedule[..1] == schedule;
    }
  }

  // ---- An unlock frees the mutex ----

  ghost predicate Without(schedule: seq<Action>, t: Tid)
  {
    forall i :: 0 <= i < |schedule| ==> schedule[i].t != t
  }

  lemma {:induction false} OthersRun(s: State, schedule: seq<Action>, s': State, t: Tid)
    requires Inv(s) && Runs(s, schedule, s') && Without(schedule, t) && t in s.threads
    ensures Inv(s') && s'.At(t) == s.At(t) && s'.Depth(t) == s.Depth(t) && t in s'.threads
    decreases schedule
  {
    if schedule != [] {
      var a := schedule[0];
      StepKeepsToken(s, a);
      StepKeepsRest(s, a);
      Frame(s, a, t);
      OthersRun(Next(s, a), schedule[1..], s', t);
    }
  }

  // Nobody holds the mutex, and whoever waits can have it.
  ghost predicate IsFree(s: State)
  {
    && s.sem == 1 && (forall u: Tid :: s.Depth(u) == 0)
    && (forall u: Tid :: u in s.threads && s.At(u) == Wait ==> Enabled(s, Down(u)) && Next(s, Down(u)).Depth(u) == 1)
  }

  // The unlock of a thread that holds at depth one gets through and frees the
  // mutex, whatever the others do between its steps.
  lemma UnlockFrees(s: State, t: Tid, xs: seq<Action>, s1: State, ys: seq<Action>, s2: State)
    requires Reachable(s) && Enabled(s, UnlockRead(t)) && s.Depth(t) == 1 && Without(xs, t) && Without(ys, t)
    requires Runs(Next(s, UnlockRead(t)), xs, s1)
    requires Enabled(s1, ClearOwner(t)) ==> Runs(Next(s1, ClearOwner(t)), ys, s2)
    ensures Enabled(s1, ClearOwner(t)) && Enabled(s2, Up(t)) && IsFree(Next(s2, Up(t)))
  {
    ReachableInv(s);
    StepKeepsToken(s, UnlockRead(t));
    StepKeepsRest(s, UnlockRead(t));
    OthersRun(Next(s, UnlockRead(t)), xs, s1, t);
    StepKeepsToken(s1, ClearOwner(t));
    StepKeepsRest(s1, ClearOwner(t));
    OthersRun(Next(s1, ClearOwner(t)), ys, s2, t);
    UpFrees(s2, t);
  }

  lemma UpFrees(s: State, t: Tid)
    requires Inv(s) && Enabled(s, Up(t))
    ensures IsFree(Next(s, Up(t)))
  {
    StepKeepsToken(s, Up(t));
    StepAccounts(s, Up(t), t);
  }

  // ---- What it is not ----

  // The holder inside a nested lock that did not find itself in owner
  ghost predicate Stuck(s: State, h: Tid)
  {
    Inv(s) && s.Depth(h) > 0 && s.At(h) in {Claim, Wait}
  }

  lemma {:induction false} StaysStuck(s: State, schedule: seq<Action>, s': State, h: Tid)
    requires Stuck(s, h) && Runs(s, schedule, s')
    ensures Stuck(s', h) && s'.Depth(h) == s.Depth(h) && s'.sem == 0
    decreases schedule
  {
    if schedule != [] {
      var a := schedule[0];
      StepKeepsToken(s, a);
      StepKeepsRest(s, a);
      if a.t != h { Frame(s, a, h); }
      StaysStuck(Next(s, a), schedule[1..], s', h);
    }
  }

  // Some continuation has h one lock deeper than now.
  ghost predicate CanDeepen(s: State, h: Tid)
  {
    exists schedule, s' :: Runs(s, schedule, s') && s'.Depth(h) == s.Depth(h) + 1
  }

  // A holder's nested lock returns, after its next step and with the depth one
  // higher, exactly when owner still names the holder where it is read.
  // Otherwise it never returns in any continuation, and no other thread ever
  // gets the mutex either.
  lemma NestedLockReturns(s: State, h: Tid)
    requires Reachable(s) && s.Depth(h) > 0 && Enabled(s, LockRead(h))
    ensures CanDeepen(Next(s, LockRead(h)), h) <==> s.owner == h
    ensures s.owner != h ==>
              forall schedule, s', u: Tid :: Runs(Next(s, LockRead(h)), schedule, s') && u != h ==> s'.Depth(u) == 0
  {
    ReachableInv(s);
    var s1 := Next(s, LockRead(h));
    StepKeepsToken(s, LockRead(h));
    StepKeepsRest(s, LockRead(h));
    if s.owner == h {
      var s2 := Next(s1, Increment(h));
      assert Runs(s2, [], s2);
      assert Runs(s1, [Increment(h)], s2);
      assert s2.Depth(h) == s1.Depth(h) + 1;
    } else {
      forall schedule, s' | Runs(s1, schedule, s')
        ensures s'.Depth(h) == s.Depth(h)
      {
        StaysStuck(s1, schedule, s', h);
      }
      forall schedule, s', u: Tid | Runs(s1, schedule, s') && u != h
        ensures s'.Depth(u) == 0
      {
        StaysStuck(s1, schedule, s', h);
      }
    }
  }

  // Owner need not name the holder: thread 2 overwrites it while waiting.
  lemma OwnerIsNotHolder()
    ensures exists s :: Reachable(s) && s.Depth(1) > 0 && s.owner == 2 && Enabled(s, LockRead(1))
  {
    var s0 := State(0, 0, 1, map[1 := Thread(Out, 0), 2 := Thread(Out, 0)]);
    assert Initial(s0) && Runs(s0, [], s0);
    ReachableStep(s0, LockRead(1));
    var s1 := Next(s0, LockRead(1));
    ReachableStep(s1, WriteOwner(1));
    var s2 := Next(s1, WriteOwner(1));
    ReachableStep(s2, Down(1));
    var s3 := Next(s2, Down(1));
    ReachableStep(s3, LockRead(2));
    var s4 := Next(s3, LockRead(2));
    ReachableStep(s4, WriteOwner(2));
    var s5 := Next(s4, WriteOwner(2));
    assert Reachable(s5) && s5.owner == 2;
  }

  // ---- The code, one shared access at a time ----

  // The mutex and, for each thread, where it stands in lock or unlock. Each
  // method is the piece of code between two shared accesses.
  class Mutex {
    var owner: nat
    var recurseCount: int
    var sem: nat
    ghost var threads: map<Tid, Thread>

    ghost function Abs(): State
      reads this
    {
      State(owner, recurseCount, sem, threads)
    }

    // zcrt_mutex_create
    constructor (ghost tids: set<Tid>)
      ensures Initial(Abs()) && threads.Keys == tids
    {
      owner, recurseCount, sem := 0, 0, 1;
      threads := map t | t in tids :: Thread(Out, 0);
    }

    // How often thread t holds the mutex has changed by delta, and for no other.
    twostate predicate Deeper(t: Tid, delta: int)
      reads this
    {
      forall u: Tid :: Abs().Depth(u) == old(Abs().Depth(u)) + if u == t then delta else 0
    }

    // Move a thread on, with its depth changed by delta.
    ghost method Move(t: Tid, pc: Pc, delta: int)
      requires t in threads && threads[t].depth + delta >= 0
      modifies this`threads
      ensures threads == old(threads)[t := Thread(pc, old(threads)[t].depth + delta)]
    {
      threads := threads[t := Thread(pc, threads[t].depth + delta)];
    }

    // if (sem->owner == selfid)
    method StartLock(selfid: Tid) returns (mine: bool)
      requires Enabled(Abs(), LockRead(selfid))
      modifies this
      ensures Abs() == Next(old(Abs()), LockRead(selfid)) && mine == (old(owner) == selfid)
      ensures owner == old(owner) && recurseCount == old(recurseCount) && sem == old(sem)
    {
      mine := owner == selfid;
      Move(selfid, if mine then Reenter else Claim, 0);
    }

    // sem->recurse_count++
    method LockAgain(selfid: Tid)
      requires Enabled(Abs(), Increment(selfid))
      modifies this
      ensures Abs() == Next(old(Abs()), Increment(selfid))
      ensures recurseCount == old(recurseCount) + 1 && sem == old(sem) && owner == old(owner)
      ensures Deeper(selfid, 1)
    {
      recurseCount := recurseCount + 1;
      Move(selfid, Out, 1);
    }

    // sem->owner = selfid
    method TakeOwner(selfid: Tid)
      requires Enabled(Abs(), WriteOwner(selfid))
      modifies this
      ensures Abs() == Next(old(Abs()), WriteOwner(selfid))
      ensures owner == selfid && recurseCount == old(recurseCount) && sem == old(sem)
    {
      owner := selfid;
      Move(selfid, Wait, 0);
    }

    // down(&sem->sem), where it returns
    method TakeSem(selfid: Tid)
      requires Enabled(Abs(), Down(selfid))
      modifies this
      ensures Abs() == Next(old(Abs()), Down(selfid))
      ensures sem == old(sem) - 1 && owner == old(owner) && recurseCount == old(recurseCount)
      ensures Deeper(selfid, 1)
    {
      sem := sem - 1;
      Move(selfid, Out, 1);
    }

    // if (sem->recurse_count > 0)
    method StartUnlock(selfid: Tid) returns (nested: bool)
      requires Enabled(Abs(), UnlockRead(selfid))
      modifies this
      ensures Abs() == Next(old(Abs()), UnlockRead(selfid)) && nested == (old(recurseCount) > 0)
      ensures owner == old(owner) && recurseCount == old(recurseCount) && sem == old(sem)
    {
      nested := recurseCount > 0;
      Move(selfid, if nested then Leave else Clear, 0);
    }

    // sem->recurse_count--
    method UnlockNested(selfid: Tid)
      requires Enabled(Abs(), Decrement(selfid)) && Inv(Abs())
      modifies this
      ensures Abs() == Next(old(Abs()), Decrement(selfid))
      ensures recurseCount == old(recurseCount) - 1 && sem == old(sem) && owner == old(owner)
      ensures Deeper(selfid, -1)
    {
      recurseCount := recurseCount - 1;
      Move(selfid, Out, -1);
    }

    // sem->owner = 0
    method DropOwner(selfid: Tid)
      requires Enabled(Abs(), ClearOwner(selfid))
      modifies this
      ensures Abs() == Next(old(Abs()), ClearOwner(selfid))
      ensures owner == 0 && recurseCount == old(recurseCount) && sem == old(sem)
    {
      owner := 0;
      Move(selfid, Raise, 0);
    }

    // up(&sem->sem)
    method GiveSem(selfid: Tid)
      requires Enabled(Abs(), Up(selfid)) && Inv(Abs())
      modifies this
      ensures Abs() == Next(old(Abs()), Up(selfid))
      ensures sem == old(sem) + 1 && owner == old(owner) && recurseCount == old(recurseCount)
      ensures Deeper(selfid, -1)
    {
      sem := sem + 1;
      Move(selfid, Out, -1);
    }

    // zcrt_mutex_trylock: true for EZCRTErr_success. Owner is not written.
    method TryTake(selfid: Tid) returns (success: bool)
      requires Enabled(Abs(), TryLock(selfid, sem > 0))
      modifies this
      ensures success == (old(sem) > 0) && Abs() == Next(old(Abs()), TryLock(selfid, success))
      ensures sem == (if success then old(sem) - 1 else old(sem))
      ensures owner == old(owner) && recurseCount == old(recurseCount)
      ensures Deeper(selfid, if success then 1 else 0)
    {
      success := sem > 0;
      if success {
        sem := sem - 1;
        Move(selfid, Out, 1);
      }
    }

    // Any interleaving of the pieces: what holds of every reachable state holds
    // of the mutex after it.
    method Interleave(schedule: seq<Action>, ghost end: State)
      requires Reachable(Abs()) && Runs(Abs(), schedule, end)
      modifies this
      ensures Abs() == end && Reachable(end)
      ensures sem - old(sem) == Total(SemGain, schedule)
    {
      ghost var rest := schedule;
      ReachableInv(Abs());
      RunAccounts(Abs(), schedule, end, 1);
      for i := 0 to |schedule|
        invariant rest == schedule[i..] && Reachable(Abs()) && Runs(Abs(), rest, end)
      {
        ReachableInv(Abs());
        ReachableStep(Abs(), schedule[i]);
        match schedule[i] {
          case LockRead(t) => var _ := StartLock(t);
          case Increment(t) => LockAgain(t);
          case WriteOwner(t) => TakeOwner(t);
          case Down(t) => TakeSem(t);
          case UnlockRead(t) => var _ := StartUnlock(t);
          case Decrement(t) => UnlockNested(t);
          case ClearOwner(t) => DropOwner(t);
          case Up(t) => GiveSem(t);
          case TryLock(t, _) => var _ := TryTake(t);
        }
        rest := rest[1..];
      }
    }
  }
}
