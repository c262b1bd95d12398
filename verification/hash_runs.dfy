/**
 Runs of adding and removing: what a table holds afterwards, one class of equal
 entries at a time.
 */
module HashRuns {
  import opened Machine
  import opened Wrappers
  import opened AssocList
  import opened ZHash

  datatype Op<T> = AddOp(x: T) | RemoveOp(x: T)

  function Apply<T>(l: seq<T>, eq: Cmp<T>, op: Op<T>): seq<T>
  {
    match op
    case AddOp(x) => [x] + l
    case RemoveOp(x) => Drop(l, eq, x)
  }

  function ApplyAll<T>(l: seq<T>, eq: Cmp<T>, ops: seq<Op<T>>): seq<T>
    decreases |ops|
  {
    if ops == [] then l else ApplyAll(Apply(l, eq, ops[0]), eq, ops[1..])
  }

  // ---- The reference: a stack for each class ----

  // The adds of entries equal to y that no remove has taken back, newest first
  function Stack<T>(st: seq<T>, eq: Cmp<T>, ops: seq<Op<T>>, y: T): seq<T>
    decreases |ops|
  {
    if ops == [] then st else Stack(Push(st, eq, ops[0], y), eq, ops[1..], y)
  }

  function Push<T>(st: seq<T>, eq: Cmp<T>, op: Op<T>, y: T): seq<T>
  {
    if !eq(op.x, y) then st
    else match op
      case AddOp(x) => [x] + st
      case RemoveOp(_) => if st == [] then [] else st[1..]
  }

  function Top<T>(st: seq<T>): Option<T>
  {
    if st == [] then None else Some(st[0])
  }

  // The adds, less the removes that found something to take back
  function Balance<T>(eq: Cmp<T>, ops: seq<Op<T>>): int
    decreases |ops|
  {
    if ops == [] then 0
    else
      var before := ops[..|ops| - 1];
      match ops[|ops| - 1]
      case AddOp(_) => Balance(eq, before) + 1
      case RemoveOp(x) => Balance(eq, before) - if Stack([], eq, before, x) == [] then 0 else 1
  }

  // ---- The table is its stacks ----

  // The entries equal to y, in the order of the list
  function Class<T>(l: seq<T>, eq: Cmp<T>, y: T): seq<T>
  {
    if l == [] then [] else if eq(l[0], y) then [l[0]] + Class(l[1..], eq, y) else Class(l[1..], eq, y)
  }

  lemma {:induction false} FindIsTop<T>(l: seq<T>, eq: Cmp<T>, y: T)
    ensures Find(l, eq, y) == Top(Class(l, eq, y))
  {
    if l != [] { FindIsTop(l[1..], eq, y); }
  }

  // Removing takes the newest of its class and leaves the other classes alone.
  lemma {:induction false} ClassDropped<T(!new)>(l: seq<T>, eq: Cmp<T>, x: T, y: T)
    requires Equivalence(eq)
    ensures Class(Drop(l, eq, x), eq, y) == Push(Class(l, eq, y), eq, RemoveOp(x), y)
  {
    if l != [] {
      ClassDropped(l[1..], eq, x, y);
      assert eq(x, y) ==> (eq(l[0], x) <==> eq(l[0], y));
      if !eq(l[0], x) {
        assert ([l[0]] + Drop(l[1..], eq, x))[1..] == Drop(l[1..], eq, x);
      }
    }
  }

  lemma ClassApplied<T(!new)>(l: seq<T>, eq: Cmp<T>, op: Op<T>, y: T)
    requires Equivalence(eq)
    ensures Class(Apply(l, eq, op), eq, y) == Push(Class(l, eq, y), eq, op, y)
  {
    match op
    case AddOp(x) => assert ([x] + l)[1..] == l;
    case RemoveOp(x) => ClassDropped(l, eq, x, y);
  }

  lemma {:induction false} ClassIsStack<T(!new)>(l: seq<T>, eq: Cmp<T>, ops: seq<Op<T>>, y: T)
    requires Equivalence(eq)
    ensures Class(ApplyAll(l, eq, ops), eq, y) == Stack(Class(l, eq, y), eq, ops, y)
    decreases |ops|
  {
    if ops != [] {
      ClassApplied(l, eq, ops[0], y);
      ClassIsStack(Apply(l, eq, ops[0]), eq, ops[1..], y);
    }
  }

  // After every run of adds and removes a lookup returns the newest add of its
  // class that has not been taken back, whatever happened to other classes.
  lemma RunFinds<T(!new)>(eq: Cmp<T>, ops: seq<Op<T>>, y: T)
    requires Equivalence(eq)
    ensures Find(ApplyAll([], eq, ops), eq, y) == Top(Stack([], eq, ops, y))
  {
    FindIsTop(ApplyAll([], eq, ops), eq, y);
    ClassIsStack([], eq, ops, y);
  }

  lemma {:induction false} ApplySnoc<T>(l: seq<T>, eq: Cmp<T>, ops: seq<Op<T>>, op: Op<T>)
    ensures ApplyAll(l, eq, ops + [op]) == Apply(ApplyAll(l, eq, ops), eq, op)
    decreases |ops|
  {
    if ops == [] {
      assert [op][1..] == [] && [] + [op] == [op];
    } else {
      assert (ops + [op])[1..] == ops[1..] + [op];
      ApplySnoc(Apply(l, eq, ops[0]), eq, ops[1..], op);
    }
  }

  // And it holds as many entries as have not been taken back.
  lemma {:induction false} RunCounts<T(!new)>(eq: Cmp<T>, ops: seq<Op<T>>)
    requires Equivalence(eq)
    ensures |ApplyAll([], eq, ops)| == Balance(eq, ops)
    decreases |ops|
  {
    if ops != [] {
      var before, op := ops[..|ops| - 1], ops[|ops| - 1];
      assert ops == before + [op];
      RunCounts(eq, before);
      ApplySnoc([], eq, before, op);
      if op.RemoveOp? {
        RunFinds(eq, before, op.x);
        DropLength(ApplyAll([], eq, before), eq, op.x);
      }
    }
  }

  // ---- The code ----

  method Perform(ht: Hash, ops: seq<Op<Data>>)
    requires ht.Valid() && Respects(ht.eq, ht.key, ht.size)
    modifies ht, ht.index
    ensures ht.Valid() && ht.book.log == ApplyAll(old(ht.book.log), ht.eq, ops)
    decreases |ops|
  {
    if ops == [] {
      return;
    }
    match ops[0] {
      case AddOp(x) => var _ := ht.Add(x);
      case RemoveOp(x) => ht.Remove(x);
    }
    Perform(ht, ops[1..]);
  }

  // A new table after any run of zcrt_hash_add and zcrt_hash_remove
  method Run(size: u32, key: Data -> u32, eq: Cmp<Data>, ops: seq<Op<Data>>) returns (ht: Hash)
    requires size > 0 && Respects(eq, key, size) && Equivalence(eq)
    ensures fresh(ht) && ht.Valid() && ht.eq == eq
    ensures forall y :: Find(ht.book.log, eq, y) == Top(Stack([], eq, ops, y))
    ensures ht.count == Balance(eq, ops) % 0x1_0000_0000
  {
    ht := new Hash(size, key, eq);
    Perform(ht, ops);
    forall y ensures Find(ht.book.log, eq, y) == Top(Stack([], eq, ops, y)) {
      RunFinds(eq, ops, y);
    }
    RunCounts(eq, ops);
    CountedIs(|ht.book.log|);
  }
}
