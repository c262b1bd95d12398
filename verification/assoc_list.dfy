/**
 The reference of the hash table: a list of entries, newest first, under a
 comparison that need not be equality.
 */
module AssocList {
  import opened Machine
  import opened Wrappers

  // hash_cmp(entry, key) == 0
  type Cmp<!T> = (T, T) -> bool

  ghost predicate Equivalence<T(!new)>(eq: Cmp<T>)
  {
    && (forall x :: eq(x, x))
    && (forall x, y :: eq(x, y) ==> eq(y, x))
    && (forall x, y, z :: eq(x, y) && eq(y, z) ==> eq(x, z))
  }

  // ZCRT_HASH_KEY
  function Bucket<T>(key: T -> u32, size: u32, x: T): (b: nat)
    requires size > 0
    ensures b < size
  {
    key(x) % size
  }

  // Entries that are equal are in one bucket.
  ghost predicate Respects<T(!new)>(eq: Cmp<T>, key: T -> u32, size: u32)
    requires size > 0
  {
    forall x, y :: eq(x, y) ==> Bucket(key, size, x) == Bucket(key, size, y)
  }

  function Find<T>(l: seq<T>, eq: Cmp<T>, x: T): Option<T>
  {
    if l == [] then None else if eq(l[0], x) then Some(l[0]) else Find(l[1..], eq, x)
  }

  function Drop<T>(l: seq<T>, eq: Cmp<T>, x: T): seq<T>
  {
    if l == [] then [] else if eq(l[0], x) then l[1..] else [l[0]] + Drop(l[1..], eq, x)
  }

  // The entries of bucket b, in the order of the list
  function InBucket<T>(l: seq<T>, key: T -> u32, size: u32, b: nat): seq<T>
    requires size > 0
  {
    if l == [] then []
    else if Bucket(key, size, l[0]) == b then [l[0]] + InBucket(l[1..], key, size, b)
    else InBucket(l[1..], key, size, b)
  }

  // ---- One bucket is enough to look in ----

  lemma {:induction false} FindInBucket<T(!new)>(l: seq<T>, eq: Cmp<T>, key: T -> u32, size: u32, x: T)
    requires size > 0 && Respects(eq, key, size)
    ensures Find(InBucket(l, key, size, Bucket(key, size, x)), eq, x) == Find(l, eq, x)
  {
    if l != [] { FindInBucket(l[1..], eq, key, size, x); }
  }

  lemma {:induction false} DropInBucket<T(!new)>(l: seq<T>, eq: Cmp<T>, key: T -> u32, size: u32, x: T, b: nat)
    requires size > 0 && Respects(eq, key, size)
    ensures InBucket(Drop(l, eq, x), key, size, b) ==
            if b == Bucket(key, size, x) then Drop(InBucket(l, key, size, b), eq, x) else InBucket(l, key, size, b)
  {
    if l != [] { DropInBucket(l[1..], eq, key, size, x, b); }
  }

  lemma {:induction false} DropLength<T>(l: seq<T>, eq: Cmp<T>, x: T)
    ensures |Drop(l, eq, x)| == if Find(l, eq, x).Some? then |l| - 1 else |l|
    ensures Find(l, eq, x).None? ==> Drop(l, eq, x) == l
  {
    if l != [] { DropLength(l[1..], eq, x); }
  }

  // Removing does not change what is found under other keys.
  lemma {:induction false} RemoveKeepsOthers<T(!new)>(l: seq<T>, eq: Cmp<T>, x: T, y: T)
    requires Equivalence(eq) && !eq(x, y)
    ensures Find(Drop(l, eq, x), eq, y) == Find(l, eq, y)
  {
    if l != [] && !eq(l[0], x) { RemoveKeepsOthers(l[1..], eq, x, y); }
  }

  // ---- Positions ----

  ghost predicate IsFirst<T(!new)>(l: seq<T>, eq: Cmp<T>, x: T, k: nat)
  {
    k < |l| && eq(l[k], x) && forall i :: 0 <= i < k ==> !eq(l[i], x)
  }

  lemma {:induction false} FirstIsFound<T(!new)>(l: seq<T>, eq: Cmp<T>, x: T, k: nat)
    requires IsFirst(l, eq, x, k)
    ensures Find(l, eq, x) == Some(l[k])
    ensures Drop(l, eq, x) == l[..k] + l[k + 1..]
  {
    if k > 0 {
      FirstIsFound(l[1..], eq, x, k - 1);
      assert l[..k] + l[k + 1..] == [l[0]] + (l[1..][..k - 1] + l[1..][k..]);
    } else {
      assert l[..0] + l[1..] == l[1..];
    }
  }

  lemma {:induction false} NotFound<T(!new)>(l: seq<T>, eq: Cmp<T>, x: T)
    requires forall i :: 0 <= i < |l| ==> !eq(l[i], x)
    ensures Find(l, eq, x) == None
  {
    if l != [] { NotFound(l[1..], eq, x); }
  }

  // ---- Comparisons that do not respect the buckets ----

  // What the table compares with: only entries of one bucket are ever compared.
  function Within<T>(eq: Cmp<T>, key: T -> u32, size: u32): Cmp<T>
    requires size > 0
  {
    (y, x) => eq(y, x) && Bucket(key, size, y) == Bucket(key, size, x)
  }

  // If equal entries are in one bucket anyway, that is the comparison itself.
  lemma {:induction false} WithinIsSame<T(!new)>(l: seq<T>, eq: Cmp<T>, key: T -> u32, size: u32, x: T)
    requires size > 0 && Respects(eq, key, size)
    ensures Find(l, Within(eq, key, size), x) == Find(l, eq, x)
    ensures Drop(l, Within(eq, key, size), x) == Drop(l, eq, x)
  {
    if l != [] {
      assert Within(eq, key, size)(l[0], x) == eq(l[0], x);
      WithinIsSame(l[1..], eq, key, size, x);
    }
  }

  lemma WithinRespects<T(!new)>(eq: Cmp<T>, key: T -> u32, size: u32)
    requires size > 0
    ensures Respects(Within(eq, key, size), key, size)
  {}

  lemma {:induction false} BucketMembers<T>(l: seq<T>, key: T -> u32, size: u32, b: nat)
    requires size > 0
    ensures forall i :: 0 <= i < |InBucket(l, key, size, b)| ==> Bucket(key, size, InBucket(l, key, size, b)[i]) == b
  {
    if l != [] { BucketMembers(l[1..], key, size, b); }
  }

  // Inside its bucket the two comparisons find the same.
  lemma FirstWithin<T(!new)>(l: seq<T>, eq: Cmp<T>, key: T -> u32, size: u32, x: T, c: seq<T>)
    requires size > 0 && c == InBucket(l, key, size, Bucket(key, size, x))
    ensures forall k: nat :: IsFirst(c, eq, x, k) ==> IsFirst(c, Within(eq, key, size), x, k)
    ensures (forall i :: 0 <= i < |c| ==> !eq(c[i], x)) ==> forall i :: 0 <= i < |c| ==> !Within(eq, key, size)(c[i], x)
  {
    BucketMembers(l, key, size, Bucket(key, size, x));
    assert forall i :: 0 <= i < |c| ==> Within(eq, key, size)(c[i], x) == eq(c[i], x);
  }
}
