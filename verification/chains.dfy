/**
 Singly linked chains of nodes, as the event registry and the hash table use
 them: a chain is a sequence of nodes, and a bookkeeping map says of every node
 where it is.
 */
module Chains {

  type Ptr = nat
  const NULL: Ptr := 0

  datatype Cell<T> = Cell(val: T, next: Ptr)

  // The allocated nodes. Reading or writing a node needs it to be here.
  type Store<T> = m: map<Ptr, Cell<T>> | NULL !in m

  // There is always an address that is not in use.
  lemma FreshPtr<T>(m: Store<T>)
    ensures exists p: Ptr :: p != NULL && p !in m
  {
    var p := MaxPtr(m.Keys);
    assert p + 1 != NULL && p + 1 !in m;
  }

  lemma MaxPtr(s: set<Ptr>) returns (p: Ptr)
    ensures forall q :: q in s ==> q <= p
    decreases s
  {
    if s == {} {
      p := 0;
    } else {
      var x :| x in s;
      var y := MaxPtr(s - {x});
      p := if y < x then x else y;
      forall q | q in s ensures q <= p {
        assert q == x || q in s - {x};
      }
    }
  }

  // p->next = q
  function SetNext<T>(m: Store<T>, p: Ptr, q: Ptr): Store<T>
    requires p in m
  {
    m[p := m[p].(next := q)]
  }

  // free(p)
  function Free<T>(m: Store<T>, p: Ptr): Store<T>
    requires p in m
  {
    m - {p}
  }

  // A new node at p
  function Alloc<T>(m: Store<T>, p: Ptr, x: T, next: Ptr): Store<T>
    requires p != NULL && p !in m
  {
    m[p := Cell(x, next)]
  }

  // ---- Sequences with one element more or less ----

  ghost predicate Inserted<T>(s: seq<T>, k: nat, x: T, r: seq<T>)
  {
    && k <= |s| && |r| == |s| + 1 && r[k] == x
    && (forall i :: 0 <= i < k ==> r[i] == s[i])
    && (forall i :: k < i < |r| ==> r[i] == s[i - 1])
  }

  ghost predicate Removed<T>(s: seq<T>, k: nat, r: seq<T>)
  {
    && k < |s| && |r| == |s| - 1
    && (forall i :: 0 <= i < k ==> r[i] == s[i])
    && (forall i :: k <= i < |r| ==> r[i] == s[i + 1])
  }

  lemma InsertAt<T>(s: seq<T>, k: nat, x: T) returns (r: seq<T>)
    requires k <= |s|
    ensures Inserted(s, k, x, r) && r == s[..k] + [x] + s[k..]
  {
    r := s[..k] + [x] + s[k..];
  }

  lemma RemoveAt<T>(s: seq<T>, k: nat) returns (r: seq<T>)
    requires k < |s|
    ensures Removed(s, k, r) && r == s[..k] + s[k + 1..]
  {
    r := s[..k] + s[k + 1..];
  }

  // ---- Pointers ----

  function After(s: seq<Ptr>, i: int): Ptr
    requires -1 <= i
  {
    if i + 1 < |s| then s[i + 1] else NULL
  }

  // The next pointers lead from head through the nodes of s to NULL.
  ghost predicate Linked<T>(m: Store<T>, head: Ptr, s: seq<Ptr>)
  {
    head == After(s, -1) && forall i :: 0 <= i < |s| ==> s[i] in m && m[s[i]].next == After(s, i)
  }

  ghost predicate Distinct(s: seq<Ptr>)
  {
    forall i, j :: 0 <= i < j < |s| ==> s[i] != s[j]
  }

  // n->next = prev->next; prev->next = n
  function LinkBehind<T>(m: Store<T>, prev: Ptr, n: Ptr): Store<T>
    requires prev in m && n in m
  {
    SetNext(SetNext(m, n, m[prev].next), prev, n)
  }

  lemma LinkedBehind<T>(m: Store<T>, head: Ptr, s: seq<Ptr>, k: nat, n: Ptr, r: seq<Ptr>)
    requires Linked(m, head, s) && Distinct(s) && 0 < k <= |s| && n !in s && n in m && Inserted(s, k, n, r)
    ensures Linked(LinkBehind(m, s[k - 1], n), head, r)
  {}

  lemma LinkedFront<T>(m: Store<T>, head: Ptr, s: seq<Ptr>, n: Ptr, r: seq<Ptr>)
    requires Linked(m, head, s) && n !in s && n in m && Inserted(s, 0, n, r)
    ensures Linked(SetNext(m, n, head), n, r)
  {}

  // prev->next = cur->next
  lemma UnlinkedBehind<T>(m: Store<T>, head: Ptr, s: seq<Ptr>, k: nat, r: seq<Ptr>)
    requires Linked(m, head, s) && Distinct(s) && 0 < k < |s| && Removed(s, k, r)
    ensures Linked(SetNext(m, s[k - 1], m[s[k]].next), head, r)
  {}

  // The head goes; its successor is the new head.
  lemma UnlinkedFront<T>(m: Store<T>, head: Ptr, s: seq<Ptr>, r: seq<Ptr>)
    requires Linked(m, head, s) && Removed(s, 0, r)
    ensures head == s[0] && Linked(m, m[head].next, r)
  {}

  // Writes to other nodes do not matter to a chain.
  lemma LinkedFrame<T>(m: Store<T>, m': Store<T>, head: Ptr, s: seq<Ptr>)
    requires Linked(m, head, s) && forall i :: 0 <= i < |s| ==> s[i] in m' && m'[s[i]].next == m[s[i]].next
    ensures Linked(m', head, s)
  {}

  // ---- Where the nodes are ----

  // In chain c at position i, or held by a caller between two steps
  datatype Place = In(c: nat, i: nat) | Held

  ghost predicate IsThere(chains: seq<seq<Ptr>>, n: Ptr, p: Place)
    requires p.In?
  {
    p.c < |chains| && p.i < |chains[p.c]| && chains[p.c][p.i] == n
  }

  ghost function HeldNodes(at: map<Ptr, Place>): set<Ptr>
  {
    set n | n in at && at[n] == Held
  }

  // Every node of the map is in exactly the place the map says, and the chains
  // hold no other nodes: they share no node, repeat none, and miss none.
  ghost predicate Placed(chains: seq<seq<Ptr>>, at: map<Ptr, Place>)
  {
    && (forall c, i :: 0 <= c < |chains| && 0 <= i < |chains[c]| ==>
          chains[c][i] in at && at[chains[c][i]] == In(c, i))
    && (forall n :: n in at && at[n].In? ==> IsThere(chains, n, at[n]))
  }

  // Node n went into chain c at k; what was there or behind moved up.
  ghost predicate MovedIn(at: map<Ptr, Place>, c: nat, k: nat, n: Ptr, at': map<Ptr, Place>)
  {
    && at'.Keys == at.Keys + {n} && at'[n] == In(c, k)
    && forall m :: m in at && m != n ==>
         at'[m] == if at[m].In? && at[m].c == c && at[m].i >= k then In(c, at[m].i + 1) else at[m]
  }

  // Node n went out of chain c at k into the hands of a caller.
  ghost predicate MovedOut(at: map<Ptr, Place>, c: nat, k: nat, n: Ptr, at': map<Ptr, Place>)
  {
    && n in at && at'.Keys == at.Keys && at'[n] == Held
    && forall m :: m in at && m != n ==>
         at'[m] == if at[m].In? && at[m].c == c && at[m].i > k then In(c, at[m].i - 1) else at[m]
  }

  lemma MoveIn(chains: seq<seq<Ptr>>, at: map<Ptr, Place>, c: nat, k: nat, n: Ptr)
      returns (r: seq<Ptr>, at': map<Ptr, Place>)
    requires Placed(chains, at) && c < |chains| && k <= |chains[c]| && (n in at ==> at[n] == Held)
    ensures Inserted(chains[c], k, n, r) && MovedIn(at, c, k, n, at') && Placed(chains[c := r], at')
  {
    r := InsertAt(chains[c], k, n);
    at' := map m | m in at.Keys + {n} ::
      if m == n then In(c, k)
      else if at[m].In? && at[m].c == c && at[m].i >= k then In(c, at[m].i + 1)
      else at[m];
    LongerIsPlaced(chains, at, c, k, n, r, at');
  }

  lemma LongerIsPlaced(chains: seq<seq<Ptr>>, at: map<Ptr, Place>, c: nat, k: nat, n: Ptr,
                          r: seq<Ptr>, at': map<Ptr, Place>)
    requires Placed(chains, at) && c < |chains| && k <= |chains[c]| && (n in at ==> at[n] == Held)
    requires Inserted(chains[c], k, n, r) && MovedIn(at, c, k, n, at')
    ensures Placed(chains[c := r], at')
  {
    var chains' := chains[c := r];
    forall d, i | 0 <= d < |chains'| && 0 <= i < |chains'[d]|
      ensures chains'[d][i] in at' && at'[chains'[d][i]] == In(d, i)
    {
      if d != c || i != k {
        var was := if d == c && i > k then i - 1 else i;
        assert chains'[d][i] == chains[d][was] && at[chains[d][was]] == In(d, was);
      }
    }
    forall m | m in at' && at'[m].In?
      ensures IsThere(chains', m, at'[m])
    {
      if m != n {
        assert IsThere(chains, m, at[m]);
        LongerHas(chains, at, c, k, n, r, at', m);
      }
    }
  }

  lemma LongerHas(chains: seq<seq<Ptr>>, at: map<Ptr, Place>, c: nat, k: nat, n: Ptr,
                     r: seq<Ptr>, at': map<Ptr, Place>, m: Ptr)
    requires c < |chains| && Inserted(chains[c], k, n, r) && MovedIn(at, c, k, n, at')
    requires m in at && at[m].In? && IsThere(chains, m, at[m]) && m != n
    ensures IsThere(chains[c := r], m, at'[m])
  {
    var i := at[m].i;
    if at[m].c == c && i >= k {
      assert r[i + 1] == chains[c][i + 1 - 1];
    }
  }

  lemma MoveOut(chains: seq<seq<Ptr>>, at: map<Ptr, Place>, c: nat, k: nat)
      returns (r: seq<Ptr>, at': map<Ptr, Place>)
    requires Placed(chains, at) && c < |chains| && k < |chains[c]|
    ensures Removed(chains[c], k, r) && MovedOut(at, c, k, chains[c][k], at') && Placed(chains[c := r], at')
  {
    r := RemoveAt(chains[c], k);
    at' := map m | m in at.Keys ::
      if m == chains[c][k] then Held
      else if at[m].In? && at[m].c == c && at[m].i > k then In(c, at[m].i - 1)
      else at[m];
    ShorterIsPlaced(chains, at, c, k, r, at');
  }

  lemma ShorterIsPlaced(chains: seq<seq<Ptr>>, at: map<Ptr, Place>, c: nat, k: nat,
                           r: seq<Ptr>, at': map<Ptr, Place>)
    requires Placed(chains, at) && c < |chains| && Removed(chains[c], k, r) && MovedOut(at, c, k, chains[c][k], at')
    ensures Placed(chains[c := r], at')
  {
    var chains' := chains[c := r];
    forall d, i | 0 <= d < |chains'| && 0 <= i < |chains'[d]|
      ensures chains'[d][i] in at' && at'[chains'[d][i]] == In(d, i)
    {
      var was := if d == c && i >= k then i + 1 else i;
      assert chains'[d][i] == chains[d][was] && at[chains[d][was]] == In(d, was);
    }
    forall m | m in at' && at'[m].In?
      ensures IsThere(chains', m, at'[m])
    {
      assert IsThere(chains, m, at[m]);
      ShorterHas(chains, at, c, k, r, at', m);
    }
  }

  lemma ShorterHas(chains: seq<seq<Ptr>>, at: map<Ptr, Place>, c: nat, k: nat,
                      r: seq<Ptr>, at': map<Ptr, Place>, m: Ptr)
    requires c < |chains| && Removed(chains[c], k, r) && MovedOut(at, c, k, chains[c][k], at')
    requires m in at && at[m].In? && IsThere(chains, m, at[m]) && m != chains[c][k]
    ensures IsThere(chains[c := r], m, at'[m])
  {
    var i := at[m].i;
    if at[m].c == c && i > k {
      assert r[i - 1] == chains[c][i - 1 + 1];
    }
  }

  lemma ChainIsDistinct(chains: seq<seq<Ptr>>, at: map<Ptr, Place>, c: nat)
    requires Placed(chains, at) && c < |chains|
    ensures Distinct(chains[c])
  {
    forall j, k | 0 <= j < k < |chains[c]|
      ensures chains[c][j] != chains[c][k]
    {
      assert at[chains[c][j]] == In(c, j) && at[chains[c][k]] == In(c, k);
    }
  }

  // ---- Several chains in one memory ----

  ghost predicate AllLinked<T>(m: Store<T>, heads: seq<Ptr>, chains: seq<seq<Ptr>>)
  {
    |heads| == |chains| && forall c :: 0 <= c < |chains| ==> Linked(m, heads[c], chains[c])
  }

  // A step that writes no next pointer outside chain c, and leaves r there
  lemma OneRelinked<T>(m: Store<T>, m': Store<T>, heads: seq<Ptr>, chains: seq<seq<Ptr>>, at: map<Ptr, Place>,
                       c: nat, h: Ptr, r: seq<Ptr>)
    requires Placed(chains, at) && AllLinked(m, heads, chains) && c < |chains| && Linked(m', h, r)
    requires forall n :: n in m && n in at && at[n].In? && at[n].c != c ==> n in m' && m'[n].next == m[n].next
    ensures AllLinked(m', heads[c := h], chains[c := r])
  {
    forall d | 0 <= d < |chains| && d != c
      ensures Linked(m', heads[d], chains[d])
    {
      forall i | 0 <= i < |chains[d]|
        ensures chains[d][i] in m' && m'[chains[d][i]].next == m[chains[d][i]].next
      {
        assert at[chains[d][i]] == In(d, i);
      }
      LinkedFrame(m, m', heads[d], chains[d]);
    }
  }

  lemma HeldIsOut(chains: seq<seq<Ptr>>, at: map<Ptr, Place>, n: Ptr, c: nat)
    requires Placed(chains, at) && n in at && at[n] == Held && c < |chains|
    ensures n !in chains[c]
  {}

  // Linking n, held by a caller, in front of chain c
  lemma PutFront<T>(m: Store<T>, heads: seq<Ptr>, chains: seq<seq<Ptr>>, at: map<Ptr, Place>, c: nat, n: Ptr,
                    r: seq<Ptr>)
    requires Placed(chains, at) && AllLinked(m, heads, chains) && c < |chains|
    requires n in at && at[n] == Held && n in m && Inserted(chains[c], 0, n, r)
    ensures AllLinked(SetNext(m, n, heads[c]), heads[c := n], chains[c := r])
  {
    HeldIsOut(chains, at, n, c);
    LinkedFront(m, heads[c], chains[c], n, r);
    OneRelinked(m, SetNext(m, n, heads[c]), heads, chains, at, c, n, r);
  }

  // Linking n, held by a caller, behind node k - 1 of chain c
  lemma PutBehind<T>(m: Store<T>, heads: seq<Ptr>, chains: seq<seq<Ptr>>, at: map<Ptr, Place>, c: nat, k: nat, n: Ptr,
                     r: seq<Ptr>)
    requires Placed(chains, at) && AllLinked(m, heads, chains) && c < |chains|
    requires n in at && at[n] == Held && n in m && 0 < k && Inserted(chains[c], k, n, r)
    ensures chains[c][k - 1] in m && AllLinked(LinkBehind(m, chains[c][k - 1], n), heads, chains[c := r])
  {
    var prev := chains[c][k - 1];
    assert Linked(m, heads[c], chains[c]) && at[prev] == In(c, k - 1);
    HeldIsOut(chains, at, n, c);
    ChainIsDistinct(chains, at, c);
    LinkedBehind(m, heads[c], chains[c], k, n, r);
    OneRelinked(m, LinkBehind(m, prev, n), heads, chains, at, c, heads[c], r);
    assert heads[c := heads[c]] == heads;
  }

  // Taking the head of chain c out
  lemma TakeFront<T>(m: Store<T>, heads: seq<Ptr>, chains: seq<seq<Ptr>>, at: map<Ptr, Place>, c: nat, r: seq<Ptr>)
    requires Placed(chains, at) && AllLinked(m, heads, chains) && c < |chains| && Removed(chains[c], 0, r)
    ensures heads[c] == chains[c][0] && heads[c] in m && AllLinked(m, heads[c := m[heads[c]].next], chains[c := r])
  {
    assert Linked(m, heads[c], chains[c]);
    UnlinkedFront(m, heads[c], chains[c], r);
    OneRelinked(m, m, heads, chains, at, c, m[heads[c]].next, r);
  }

  // Taking node k of chain c out from behind its predecessor
  lemma TakeBehind<T>(m: Store<T>, heads: seq<Ptr>, chains: seq<seq<Ptr>>, at: map<Ptr, Place>, c: nat, k: nat,
                      r: seq<Ptr>)
    requires Placed(chains, at) && AllLinked(m, heads, chains) && c < |chains| && 0 < k && Removed(chains[c], k, r)
    ensures chains[c][k - 1] in m && chains[c][k] in m
    ensures AllLinked(SetNext(m, chains[c][k - 1], m[chains[c][k]].next), heads, chains[c := r])
  {
    var prev := chains[c][k - 1];
    assert Linked(m, heads[c], chains[c]) && at[prev] == In(c, k - 1);
    ChainIsDistinct(chains, at, c);
    UnlinkedBehind(m, heads[c], chains[c], k, r);
    OneRelinked(m, SetNext(m, prev, m[chains[c][k]].next), heads, chains, at, c, heads[c], r);
    assert heads[c := heads[c]] == heads;
  }

  // Writing a node that is in no chain
  lemma HeldWritten<T>(m: Store<T>, heads: seq<Ptr>, chains: seq<seq<Ptr>>, at: map<Ptr, Place>, n: Ptr, x: Cell<T>)
    requires Placed(chains, at) && AllLinked(m, heads, chains) && n != NULL && (n in at ==> at[n] == Held)
    ensures AllLinked(m[n := x], heads, chains)
  {
    forall c | 0 <= c < |chains|
      ensures Linked(m[n := x], heads[c], chains[c])
    {
      forall i | 0 <= i < |chains[c]| ensures chains[c][i] != n {
        assert at[chains[c][i]] == In(c, i);
      }
      LinkedFrame(m, m[n := x], heads[c], chains[c]);
    }
  }

  // Freeing a node that a caller holds
  lemma HeldFreed<T>(m: Store<T>, heads: seq<Ptr>, chains: seq<seq<Ptr>>, at: map<Ptr, Place>, n: Ptr)
    requires Placed(chains, at) && AllLinked(m, heads, chains) && n in at && at[n] == Held && n in m
    ensures AllLinked(Free(m, n), heads, chains) && Placed(chains, at - {n})
  {
    forall c | 0 <= c < |chains|
      ensures Linked(Free(m, n), heads[c], chains[c])
    {
      HeldIsOut(chains, at, n, c);
      LinkedFrame(m, Free(m, n), heads[c], chains[c]);
    }
  }

  // ---- What the nodes carry ----

  ghost predicate Carry<T>(m: Store<T>, s: seq<Ptr>, l: seq<T>)
  {
    |s| == |l| && forall i :: 0 <= i < |s| ==> s[i] in m && m[s[i]].val == l[i]
  }

  // The first chains carry the lists.
  ghost predicate AllCarry<T>(m: Store<T>, chains: seq<seq<Ptr>>, lists: seq<seq<T>>)
  {
    |lists| <= |chains| && forall c :: 0 <= c < |lists| ==> Carry(m, chains[c], lists[c])
  }

  lemma CarryInserted<T>(m: Store<T>, chains: seq<seq<Ptr>>, lists: seq<seq<T>>, c: nat, k: nat, n: Ptr, r: seq<Ptr>,
                         l: seq<T>)
    requires AllCarry(m, chains, lists) && c < |lists| && n in m
    requires Inserted(chains[c], k, n, r) && Inserted(lists[c], k, m[n].val, l)
    ensures AllCarry(m, chains[c := r], lists[c := l])
  {
    assert Carry(m, chains[c], lists[c]);
  }

  lemma CarryRemoved<T>(m: Store<T>, chains: seq<seq<Ptr>>, lists: seq<seq<T>>, c: nat, k: nat, r: seq<Ptr>, l: seq<T>)
    requires AllCarry(m, chains, lists) && c < |lists| && Removed(chains[c], k, r) && Removed(lists[c], k, l)
    ensures AllCarry(m, chains[c := r], lists[c := l])
  {
    assert Carry(m, chains[c], lists[c]);
  }

  lemma CarryFrame<T>(m: Store<T>, m': Store<T>, chains: seq<seq<Ptr>>, lists: seq<seq<T>>)
    requires AllCarry(m, chains, lists)
    requires forall c, i :: 0 <= c < |lists| && 0 <= i < |chains[c]| ==>
               chains[c][i] in m' && (chains[c][i] in m ==> m'[chains[c][i]].val == m[chains[c][i]].val)
    ensures AllCarry(m', chains, lists)
  {}
}
