/**
 The end of a component and of all components below it: zipc_component_delete,
 with the hash table functions it runs on each API list.
 */
module ComponentTree {
  import opened Chains

  // What the allocator has handed out
  datatype Obj =
    | Comp(apilist: Ptr)
    | Table(index: Ptr)
    | Index(heads: seq<Ptr>)
    | Node(data: Ptr, next: Ptr)

  // A component, its table, the table's index, and the buckets in order
  datatype Tree = Tree(comp: Ptr, table: Ptr, index: Ptr, buckets: Buckets)
  datatype Buckets = NoMore | Bucket(chain: Chain, rest: Buckets)
  datatype Chain = End | Link(node: Ptr, sub: Tree, rest: Chain)

  type Memory = m: map<Ptr, Obj> | NULL !in m

  // ---- The objects of a tree ----

  ghost function Nodes(b: Buckets): set<Ptr>
  {
    match b case NoMore => {} case Bucket(c, rest) => ChainNodes(c) + Nodes(rest)
  }

  ghost function ChainNodes(c: Chain): set<Ptr>
  {
    match c case End => {} case Link(n, _, rest) => {n} + ChainNodes(rest)
  }

  ghost function Subs(b: Buckets): set<Ptr>
  {
    match b case NoMore => {} case Bucket(c, rest) => ChainSubs(c) + Subs(rest)
  }

  ghost function ChainSubs(c: Chain): set<Ptr>
  {
    match c case End => {} case Link(_, t, rest) => Objects(t) + ChainSubs(rest)
  }

  ghost function Objects(t: Tree): set<Ptr>
  {
    {t.comp, t.table, t.index} + Nodes(t.buckets) + Subs(t.buckets)
  }

  // Nothing of the tree is left in the memory.
  ghost predicate Gone(m: Memory, t: Tree)
  {
    t.comp !in m && t.table !in m && t.index !in m && GoneBuckets(m, t.buckets)
  }

  ghost predicate GoneBuckets(m: Memory, b: Buckets)
  {
    match b case NoMore => true case Bucket(c, rest) => GoneChain(m, c) && GoneBuckets(m, rest)
  }

  ghost predicate GoneChain(m: Memory, c: Chain)
  {
    match c case End => true case Link(n, t, rest) => n !in m && Gone(m, t) && GoneChain(m, rest)
  }

  lemma {:induction false} ObjectsAreAll(m: Memory, t: Tree)
    requires m.Keys !! Objects(t)
    ensures Gone(m, t)
  {
    BucketsAreAll(m, t.buckets);
  }

  lemma {:induction false} BucketsAreAll(m: Memory, b: Buckets)
    requires m.Keys !! Nodes(b) + Subs(b)
    ensures GoneBuckets(m, b)
  {
    match b
    case NoMore =>
    case Bucket(c, rest) =>
      ChainsAreAll(m, c);
      BucketsAreAll(m, rest);
  }

  lemma {:induction false} ChainsAreAll(m: Memory, c: Chain)
    requires m.Keys !! ChainNodes(c) + ChainSubs(c)
    ensures GoneChain(m, c)
  {
    match c
    case End =>
    case Link(_, t, rest) =>
      ObjectsAreAll(m, t);
      ChainsAreAll(m, rest);
  }

  // No object is used twice.
  ghost predicate Separate(t: Tree)
  {
    && t.comp != t.table && t.comp != t.index && t.table != t.index
    && {t.comp, t.table, t.index} !! Nodes(t.buckets) + Subs(t.buckets)
    && SeparateBuckets(t.buckets) && Nodes(t.buckets) !! Subs(t.buckets)
  }

  ghost predicate SeparateBuckets(b: Buckets)
  {
    match b
    case NoMore => true
    case Bucket(c, rest) =>
      SeparateChain(c) && SeparateBuckets(rest) && ChainNodes(c) !! Nodes(rest) && ChainSubs(c) !! Subs(rest)
  }

  ghost predicate SeparateChain(c: Chain)
  {
    match c
    case End => true
    case Link(n, t, rest) =>
      Separate(t) && SeparateChain(rest) && n !in ChainNodes(rest) && Objects(t) !! ChainSubs(rest)
  }

  // ---- The memory holds the tree ----

  ghost predicate Holds(m: Memory, t: Tree)
  {
    && t.comp in m && m[t.comp] == Comp(t.table)
    && HoldsTable(m, t) && HoldsSubs(m, t.buckets)
  }

  ghost predicate HoldsTable(m: Memory, t: Tree)
  {
    && t.table in m && m[t.table] == Table(t.index)
    && t.index in m && m[t.index].Index? && HoldsBuckets(m, m[t.index].heads, t.buckets)
  }

  ghost predicate HoldsBuckets(m: Memory, heads: seq<Ptr>, b: Buckets)
    decreases b
  {
    match b
    case NoMore => heads == []
    case Bucket(c, rest) => heads != [] && HoldsChain(m, heads[0], c) && HoldsBuckets(m, heads[1..], rest)
  }

  ghost predicate HoldsChain(m: Memory, head: Ptr, c: Chain)
    decreases c
  {
    match c
    case End => head == NULL
    case Link(n, t, rest) =>
      head == n && n in m && m[n].Node? && m[n].data == t.comp && HoldsChain(m, m[n].next, rest)
  }

  ghost predicate HoldsSubs(m: Memory, b: Buckets)
  {
    match b case NoMore => true case Bucket(c, rest) => HoldsChainSubs(m, c) && HoldsSubs(m, rest)
  }

  ghost predicate HoldsChainSubs(m: Memory, c: Chain)
  {
    match c case End => true case Link(_, t, rest) => Holds(m, t) && HoldsChainSubs(m, rest)
  }

  // ---- Freeing other objects does not matter ----

  lemma {:induction false} TreeFrame(m: Memory, f: set<Ptr>, t: Tree)
    requires Holds(m, t) && f !! Objects(t)
    ensures Holds(m - f, t)
  {
    BucketsFrame(m, f, m[t.index].heads, t.buckets);
    SubsFrame(m, f, t.buckets);
  }

  lemma {:induction false} BucketsFrame(m: Memory, f: set<Ptr>, heads: seq<Ptr>, b: Buckets)
    requires HoldsBuckets(m, heads, b) && f !! Nodes(b)
    ensures HoldsBuckets(m - f, heads, b)
    decreases b
  {
    match b
    case NoMore =>
    case Bucket(c, rest) =>
      ChainFrame(m, f, heads[0], c);
      BucketsFrame(m, f, heads[1..], rest);
  }

  lemma {:induction false} ChainFrame(m: Memory, f: set<Ptr>, head: Ptr, c: Chain)
    requires HoldsChain(m, head, c) && f !! ChainNodes(c)
    ensures HoldsChain(m - f, head, c)
    decreases c
  {
    match c
    case End =>
    case Link(n, _, rest) => ChainFrame(m, f, m[n].next, rest);
  }

  lemma {:induction false} SubsFrame(m: Memory, f: set<Ptr>, b: Buckets)
    requires HoldsSubs(m, b) && f !! Subs(b)
    ensures HoldsSubs(m - f, b)
  {
    match b
    case NoMore =>
    case Bucket(c, rest) =>
      ChainSubsFrame(m, f, c);
      SubsFrame(m, f, rest);
  }

  lemma {:induction false} ChainSubsFrame(m: Memory, f: set<Ptr>, c: Chain)
    requires HoldsChainSubs(m, c) && f !! ChainSubs(c)
    ensures HoldsChainSubs(m - f, c)
  {
    match c
    case End =>
    case Link(_, t, rest) =>
      TreeFrame(m, f, t);
      ChainSubsFrame(m, f, rest);
  }

  // ---- The code ----

  // Reading, writing or freeing an object needs it to be there, so a second free
  // and a use after a free cannot be written.
  method Write(m: Memory, p: Ptr, o: Obj) returns (m': Memory)
    requires p in m
    ensures m' == m[p := o]
  {
    m' := m[p := o];
  }

  method Release(m: Memory, p: Ptr) returns (m': Memory)
    requires p in m
    ensures m' == m - {p}
  {
    m' := m - {p};
  }

  // zipc_component_delete, which the enumeration calls on each component below
  method ComponentDelete(m: Memory, comp: Ptr, ghost t: Tree) returns (m': Memory)
    requires comp != NULL ==> comp == t.comp && Holds(m, t) && Separate(t)
    ensures m' == if comp == NULL then m else m - Objects(t)
    ensures comp != NULL ==> Gone(m', t)
    decreases t
  {
    m' := m;
    if comp != NULL {
      var ht := m[comp].apilist;
      m' := HashEnumerate(m, ht, t);
      TableFrame(m, t);
      m' := HashDelete(m', ht, t);
      // comp->apilist = NULL
      m' := Write(m', comp, Comp(NULL));
      m' := Release(m', comp);
      assert m' == m - Objects(t);
      ObjectsAreAll(m', t);
    }
  }

  lemma TableFrame(m: Memory, t: Tree)
    requires Holds(m, t) && Separate(t)
    ensures HoldsTable(m - Subs(t.buckets), t)
  {
    BucketsFrame(m, Subs(t.buckets), m[t.index].heads, t.buckets);
  }

  // zcrt_hash_enumerate with _zipc_componet_hash_free
  method HashEnumerate(m: Memory, ht: Ptr, ghost t: Tree) returns (m': Memory)
    requires ht == t.table && Holds(m, t) && Separate(t)
    ensures m' == m - Subs(t.buckets)
    decreases t, 0
  {
    m' := m;
    ghost var rest, f := t.buckets, {};
    var i := 0;
    while i < |m'[m'[ht].index].heads|
      invariant m' == m - f && f !! Subs(rest) && f + Subs(rest) == Subs(t.buckets)
      invariant ht in m' && m'[ht] == m[ht] && m[ht].index in m' && m'[m[ht].index] == m[m[ht].index]
      invariant i <= |m[t.index].heads| && HoldsBuckets(m, m[t.index].heads[i..], rest) && HoldsSubs(m, rest)
      invariant SeparateBuckets(rest) && Nodes(rest) <= Nodes(t.buckets)
      invariant rest == t.buckets || rest < t
      decreases |m[t.index].heads| - i
    {
      ghost var c := rest.chain;
      ChainFrame(m, f, m[t.index].heads[i], c);
      ChainSubsFrame(m, f, c);
      m' := EnumerateChain(m', m'[m'[ht].index].heads[i], c);
      f := f + ChainSubs(c);
      rest := rest.rest;
      i := i + 1;
    }
  }

  lemma OneSubLess(m: Memory, f: set<Ptr>, node: Ptr, rest: Chain, c: Chain)
    requires rest.Link? && HoldsChain(m - f, node, rest) && HoldsChainSubs(m - f, rest) && SeparateChain(rest)
    requires ChainNodes(rest) <= ChainNodes(c) && ChainNodes(c) !! ChainSubs(c)
    requires f !! ChainSubs(rest) && f + ChainSubs(rest) == ChainSubs(c)
    ensures var g := f + Objects(rest.sub);
            && m - f - Objects(rest.sub) == m - g && node in m - g && (m - g)[node] == (m - f)[node]
            && HoldsChain(m - g, (m - g)[node].next, rest.rest) && HoldsChainSubs(m - g, rest.rest)
            && g !! ChainSubs(rest.rest) && g + ChainSubs(rest.rest) == ChainSubs(c)
  {
    var sub := rest.sub;
    assert m - f - Objects(sub) == m - (f + Objects(sub));
    ChainFrame(m - f, Objects(sub), node, rest);
    ChainSubsFrame(m - f, Objects(sub), rest.rest);
  }

  // The inner loop: the successor is read after the callback.
  method EnumerateChain(m: Memory, head: Ptr, ghost c: Chain) returns (m': Memory)
    requires HoldsChain(m, head, c) && HoldsChainSubs(m, c) && SeparateChain(c) && ChainNodes(c) !! ChainSubs(c)
    ensures m' == m - ChainSubs(c)
    decreases c
  {
    m' := m;
    ghost var rest, f := c, {};
    var node := head;
    while node != NULL
      invariant m' == m - f && f !! ChainSubs(rest) && f + ChainSubs(rest) == ChainSubs(c)
      invariant HoldsChain(m', node, rest) && HoldsChainSubs(m', rest) && SeparateChain(rest)
      invariant ChainNodes(rest) <= ChainNodes(c) && (rest == c || rest < c)
      decreases rest
    {
      ghost var sub := rest.sub;
      OneSubLess(m, f, node, rest, c);
      m' := ComponentDelete(m', m'[node].data, sub);
      f := f + Objects(sub);
      node := m'[node].next;
      rest := rest.rest;
    }
  }

  // zcrt_hash_delete
  method HashDelete(m: Memory, ht: Ptr, ghost t: Tree) returns (m': Memory)
    requires ht == t.table && HoldsTable(m, t) && Separate(t)
    ensures m' == m - Nodes(t.buckets) - {t.index, t.table}
  {
    m' := m;
    ghost var rest, f := t.buckets, {};
    var i := 0;
    while i < |m'[m'[ht].index].heads|
      invariant m' == m - f && f !! Nodes(rest) && f + Nodes(rest) == Nodes(t.buckets)
      invariant ht in m' && m'[ht] == m[ht] && m[ht].index in m' && m'[m[ht].index] == m[m[ht].index]
      invariant i <= |m[t.index].heads| && HoldsBuckets(m, m[t.index].heads[i..], rest) && SeparateBuckets(rest)
      decreases |m[t.index].heads| - i
    {
      ghost var c := rest.chain;
      ChainFrame(m, f, m[t.index].heads[i], c);
      m' := DeleteChain(m', m'[m'[ht].index].heads[i], c);
      f := f + ChainNodes(c);
      rest := rest.rest;
      i := i + 1;
    }
    m' := Release(m', m'[ht].index);
    m' := Release(m', ht);
  }

  // The inner loop: the successor is read before the node is freed.
  method DeleteChain(m: Memory, head: Ptr, ghost c: Chain) returns (m': Memory)
    requires HoldsChain(m, head, c) && SeparateChain(c)
    ensures m' == m - ChainNodes(c)
  {
    m' := m;
    ghost var rest, f := c, {};
    var node := head;
    while node != NULL
      invariant m' == m - f && f !! ChainNodes(rest) && f + ChainNodes(rest) == ChainNodes(c)
      invariant HoldsChain(m', node, rest) && SeparateChain(rest)
      decreases rest
    {
      var next := m'[node].next;
      ChainFrame(m', {node}, next, rest.rest);
      m' := Release(m', node);
      f := f + {node};
      node := next;
      rest := rest.rest;
    }
  }
}
