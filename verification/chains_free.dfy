/**
 Freeing whole chains, node by node.
 */
module ChainsFree {
  import opened Chains

  predicate Before(p: Place, c: nat, i: nat)
  {
    p.In? && (p.c < c || (p.c == c && p.i < i))
  }

  // Of the nodes of m0, those before place i of chain c have been freed, each
  // once, and the others are as they were.
  ghost predicate FreedBefore<T>(at: map<Ptr, Place>, m0: Store<T>, m: Store<T>, freed: seq<Ptr>, c: nat, i: nat)
    requires at.Keys == m0.Keys
  {
    && m.Keys <= m0.Keys
    && (forall n :: n in m0 ==> if Before(at[n], c, i) then n !in m else n in m && m[n] == m0[n])
    && Distinct(freed) && (forall n :: n in freed <==> n in m0 && Before(at[n], c, i))
  }

  lemma NextChain<T>(chains: seq<seq<Ptr>>, at: map<Ptr, Place>, m0: Store<T>, m: Store<T>, freed: seq<Ptr>, c: nat)
    requires at.Keys == m0.Keys && Placed(chains, at) && c < |chains| && FreedBefore(at, m0, m, freed, c, |chains[c]|)
    ensures FreedBefore(at, m0, m, freed, c + 1, 0)
  {
    forall n | n in at
      ensures Before(at[n], c, |chains[c]|) <==> Before(at[n], c + 1, 0)
    {
      if at[n].In? {
        assert IsThere(chains, n, at[n]);
      }
    }
  }

  lemma FreeOne<T>(chains: seq<seq<Ptr>>, at: map<Ptr, Place>, m0: Store<T>, m: Store<T>, freed: seq<Ptr>, c: nat,
                   i: nat, n: Ptr)
    requires at.Keys == m0.Keys && Placed(chains, at) && c < |chains| && i < |chains[c]| && n == chains[c][i]
    requires FreedBefore(at, m0, m, freed, c, i)
    ensures n in m && m[n] == m0[n] && FreedBefore(at, m0, Free(m, n), freed + [n], c, i + 1)
  {
    assert at[n] == In(c, i);
    forall p | p in at
      ensures Before(at[p], c, i + 1) <==> Before(at[p], c, i) || p == n
    {
      if at[p] == In(c, i) {
        assert IsThere(chains, p, at[p]);
      }
    }
  }

  // The loop of _zcrt_e_free_cbs and of zcrt_hash_delete: the successor is read
  // before the node is freed.
  method FreeChain<T>(m: Store<T>, head: Ptr, freed: seq<Ptr>,
                      ghost chains: seq<seq<Ptr>>, ghost at: map<Ptr, Place>, ghost m0: Store<T>,
                      ghost heads: seq<Ptr>, ghost c: nat)
      returns (m': Store<T>, freed': seq<Ptr>)
    requires at.Keys == m0.Keys && Placed(chains, at) && AllLinked(m0, heads, chains) && c < |chains|
             && head == heads[c]
    requires FreedBefore(at, m0, m, freed, c, 0)
    ensures FreedBefore(at, m0, m', freed', c + 1, 0)
  {
    m', freed' := m, freed;
    var cur := head;
    ghost var i := 0;
    assert Linked(m0, heads[c], chains[c]);
    while cur != NULL
      invariant i <= |chains[c]| && cur == After(chains[c], i - 1) && FreedBefore(at, m0, m', freed', c, i)
      decreases |chains[c]| - i
    {
      FreeOne(chains, at, m0, m', freed', c, i, cur);
      var next := m'[cur].next;
      m', freed' := Free(m', cur), freed' + [cur];
      cur := next;
      i := i + 1;
    }
    NextChain(chains, at, m0, m', freed', c);
  }

  lemma AllFreed<T>(chains: seq<seq<Ptr>>, at: map<Ptr, Place>, m0: Store<T>, m: Store<T>, freed: seq<Ptr>)
    requires at.Keys == m0.Keys && Placed(chains, at) && HeldNodes(at) == {}
    requires FreedBefore(at, m0, m, freed, |chains|, 0)
    ensures m == map[] && forall n :: n in freed <==> n in m0
  {
    forall n | n in m0 ensures Before(at[n], |chains|, 0) {
      assert n in HeldNodes(at) || at[n].In?;
      assert IsThere(chains, n, at[n]);
    }
  }
}
