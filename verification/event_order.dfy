/**
 The order of the listeners of one event, as sequences: what registering and
 unregistering do to a list, and the reference they are measured against.
 */
module EventOrder {
  import opened Machine
  import opened Chains

  const ZCRT_MAX_EVT: nat := 256

  datatype EvtType = All | Local | Remote

  // A registration. The id tells apart registrations that are otherwise equal.
  datatype Reg = Reg(id: nat, pri: u8, kind: EvtType, fn: nat, p1: nat, p2: nat)

  // The triple that zcrt_event_unregister looks for
  datatype Key = Key(fn: nat, p1: nat, p2: nat)
  {
    predicate Matches(r: Reg) { r.fn == fn && r.p1 == p1 && r.p2 == p2 }
  }

  function KeyOf(r: Reg): Key { Key(r.fn, r.p1, r.p2) }

  // Behind every listener whose priority is not lower
  function Insert(l: seq<Reg>, r: Reg): seq<Reg>
  {
    if l == [] || l[0].pri < r.pri then [r] + l else [l[0]] + Insert(l[1..], r)
  }

  function RemoveFirst(l: seq<Reg>, k: Key): seq<Reg>
  {
    if l == [] then [] else if k.Matches(l[0]) then l[1..] else [l[0]] + RemoveFirst(l[1..], k)
  }

  // Of the listeners of l whose three fields are these, the first is taken out.
  ghost predicate TakesFirst(l: seq<Reg>, fn: nat, p1: nat, p2: nat, l': seq<Reg>)
  {
    if forall i :: 0 <= i < |l| ==> l[i].fn != fn || l[i].p1 != p1 || l[i].p2 != p2 then l' == l
    else exists v ::
      && 0 <= v < |l| && l[v].fn == fn && l[v].p1 == p1 && l[v].p2 == p2
      && (forall i :: 0 <= i < v ==> l[i].fn != fn || l[i].p1 != p1 || l[i].p2 != p2)
      && l' == l[..v] + l[v + 1..]
  }

  ghost predicate HasFields(r: Reg, fn: nat, p1: nat, p2: nat) { r.fn == fn && r.p1 == p1 && r.p2 == p2 }

  // Where that listener is, or the length of l
  lemma {:induction false} FirstAt(l: seq<Reg>, k: Key) returns (v: nat)
    ensures v <= |l| && (forall i :: 0 <= i < v ==> !HasFields(l[i], k.fn, k.p1, k.p2))
    ensures if v == |l| then RemoveFirst(l, k) == l
            else HasFields(l[v], k.fn, k.p1, k.p2) && RemoveFirst(l, k) == l[..v] + l[v + 1..]
  {
    if l == [] || HasFields(l[0], k.fn, k.p1, k.p2) {
      v := 0;
    } else {
      var w := FirstAt(l[1..], k);
      v := w + 1;
      if w < |l[1..]| {
        assert l[..v] + l[v + 1..] == [l[0]] + (l[1..][..w] + l[1..][w + 1..]);
      }
    }
  }

  lemma RemoveTakesFirst(l: seq<Reg>, k: Key)
    ensures TakesFirst(l, k.fn, k.p1, k.p2, RemoveFirst(l, k))
  {
    var v := FirstAt(l, k);
    assert forall i :: 0 <= i < v ==> !HasFields(l[i], k.fn, k.p1, k.p2);
  }

  // ---- The reference: a stable sort by descending priority ----

  // The registrations of priority p, in the order of the log
  function Band(log: seq<Reg>, p: nat): seq<Reg>
  {
    if log == [] then []
    else if log[0].pri == p then [log[0]] + Band(log[1..], p) else Band(log[1..], p)
  }

  // The bands below p, highest first
  function Bands(log: seq<Reg>, p: nat): seq<Reg>
    decreases p
  {
    if p == 0 then [] else Band(log, p - 1) + Bands(log, p - 1)
  }

  function StableSort(log: seq<Reg>): seq<Reg> { Bands(log, 0x100) }

  // Unregistering takes out of the log, of the registrations that match, the
  // earliest of the highest priority.
  ghost predicate IsVictim(log: seq<Reg>, k: Key, v: nat)
  {
    && v < |log| && k.Matches(log[v])
    && forall i :: 0 <= i < |log| && k.Matches(log[i]) ==>
         log[i].pri < log[v].pri || (log[i].pri == log[v].pri && v <= i)
  }

  ghost predicate NoMatch(l: seq<Reg>, k: Key)
  {
    forall i :: 0 <= i < |l| ==> !k.Matches(l[i])
  }

  function Without(log: seq<Reg>, v: nat): seq<Reg>
    requires v < |log|
  {
    log[..v] + log[v + 1..]
  }

  // ---- The lists are the sorted logs ----

  lemma {:induction false} BandConcat(a: seq<Reg>, b: seq<Reg>, p: nat)
    ensures Band(a + b, p) == Band(a, p) + Band(b, p)
  {
    if a == [] {
      assert a + b == b;
    } else {
      var x, rest := a[0], a[1..];
      BandConcat(rest, b, p);
      assert (a + b)[0] == x && (a + b)[1..] == rest + b;
    }
  }

  lemma {:induction false} BandIsP(log: seq<Reg>, p: nat)
    ensures forall i :: 0 <= i < |Band(log, p)| ==> Band(log, p)[i].pri == p && Band(log, p)[i] in log
  {
    if log != [] { BandIsP(log[1..], p); }
  }

  lemma {:induction false} BandsBelow(log: seq<Reg>, p: nat)
    ensures forall i :: 0 <= i < |Bands(log, p)| ==> Bands(log, p)[i].pri < p && Bands(log, p)[i] in log
    decreases p
  {
    if p > 0 {
      BandIsP(log, p - 1);
      BandsBelow(log, p - 1);
    }
  }

  // A registration of priority p or more does not show below p.
  lemma {:induction false} BandsIgnore(a: seq<Reg>, r: Reg, b: seq<Reg>, p: nat)
    requires r.pri >= p
    ensures Bands(a + [r] + b, p) == Bands(a + b, p)
    decreases p
  {
    if p > 0 {
      BandsIgnore(a, r, b, p - 1);
      BandConcat(a + [r], b, p - 1);
      BandConcat(a, [r], p - 1);
      BandConcat(a, b, p - 1);
      assert Band([r], p - 1) == [];
    }
  }

  lemma {:induction false} InsertSkips(a: seq<Reg>, b: seq<Reg>, r: Reg)
    requires forall i :: 0 <= i < |a| ==> a[i].pri >= r.pri
    ensures Insert(a + b, r) == a + Insert(b, r)
  {
    if a == [] {
      assert a + b == b;
    } else {
      InsertSkips(a[1..], b, r);
      assert (a + b)[1..] == a[1..] + b;
    }
  }

  lemma {:induction false} InsertBands(log: seq<Reg>, r: Reg, p: nat)
    requires r.pri < p
    ensures Insert(Bands(log, p), r) == Bands(log + [r], p)
    decreases p
  {
    if r.pri < p - 1 { InsertBands(log, r, p - 1); }
    InsertStep(log, r, p);
  }

  lemma InsertStep(log: seq<Reg>, r: Reg, p: nat)
    requires r.pri < p
    requires r.pri < p - 1 ==> Insert(Bands(log, p - 1), r) == Bands(log + [r], p - 1)
    ensures Insert(Bands(log, p), r) == Bands(log + [r], p)
  {
    if r.pri == p - 1 {
      InsertTop(log, r, p);
    } else {
      InsertLow(log, r, p);
    }
  }

  lemma InsertLow(log: seq<Reg>, r: Reg, p: nat)
    requires r.pri < p - 1 && Insert(Bands(log, p - 1), r) == Bands(log + [r], p - 1)
    ensures Insert(Bands(log, p), r) == Bands(log + [r], p)
  {
    InsertBelow(log, r, p);
    BandSnoc(log, r, p - 1);
  }

  lemma InsertBelow(log: seq<Reg>, r: Reg, p: nat)
    requires r.pri < p
    ensures Insert(Bands(log, p), r) == Band(log, p - 1) + Insert(Bands(log, p - 1), r)
  {
    BandIsP(log, p - 1);
    InsertSkips(Band(log, p - 1), Bands(log, p - 1), r);
  }

  lemma BandSnoc(log: seq<Reg>, r: Reg, p: nat)
    ensures Band(log + [r], p) == if r.pri == p then Band(log, p) + [r] else Band(log, p)
  {
    BandConcat(log, [r], p);
    assert Band([r], p) == if r.pri == p then [r] + Band([], p) else Band([], p);
  }

  lemma InsertFirst(log: seq<Reg>, r: Reg, p: nat)
    requires r.pri == p
    ensures Insert(Bands(log, p), r) == [r] + Bands(log, p)
    ensures Bands(log + [r], p) == Bands(log, p)
  {
    BandsBelow(log, p);
    BandsIgnore(log, r, [], p);
    assert log + [r] + [] == log + [r] && log + [] == log;
  }

  // In its own band the new registration comes last.
  lemma InsertTop(log: seq<Reg>, r: Reg, p: nat)
    requires r.pri == p - 1
    ensures Insert(Bands(log, p), r) == Bands(log + [r], p)
  {
    InsertBelow(log, r, p);
    InsertFirst(log, r, p - 1);
    BandSnoc(log, r, p - 1);
    Assoc(Band(log, p - 1), [r], Bands(log, p - 1));
  }

  // Registering keeps the list the stable sort of the log.
  lemma InsertSorts(log: seq<Reg>, r: Reg)
    ensures Insert(StableSort(log), r) == StableSort(log + [r])
  {
    InsertBands(log, r, 0x100);
  }

  lemma {:induction false} RemoveSkips(a: seq<Reg>, b: seq<Reg>, k: Key)
    requires NoMatch(a, k)
    ensures RemoveFirst(a + b, k) == a + RemoveFirst(b, k)
  {
    if a == [] {
      assert a + b == b;
    } else {
      RemoveSkips(a[1..], b, k);
      assert (a + b)[1..] == a[1..] + b;
    }
  }

  lemma {:induction false} RemoveNone(l: seq<Reg>, k: Key)
    requires NoMatch(l, k)
    ensures RemoveFirst(l, k) == l
  {
    if l != [] { RemoveNone(l[1..], k); }
  }

  lemma HigherBandsDiffer(log: seq<Reg>, k: Key, v: nat, p: nat)
    requires IsVictim(log, k, v) && log[v].pri < p
    ensures NoMatch(Band(log, p), k)
  {
    BandIsP(log, p);
    forall i | 0 <= i < |Band(log, p)| ensures !k.Matches(Band(log, p)[i]) {
      var j :| 0 <= j < |log| && log[j] == Band(log, p)[i];
    }
  }

  lemma {:induction false} RemoveBands(log: seq<Reg>, k: Key, v: nat, p: nat)
    requires IsVictim(log, k, v) && log[v].pri < p
    ensures RemoveFirst(Bands(log, p), k) == Bands(Without(log, v), p)
    decreases p
  {
    if log[v].pri == p - 1 {
      RemoveTop(log, k, v, p);
    } else {
      RemoveBands(log, k, v, p - 1);
      RemoveLow(log, k, v, p);
    }
  }

  lemma RemoveLow(log: seq<Reg>, k: Key, v: nat, p: nat)
    requires IsVictim(log, k, v) && log[v].pri < p - 1
    requires RemoveFirst(Bands(log, p - 1), k) == Bands(Without(log, v), p - 1)
    ensures RemoveFirst(Bands(log, p), k) == Bands(Without(log, v), p)
  {
    HigherBandsDiffer(log, k, v, p - 1);
    RemoveSkips(Band(log, p - 1), Bands(log, p - 1), k);
    BandWithout(log, v, p - 1);
  }

  lemma BandWithout(log: seq<Reg>, v: nat, p: nat)
    requires v < |log|
    ensures Band(log, p) ==
              (if log[v].pri == p then Band(log[..v], p) + [log[v]] else Band(log[..v], p)) + Band(log[v + 1..], p)
    ensures Band(Without(log, v), p) == Band(log[..v], p) + Band(log[v + 1..], p)
  {
    var a, b := log[..v], log[v + 1..];
    BandSnoc(a, log[v], p);
    BandConcat(a + [log[v]], b, p);
    BandConcat(a, b, p);
    assert log == a + [log[v]] + b;
  }

  // The victim is the first of its band that matches.
  lemma RemoveTop(log: seq<Reg>, k: Key, v: nat, p: nat)
    requires IsVictim(log, k, v) && log[v].pri == p - 1
    ensures RemoveFirst(Bands(log, p), k) == Bands(Without(log, v), p)
  {
    var a, r, b := log[..v], log[v], log[v + 1..];
    var x, y, low := Band(a, p - 1), Band(b, p - 1), Bands(log, p - 1);
    BandWithout(log, v, p - 1);
    assert Bands(log, p) == x + ([r] + (y + low));
    BandIsP(a, p - 1);
    RemoveSkips(x, [r] + (y + low), k);
    assert RemoveFirst([r] + (y + low), k) == y + low;
    assert log == a + [r] + b;
    BandsIgnore(a, r, b, p - 1);
    Assoc(x, y, low);
  }

  // Unregistering keeps the list the stable sort of the log without the victim.
  lemma RemoveSorts(log: seq<Reg>, k: Key, v: nat)
    requires IsVictim(log, k, v)
    ensures RemoveFirst(StableSort(log), k) == StableSort(Without(log, v))
  {
    RemoveBands(log, k, v, 0x100);
  }

  lemma RemoveNothing(log: seq<Reg>, k: Key)
    requires NoMatch(log, k)
    ensures RemoveFirst(StableSort(log), k) == StableSort(log)
  {
    BandsBelow(log, 0x100);
    RemoveNone(StableSort(log), k);
  }

  // Registering a triple that is not there and unregistering it restores the list.
  lemma {:induction false} RegisterUnregister(l: seq<Reg>, r: Reg)
    requires NoMatch(l, KeyOf(r))
    ensures RemoveFirst(Insert(l, r), KeyOf(r)) == l
  {
    if l != [] && l[0].pri >= r.pri {
      RegisterUnregister(l[1..], r);
    }
  }

  // ---- Positions ----

  // Where Insert puts a registration of priority pri
  ghost predicate IsInsertPos(l: seq<Reg>, pri: u8, k: nat)
  {
    k <= |l| && (forall i :: 0 <= i < k ==> l[i].pri >= pri) && (k < |l| ==> l[k].pri < pri)
  }

  lemma {:induction false} InsertIsAt(l: seq<Reg>, r: Reg, k: nat, l': seq<Reg>)
    requires IsInsertPos(l, r.pri, k) && Inserted(l, k, r, l')
    ensures Insert(l, r) == l'
  {
    if k > 0 {
      InsertIsAt(l[1..], r, k - 1, l'[1..]);
      assert l' == [l[0]] + l'[1..];
    } else {
      assert l' == [r] + l;
    }
  }

  // Where RemoveFirst finds its match
  ghost predicate IsMatchPos(l: seq<Reg>, key: Key, k: nat)
  {
    k < |l| && (forall i :: 0 <= i < k ==> !key.Matches(l[i])) && key.Matches(l[k])
  }

  lemma {:induction false} RemoveIsAt(l: seq<Reg>, key: Key, k: nat, l': seq<Reg>)
    requires IsMatchPos(l, key, k) && Removed(l, k, l')
    ensures RemoveFirst(l, key) == l'
  {
    if k > 0 {
      RemoveIsAt(l[1..], key, k - 1, l'[1..]);
      assert l' == [l[0]] + l'[1..];
    } else {
      assert l' == l[1..];
    }
  }

  ghost predicate Sorted(l: seq<Reg>)
  {
    forall i, j :: 0 <= i < j < |l| ==> l[i].pri >= l[j].pri
  }

  lemma InsertKeepsSorted(l: seq<Reg>, r: Reg, k: nat, l': seq<Reg>)
    requires Sorted(l) && IsInsertPos(l, r.pri, k) && Inserted(l, k, r, l')
    ensures Sorted(l')
  {}

  lemma RemoveKeepsSorted(l: seq<Reg>, k: nat, l': seq<Reg>)
    requires Sorted(l) && Removed(l, k, l')
    ensures Sorted(l')
  {}

  // ---- What makes the reference the stable sort ----

  lemma {:induction false} BandOfBand(log: seq<Reg>, q: nat, p: nat)
    ensures Band(Band(log, q), p) == if p == q then Band(log, p) else []
  {
    if log != [] { BandOfBand(log[1..], q, p); }
  }

  lemma {:induction false} BandOfBands(log: seq<Reg>, q: nat, p: nat)
    ensures Band(Bands(log, q), p) == if p < q then Band(log, p) else []
    decreases q
  {
    if q > 0 {
      BandConcat(Band(log, q - 1), Bands(log, q - 1), p);
      BandOfBand(log, q - 1, p);
      BandOfBands(log, q - 1, p);
    }
  }

  lemma {:induction false} BandsSorted(log: seq<Reg>, q: nat)
    ensures Sorted(Bands(log, q))
    decreases q
  {
    if q > 0 {
      BandsSorted(log, q - 1);
      BandIsP(log, q - 1);
      BandsBelow(log, q - 1);
    }
  }

  lemma {:induction false} SameBands(l: seq<Reg>, log: seq<Reg>, q: nat)
    requires forall p: nat :: p < q ==> Band(l, p) == Band(log, p)
    ensures Bands(l, q) == Bands(log, q)
    decreases q
  {
    if q > 0 { SameBands(l, log, q - 1); }
  }

  lemma {:induction false} SortedIsItsSort(l: seq<Reg>)
    requires Sorted(l)
    ensures StableSort(l) == l
  {
    if l == [] {
      NothingSorted(0x100);
    } else {
      var a, r := l[..|l| - 1], l[|l| - 1];
      assert l == a + [r];
      SortedIsItsSort(a);
      InsertSorts(a, r);
      InsertLast(a, r);
    }
  }

  lemma InsertLast(a: seq<Reg>, r: Reg)
    requires forall i :: 0 <= i < |a| ==> a[i].pri >= r.pri
    ensures Insert(a, r) == a + [r]
  {
    InsertSkips(a, [], r);
    assert a + [] == a;
  }

  lemma {:induction false} NothingSorted(p: nat)
    ensures Bands([], p) == []
  {
    if p > 0 { NothingSorted(p - 1); }
  }

  // Of every priority, l has the registrations of the log in their order.
  ghost predicate BandsAgree(l: seq<Reg>, log: seq<Reg>)
  {
    forall p: nat :: p < 0x100 ==> Band(l, p) == Band(log, p)
  }

  // The stable sort is the one list with descending priorities that does so.
  lemma StableSortIs(l: seq<Reg>, log: seq<Reg>)
    ensures l == StableSort(log) <==> Sorted(l) && BandsAgree(l, log)
  {
    BandsSorted(log, 0x100);
    forall p: nat | p < 0x100 ensures Band(StableSort(log), p) == Band(log, p) {
      BandOfBands(log, 0x100, p);
    }
    assert BandsAgree(StableSort(log), log);
    if Sorted(l) && BandsAgree(l, log) {
      SameBands(l, log, 0x100);
      SortedIsItsSort(l);
    }
  }
}
