/**
 The table of components: lookup by a bounded name in zipc/zipc_parse.c, and the
 guarded registering of zipc/zipc_server.c.
 */
module ComponentRegistry {
  import opened Machine
  import opened Wrappers
  import opened Chains
  import opened AssocList
  import opened ZHash
  import opened ComponentNames
  import ErrCode

  // The callbacks of the table; the comparison is that of strcmp.
  const COMP_KEY: Data -> u32 := (d: Data) => HashKey(d.bytes)
  const COMP_EQ: Cmp<Data> := (d: Data, e: Data) => CStr(d.bytes) == CStr(e.bytes)

  lemma CallbacksFit(size: u32)
    requires size > 0
    ensures Respects(COMP_EQ, COMP_KEY, size) && Equivalence(COMP_EQ)
  {
    forall x, y | COMP_EQ(x, y) ensures Bucket(COMP_KEY, size, x) == Bucket(COMP_KEY, size, y) {
      EqualNamesEqualKeys(x.bytes, y.bytes);
    }
  }

  // ---- What is registered, newest first ----

  ghost predicate SameName(d: Data, e: Data) { CStr(d.bytes) == CStr(e.bytes) }

  ghost predicate DistinctNames(log: seq<Data>)
  {
    forall i, j :: 0 <= i < j < |log| ==> !SameName(log[i], log[j])
  }

  datatype Op = Register(comp: Data) | Unregister(comp: Data)

  function Apply(log: seq<Data>, op: Op): seq<Data>
  {
    match op
    case Register(comp) => if Find(log, COMP_EQ, comp).Some? then log else [comp] + log
    case Unregister(comp) => Drop(log, COMP_EQ, comp)
  }

  function ApplyAll(log: seq<Data>, ops: seq<Op>): seq<Data>
    decreases |ops|
  {
    if ops == [] then log else ApplyAll(Apply(log, ops[0]), ops[1..])
  }

  lemma {:induction false} FindIs(log: seq<Data>, x: Data)
    ensures Find(log, COMP_EQ, x).None? <==> forall i :: 0 <= i < |log| ==> !SameName(log[i], x)
    ensures Find(log, COMP_EQ, x).Some? ==>
              Find(log, COMP_EQ, x).value in log && SameName(Find(log, COMP_EQ, x).value, x)
  {
    if log != [] {
      FindIs(log[1..], x);
      assert log == [log[0]] + log[1..];
    }
  }

  lemma {:induction false} DropKeepsDistinct(log: seq<Data>, x: Data)
    requires DistinctNames(log)
    ensures DistinctNames(Drop(log, COMP_EQ, x))
    ensures forall d :: d in Drop(log, COMP_EQ, x) <==> d in log && !SameName(d, x)
  {
    if log != [] {
      assert log == [log[0]] + log[1..];
      DropKeepsDistinct(log[1..], x);
      forall d | d in log[1..] ensures !SameName(log[0], d) {
        var j :| 0 <= j < |log[1..]| && log[1..][j] == d;
        assert log[j + 1] == d;
      }
    }
  }

  // In every run of registering and unregistering, names stay distinct.
  lemma {:induction false} RunKeepsDistinct(log: seq<Data>, ops: seq<Op>)
    requires DistinctNames(log)
    ensures DistinctNames(ApplyAll(log, ops))
    decreases |ops|
  {
    if ops != [] {
      match ops[0] {
        case Register(comp) => FindIs(log, comp);
        case Unregister(comp) => DropKeepsDistinct(log, comp);
      }
      RunKeepsDistinct(Apply(log, ops[0]), ops[1..]);
    }
  }

  // Unregistering takes out the component of that name and no other; then nothing
  // is found under the name, and under others what was found before.
  lemma UnregisterIs(log: seq<Data>, comp: Data)
    requires DistinctNames(log)
    ensures var log' := Apply(log, Unregister(comp));
            && (forall d :: d in log' <==> d in log && CStr(d.bytes) != CStr(comp.bytes))
            && (forall x :: Find(log', COMP_EQ, x) ==
                  if CStr(x.bytes) == CStr(comp.bytes) then None else Find(log, COMP_EQ, x))
  {
    DropKeepsDistinct(log, comp);
    var log' := Apply(log, Unregister(comp));
    CallbacksFit(1);
    forall x ensures Find(log', COMP_EQ, x) ==
                       if CStr(x.bytes) == CStr(comp.bytes) then None else Find(log, COMP_EQ, x)
    {
      if CStr(x.bytes) == CStr(comp.bytes) {
        FindIs(log', x);
      } else {
        RemoveKeepsOthers(log, COMP_EQ, comp, x);
      }
    }
  }

  // ---- Who holds a name after a run ----

  // The component that the last registration of the name which was accepted put
  // there, unless the name has been unregistered since
  function Holder(ops: seq<Op>, name: seq<u8>): Option<Data>
  {
    if ops == [] then None
    else
      var before := Holder(ops[..|ops| - 1], name);
      match ops[|ops| - 1]
      case Register(comp) => if CStr(comp.bytes) == name && before.None? then Some(comp) else before
      case Unregister(comp) => if CStr(comp.bytes) == name then None else before
  }

  lemma {:induction false} ApplySnoc(log: seq<Data>, ops: seq<Op>, op: Op)
    ensures ApplyAll(log, ops + [op]) == Apply(ApplyAll(log, ops), op)
    decreases |ops|
  {
    if ops == [] {
      assert [op][1..] == [] && [] + [op] == [op];
    } else {
      assert (ops + [op])[1..] == ops[1..] + [op];
      ApplySnoc(Apply(log, ops[0]), ops[1..], op);
    }
  }

  lemma OneMoreHolds(log: seq<Data>, op: Op, d: Data)
    requires DistinctNames(log)
    ensures d in Apply(log, op) <==>
              match op
              case Register(comp) => d in log || (d == comp && forall c :: c in log ==> CStr(c.bytes) != CStr(d.bytes))
              case Unregister(comp) => d in log && CStr(d.bytes) != CStr(comp.bytes)
  {
    match op
    case Register(comp) => FindIs(log, comp);
    case Unregister(comp) => UnregisterIs(log, comp);
  }

  // What is registered after a run is what holds its name.
  lemma {:induction false} RunHolds(ops: seq<Op>, d: Data)
    ensures d in ApplyAll([], ops) <==> Holder(ops, CStr(d.bytes)) == Some(d)
    decreases |ops|
  {
    if ops != [] {
      var before, op := ops[..|ops| - 1], ops[|ops| - 1];
      assert ops == before + [op];
      ApplySnoc([], before, op);
      RunKeepsDistinct([], before);
      var log := ApplyAll([], before);
      OneMoreHolds(log, op, d);
      RunHolds(before, d);
      if Holder(before, CStr(d.bytes)).None? {
        forall c | c in log ensures CStr(c.bytes) != CStr(d.bytes) { RunHolds(before, c); }
      } else {
        HolderHasName(before, CStr(d.bytes));
        RunHolds(before, Holder(before, CStr(d.bytes)).value);
      }
    }
  }

  lemma {:induction false} HolderHasName(ops: seq<Op>, name: seq<u8>)
    ensures Holder(ops, name).Some? ==> CStr(Holder(ops, name).value.bytes) == name
  {
    if ops != [] { HolderHasName(ops[..|ops| - 1], name); }
  }

  // That is: it was registered when nobody held its name, and no later unregister
  // of that name took it back.
  ghost predicate StandsFrom(ops: seq<Op>, i: nat, d: Data)
  {
    && i < |ops| && ops[i] == Register(d) && Holder(ops[..i], CStr(d.bytes)) == None
    && forall j :: i < j < |ops| && ops[j].Unregister? ==> CStr(ops[j].comp.bytes) != CStr(d.bytes)
  }

  ghost predicate Stands(ops: seq<Op>, d: Data)
  {
    exists i: nat :: StandsFrom(ops, i, d)
  }

  lemma StandsFromSnoc(ops: seq<Op>, op: Op, i: nat, d: Data)
    requires i < |ops|
    ensures StandsFrom(ops + [op], i, d)
            <==> StandsFrom(ops, i, d) && (op.Unregister? ==> CStr(op.comp.bytes) != CStr(d.bytes))
  {
    var all := ops + [op];
    assert all[i] == ops[i] && all[..i] == ops[..i] && all[|ops|] == op;
    assert forall j :: i < j < |ops| ==> all[j] == ops[j];
  }

  lemma StandsSnoc(ops: seq<Op>, op: Op, d: Data)
    ensures Stands(ops + [op], d) <==>
              || (Stands(ops, d) && (op.Unregister? ==> CStr(op.comp.bytes) != CStr(d.bytes)))
              || (op == Register(d) && Holder(ops, CStr(d.bytes)) == None)
  {
    var all := ops + [op];
    assert all[..|ops|] == ops && all[|ops|] == op;
    if Stands(all, d) {
      var i: nat :| StandsFrom(all, i, d);
      if i < |ops| { StandsFromSnoc(ops, op, i, d); }
    }
    if Stands(ops, d) {
      var i: nat :| StandsFrom(ops, i, d);
      StandsFromSnoc(ops, op, i, d);
    }
    if op == Register(d) && Holder(ops, CStr(d.bytes)) == None {
      assert StandsFrom(all, |ops|, d);
    }
  }

  lemma {:induction false} HolderStands(ops: seq<Op>, d: Data)
    ensures Holder(ops, CStr(d.bytes)) == Some(d) <==> Stands(ops, d)
    decreases |ops|
  {
    if ops != [] {
      var before, op := ops[..|ops| - 1], ops[|ops| - 1];
      assert ops == before + [op];
      HolderStands(before, d);
      StandsSnoc(before, op, d);
    }
  }

  // ---- Lookup by name ----

  // What zipc_component_new puts in the array
  ghost predicate Named(comp: Data, name: seq<u8>)
  {
    comp.bytes == Padded(CStr(name))
  }

  // A name of any length finds exactly the component whose stored name is its
  // first 63 characters.
  lemma LookupIs(log: seq<Data>, name: seq<u8>, addr: Ptr, comp: Data)
    requires DistinctNames(log)
    ensures Find(log, COMP_EQ, Data(addr, Padded(name))) == Some(comp)
            <==> comp in log && CStr(comp.bytes) == Trunc(CStr(name))
  {
    var x := Data(addr, Padded(name));
    PaddedHolds(name);
    FindIs(log, x);
    if comp in log && SameName(comp, x) {
      var i :| 0 <= i < |log| && log[i] == comp;
      var c := Find(log, COMP_EQ, x).value;
      var j :| 0 <= j < |log| && log[j] == c;
      assert SameName(log[i], log[j]);
    }
  }

  // A component that is registered is found again by the name it was made with.
  lemma FoundAgain(log: seq<Data>, name: seq<u8>, addr: Ptr, comp: Data)
    requires DistinctNames(log) && comp in log && Named(comp, name)
    ensures Find(log, COMP_EQ, Data(addr, Padded(name))) == Some(comp)
  {
    MadeNameIs(comp, name);
    LookupIs(log, name, addr, comp);
  }

  lemma {:induction false} CStrTwice(s: seq<u8>)
    ensures CStr(CStr(s)) == CStr(s)
  {
    if s != [] && s[0] != 0 { CStrTwice(s[1..]); }
  }

  // A component is refused if and only if one is registered whose name has the
  // same first 63 characters.
  lemma LongNamesCollide(log: seq<Data>, other: Data, name: seq<u8>)
    requires Named(other, name)
    ensures Apply(log, Register(other)) == log <==> exists comp :: comp in log && CStr(comp.bytes) == Trunc(CStr(name))
    ensures forall comp, n: seq<u8> :: comp in log && Named(comp, n) && Trunc(CStr(n)) == Trunc(CStr(name)) ==>
              Apply(log, Register(other)) == log
  {
    MadeNameIs(other, name);
    FindIs(log, other);
    assert |[other] + log| != |log|;
    if Find(log, COMP_EQ, other).None? {
      assert forall comp :: comp in log ==> !SameName(comp, other);
    }
    forall comp, n: seq<u8> | Named(comp, n) ensures CStr(comp.bytes) == Trunc(CStr(n)) {
      MadeNameIs(comp, n);
    }
  }

  lemma MadeNameIs(comp: Data, name: seq<u8>)
    requires Named(comp, name)
    ensures CStr(comp.bytes) == Trunc(CStr(name))
  {
    PaddedHolds(CStr(name));
    CStrTwice(name);
  }

  // ---- The code ----

  // A table of components
  ghost predicate IsCompList(list: Hash)
    reads list, list.index
  {
    list.Valid() && list.key == COMP_KEY && list.eq == COMP_EQ && DistinctNames(list.book.log)
  }

  // zipc_parase_lookup_comp: name holds complen bytes.
  method LookupComp(complist: Hash?, name: Option<seq<u8>>) returns (r: Option<Data>)
    requires complist != null ==> IsCompList(complist)
    ensures complist == null || name.None? ==> r == None
    ensures complist != null && name.Some? ==>
              forall comp :: r == Some(comp) <==>
                comp in complist.book.log && CStr(comp.bytes) == Trunc(CStr(name.value))
  {
    if complist == null || name.None? {
      return None;
    }
    CallbacksFit(complist.size);
    var src := new u8[ZCRT_NAME_LEN];
    SetLName(src, name.value);
    r := complist.Lookup(Data(NULL, src[..]));
    forall comp ensures r == Some(comp) <==> comp in complist.book.log && CStr(comp.bytes) == Trunc(CStr(name.value)) {
      LookupIs(complist.book.log, name.value, NULL, comp);
    }
  }

  // zipc_component_new, as far as the name goes: name is a C string.
  method ComponentNew(addr: Ptr, name: seq<u8>) returns (comp: Data)
    requires HasNul(name)
    ensures comp.addr == addr && Named(comp, name) && IsNameArray(comp.bytes) && |comp.bytes| == 64
    ensures forall i :: 0 <= i < 64 ==> comp.bytes[i] == if i < |CStr(name)| && i < 63 then CStr(name)[i] else 0
  {
    var a := new u8[ZCRT_NAME_LEN];
    forall i | 0 <= i < ZCRT_NAME_LEN {
      a[i] := 0;
    }
    var n := StrLen(name);
    if n >= ZCRT_NAME_LEN {
      n := ZCRT_NAME_LEN - 1;
    }
    forall i | 0 <= i < n {
      a[i] := name[i];
    }
    comp := Data(addr, a[..]);
    assert a[..] == Padded(CStr(name));
  }

  // Registering a new component and looking it up by the name it was made with:
  // it is found, unless one with the same first 63 characters was there.
  method CreateAndFind(list: Hash, addr: Ptr, name: seq<u8>) returns (err: int, found: Option<Data>)
    requires IsCompList(list) && HasNul(name)
    modifies list, list.index
    ensures IsCompList(list) && found.Some? && CStr(found.value.bytes) == Trunc(CStr(name))
    ensures if err == ErrCode.SUCCESS then
              list.book.log == [found.value] + old(list.book.log) && found.value.addr == addr
            else
              err == ErrCode.EXISTED && list.book.log == old(list.book.log) && found.value in list.book.log
  {
    var comp := ComponentNew(addr, name);
    MadeNameIs(comp, name);
    err := RegisterComp(list, Some(comp));
    FindIs(list.book.log, comp);
    found := LookupComp(list, Some(name));
  }

  // char name[ZCRT_NAME_LEN] with a C string in it, whatever follows the NUL
  ghost predicate IsNameArray(s: seq<u8>)
  {
    |s| == ZCRT_NAME_LEN && HasNul(s)
  }

  // zipc_server_register and zipc_component_register: list belongs to the module,
  // or the component, that is given; it or comp may be NULL.
  method RegisterComp(list: Hash?, comp: Option<Data>) returns (err: int)
    requires list != null ==> IsCompList(list)
    requires comp.Some? ==> IsNameArray(comp.value.bytes)
    modifies list, if list != null then {list.index} else {}
    ensures list != null ==> IsCompList(list)
    ensures list == null || comp.None? ==> err == -100
    ensures list != null && comp.None? ==> unchanged(list)
    ensures list != null && comp.Some? ==> list.book.log == Apply(old(list.book.log), Register(comp.value))
    ensures list != null && comp.Some? ==>
              err == if Find(old(list.book.log), COMP_EQ, comp.value).Some? then -93 else 0
  {
    if list == null || comp.None? {
      return ErrCode.PARAM_ERR;
    }
    err := RegisterIn(list, comp.value);
  }

  method RegisterIn(list: Hash, comp: Data) returns (err: int)
    requires IsCompList(list) && IsNameArray(comp.bytes)
    modifies list, list.index
    ensures IsCompList(list) && list.book.log == Apply(old(list.book.log), Register(comp))
    ensures err == if Find(old(list.book.log), COMP_EQ, comp).Some? then ErrCode.EXISTED else ErrCode.SUCCESS
  {
    NamedIsItsLookup(list.book.log, comp);
    RegisterKeepsDistinct(list.book.log, comp);
    var found := LookupComp(list, Some(CStr(comp.bytes)));
    if found.Some? {
      return ErrCode.EXISTED;
    }
    var _ := list.Add(comp);
    return ErrCode.SUCCESS;
  }

  lemma RegisterKeepsDistinct(log: seq<Data>, comp: Data)
    requires DistinctNames(log)
    ensures DistinctNames(Apply(log, Register(comp)))
  {
    FindIs(log, comp);
  }

  // Looking a component up by its own stored name
  lemma NamedIsItsLookup(log: seq<Data>, comp: Data)
    requires DistinctNames(log) && IsNameArray(comp.bytes)
    ensures Trunc(CStr(CStr(comp.bytes))) == CStr(comp.bytes)
    ensures Find(log, COMP_EQ, comp).None? <==> forall c :: c in log ==> CStr(c.bytes) != CStr(comp.bytes)
  {
    CStrEndsBefore(comp.bytes);
    CStrTwice(comp.bytes);
    FindIs(log, comp);
  }

  // zipc_server_unregister
  method UnregisterComp(list: Hash?, comp: Option<Data>)
    requires list != null ==> IsCompList(list)
    modifies list, if list != null then {list.index} else {}
    ensures list != null ==> IsCompList(list)
    ensures list != null ==>
              list.book.log ==
                if comp.None? then old(list.book.log) else Apply(old(list.book.log), Unregister(comp.value))
    ensures list != null && comp.Some? ==>
              forall d :: d in list.book.log <==> d in old(list.book.log) && CStr(d.bytes) != CStr(comp.value.bytes)
    ensures list != null && comp.Some? ==>
              forall x :: Find(list.book.log, COMP_EQ, x) ==
                if CStr(x.bytes) == CStr(comp.value.bytes) then None else Find(old(list.book.log), COMP_EQ, x)
  {
    if list != null && comp.Some? {
      UnregisterIs(list.book.log, comp.value);
      DropKeepsDistinct(list.book.log, comp.value);
      CallbacksFit(list.size);
      list.Remove(comp.value);
    }
  }

  method Perform(list: Hash, ops: seq<Op>)
    requires IsCompList(list) && forall i :: 0 <= i < |ops| && ops[i].Register? ==> IsNameArray(ops[i].comp.bytes)
    modifies list, list.index
    ensures IsCompList(list) && list.book.log == ApplyAll(old(list.book.log), ops)
    decreases |ops|
  {
    if ops == [] {
      return;
    }
    match ops[0] {
      case Register(comp) => var _ := RegisterComp(list, Some(comp));
      case Unregister(comp) => UnregisterComp(list, Some(comp));
    }
    Perform(list, ops[1..]);
  }

  // A new table after any run: it holds exactly the registrations that were
  // accepted and that no later unregister of their name took back.
  method Run(size: u32, ops: seq<Op>) returns (list: Hash)
    requires size > 0 && forall i :: 0 <= i < |ops| && ops[i].Register? ==> IsNameArray(ops[i].comp.bytes)
    ensures fresh(list) && IsCompList(list)
    ensures forall d :: d in list.book.log <==> Stands(ops, d)
  {
    list := new Hash(size, COMP_KEY, COMP_EQ);
    Perform(list, ops);
    forall d ensures d in list.book.log <==> Stands(ops, d) {
      RunHolds(ops, d);
      HolderStands(ops, d);
    }
  }
}
