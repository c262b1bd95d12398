/**
 The functions of zcrtlib/zevent.c that modules call. A null registry stands for
 a module, or its evt_mng, that is NULL.
 */
module ZEventApi {
  import opened Machine
  import opened Chains
  import opened EventOrder
  import opened EventRuns
  import opened EventSend
  import opened ZEvent
  import ErrCode

  // zcrt_event_register_ex
  method RegisterEx(mng: EventMng?, evtid: u32, r: Reg) returns (err: int)
    requires mng != null ==> mng.Valid()
    modifies mng
    ensures mng == null ==> err == -99
    ensures mng != null ==> err == if evtid < 256 && r.fn != 0 then 0 else -100
    ensures mng != null ==> mng.Valid() && mng.Keeps(NULL) && mng.lastEvtid == old(mng.lastEvtid)
    ensures mng != null ==> mng.book.lists == Apply(old(mng.book.lists), Register(evtid, r))
    ensures mng != null && err != ErrCode.SUCCESS ==> unchanged(mng)
    ensures err == ErrCode.SUCCESS ==> exists job :: Grew(old(mng.book), evtid, r.pri, job, mng.book)
    ensures mng != null ==> old(mng.store).Keys <= mng.store.Keys
    ensures mng != null && old(mng.freelist) != NULL ==> mng.store.Keys == old(mng.store).Keys
  {
    if mng == null {
      return ErrCode.INVALID_CRT_MODULE;
    }
    if evtid >= ZCRT_MAX_EVT || r.fn == NULL {
      return ErrCode.PARAM_ERR;
    }
    mng.Add(evtid, r);
    return ErrCode.SUCCESS;
  }

  // zcrt_event_unregister. idle says whether its assertion holds, that the event
  // is not the one being sent; the kernel build reports a failure and goes on.
  method Unregister(mng: EventMng?, evtid: u32, key: Key) returns (idle: bool)
    requires mng != null ==> mng.Valid()
    modifies mng
    ensures mng != null ==> mng.Valid() && mng.Keeps(NULL) && mng.lastEvtid == old(mng.lastEvtid)
    ensures mng != null ==> mng.book.lists == Apply(old(mng.book.lists), Op.Unregister(evtid, key))
    ensures mng != null && evtid < 256 && key.fn != 0 ==>
              TakesFrom(old(mng.book.lists), evtid, key.fn, key.p1, key.p2, mng.book.lists)
    ensures mng != null ==> OtherLists(old(mng.book), evtid, mng.book) && mng.store.Keys == old(mng.store).Keys
    ensures mng != null && (evtid >= 256 || key.fn == 0) ==> unchanged(mng)
    ensures mng != null && evtid < ZCRT_MAX_EVT && NoMatch(old(mng.book.lists)[evtid], key) ==> unchanged(mng)
    ensures idle == (mng != null && evtid < 256 && key.fn != 0 ==> old(mng.lastEvtid) != evtid)
  {
    if mng == null || evtid >= ZCRT_MAX_EVT || key.fn == NULL {
      return true;
    }
    idle := mng.lastEvtid != evtid;
    UnregisterTakes(mng.book.lists, evtid, key);
    mng.Remove(evtid, key);
  }

  // A run of registering and unregistering on a new registry: each list is the
  // stable sort, by descending priority, of what is still registered.
  method Run(ops: seq<Op>) returns (mng: EventMng)
    requires forall i :: 0 <= i < |ops| ==> ops[i].evtid < 0x1_0000_0000
    ensures fresh(mng) && mng.Valid() && mng.lastEvtid == 0
    ensures forall e :: 0 <= e < ZCRT_MAX_EVT ==> mng.book.lists[e] == StableSort(Surviving([], ops, e))
  {
    mng := new EventMng();
    Perform(mng, ops);
    forall e | 0 <= e < ZCRT_MAX_EVT ensures mng.book.lists[e] == StableSort(Surviving([], ops, e)) {
      RunFromEmpty(ops, e);
    }
  }

  method Perform(mng: EventMng, ops: seq<Op>)
    requires mng.Valid() && forall i :: 0 <= i < |ops| ==> ops[i].evtid < 0x1_0000_0000
    modifies mng
    ensures mng.Valid() && mng.lastEvtid == old(mng.lastEvtid)
    ensures mng.book.lists == ApplyAll(old(mng.book.lists), ops)
    decreases |ops|
  {
    if ops == [] {
      return;
    }
    match ops[0] {
      case Register(evtid, r) => var _ := RegisterEx(mng, evtid, r);
      case Unregister(evtid, key) => var _ := Unregister(mng, evtid, key);
    }
    Perform(mng, ops[1..]);
  }
}
