/**
 The growable array of zcrtlib/zarraylist.c, with elements in place of units of
 bytes; zero is the element whose bytes are all zero.
 */
module ZArray {
  import opened Machine
  import opened Wrappers

  class ZArrayList<T(0)> {
    const zero: T
    const step: u32
    var len: u32
    var alloced: u32
    var data: array<T>

    ghost predicate Valid()
      reads this
    {
      len <= alloced == data.Length && data.Length > 0
    }

    ghost function Contents(): seq<T>
      requires Valid()
      reads this, data
    {
      data[..len]
    }

    // zarray_new: at least one slot, none of them initialised
    constructor (size: u32, step: u32, zero: T)
      ensures Valid() && Contents() == [] && alloced == (if size == 0 then 1 else size)
      ensures this.step == step && this.zero == zero && fresh(data)
    {
      var n := if size == 0 then 1 else size;
      this.zero, this.step := zero, step;
      len, alloced := 0, n;
      data := new T[n];
    }

    // The slots that a new length asks for
    function Slots(length: u32): (n: int)
      reads this
      ensures n >= alloced
      ensures n >= length
      ensures alloced > length ==> n == alloced
    {
      if alloced > length then alloced
      else if length - alloced < step then alloced + step
      else length
    }

    // zarray_setlength: slots that were there keep their elements, even those
    // behind the old length; slots that are new are zero. The block is only
    // ever asked to stay as long as it is or to grow.
    method SetLength(length: u32)
      requires Valid() && Slots(length) < 0x1_0000_0000
      modifies this`len, this`alloced, this`data
      ensures Valid() && len == length && alloced == old(Slots(length))
      ensures alloced == if length < old(alloced) then old(alloced)
                         else if length < old(alloced) + step then old(alloced) + step else length
      ensures data == old(data) || fresh(data)
      ensures data[..] == old(data[..]) + seq(alloced - old(alloced), _ => zero)
    {
      var nlen := length;
      len := length;
      if alloced > length {
        return;
      }
      if length - alloced < step {
        nlen := alloced + step;
      }
      var block := new T[nlen];
      forall i | 0 <= i < alloced {
        block[i] := data[i];
      }
      forall i | alloced <= i < nlen {
        block[i] := zero;
      }
      data := block;
      alloced := nlen;
    }

    // zarray_get: the slot, if the index is below the length
    function Get(idx: u32): (r: Option<nat>)
      reads this
      ensures r.Some? <==> idx < len
      ensures r.Some? ==> r.value == idx
    {
      if idx >= len then None else Some(idx)
    }

    // zarray_increase: one more element, whose slot is returned. It holds what
    // the slot held before, or zero when the slot is new.
    method Increase() returns (slot: nat)
      requires Valid() && len + 1 < 0x1_0000_0000 && Slots(len + 1) < 0x1_0000_0000
      modifies this`len, this`alloced, this`data
      ensures Valid() && slot == old(len) && (data == old(data) || fresh(data))
      ensures Contents() == old(Contents()) + [if slot < old(alloced) then old(data[..])[slot] else zero]
    {
      var n := len;
      SetLength(n + 1);
      var p := Get(n);
      slot := p.value;
      assert Contents() == data[..n] + [data[n]];
    }
  }
}
