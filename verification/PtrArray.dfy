/** The pool of handles to native objects, with a cache of the least free index. */
module PtrArray {

  /** A pointer; 0 is the null pointer. */
  type Pointer = nat

  const GROWTH := 4
  const MAX_CELL := 0x7FFF_FFFF

  /** The pointer of a handle, which is an index plus one. */
  function At(data: seq<Pointer>, handle: int): Pointer {
    if 1 <= handle <= |data| then data[handle - 1] else 0
  }

  /** The live handles. */
  function Live(data: seq<Pointer>): map<int, Pointer> {
    map h | 1 <= h <= |data| && At(data, h) != 0 :: At(data, h)
  }

  /** `least` is the smallest free index, or the size if none is free. */
  ghost predicate IsLeastFree(data: seq<Pointer>, least: int) {
    0 <= least <= |data| && (least < |data| ==> data[least] == 0) && forall i :: 0 <= i < least ==> data[i] != 0
  }

  /** The least free index is determined, and its handle is the smallest one that is not live. */
  lemma LeastFreeIs(data: seq<Pointer>, least: int)
    requires IsLeastFree(data, least)
    ensures least + 1 !in Live(data) && forall h :: 1 <= h <= least ==> h in Live(data)
    ensures forall other :: IsLeastFree(data, other) ==> other == least
  {
    forall other | IsLeastFree(data, other)
      ensures other == least
    {
      assert !(other < least) && !(least < other);
    }
  }

  /** Storing over a slot keeps the cached index right exactly if the slot is not the cached one. */
  lemma StoreKeepsLeastIff(data: seq<Pointer>, least: int, index: int, value: Pointer)
    requires IsLeastFree(data, least) && 0 <= index < |data| && value != 0
    ensures IsLeastFree(data[index := value], least) <==> index != least
  {
  }

  class Pool {
    const defaultSize: nat
    var data: array?<Pointer>
    var acquisitions: nat
    var least: int

    ghost function Slots(): seq<Pointer>
      reads this, data
    {
      if data == null then [] else data[..]
    }

    /** Without acquisitions there are no slots. */
    ghost predicate Valid()
      reads this
    {
      (acquisitions > 0 <==> data != null) && (data != null ==> data.Length <= MAX_CELL) &&
      1 <= defaultSize <= MAX_CELL
    }

    ghost predicate Exact()
      reads this, data
    {
      Valid() && (data != null ==> IsLeastFree(data[..], least))
    }

    /** A pool whose includer asks for `defaultSize` slots to start with. */
    constructor (defaultSize: nat)
      requires 1 <= defaultSize <= MAX_CELL
      ensures Exact() && acquisitions == 0 && Slots() == [] && this.defaultSize == defaultSize
    {
      this.defaultSize := defaultSize;
      data, acquisitions, least := null, 0, 0;
    }

    /** `ptrarray_acquire`; `memory` says whether the slots can be allocated. */
    method Acquire(memory: bool) returns (ok: bool)
      requires Exact()
      modifies this
      ensures Exact() && (ok <==> memory || old(acquisitions) > 0)
      ensures !ok ==> data == null && acquisitions == 0
      ensures ok ==> acquisitions == old(acquisitions) + 1
      ensures old(acquisitions) > 0 ==> data == old(data) && least == old(least)
      ensures ok && old(acquisitions) == 0 ==> fresh(data) && data.Length == defaultSize && Live(data[..]) == map[]
    {
      if acquisitions == 0 {
        if !memory {
          return false;
        }
        data := new Pointer[defaultSize](i => 0);
        least := 0;
      }
      acquisitions := acquisitions + 1;
      return true;
    }

    /** `ptrarray_release`. */
    method Release()
      requires Exact() && acquisitions > 0
      modifies this
      ensures Exact() && acquisitions == old(acquisitions) - 1
      ensures if acquisitions == 0 then Slots() == [] else data == old(data) && least == old(least)
    {
      acquisitions := acquisitions - 1;
      if acquisitions == 0 {
        data := null;
      }
    }

    /** `__ptrarray_grow`: the new slots are free; a size that does not fit a cell is refused. */
    method Grow(memory: bool) returns (ok: bool)
      requires Valid() && data != null
      modifies `data
      ensures Valid() && data != null
      ensures ok <==> memory && old(data.Length) + GROWTH <= MAX_CELL
      ensures !ok ==> data == old(data)
      ensures ok ==> fresh(data) && data[..] == old(data[..]) + [0, 0, 0, 0]
    {
      if data.Length + GROWTH > MAX_CELL || !memory {
        return false;
      }
      var newData := new Pointer[data.Length + GROWTH](i => 0);
      forall i | 0 <= i < data.Length {
        newData[i] := data[i];
      }
      data := newData;
      return true;
    }

    /** `ptrarray_insert`: returns the smallest handle that is not live, or 0 if there is no memory. */
    method Insert(value: Pointer, memory: bool) returns (handle: int)
      requires Exact() && acquisitions > 0 && value != 0
      modifies this, data
      ensures Exact() && acquisitions == old(acquisitions) && (data == old(data) || fresh(data))
      ensures handle == 0 <==> old(least == data.Length) && !(memory && old(data.Length) + GROWTH <= MAX_CELL)
      ensures handle == 0 ==> Slots() == old(Slots()) && least == old(least)
      ensures handle != 0 ==> Live(Slots()) == old(Live(Slots()))[handle := value]
      ensures handle != 0 ==> handle !in old(Live(Slots())) && forall h :: 1 <= h < handle ==> h in old(Live(Slots()))
    {
      ghost var before := data[..];
      LeastFreeIs(before, least);
      var index := least;
      if index >= data.Length {
        var grown := Grow(memory);
        if !grown {
          return 0;
        }
      }
      assert data[index] == 0 && Live(data[..]) == Live(before);
      data[index] := value;
      handle := index + 1;
      index := index + 1;
      while index < data.Length && data[index] != 0
        invariant 0 < index <= data.Length && forall i :: 0 <= i < index ==> data[i] != 0
      {
        index := index + 1;
      }
      least := index;
    }

    /** `ptrarray_remove`. */
    method Remove(handle: int) returns (ok: bool)
      requires Exact()
      modifies this, data
      ensures Exact() && data == old(data) && acquisitions == old(acquisitions)
      ensures ok <==> handle in old(Live(Slots()))
      ensures Live(Slots()) == old(Live(Slots())) - {handle}
    {
      if data == null || !(1 <= handle <= data.Length) || data[handle - 1] == 0 {
        return false;
      }
      data[handle - 1] := 0;
      if handle - 1 < least {
        least := handle - 1;
      }
      return true;
    }

    /** `ptrarray_get`: the null pointer stands for a handle that is not live. */
    method Get(handle: int) returns (value: Pointer)
      requires Valid()
      ensures value == if handle in Live(Slots()) then Live(Slots())[handle] else 0
    {
      if data == null || !(1 <= handle <= data.Length) {
        return 0;
      }
      return data[handle - 1];
    }

    /** `ptrarray_set`. It also stores into free slots; the cached index stays exact unless the slot is the
        cached one. */
    method Set(handle: int, value: Pointer) returns (ok: bool)
      requires Exact() && value != 0
      modifies data
      ensures Valid() && (ok <==> 1 <= handle <= |old(Slots())|)
      ensures Live(Slots()) == if ok then old(Live(Slots()))[handle := value] else old(Live(Slots()))
      ensures Exact() <==> !ok || handle - 1 != least
    {
      if data == null || !(1 <= handle <= data.Length) {
        return false;
      }
      StoreKeepsLeastIff(data[..], least, handle - 1, value);
      data[handle - 1] := value;
      return true;
    }
  }
}
