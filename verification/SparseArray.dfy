/** Serveur/include/SparseArray.hpp: the sparse_array storage of the server
    tree, a vector of optional components indexed by entity handle, with no
    occupancy counter. */
module SparseArrays {
  import opened Wrappers
  import Slots

  /** The std::out_of_range that `at` throws. */
  datatype OutOfRange = OutOfRange

  class SparseArray<T> {
    var data: seq<Option<T>>

    constructor ()
      ensures data == []
    {
      data := [];
    }

    /** operator[]: unchecked; the caller guarantees idx < size(). In range it
        agrees with the checked getter. */
    function Index(idx: nat): (r: Option<T>)
      reads this
      requires idx < |data|
      ensures r == Get(idx)
    {
      data[idx]
    }

    /** at: the slot when in range, std::out_of_range otherwise. */
    function At(idx: nat): (r: Result<Option<T>, OutOfRange>)
      reads this
      ensures r.Failure? <==> idx >= Size()
      ensures r.Success? ==> r.value == Get(idx)
    {
      if idx >= |data| then Failure(OutOfRange) else Success(data[idx])
    }

    /** get: a copy of the slot, empty when out of range. */
    function Get(idx: nat): (r: Option<T>)
      reads this
      ensures r == Slots.Get(data, idx)
      ensures idx >= Size() ==> r.None?
    {
      if idx >= |data| then None else data[idx]
    }

    /** get_ref: resizes to idx + 1 slots when idx is out of range, then
        returns the slot, which every other reader sees unchanged. */
    method GetRef(idx: nat) returns (slot: Option<T>)
      modifies this
      ensures data == Slots.Grow(old(data), idx + 1)
      ensures Size() == if idx < old(Size()) then old(Size()) else idx + 1
      ensures slot == Slots.Get(old(data), idx)
      ensures forall j: nat :: Get(j) == Slots.Get(old(data), j)
    {
      if idx >= |data| {
        data := Slots.Grow(data, idx + 1);
      }
      slot := data[idx];
    }

    function Size(): nat
      reads this
    {
      |data|
    }

    /** insert_at: resize when pos is out of range, then store the component;
        every other slot reads as before. */
    method InsertAt(pos: nat, component: T) returns (slot: Option<T>)
      modifies this
      ensures data == Slots.Put(old(data), pos, component)
      ensures Get(pos) == Some(component) && Size() >= pos + 1
      ensures forall j: nat :: j != pos ==> Get(j) == Slots.Get(old(data), j)
      ensures slot == Some(component)
    {
      if pos >= |data| {
        data := Slots.Grow(data, pos + 1);
      }
      data := data[pos := Some(component)];
      slot := data[pos];
    }

    /** emplace_at: as insert_at, with the component already constructed. */
    method EmplaceAt(pos: nat, component: T) returns (slot: Option<T>)
      modifies this
      ensures data == Slots.Put(old(data), pos, component)
      ensures slot == Some(component)
    {
      slot := InsertAt(pos, component);
    }

    /** erase: empty the slot when in range; the size never changes. */
    method Erase(pos: nat)
      modifies this
      ensures data == Slots.Clear(old(data), pos)
      ensures Get(pos).None? && Size() == old(Size())
      ensures forall j: nat :: j != pos ==> Get(j) == Slots.Get(old(data), j)
    {
      if pos < |data| {
        data := data[pos := None];
      }
    }
  }
}
