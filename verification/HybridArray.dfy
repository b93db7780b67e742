/** include/HybridArray.hpp: the component storage the Registry uses. It is a
    sparse vector of optional components indexed by entity handle, together
    with a counter of occupied slots that every mutation keeps in step. The
    packed mode is a stub that never switches on. */
module HybridArrays {
  import opened Wrappers
  import Slots

  class HybridArray<T> {
    var sparse: seq<Option<T>>
    var sparseCount: nat
    var modeIsPacked: bool
    const switchDensity: real

    /** The counter equals the number of occupied slots, and the packed mode
        is never entered. */
    ghost predicate Valid()
      reads this
    {
      sparseCount == Slots.Occupied(sparse) && !modeIsPacked
    }

    constructor (switchDensity: real)
      ensures Valid()
      ensures sparse == [] && this.switchDensity == switchDensity
    {
      this.switchDensity := switchDensity;
      sparse := [];
      sparseCount := 0;
      modeIsPacked := false;
    }

    /** ensure_sparse_capacity: resize only when the storage is smaller. */
    method EnsureSparseCapacity(newCap: nat)
      requires Valid()
      modifies this
      ensures Valid()
      ensures sparse == Slots.Grow(old(sparse), newCap)
      ensures sparseCount == old(sparseCount)
    {
      Slots.OccupiedGrow(sparse, newCap);
      if |sparse| < newCap {
        sparse := Slots.Grow(sparse, newCap);
      }
    }

    /** insert_at: the slot of id now holds comp, the storage has at least
        id + 1 slots, every other slot is as before, and the counter grew by one
        exactly when the slot was empty. Returns the stored component. */
    method InsertAt(id: nat, comp: T) returns (stored: T)
      requires Valid()
      modifies this
      ensures Valid()
      ensures sparse == Slots.Put(old(sparse), id, comp)
      ensures Has(id) && Get(id) == Some(comp) && Size() >= id + 1 && Size() >= old(Size())
      ensures forall j: nat :: j != id ==> Get(j) == Slots.Get(old(sparse), j)
      ensures sparseCount == old(sparseCount) + (if Slots.Has(old(sparse), id) then 0 else 1)
      ensures stored == comp
    {
      Slots.OccupiedPut(sparse, id, comp);
      EnsureSparseCapacity(id + 1);
      if sparse[id].None? {
        sparseCount := sparseCount + 1;
      }
      sparse := sparse[id := Some(comp)];
      stored := comp;
    }

    /** emplace_at constructs the component in its slot from constructor
        arguments; here the argument is the constructed value. */
    method EmplaceAt(id: nat, comp: T) returns (stored: T)
      requires Valid()
      modifies this
      ensures Valid()
      ensures sparse == Slots.Put(old(sparse), id, comp)
      ensures sparseCount == old(sparseCount) + (if Slots.Has(old(sparse), id) then 0 else 1)
      ensures stored == comp
    {
      stored := InsertAt(id, comp);
    }

    /** erase: empty an occupied in-range slot and count it out; never shrink. */
    method Erase(id: nat)
      requires Valid()
      modifies this
      ensures Valid()
      ensures sparse == Slots.Clear(old(sparse), id)
      ensures !Has(id) && Size() == old(Size())
      ensures forall j: nat :: j != id ==> Get(j) == Slots.Get(old(sparse), j)
      ensures sparseCount == old(sparseCount) - (if Slots.Has(old(sparse), id) then 1 else 0)
    {
      Slots.OccupiedClear(sparse, id);
      if id < |sparse| && sparse[id].Some? {
        sparse := sparse[id := None];
        sparseCount := sparseCount - 1;
      }
    }

    /** get: a copy of the slot; out-of-range handles read as empty. */
    function Get(id: nat): (r: Option<T>)
      reads this
      ensures r.Some? <==> Has(id)
      ensures id >= Size() ==> r.None?
    {
      if id >= |sparse| then None else sparse[id]
    }

    /** get_ref: the slot itself, after growing the storage to id + 1 slots.
        Only the size changes: every slot reads as before. */
    method GetRef(id: nat) returns (slot: Option<T>)
      requires Valid()
      modifies this
      ensures Valid()
      ensures sparse == Slots.Grow(old(sparse), id + 1)
      ensures Size() >= id + 1 && slot == Slots.Get(old(sparse), id)
      ensures forall j: nat :: Get(j) == Slots.Get(old(sparse), j)
      ensures sparseCount == old(sparseCount)
    {
      EnsureSparseCapacity(id + 1);
      slot := sparse[id];
    }

    predicate Has(id: nat)
      reads this
    {
      id < |sparse| && sparse[id].Some?
    }

    function Size(): nat
      reads this
    {
      |sparse|
    }

    /** The occupied-slot counter: the number of handles that have a component. */
    function Count(): (n: nat)
      reads this
      requires Valid()
      ensures n == Slots.Occupied(sparse) && n <= Size()
    {
      sparseCount
    }

    method ConvertToPacked()
      requires Valid()
      modifies this
      ensures Valid() && sparse == old(sparse) && sparseCount == old(sparseCount)
    {
      modeIsPacked := false;
    }

    method ConvertToSparse()
      requires Valid()
      modifies this
      ensures Valid() && sparse == old(sparse) && sparseCount == old(sparseCount)
    {
      modeIsPacked := false;
    }

    function IsPacked(): (r: bool)
      reads this
      requires Valid()
      ensures !r
    {
      modeIsPacked
    }
  }
}
