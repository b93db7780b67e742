/** Serveur/include/PackedArray.hpp: a dense storage. Components sit back to
    back in `components`, `entities` holds the owner of each position, and
    `indexMap` maps each owner to its position. */
module PackedArrays {
  import opened Wrappers

  /** positions and index are inverse bijections between the stored entities
      and the positions 0 .. |entities| - 1, with one component per position. */
  ghost predicate Bijection<T>(entities: seq<nat>, components: seq<T>, index: map<nat, nat>) {
    |entities| == |components|
    && (forall e :: e in index ==> index[e] < |entities| && entities[index[e]] == e)
    && (forall i :: 0 <= i < |entities| ==> entities[i] in index && index[entities[i]] == i)
  }

  ghost function ContentsOf<T>(entities: seq<nat>, components: seq<T>, index: map<nat, nat>): map<nat, T>
    requires Bijection(entities, components, index)
  {
    map e | e in index :: components[index[e]]
  }

  /** Swap-removing the entity at position idx keeps the bijection and removes
      exactly that entity from the contents. */
  lemma SwapRemove<T>(entities: seq<nat>, components: seq<T>, index: map<nat, nat>, ent: nat)
    requires Bijection(entities, components, index) && ent in index
    ensures var idx, last := index[ent], |entities| - 1;
            var moved := entities[last];
            var e1 := entities[idx := moved][..last];
            var c1 := components[idx := components[last]][..last];
            var m1 := (if idx != last then index[moved := idx] else index) - {ent};
            Bijection(e1, c1, m1)
            && ContentsOf(e1, c1, m1) == ContentsOf(entities, components, index) - {ent}
  {
    var idx, last := index[ent], |entities| - 1;
    var moved := entities[last];
    var e1 := entities[idx := moved][..last];
    var c1 := components[idx := components[last]][..last];
    var m1 := (if idx != last then index[moved := idx] else index) - {ent};
    forall e | e in m1
      ensures m1[e] < last && e1[m1[e]] == e && c1[m1[e]] == components[index[e]]
    {
      if e != moved {
        assert index[e] != last && index[e] != idx;
      }
    }
    forall i | 0 <= i < last
      ensures e1[i] in m1 && m1[e1[i]] == i
    {
      if i != idx {
        assert entities[i] != moved && entities[i] != ent;
      } else {
        assert moved != ent;
      }
    }
  }

  class PackedArray<T> {
    var entities: seq<nat>
    var components: seq<T>
    var indexMap: map<nat, nat>

    ghost predicate Valid()
      reads this
    {
      Bijection(entities, components, indexMap)
    }

    /** What the storage holds: the component of each stored entity. */
    ghost function Contents(): map<nat, T>
      reads this
      requires Valid()
    {
      ContentsOf(entities, components, indexMap)
    }

    constructor ()
      ensures Valid() && entities == [] && components == [] && Contents() == map[]
    {
      entities := [];
      components := [];
      indexMap := map[];
    }

    /** index_of: the position of ent, or None for npos. */
    function IndexOf(ent: nat): (r: Option<nat>)
      reads this
      requires Valid()
      ensures r.None? <==> !Contains(ent)
      ensures r.Some? ==> r.value < Count() && entities[r.value] == ent
    {
      if ent in indexMap then Some(indexMap[ent]) else None
    }

    predicate Contains(ent: nat)
      reads this
    {
      ent in indexMap
    }

    /** count() and size(): the number of stored components, one per stored entity. */
    function Count(): (n: nat)
      reads this
      requires Valid()
      ensures n == |entities|
    {
      |components|
    }

    function Size(): (n: nat)
      reads this
      requires Valid()
      ensures n == Count()
    {
      |components|
    }

    /** insert: overwrite in place when ent is stored, append otherwise. */
    method Insert(ent: nat, comp: T) returns (stored: T)
      requires Valid()
      modifies this
      ensures Valid()
      ensures Contents() == old(Contents())[ent := comp]
      ensures old(Contains(ent)) ==> entities == old(entities)
                                     && components == old(components)[old(indexMap[ent]) := comp]
      ensures !old(Contains(ent)) ==> entities == old(entities) + [ent]
                                      && components == old(components) + [comp]
      ensures stored == comp
    {
      var it := IndexOf(ent);
      if it.Some? {
        components := components[it.value := comp];
        stored := comp;
        return;
      }
      indexMap := indexMap[ent := |components|];
      entities := entities + [ent];
      components := components + [comp];
      stored := comp;
    }

    /** emplace: as insert, with the component already constructed. */
    method Emplace(ent: nat, comp: T) returns (stored: T)
      requires Valid()
      modifies this
      ensures Valid()
      ensures Contents() == old(Contents())[ent := comp]
      ensures stored == comp
    {
      stored := Insert(ent, comp);
    }

    /** erase: swap-remove. The last component and its owner move into the hole,
        the owner's position is updated, and the last position is dropped. */
    method Erase(ent: nat)
      requires Valid()
      modifies this
      ensures Valid()
      ensures Contents() == old(Contents()) - {ent}
      ensures !Contains(ent)
      ensures Count() == old(Count()) - (if old(Contains(ent)) then 1 else 0)
      ensures !old(Contains(ent)) ==> entities == old(entities) && components == old(components)
      ensures old(Contains(ent)) ==>
                var idx, last := old(indexMap[ent]), old(|components|) - 1;
                entities == old(entities)[idx := old(entities[last])][..last]
                && components == old(components)[idx := old(components[last])][..last]
    {
      var it := IndexOf(ent);
      if it.None? {
        return;
      }
      var idx := it.value;
      var last := |components| - 1;
      SwapRemove(entities, components, indexMap, ent);
      if idx != last {
        components := components[idx := components[last]];
        entities := entities[idx := entities[last]];
        indexMap := indexMap[entities[idx] := idx];
      }
      components := components[..last];
      indexMap := indexMap - {ent};
      entities := entities[..last];
    }
  }
}
