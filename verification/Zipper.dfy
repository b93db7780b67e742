/** Serveur/include/Zipper.hpp: the indexed zipper walks the indices at which
    every one of several storages has a component, in increasing order. The
    storages are read through `get`, so each is modelled by its sequence of
    slots; all storages here share one component type. */
module Zippers {
  import opened Wrappers
  import Slots

  /** all_set: idx is below every storage's size and every storage has a
      component there. */
  predicate AllSet<T>(cs: seq<seq<Option<T>>>, idx: nat) {
    forall k :: 0 <= k < |cs| ==> idx < |cs[k]| && cs[k][idx].Some?
  }

  /** _compute_size: the largest storage size (std::max_element). */
  function ComputeSize<T>(cs: seq<seq<Option<T>>>): (n: nat)
    requires |cs| > 0
    ensures exists k :: 0 <= k < |cs| && n == |cs[k]|
    ensures forall k :: 0 <= k < |cs| ==> |cs[k]| <= n
  {
    if |cs| == 1 then |cs[0]|
    else
      var front := ComputeSize(cs[..|cs| - 1]);
      var last := |cs[|cs| - 1]|;
      assert forall k :: 0 <= k < |cs| - 1 ==> cs[..|cs| - 1][k] == cs[k];
      if front < last then last else front
  }

  /** Where an iterator positioned at i comes to rest: i itself when it is at or
      past the bound or every storage is set there, otherwise the first such
      index after it. */
  function SkipFrom<T>(cs: seq<seq<Option<T>>>, max: nat, i: nat): (r: nat)
    ensures i <= r
    ensures i <= max ==> r <= max
    ensures r < max ==> AllSet(cs, r)
    ensures forall j :: i <= j < r ==> !AllSet(cs, j)
    decreases max - i
  {
    if i >= max || AllSet(cs, i) then i else SkipFrom(cs, max, i + 1)
  }

  class ZipperIterator<T(==)> {
    const containers: seq<seq<Option<T>>>
    const max: nat
    var idx: nat

    /** The constructor advances past a starting index that is not set in
        every storage. */
    constructor (containers: seq<seq<Option<T>>>, max: nat, idx: nat)
      ensures this.containers == containers && this.max == max
      ensures this.idx == SkipFrom(containers, max, idx)
    {
      this.containers := containers;
      this.max := max;
      this.idx := idx;
      new;
      if idx < max && !AllSet(containers, idx) {
        Next();
      }
    }

    /** operator++: step at least once, then keep stepping while below the
        bound at an index that is not set in every storage. */
    method Next()
      modifies this
      ensures idx == SkipFrom(containers, max, old(idx) + 1)
      ensures old(idx) < idx
      ensures old(idx) < max ==> idx <= max
    {
      idx := idx + 1;
      while idx < max && !AllSet(containers, idx)
        invariant old(idx) < idx
        invariant SkipFrom(containers, max, idx) == SkipFrom(containers, max, old(idx) + 1)
        decreases max - idx
      {
        idx := idx + 1;
      }
    }

    /** operator*: the index and each storage's slot there; at a resting index
        below the bound every slot is set. */
    function Deref(): (r: (nat, seq<Option<T>>))
      reads this
      ensures r.0 == idx && |r.1| == |containers|
      ensures forall k :: 0 <= k < |containers| ==> r.1[k] == Slots.Get(containers[k], idx)
      ensures AllSet(containers, idx) ==> forall k :: 0 <= k < |r.1| ==> r.1[k].Some?
    {
      var i := idx;
      (i, seq(|containers|, k requires 0 <= k < |containers| => Slots.Get(containers[k], i)))
    }

    /** operator==: same index, same bound, same storages; equal iterators
        dereference to the same index and slots, and an iterator equals itself. */
    predicate Equals(other: ZipperIterator<T>): (r: bool)
      reads this, other
      ensures r ==> Deref() == other.Deref()
      ensures other == this ==> r
    {
      idx == other.idx && max == other.max && containers == other.containers
    }
  }

  class IndexedZipper<T(==)> {
    const containers: seq<seq<Option<T>>>
    const size: nat

    constructor (containers: seq<seq<Option<T>>>)
      requires |containers| > 0
      ensures this.containers == containers && size == ComputeSize(containers)
    {
      this.containers := containers;
      size := ComputeSize(containers);
    }

    method Begin() returns (it: ZipperIterator<T>)
      ensures fresh(it) && it.containers == containers && it.max == size
      ensures it.idx == SkipFrom(containers, size, 0)
    {
      it := new ZipperIterator(containers, size, 0);
    }

    method End() returns (it: ZipperIterator<T>)
      ensures fresh(it) && it.containers == containers && it.max == size && it.idx == size
    {
      it := new ZipperIterator(containers, size, size);
    }
  }

  /** The indices a range-for over the zipper visits, starting from an iterator
      resting at i: each resting index below the bound, then the next one. */
  function Traversal<T>(cs: seq<seq<Option<T>>>, max: nat, i: nat): seq<nat>
    decreases max - i
  {
    if i >= max then [] else [i] + Traversal(cs, max, SkipFrom(cs, max, i + 1))
  }

  predicate StrictlyIncreasing(s: seq<nat>) {
    forall a, b :: 0 <= a < b < |s| ==> s[a] < s[b]
  }

  /** From any resting position, the traversal visits exactly the indices from
      there up to the bound at which every storage is set. */
  lemma {:induction false} TraversalMembers<T>(cs: seq<seq<Option<T>>>, max: nat, i: nat)
    requires i == SkipFrom(cs, max, i)
    ensures forall j: nat :: j in Traversal(cs, max, i) <==> i <= j < max && AllSet(cs, j)
    decreases max - i
  {
    if i < max {
      var next := SkipFrom(cs, max, i + 1);
      assert SkipFrom(cs, max, next) == next;
      TraversalMembers(cs, max, next);
      var t := Traversal(cs, max, i);
      assert t == [i] + Traversal(cs, max, next);
      forall j: nat
        ensures j in t <==> i <= j < max && AllSet(cs, j)
      {
        if i < j < next {
          assert !AllSet(cs, j);
        }
      }
    }
  }

  /** ... and visits them in strictly increasing order. */
  lemma {:induction false} TraversalIncreasing<T>(cs: seq<seq<Option<T>>>, max: nat, i: nat)
    requires i == SkipFrom(cs, max, i)
    ensures StrictlyIncreasing(Traversal(cs, max, i))
    decreases max - i
  {
    if i < max {
      var next := SkipFrom(cs, max, i + 1);
      assert SkipFrom(cs, max, next) == next;
      TraversalIncreasing(cs, max, next);
      TraversalMembers(cs, max, next);
      var rest := Traversal(cs, max, next);
      assert Traversal(cs, max, i) == [i] + rest;
      assert forall b :: 0 <= b < |rest| ==> i < rest[b] by {
        forall b | 0 <= b < |rest| ensures i < rest[b] {
          assert rest[b] in rest;
        }
      }
    }
  }

  /** A loop from begin() to end() visits, in increasing order, exactly the
      indices below the zipper size at which every storage is set. */
  lemma ZipperVisitsExactlyAllSet<T>(cs: seq<seq<Option<T>>>)
    requires |cs| > 0
    ensures var size := ComputeSize(cs);
            var t := Traversal(cs, size, SkipFrom(cs, size, 0));
            StrictlyIncreasing(t) && forall j: nat :: j in t <==> j < size && AllSet(cs, j)
  {
    var size := ComputeSize(cs);
    var begin := SkipFrom(cs, size, 0);
    assert SkipFrom(cs, size, begin) == begin;
    TraversalMembers(cs, size, begin);
    TraversalIncreasing(cs, size, begin);
  }

  /** Indices past the end of the shortest storage are never visited. */
  lemma ShortStorageBoundsTraversal<T>(cs: seq<seq<Option<T>>>, k: nat)
    requires |cs| > 0 && k < |cs|
    ensures var size := ComputeSize(cs);
            forall j :: j in Traversal(cs, size, SkipFrom(cs, size, 0)) ==> j < |cs[k]|
  {
    ZipperVisitsExactlyAllSet(cs);
  }

  /** When no index is set in every storage, begin() equals end(). */
  lemma EmptyZipper<T>(cs: seq<seq<Option<T>>>)
    requires |cs| > 0
    requires forall j: nat :: j < ComputeSize(cs) ==> !AllSet(cs, j)
    ensures SkipFrom(cs, ComputeSize(cs), 0) == ComputeSize(cs)
  {
  }
}
