/** A storage of optional components indexed by entity handle: the
    std::vector<std::optional<Component>> that backs every sparse storage.
    These functions give the meaning of the in-place operations of
    HybridArray, SparseArray and the Registry. */
module Slots {
  import opened Wrappers

  /** The slot of handle i; handles beyond the end read as empty. */
  function Get<T>(s: seq<Option<T>>, i: nat): Option<T> {
    if i < |s| then s[i] else None
  }

  predicate Has<T>(s: seq<Option<T>>, i: nat) {
    Get(s, i).Some?
  }

  /** Number of occupied slots. */
  function Occupied<T>(s: seq<Option<T>>): (n: nat)
    ensures n <= |s|
    ensures n == 0 <==> forall i :: 0 <= i < |s| ==> s[i].None?
  {
    if s == [] then 0
    else
      var init := s[..|s| - 1];
      assert forall i :: 0 <= i < |init| ==> init[i] == s[i];
      Occupied(init) + (if s[|s| - 1].Some? then 1 else 0)
  }

  /** k empty slots. */
  function Empties<T>(k: nat): (r: seq<Option<T>>)
    ensures |r| == k && forall i :: 0 <= i < k ==> r[i].None?
  {
    seq(k, _ => None)
  }

  /** Resize to at least n slots; the new slots are empty and nothing shrinks. */
  function Grow<T>(s: seq<Option<T>>, n: nat): (r: seq<Option<T>>)
    ensures |r| == if n <= |s| then |s| else n
    ensures r[..|s|] == s
    ensures forall i :: |s| <= i < |r| ==> r[i].None?
    ensures forall i: nat :: Get(r, i) == Get(s, i)
  {
    if n <= |s| then s else s + Empties(n - |s|)
  }

  /** Store c in the slot of i, growing the storage to i + 1 slots if needed. */
  function Put<T>(s: seq<Option<T>>, i: nat, c: T): (r: seq<Option<T>>)
    ensures |r| == if i < |s| then |s| else i + 1
    ensures Get(r, i) == Some(c)
    ensures forall j: nat :: j != i ==> Get(r, j) == Get(s, j)
  {
    Grow(s, i + 1)[i := Some(c)]
  }

  /** Empty the slot of i when it is in range; an out-of-range handle changes nothing. */
  function Clear<T>(s: seq<Option<T>>, i: nat): (r: seq<Option<T>>)
    ensures |r| == |s|
    ensures !Has(r, i)
    ensures forall j: nat :: j != i ==> Get(r, j) == Get(s, j)
  {
    if i < |s| then s[i := None] else s
  }

  function Indicator<T>(o: Option<T>): nat {
    if o.Some? then 1 else 0
  }

  lemma {:induction false} OccupiedSnoc<T>(s: seq<Option<T>>, x: Option<T>)
    ensures Occupied(s + [x]) == Occupied(s) + Indicator(x)
  {
    assert (s + [x])[..|s|] == s;
  }

  /** Overwriting one slot changes the count by the difference of the two indicators. */
  lemma {:induction false} OccupiedUpdate<T>(s: seq<Option<T>>, i: nat, x: Option<T>)
    requires i < |s|
    ensures Occupied(s[i := x]) == Occupied(s) - Indicator(s[i]) + Indicator(x)
  {
    var n := |s| - 1;
    var t := s[i := x];
    if i == n {
      assert t == s[..n] + [x];
      SnocSplit(s);
      OccupiedSnoc(s[..n], x);
      OccupiedSnoc(s[..n], s[n]);
    } else {
      OccupiedUpdate(s[..n], i, x);
      assert t == s[..n][i := x] + [s[n]];
      SnocSplit(s);
      OccupiedSnoc(s[..n][i := x], s[n]);
      OccupiedSnoc(s[..n], s[n]);
    }
  }

  /** Appending empty slots does not change the count. */
  lemma {:induction false} OccupiedEmpties<T>(s: seq<Option<T>>, k: nat)
    ensures Occupied(s + Empties(k)) == Occupied(s)
  {
    if k > 0 {
      var t := s + Empties(k - 1);
      OccupiedEmpties(s, k - 1);
      calc {
        s + Empties(k);
        s + (Empties(k - 1) + [None]);
        t + [None];
      }
      OccupiedSnoc(t, None);
    } else {
      assert s + [] == s;
    }
  }

  lemma OccupiedGrow<T>(s: seq<Option<T>>, n: nat)
    ensures Occupied(Grow(s, n)) == Occupied(s)
  {
    if n > |s| {
      OccupiedEmpties(s, n - |s|);
    }
  }

  /** Putting a component adds one to the count exactly when the slot was empty. */
  lemma OccupiedPut<T>(s: seq<Option<T>>, i: nat, c: T)
    ensures Occupied(Put(s, i, c)) == Occupied(s) + (if Has(s, i) then 0 else 1)
  {
    var g := Grow(s, i + 1);
    OccupiedGrow(s, i + 1);
    OccupiedUpdate(g, i, Some(c));
    assert Get(g, i) == Get(s, i);
  }

  /** Clearing a slot removes one from the count exactly when the slot was occupied. */
  lemma OccupiedClear<T>(s: seq<Option<T>>, i: nat)
    ensures Occupied(Clear(s, i)) == Occupied(s) - (if Has(s, i) then 1 else 0)
  {
    if i < |s| {
      OccupiedUpdate(s, i, None);
    }
  }
}
