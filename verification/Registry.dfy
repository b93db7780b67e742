/** include/Registry.hpp: the ECS registry. It owns one storage per
    registered component kind, hands out entity handles (reusing freed handles
    last-in first-out), erases an entity's components from every storage when
    it is killed, and runs the registered systems in order.

    Each storage is modelled by its slot sequence (the HybridArray's `sparse`
    vector; its counter is a function of it, see HybridArrays). The ghost set
    `live` records the handles that have been spawned and not yet killed. */
module Registries {
  import opened Wrappers
  import opened Components
  import Slots
  import Kinematics

  type Storage = seq<Option<Component>>

  /** The std::out_of_range the const get_components throws. */
  datatype NotRegistered = NotRegistered

  /** The systems installed with add_system in this project: the position
      integration of src/game/Game.cpp. */
  datatype System = PositionIntegration

  /** No handle occurs twice in s. */
  predicate NoDup(s: seq<nat>) {
    forall a, b :: 0 <= a < b < |s| ==> s[a] != s[b]
  }

  /** No value occurs twice in s. */
  predicate Distinct<T(==)>(s: seq<T>) {
    s == [] || (s[|s| - 1] !in s[..|s| - 1] && Distinct(s[..|s| - 1]))
  }

  /** Distinct, stated on every pair of positions. */
  lemma {:induction false} DistinctPairs<T>(s: seq<T>)
    requires Distinct(s)
    ensures forall a, b :: 0 <= a < b < |s| ==> s[a] != s[b]
  {
    if s != [] {
      var n := |s| - 1;
      DistinctPairs(s[..n]);
      forall a, b | 0 <= a < b < |s| ensures s[a] != s[b] {
        if b == n {
          assert s[a] == s[..n][a];
        } else {
          assert s[a] == s[..n][a] && s[b] == s[..n][b];
        }
      }
    }
  }

  /** In a distinct sequence no entry occurs before its own position. */
  lemma DistinctAt<T>(s: seq<T>, j: nat)
    requires Distinct(s) && j < |s|
    ensures s[j] !in s[..j]
  {
    DistinctPairs(s);
  }

  /** The storages with kind k present, created empty when it was missing. */
  function Registered(st: map<Kind, Storage>, k: Kind): (r: map<Kind, Storage>)
    ensures k in r && r.Keys == st.Keys + {k}
    ensures forall j :: j in st ==> r[j] == st[j]
    ensures k !in st ==> r[k] == []
  {
    if k in st then st else st[k := []]
  }

  /** The storage of kind k in st, or the empty storage register_component
      creates when st has none. */
  function StoreOr(st: map<Kind, Storage>, k: Kind): Storage {
    if k in st then st[k] else []
  }

  /** Registering one more kind keeps every storage what it was in st0, or
      empty when st0 had none. */
  lemma RegisteredKeeps(st0: map<Kind, Storage>, st: map<Kind, Storage>, k: Kind)
    requires st0.Keys <= st.Keys
    requires forall j :: j in st ==> st[j] == StoreOr(st0, j)
    ensures forall j :: j in Registered(st, k) <==> j in st || j == k
    ensures forall j :: j in Registered(st, k) ==> Registered(st, k)[j] == StoreOr(st0, j)
  {
  }

  /** Putting a component in the slot of a live entity keeps every component
      on a live entity. */
  lemma PutKeepsOnLive(st: map<Kind, Storage>, live: set<nat>, k: Kind, e: nat, c: Component)
    requires k in st && e in live
    requires forall j, i {:trigger Slots.Get(st[j], i)} :: j in st && Slots.Get(st[j], i).Some? ==> i in live
    ensures var st' := st[k := Slots.Put(st[k], e, c)];
            forall j, i {:trigger Slots.Get(st'[j], i)} :: j in st' && Slots.Get(st'[j], i).Some? ==> i in live
  {
    var st' := st[k := Slots.Put(st[k], e, c)];
    forall j, i | j in st' && Slots.Get(st'[j], i).Some?
      ensures i in live
    {
      if j == k && i != e {
        assert Slots.Get(st'[j], i) == Slots.Get(st[k], i);
      }
    }
  }

  /** The storages after add_component(e, c). */
  function Added(st: map<Kind, Storage>, e: nat, c: Component): map<Kind, Storage> {
    var s := Registered(st, KindOf(c));
    s[KindOf(c) := Slots.Put(s[KindOf(c)], e, c)]
  }

  /** add_component(e, c) registers the kind of c if it was missing, puts c in
      the slot of e, and leaves every other slot and storage as it was. */
  lemma AddedMeaning(st: map<Kind, Storage>, e: nat, c: Component)
    ensures var r := Added(st, e, c);
            KindOf(c) in r && r.Keys == st.Keys + {KindOf(c)}
            && (forall k :: k in st && k != KindOf(c) ==> r[k] == st[k])
            && Slots.Get(r[KindOf(c)], e) == Some(c)
            && (forall j: nat :: j != e ==> Slots.Get(r[KindOf(c)], j) == Slots.Get(Registered(st, KindOf(c))[KindOf(c)], j))
  {
  }

  /** The storages after add_component(e, c) for each c of cs in order. */
  function AddedAll(st: map<Kind, Storage>, e: nat, cs: seq<Component>): map<Kind, Storage>
    decreases |cs|
  {
    if cs == [] then st else AddedAll(Added(st, e, cs[0]), e, cs[1..])
  }

  /** After adding a list of components, the storage of each component's kind
      holds, in the slot of e, the last component of that kind. */
  lemma {:induction false} AddedAllStores(st: map<Kind, Storage>, e: nat, cs: seq<Component>, i: nat)
    requires i < |cs|
    requires forall j :: i < j < |cs| ==> KindOf(cs[j]) != KindOf(cs[i])
    ensures KindOf(cs[i]) in AddedAll(st, e, cs)
    ensures Slots.Get(AddedAll(st, e, cs)[KindOf(cs[i])], e) == Some(cs[i])
    decreases |cs|
  {
    if i > 0 {
      AddedAllStores(Added(st, e, cs[0]), e, cs[1..], i - 1);
    } else {
      AddedAllFrame(Added(st, e, cs[0]), e, cs[1..], KindOf(cs[0]));
    }
  }

  /** Adding a list of components leaves the storage of every other kind as
      it was. */
  lemma {:induction false} AddedAllFrame(st: map<Kind, Storage>, e: nat, cs: seq<Component>, k: Kind)
    requires k in st && forall j :: 0 <= j < |cs| ==> KindOf(cs[j]) != k
    ensures k in AddedAll(st, e, cs) && AddedAll(st, e, cs)[k] == st[k]
    decreases |cs|
  {
    if cs != [] {
      AddedFrame(st, e, cs[0], k);
      AddedAllFrame(Added(st, e, cs[0]), e, cs[1..], k);
    }
  }

  /** Adding a list of components for e leaves every other entity's slot, in
      every storage, as it was (a missing storage reads as empty). */
  lemma {:induction false} AddedAllSlots(st: map<Kind, Storage>, e: nat, cs: seq<Component>, k: Kind, h: nat)
    requires h != e
    ensures Slots.Get(Registered(AddedAll(st, e, cs), k)[k], h) == Slots.Get(Registered(st, k)[k], h)
    decreases |cs|
  {
    if cs != [] {
      var next := Added(st, e, cs[0]);
      AddedAllSlots(next, e, cs[1..], k, h);
      if k in next {
        AddedSlots(st, e, cs[0], k, h);
      }
    }
  }

  /** The kinds of a list of components. */
  function Kinds(cs: seq<Component>): set<Kind> {
    if cs == [] then {} else {KindOf(cs[0])} + Kinds(cs[1..])
  }

  /** A kind none of the components has is not among their kinds. */
  lemma {:induction false} KindNotListed(cs: seq<Component>, k: Kind)
    requires forall j :: 0 <= j < |cs| ==> KindOf(cs[j]) != k
    ensures k !in Kinds(cs)
  {
    if cs != [] {
      KindNotListed(cs[1..], k);
    }
  }

  /** Adding a list of components registers exactly the kinds it holds. */
  lemma {:induction false} AddedAllKeys(st: map<Kind, Storage>, e: nat, cs: seq<Component>)
    ensures AddedAll(st, e, cs).Keys == st.Keys + Kinds(cs)
    decreases |cs|
  {
    if cs != [] {
      AddedAllKeys(Added(st, e, cs[0]), e, cs[1..]);
    }
  }

  lemma AddedFrame(st: map<Kind, Storage>, e: nat, c: Component, k: Kind)
    requires k in st && k != KindOf(c)
    ensures k in Added(st, e, c) && Added(st, e, c)[k] == st[k]
  {
  }

  /** Slots other than e's keep their contents under add_component. */
  lemma AddedSlots(st: map<Kind, Storage>, e: nat, c: Component, k: Kind, h: nat)
    requires k in Added(st, e, c) && h != e
    ensures Slots.Get(Added(st, e, c)[k], h) == Slots.Get(Registered(st, k)[k], h)
  {
  }

  /** The storages after register_component of each kind of ks, in order. */
  function RegisteredAll(st: map<Kind, Storage>, ks: seq<Kind>): map<Kind, Storage> {
    if ks == [] then st else Registered(RegisteredAll(st, ks[..|ks| - 1]), ks[|ks| - 1])
  }

  /** Registering a list of kinds adds an empty storage for each new kind and
      leaves the storages already present as they were. */
  lemma {:induction false} RegisteredAllMeaning(st: map<Kind, Storage>, ks: seq<Kind>)
    ensures forall k :: k in RegisteredAll(st, ks) <==> k in st || k in ks
    ensures forall k :: k in RegisteredAll(st, ks) ==> RegisteredAll(st, ks)[k] == if k in st then st[k] else []
  {
    if ks != [] {
      var n := |ks| - 1;
      RegisteredAllMeaning(st, ks[..n]);
      SnocSplit(ks);
    }
  }

  /** Every storage with the slot of e emptied. */
  function EraseAll(st: map<Kind, Storage>, e: nat): (r: map<Kind, Storage>)
    ensures r.Keys == st.Keys
    ensures forall k :: k in r ==> r[k] == Slots.Clear(st[k], e)
  {
    map k | k in st :: Slots.Clear(st[k], e)
  }

  /** The storages after one system runs. */
  function ApplySystem(st: map<Kind, Storage>, s: System): map<Kind, Storage> {
    match s
    case PositionIntegration =>
      var r := Registered(Registered(st, PositionKind), VelocityKind);
      r[PositionKind := Kinematics.Integrated(r[PositionKind], r[VelocityKind])]
  }

  /** The storages after the systems run in order. */
  function ApplySystems(st: map<Kind, Storage>, ss: seq<System>): map<Kind, Storage> {
    if ss == [] then st else ApplySystem(ApplySystems(st, ss[..|ss| - 1]), ss[|ss| - 1])
  }

  lemma OfKindPut(s: Storage, i: nat, c: Component)
    requires OfKind(s, KindOf(c))
    ensures OfKind(Slots.Put(s, i, c), KindOf(c))
  {
    var r := Slots.Put(s, i, c);
    forall j | 0 <= j < |r| && r[j].Some? ensures KindOf(r[j].value) == KindOf(c) {
      assert Slots.Get(r, j) == r[j];
      if j != i {
        assert Slots.Get(s, j) == r[j];
      }
    }
  }

  lemma OfKindClear(s: Storage, i: nat, k: Kind)
    requires OfKind(s, k)
    ensures OfKind(Slots.Clear(s, i), k)
  {
  }

  lemma OfKindIntegrated(P: Storage, V: Storage)
    requires OfKind(P, PositionKind)
    ensures OfKind(Kinematics.Integrated(P, V), PositionKind)
  {
  }

  /** Emptying a slot twice is emptying it once. */
  lemma ClearTwice(s: Storage, e: nat)
    ensures Slots.Clear(Slots.Clear(s, e), e) == Slots.Clear(s, e)
  {
  }

  /** The storages after the erase callbacks of kinds have run for e, in order. */
  function ErasedBy(st: map<Kind, Storage>, kinds: seq<Kind>, e: nat): (r: map<Kind, Storage>)
    ensures r.Keys == st.Keys
  {
    if kinds == [] then st
    else
      var prev := ErasedBy(st, kinds[..|kinds| - 1], e);
      var k := kinds[|kinds| - 1];
      if k in prev then prev[k := Slots.Clear(prev[k], e)] else prev
  }

  /** Running the callbacks of kinds empties the slot of e in exactly the
      storages of those kinds, however often a kind repeats. */
  lemma {:induction false} ErasedByMeaning(st: map<Kind, Storage>, kinds: seq<Kind>, e: nat)
    ensures forall k :: k in st ==>
              ErasedBy(st, kinds, e)[k] == if k in kinds then Slots.Clear(st[k], e) else st[k]
  {
    if kinds != [] {
      var n := |kinds| - 1;
      ErasedByMeaning(st, kinds[..n], e);
      SnocSplit(kinds);
      if kinds[n] in st {
        ClearTwice(st[kinds[n]], e);
      }
    }
  }

  class Registry {
    var stores: map<Kind, Storage>
    var eraseKinds: seq<Kind>
    var systems: seq<System>
    var nextId: nat
    var freeIds: seq<nat>
    var aliveCount: nat
    ghost var live: set<nat>

    /** Every registered kind has an erase callback and every callback a
        registered kind, no kind has two callbacks, and each storage holds
        components of its own kind only. */
    ghost predicate Valid()
      reads this`stores, this`eraseKinds
    {
      (forall k :: k in stores <==> k in eraseKinds)
      && Distinct(eraseKinds)
      && (forall k :: k in stores ==> OfKind(stores[k], k))
    }

    /** No kind has two erase callbacks, so kill_entity clears each storage once. */
    lemma OneCallbackPerKind()
      requires Valid()
      ensures forall a, b :: 0 <= a < b < |eraseKinds| ==> eraseKinds[a] != eraseKinds[b]
    {
      DistinctPairs(eraseKinds);
    }

    /** Handle bookkeeping: the free list has no repeats and holds only handles
        already handed out; a handle is live exactly when it was handed out and
        is not free; the alive counter counts the live handles. */
    ghost predicate Unique()
      reads this`freeIds, this`nextId, this`live, this`aliveCount
    {
      NoDup(freeIds)
      && (forall h: nat :: h in freeIds ==> h < nextId)
      && (forall h: nat :: h in live <==> h < nextId && h !in freeIds)
      && aliveCount == |live|
    }

    /** Only live handles own components. */
    ghost predicate ComponentsOnLive()
      reads this`stores, this`live
    {
      forall k, i {:trigger Slots.Get(stores[k], i)} :: k in stores && Slots.Get(stores[k], i).Some? ==> i in live
    }

    constructor ()
      ensures Valid() && Unique() && ComponentsOnLive()
      ensures stores == map[] && systems == [] && nextId == 0 && freeIds == [] && live == {}
    {
      stores := map[];
      eraseKinds := [];
      systems := [];
      nextId := 0;
      freeIds := [];
      aliveCount := 0;
      live := {};
    }

    /** register_component: create the storage and its erase callback when the
        kind is new; return the storage. */
    method RegisterComponent(k: Kind) returns (s: Storage)
      requires Valid()
      modifies this
      ensures Valid()
      ensures stores == Registered(old(stores), k) && s == stores[k]
      ensures eraseKinds == if k in old(stores) then old(eraseKinds) else old(eraseKinds) + [k]
      ensures old(Unique()) ==> Unique()
      ensures old(ComponentsOnLive()) ==> ComponentsOnLive()
      ensures systems == old(systems) && nextId == old(nextId) && freeIds == old(freeIds)
      ensures aliveCount == old(aliveCount) && live == old(live)
    {
      if k !in stores {
        stores := stores[k := []];
        assert (eraseKinds + [k])[..|eraseKinds|] == eraseKinds;
        eraseKinds := eraseKinds + [k];
      }
      s := stores[k];
    }

    /** get_components (non-const): creates the storage when missing. */
    method GetComponents(k: Kind) returns (s: Storage)
      requires Valid()
      modifies this
      ensures Valid()
      ensures stores == Registered(old(stores), k) && s == stores[k]
      ensures systems == old(systems) && nextId == old(nextId) && freeIds == old(freeIds)
      ensures aliveCount == old(aliveCount) && live == old(live)
    {
      s := RegisterComponent(k);
    }

    /** A run of register_component calls, one per kind of ks, in order. */
    method RegisterAll(ks: seq<Kind>)
      requires Valid()
      modifies this
      ensures Valid()
      ensures stores == RegisteredAll(old(stores), ks)
      ensures forall k :: k in stores <==> k in old(stores) || k in ks
      ensures forall k :: k in stores ==> stores[k] == if k in old(stores) then old(stores)[k] else []
      ensures old(Unique()) ==> Unique()
      ensures old(ComponentsOnLive()) ==> ComponentsOnLive()
      ensures systems == old(systems) && nextId == old(nextId) && freeIds == old(freeIds)
      ensures aliveCount == old(aliveCount) && live == old(live)
    {
      var i := 0;
      while i < |ks|
        invariant 0 <= i <= |ks|
        invariant Valid()
        invariant stores == RegisteredAll(old(stores), ks[..i])
        invariant old(Unique()) ==> Unique()
        invariant old(ComponentsOnLive()) ==> ComponentsOnLive()
        invariant systems == old(systems) && nextId == old(nextId) && freeIds == old(freeIds)
        invariant aliveCount == old(aliveCount) && live == old(live)
      {
        assert ks[..i + 1][..i] == ks[..i];
        var s := RegisterComponent(ks[i]);
        i := i + 1;
      }
      assert ks[..i] == ks;
      RegisteredAllMeaning(old(stores), ks);
    }

    /** get_components (const): fails when the kind is not registered. */
    function GetComponentsConst(k: Kind): (r: Result<Storage, NotRegistered>)
      reads this
      ensures r.Failure? <==> k !in stores
      ensures r.Success? ==> r.value == stores[k]
    {
      if k in stores then Success(stores[k]) else Failure(NotRegistered)
    }

    /** get_components_if: the storage, or nullptr when not registered. */
    function GetComponentsIf(k: Kind): (r: Option<Storage>)
      reads this
      ensures r.None? <==> k !in stores
      ensures r.Some? ==> r.value == stores[k]
    {
      if k in stores then Some(stores[k]) else None
    }

    /** has_component_storage: true exactly when get_components_if finds a
        storage and get_components does not fail. */
    predicate HasComponentStorage(k: Kind): (r: bool)
      reads this
      ensures r <==> GetComponentsIf(k).Some?
      ensures r <==> GetComponentsConst(k).Success?
    {
      k in stores
    }

    /** spawn_entity: reuse the most recently freed handle, or hand out the next
        fresh one. Either way the alive counter grows by one, and under the
        handle bookkeeping the handle is not live already. */
    method SpawnEntity() returns (e: nat)
      requires Valid()
      modifies this
      ensures Valid()
      ensures old(freeIds) != [] ==> e == old(freeIds[|freeIds| - 1])
                                     && freeIds == old(freeIds[..|freeIds| - 1]) && nextId == old(nextId)
      ensures old(freeIds) == [] ==> e == old(nextId) && nextId == old(nextId) + 1 && freeIds == []
      ensures aliveCount == old(aliveCount) + 1 && live == old(live) + {e}
      ensures old(Unique()) ==> e !in old(live) && Unique()
      ensures old(ComponentsOnLive()) ==> ComponentsOnLive()
      ensures stores == old(stores) && eraseKinds == old(eraseKinds) && systems == old(systems)
    {
      ghost var wasUnique := Unique();
      if freeIds != [] {
        e := freeIds[|freeIds| - 1];
        freeIds := freeIds[..|freeIds| - 1];
        if wasUnique {
          assert forall h :: h in freeIds ==> h in old(freeIds);
          assert e in old(freeIds);
          assert e !in freeIds;
        }
      } else {
        e := nextId;
        nextId := nextId + 1;
      }
      aliveCount := aliveCount + 1;
      live := live + {e};
    }

    /** entity_from_index: the handle with that index. A handle is modelled
        by its index, so the handle's index is idx again. */
    function EntityFromIndex(idx: nat): (e: nat)
      ensures e == idx
    {
      idx
    }

    /** The loop of kill_entity over the erase callbacks: the slot of e is
        emptied in every storage; nothing else changes. */
    method EraseFromAll(e: nat)
      requires Valid()
      modifies this
      ensures Valid()
      ensures stores == EraseAll(old(stores), e)
      ensures eraseKinds == old(eraseKinds) && systems == old(systems)
      ensures nextId == old(nextId) && freeIds == old(freeIds)
      ensures aliveCount == old(aliveCount) && live == old(live)
    {
      var i := 0;
      while i < |eraseKinds|
        invariant 0 <= i <= |eraseKinds|
        invariant Valid() && eraseKinds == old(eraseKinds)
        invariant stores == ErasedBy(old(stores), eraseKinds[..i], e)
        invariant systems == old(systems) && nextId == old(nextId) && freeIds == old(freeIds)
        invariant aliveCount == old(aliveCount) && live == old(live)
      {
        assert eraseKinds[..i + 1][..i] == eraseKinds[..i];
        RemoveComponent(eraseKinds[i], e);
        i := i + 1;
      }
      assert eraseKinds[..i] == eraseKinds;
      ErasedByMeaning(old(stores), eraseKinds, e);
    }

    /** kill_entity: run every erase callback, then push the handle on the free
        list unconditionally and decrement the alive counter when positive.
        Killing a live handle keeps the handle bookkeeping; killing one that is
        not live is not guarded against (see KillEntityChecked). */
    method KillEntity(e: nat)
      requires Valid()
      modifies this
      ensures Valid()
      ensures stores == EraseAll(old(stores), e)
      ensures freeIds == old(freeIds) + [e] && nextId == old(nextId)
      ensures aliveCount == if old(aliveCount) > 0 then old(aliveCount) - 1 else 0
      ensures live == old(live) - {e}
      ensures old(Unique()) && e in old(live) ==> Unique()
      ensures old(ComponentsOnLive()) ==> ComponentsOnLive()
      ensures eraseKinds == old(eraseKinds) && systems == old(systems)
    {
      EraseFromAll(e);
      ghost var wasUnique := old(Unique()) && e in old(live);
      freeIds := freeIds + [e];
      if aliveCount > 0 {
        aliveCount := aliveCount - 1;
      }
      live := live - {e};
      if wasUnique {
        assert e !in old(freeIds);
        assert |live| == |old(live)| - 1;
      }
    }

    /** Kill only a handle that is live: one below the next fresh handle and not
        on the free list. A repeated kill is then a no-op, and the handle
        bookkeeping holds after any call. */
    method KillEntityChecked(e: nat)
      requires Valid()
      modifies this
      ensures Valid()
      ensures old(Unique()) ==> Unique() && live == old(live) - {e}
      ensures old(ComponentsOnLive()) ==> ComponentsOnLive()
      ensures old(Unique()) && e in old(live) ==>
                stores == EraseAll(old(stores), e) && freeIds == old(freeIds) + [e] && live == old(live) - {e}
      ensures old(Unique()) && e !in old(live) ==>
                stores == old(stores) && freeIds == old(freeIds) && live == old(live) && aliveCount == old(aliveCount)
      ensures nextId == old(nextId) && eraseKinds == old(eraseKinds) && systems == old(systems)
    {
      if e < nextId && e !in freeIds {
        KillEntity(e);
      }
    }

    /** add_component: register the kind if needed, then store the component in
        the entity's slot. */
    method AddComponent(e: nat, c: Component) returns (stored: Component)
      requires Valid()
      modifies this
      ensures Valid()
      ensures stores == Added(old(stores), e, c)
      ensures stored == c
      ensures systems == old(systems) && nextId == old(nextId) && freeIds == old(freeIds)
      ensures aliveCount == old(aliveCount) && live == old(live)
      ensures old(Unique()) ==> Unique()
      ensures old(ComponentsOnLive()) && e in live ==> ComponentsOnLive()
    {
      var k := KindOf(c);
      var s := RegisterComponent(k);
      OfKindPut(s, e, c);
      stores := stores[k := Slots.Put(s, e, c)];
      stored := c;
      if old(ComponentsOnLive()) && e in live {
        PutKeepsOnLive(old(stores)[k := s], live, k, e, c);
      }
    }

    /** A run of add_component calls for the same entity, in order. */
    method AddComponents(e: nat, cs: seq<Component>)
      requires Valid()
      modifies this
      ensures Valid()
      ensures stores == AddedAll(old(stores), e, cs)
      ensures systems == old(systems) && nextId == old(nextId) && freeIds == old(freeIds)
      ensures aliveCount == old(aliveCount) && live == old(live)
      ensures old(Unique()) ==> Unique()
      ensures old(ComponentsOnLive()) && e in live ==> ComponentsOnLive()
    {
      var i := 0;
      while i < |cs|
        invariant 0 <= i <= |cs|
        invariant Valid()
        invariant AddedAll(stores, e, cs[i..]) == AddedAll(old(stores), e, cs)
        invariant systems == old(systems) && nextId == old(nextId) && freeIds == old(freeIds)
        invariant aliveCount == old(aliveCount) && live == old(live)
        invariant old(Unique()) ==> Unique()
        invariant old(ComponentsOnLive()) && e in live ==> ComponentsOnLive()
      {
        assert cs[i..][1..] == cs[i + 1..];
        var stored := AddComponent(e, cs[i]);
        i := i + 1;
      }
      assert cs[i..] == [];
    }

    /** spawn_entity followed by add_component of each of cs on the new handle. */
    method SpawnWith(cs: seq<Component>) returns (e: nat)
      requires Valid() && Unique()
      modifies this
      ensures Valid() && Unique()
      ensures e !in old(live) && live == old(live) + {e}
      ensures stores == AddedAll(old(stores), e, cs)
      ensures systems == old(systems)
      ensures old(ComponentsOnLive()) ==> ComponentsOnLive()
    {
      e := SpawnEntity();
      AddComponents(e, cs);
    }

    /** emplace_component: as add_component, with the component already constructed. */
    method EmplaceComponent(e: nat, c: Component) returns (stored: Component)
      requires Valid()
      modifies this
      ensures Valid()
      ensures stores == Added(old(stores), e, c)
      ensures stored == c
      ensures systems == old(systems) && nextId == old(nextId) && freeIds == old(freeIds)
      ensures aliveCount == old(aliveCount) && live == old(live)
    {
      stored := AddComponent(e, c);
    }

    /** remove_component: empty the entity's slot; no-op when the kind is not
        registered. */
    method RemoveComponent(k: Kind, e: nat)
      requires Valid()
      modifies this
      ensures Valid()
      ensures stores == if k in old(stores) then old(stores)[k := Slots.Clear(old(stores)[k], e)] else old(stores)
      ensures eraseKinds == old(eraseKinds) && systems == old(systems)
      ensures nextId == old(nextId) && freeIds == old(freeIds)
      ensures aliveCount == old(aliveCount) && live == old(live)
    {
      if k in stores {
        OfKindClear(stores[k], e, k);
        stores := stores[k := Slots.Clear(stores[k], e)];
      }
    }

    /** A write through the reference get_components_if hands out: the storage
        of the registered kind k becomes s, whose components are all of kind k.
        When s occupies only slots the old storage occupied, only live handles
        still own components. */
    method WriteStorage(k: Kind, s: Storage)
      requires Valid() && k in stores && OfKind(s, k)
      modifies this
      ensures Valid()
      ensures stores == old(stores)[k := s]
      ensures eraseKinds == old(eraseKinds) && systems == old(systems)
      ensures nextId == old(nextId) && freeIds == old(freeIds) && aliveCount == old(aliveCount) && live == old(live)
      ensures old(ComponentsOnLive()) ==>
                (forall i :: Slots.Get(s, i).Some? ==> Slots.Get(old(stores)[k], i).Some?) ==> ComponentsOnLive()
    {
      stores := stores[k := s];
    }

    /** add_system: append; systems run in the order they were added. */
    method AddSystem(s: System)
      requires Valid()
      modifies this
      ensures Valid()
      ensures systems == old(systems) + [s]
      ensures stores == old(stores) && eraseKinds == old(eraseKinds)
      ensures nextId == old(nextId) && freeIds == old(freeIds) && aliveCount == old(aliveCount) && live == old(live)
    {
      systems := systems + [s];
    }

    /** One system runs over the storages it queries. The position integration
        fetches its storages with get_components, registering them if needed. */
    method RunSystem(s: System)
      requires Valid()
      modifies this
      ensures Valid()
      ensures stores == ApplySystem(old(stores), s)
      ensures systems == old(systems)
      ensures nextId == old(nextId) && freeIds == old(freeIds) && aliveCount == old(aliveCount) && live == old(live)
    {
      match s
      case PositionIntegration =>
        var positions := GetComponents(PositionKind);
        var velocities := GetComponents(VelocityKind);
        OfKindIntegrated(positions, velocities);
        stores := stores[PositionKind := Kinematics.Integrated(positions, velocities)];
    }

    /** run_systems: run each system once, in order. */
    method RunSystems()
      requires Valid()
      modifies this
      ensures Valid()
      ensures stores == ApplySystems(old(stores), systems)
      ensures systems == old(systems)
      ensures nextId == old(nextId) && freeIds == old(freeIds) && aliveCount == old(aliveCount) && live == old(live)
    {
      var i := 0;
      while i < |systems|
        invariant 0 <= i <= |systems|
        invariant Valid()
        invariant stores == ApplySystems(old(stores), systems[..i])
        invariant systems == old(systems)
        invariant nextId == old(nextId) && freeIds == old(freeIds) && aliveCount == old(aliveCount) && live == old(live)
      {
        assert systems[..i + 1][..i] == systems[..i];
        RunSystem(systems[i]);
        i := i + 1;
      }
      assert systems[..i] == systems;
    }
  }

  /** Finding: kill_entity does not check that the handle is live. Killing the
      same handle twice puts it on the free list twice, and the next two spawns
      both return it. */
  method DoubleKillHandsOutHandleTwice() returns (first: nat, second: nat)
    ensures first == second
  {
    var r := new Registry();
    var e := r.SpawnEntity();
    r.KillEntity(e);
    r.KillEntity(e);
    first := r.SpawnEntity();
    second := r.SpawnEntity();
  }

  /** With the checked kill, the same sequence hands out two different handles. */
  method CheckedDoubleKillHandsOutDistinctHandles() returns (first: nat, second: nat)
    ensures first != second
  {
    var r := new Registry();
    var e := r.SpawnEntity();
    r.KillEntityChecked(e);
    r.KillEntityChecked(e);
    first := r.SpawnEntity();
    second := r.SpawnEntity();
  }

  /** Under the handle bookkeeping, every spawn returns a handle that no live
      entity holds, so any run of spawns and checked kills never aliases two
      live entities. */
  method SpawnAfterCheckedKillsIsFresh(r: Registry, kills: seq<nat>) returns (e: nat)
    requires r.Valid() && r.Unique()
    modifies r
    ensures r.Valid() && r.Unique()
    ensures e in r.live
    ensures e !in old(r.live) || e in kills
  {
    var i := 0;
    while i < |kills|
      invariant 0 <= i <= |kills|
      invariant r.Valid() && r.Unique()
      invariant forall x :: x in old(r.live) ==> x in r.live || x in kills[..i]
    {
      assert kills[..i + 1] == kills[..i] + [kills[i]];
      r.KillEntityChecked(kills[i]);
      i := i + 1;
    }
    assert kills[..|kills|] == kills;
    e := r.SpawnEntity();
  }
}
