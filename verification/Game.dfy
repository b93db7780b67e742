/** src/game/Game.cpp: the headless simulation the TCP/UDP server of
    Serveur/ drives. It owns a registry with the position integration
    installed, maps entities to network ids in the order they were assigned,
    remembers which entity each player id controls, and produces snapshots of
    every entity that has a position. */
module Games {
  import opened Wrappers
  import opened BoundedInts
  import opened Components
  import Slots
  import Kinematics
  import opened Registries

  datatype PlayerInput = PlayerInput(playerId: u8, moveX: i8, moveY: i8, buttons: u8, timestamp: u32)

  datatype EntitySnapshot = EntitySnapshot(
    networkId: u32, entityType: u8,
    posX: real, posY: real, velX: real, velY: real,
    width: real, height: real,
    colorR: u8, colorG: u8, colorB: u8,
    health: u8, ownerPlayer: u8)

  datatype GameSnapshot = GameSnapshot(tick: u32, timestamp: u32, entities: seq<EntitySnapshot>)

  /** The position of the first occurrence of x in s. */
  function FirstIndexOf(s: seq<nat>, x: nat): (r: Option<nat>)
    ensures r.None? <==> x !in s
    ensures r.Some? ==> r.value < |s| && s[r.value] == x && forall j :: 0 <= j < r.value ==> s[j] != x
  {
    if s == [] then None
    else if s[0] == x then Some(0)
    else match FirstIndexOf(s[1..], x)
      case None => None
      case Some(i) => Some(i + 1)
  }

  /** The velocity a snapshot reports: the entity's, or (0, 0). */
  function VelocityAt(stores: map<Kind, Storage>, e: nat): (real, real) {
    if VelocityKind !in stores then (0.0, 0.0)
    else
      var v: Option<Component> := Slots.Get(stores[VelocityKind], e);
      match v
      case Some(Velocity(vx, vy)) => (vx, vy)
      case _ => (0.0, 0.0)
  }

  /** The drawable a snapshot reports: the entity's, or a white 16x16 square. */
  function LookAt(stores: map<Kind, Storage>, e: nat): (real, real, Color) {
    if DrawableKind !in stores then (16.0, 16.0, WHITE)
    else
      var d: Option<Component> := Slots.Get(stores[DrawableKind], e);
      match d
      case Some(Drawable(w, h, c)) => (w, h, c)
      case _ => (16.0, 16.0, WHITE)
  }

  /** The snapshot entry of entity e with network id nid, when e has a
      position. Health is always 100 and the type always 0; the owner is the
      first player slot that holds e, or 0. */
  function ViewOf(stores: map<Kind, Storage>, players: seq<nat>, e: nat, nid: u32): (r: Option<EntitySnapshot>)
    requires PositionKind in stores
    ensures r.Some? <==> Slots.Get(stores[PositionKind], e).Some? && Slots.Get(stores[PositionKind], e).value.Position?
    ensures r.Some? ==> r.value.networkId == nid && r.value.health == 100
                        && Slots.Get(stores[PositionKind], e) == Some(Position(r.value.posX, r.value.posY))
                        && (r.value.velX, r.value.velY) == VelocityAt(stores, e)
  {
    var p: Option<Component> := Slots.Get(stores[PositionKind], e);
    match p
    case Some(Position(x, y)) =>
      var (vx, vy) := VelocityAt(stores, e);
      var (w, h, c) := LookAt(stores, e);
      var owner := match FirstIndexOf(players, e) case Some(i) => Trunc8(i) case None => 0;
      Some(EntitySnapshot(nid, 0, x, y, vx, vy, w, h, c.r, c.g, c.b, 100, owner))
    case _ => None
  }

  /** The snapshot entries of the listed entities, in list order, skipping
      those without a position. */
  function SnapshotEntities(stores: map<Kind, Storage>, players: seq<nat>, ids: seq<(nat, u32)>): seq<EntitySnapshot>
    requires PositionKind in stores
  {
    if ids == [] then []
    else
      var init := SnapshotEntities(stores, players, ids[..|ids| - 1]);
      var (e, nid) := ids[|ids| - 1];
      match ViewOf(stores, players, e, nid)
      case Some(s) => init + [s]
      case None => init
  }

  /** Every snapshot entry is the view of a listed entity, and every listed
      entity with a position has its view in the snapshot. */
  lemma {:induction false} SnapshotExactlyPositioned(stores: map<Kind, Storage>, players: seq<nat>, ids: seq<(nat, u32)>)
    requires PositionKind in stores
    ensures |SnapshotEntities(stores, players, ids)| <= |ids|
    ensures forall s :: s in SnapshotEntities(stores, players, ids) ==>
              exists j :: 0 <= j < |ids| && ViewOf(stores, players, ids[j].0, ids[j].1) == Some(s)
    ensures forall j :: 0 <= j < |ids| && ViewOf(stores, players, ids[j].0, ids[j].1).Some? ==>
              ViewOf(stores, players, ids[j].0, ids[j].1).value in SnapshotEntities(stores, players, ids)
  {
    if ids != [] {
      var n := |ids| - 1;
      SnapshotExactlyPositioned(stores, players, ids[..n]);
      forall j | 0 <= j < n ensures ids[..n][j] == ids[j] { }
    }
  }

  /** The first network id recorded for e, or 0. */
  function NetworkIdOf(ids: seq<(nat, u32)>, e: nat): (r: u32)
    ensures r != 0 ==> exists j :: 0 <= j < |ids| && ids[j] == (e, r)
  {
    if ids == [] then 0
    else if ids[0].0 == e then ids[0].1
    else
      var r := NetworkIdOf(ids[1..], e);
      assert r != 0 ==> exists j :: 0 <= j < |ids[1..]| && ids[1..][j] == (e, r);
      assert forall j :: 0 <= j < |ids[1..]| ==> ids[1..][j] == ids[j + 1];
      r
  }

  /** A recorded pair is found by its entity unless an earlier pair holds it. */
  lemma {:induction false} NetworkIdOfFirst(ids: seq<(nat, u32)>, j: nat)
    requires j < |ids|
    requires forall i :: 0 <= i < j ==> ids[i].0 != ids[j].0
    ensures NetworkIdOf(ids, ids[j].0) == ids[j].1
  {
    if j > 0 {
      NetworkIdOfFirst(ids[1..], j - 1);
    }
  }

  /** A move direction (-1, 0 or +1 in practice) times a speed. */
  function Scaled(move: i8, speed: real): real {
    move as real * speed
  }

  /** The velocity storage after an input: the controlled entity's velocity
      becomes the move direction times its controllable speed, when the
      player id is known and the entity has both components; otherwise
      nothing changes. */
  function Steered(stores: map<Kind, Storage>, players: seq<nat>, input: PlayerInput): (r: map<Kind, Storage>)
    ensures r.Keys == stores.Keys
    ensures forall k :: k in stores && k != VelocityKind ==> r[k] == stores[k]
  {
    if input.playerId >= |players| || VelocityKind !in stores || ControllableKind !in stores then stores
    else
      var e := players[input.playerId];
      var v := Slots.Get(stores[VelocityKind], e);
      var c := Slots.Get(stores[ControllableKind], e);
      if v.Some? && v.value.Velocity? && c.Some? && c.value.Controllable? then
        var speed := c.value.speed;
        stores[VelocityKind := Slots.Put(stores[VelocityKind], e,
                                         Velocity(Scaled(input.moveX, speed), Scaled(input.moveY, speed)))]
      else stores
  }

  /** After an input, the next position integration moves the controlled
      entity by its move direction times its speed. */
  lemma SteeredThenIntegrated(stores: map<Kind, Storage>, players: seq<nat>, input: PlayerInput,
                              x: real, y: real, vx: real, vy: real, speed: real)
    requires input.playerId < |players|
    requires VelocityKind in stores && ControllableKind in stores && PositionKind in stores
    requires Slots.Get(stores[PositionKind], players[input.playerId]) == Some(Position(x, y))
    requires Slots.Get(stores[VelocityKind], players[input.playerId]) == Some(Velocity(vx, vy))
    requires Slots.Get(stores[ControllableKind], players[input.playerId]) == Some(Controllable(speed))
    ensures var st := Steered(stores, players, input);
            var e := players[input.playerId];
            Slots.Get(Kinematics.Integrated(st[PositionKind], st[VelocityKind]), e)
              == Some(Position(x + Scaled(input.moveX, speed), y + Scaled(input.moveY, speed)))
  {
    var e := players[input.playerId];
    var st := Steered(stores, players, input);
    assert st[PositionKind] == stores[PositionKind];
    Kinematics.IntegratedMeaning(st[PositionKind], st[VelocityKind], e);
  }

  /** The components spawnPlayer gives a player at (x, y). */
  function PlayerParts(x: real, y: real): seq<Component> {
    [Position(x, y), Velocity(0.0, 0.0), Drawable(48.0, 48.0, Rgb(200, 30, 30)), Controllable(4.0)]
  }

  lemma PlayerPartsStored(st: map<Kind, Storage>, e: nat, x: real, y: real)
    ensures var r := AddedAll(st, e, PlayerParts(x, y));
            PositionKind in r && VelocityKind in r && DrawableKind in r && ControllableKind in r
            && Slots.Get(r[PositionKind], e) == Some(Position(x, y))
            && Slots.Get(r[VelocityKind], e) == Some(Velocity(0.0, 0.0))
            && Slots.Get(r[DrawableKind], e) == Some(Drawable(48.0, 48.0, Rgb(200, 30, 30)))
            && Slots.Get(r[ControllableKind], e) == Some(Controllable(4.0))
  {
    var parts := PlayerParts(x, y);
    var r := AddedAll(st, e, parts);
    assert PositionKind in r && Slots.Get(r[PositionKind], e) == Some(Position(x, y)) by {
      AddedAllStores(st, e, parts, 0);
    }
    assert VelocityKind in r && Slots.Get(r[VelocityKind], e) == Some(Velocity(0.0, 0.0)) by {
      AddedAllStores(st, e, parts, 1);
    }
    assert DrawableKind in r && Slots.Get(r[DrawableKind], e) == Some(Drawable(48.0, 48.0, Rgb(200, 30, 30))) by {
      AddedAllStores(st, e, parts, 2);
    }
    assert ControllableKind in r && Slots.Get(r[ControllableKind], e) == Some(Controllable(4.0)) by {
      AddedAllStores(st, e, parts, 3);
    }
  }

  /** Where initialize puts the i-th starting entity: (100 + 150 i, 350). */
  function InitialPosition(i: nat): Component {
    Position(100.0 + i as real * 150.0, 350.0)
  }

  /** How the i-th starting entity is drawn: 64x32 in (30, 100 + 30 i, 200). */
  function InitialDrawable(i: nat): Component
    requires i < 3
  {
    Drawable(64.0, 32.0, Rgb(30, 100 + i * 30, 200))
  }

  /** The components initialize gives the i-th starting entity. */
  function InitialParts(i: nat): seq<Component>
    requires i < 3
  {
    [InitialPosition(i), InitialDrawable(i)]
  }

  lemma InitialPartsStored(st: map<Kind, Storage>, e: nat, i: nat)
    requires i < 3
    requires PositionKind in st && DrawableKind in st
    ensures var r := AddedAll(st, e, InitialParts(i));
            r.Keys == st.Keys
            && (forall k :: k in st && k != PositionKind && k != DrawableKind ==> r[k] == st[k])
            && Slots.Get(r[PositionKind], e) == Some(InitialPosition(i))
            && Slots.Get(r[DrawableKind], e) == Some(InitialDrawable(i))
  {
    var parts := InitialParts(i);
    AddedAllStores(st, e, parts, 0);
    AddedAllStores(st, e, parts, 1);
    forall k | k in st && k != PositionKind && k != DrawableKind
      ensures k in AddedAll(st, e, parts) && AddedAll(st, e, parts)[k] == st[k]
    {
      AddedAllFrame(st, e, parts, k);
    }
    AddedAllKeys(st, e, parts);
    assert parts[1..][1..] == [] && Kinds(parts[1..][1..]) == {};
    assert Kinds(parts[1..]) == {KindOf(parts[1])};
    assert Kinds(parts) == {KindOf(parts[0]), KindOf(parts[1])};
  }

  lemma InitialPartsKeep(st: map<Kind, Storage>, e: nat, i: nat, h: nat)
    requires i < 3 && h != e
    requires PositionKind in st && DrawableKind in st
    ensures var r := AddedAll(st, e, InitialParts(i));
            PositionKind in r && DrawableKind in r
            && Slots.Get(r[PositionKind], h) == Slots.Get(st[PositionKind], h)
            && Slots.Get(r[DrawableKind], h) == Slots.Get(st[DrawableKind], h)
  {
    AddedAllStores(st, e, InitialParts(i), 0);
    AddedAllStores(st, e, InitialParts(i), 1);
    AddedAllSlots(st, e, InitialParts(i), PositionKind, h);
    AddedAllSlots(st, e, InitialParts(i), DrawableKind, h);
  }

  /** The starting entities es carry the position and the drawable of their
      index in the loop of initialize. */
  ghost predicate Placed(st: map<Kind, Storage>, es: seq<nat>) {
    PositionKind in st && DrawableKind in st && |es| <= 3
    && forall j :: 0 <= j < |es| ==>
         Slots.Get(st[PositionKind], es[j]) == Some(InitialPosition(j))
         && Slots.Get(st[DrawableKind], es[j]) == Some(InitialDrawable(j))
  }

  lemma PlacedSnoc(st: map<Kind, Storage>, st': map<Kind, Storage>, es: seq<nat>, e: nat)
    requires Placed(st, es) && e !in es && |es| < 3
    requires PositionKind in st' && DrawableKind in st'
    requires Slots.Get(st'[PositionKind], e) == Some(InitialPosition(|es|))
    requires Slots.Get(st'[DrawableKind], e) == Some(InitialDrawable(|es|))
    requires forall h :: h != e ==>
               Slots.Get(st'[PositionKind], h) == Slots.Get(st[PositionKind], h)
               && Slots.Get(st'[DrawableKind], h) == Slots.Get(st[DrawableKind], h)
    ensures Placed(st', es + [e])
  {
    forall j | 0 <= j < |es| + 1
      ensures Slots.Get(st'[PositionKind], (es + [e])[j]) == Some(InitialPosition(j))
              && Slots.Get(st'[DrawableKind], (es + [e])[j]) == Some(InitialDrawable(j))
    {
      if j < |es| {
        assert (es + [e])[j] == es[j] != e;
      }
    }
  }

  /** ids extends base with one pair per entity of es, numbered from n on. */
  ghost predicate Recorded(ids: seq<(nat, u32)>, base: seq<(nat, u32)>, es: seq<nat>, n: u32) {
    |ids| == |base| + |es|
    && (forall k :: 0 <= k < |base| ==> ids[k] == base[k])
    && forall j :: 0 <= j < |es| ==> ids[|base| + j] == (es[j], Advance32(n, j))
  }

  lemma RecordedSnoc(ids: seq<(nat, u32)>, base: seq<(nat, u32)>, es: seq<nat>, n: u32, e: nat)
    requires Recorded(ids, base, es, n)
    ensures Recorded(ids + [(e, Advance32(n, |es|))], base, es + [e], n)
  {
  }

  /** The four kinds initialize registers. */
  predicate IsStartingKind(k: Kind) {
    k == PositionKind || k == VelocityKind || k == DrawableKind || k == ControllableKind
  }

  /** The loop of initialize so far, from storages st0 and live set live0
      to st and live: the distinct new entities es have joined the live set
      and nothing else has, no kind is registered or dropped, and only the
      Position and Drawable storages change, there only in the slots of es. */
  ghost predicate Grown(st0: map<Kind, Storage>, live0: set<nat>, st: map<Kind, Storage>, live: set<nat>, es: seq<nat>) {
    (forall h :: h in live <==> h in live0 || h in es)
    && (forall j :: 0 <= j < |es| ==> es[j] !in live0)
    && (forall j, l :: 0 <= j < l < |es| ==> es[j] != es[l])
    && st.Keys == st0.Keys && PositionKind in st0 && DrawableKind in st0
    && (forall k :: k in st0 && k != PositionKind && k != DrawableKind ==> st[k] == st0[k])
    && (forall h :: h !in es ==>
          Slots.Get(st[PositionKind], h) == Slots.Get(st0[PositionKind], h)
          && Slots.Get(st[DrawableKind], h) == Slots.Get(st0[DrawableKind], h))
  }

  lemma GrownSnoc(st0: map<Kind, Storage>, live0: set<nat>, st: map<Kind, Storage>, live: set<nat>, es: seq<nat>,
                  st': map<Kind, Storage>, live': set<nat>, e: nat)
    requires Grown(st0, live0, st, live, es)
    requires e !in live && live' == live + {e}
    requires st'.Keys == st.Keys
    requires forall k :: k in st && k != PositionKind && k != DrawableKind ==> st'[k] == st[k]
    requires forall h :: h != e ==>
               Slots.Get(st'[PositionKind], h) == Slots.Get(st[PositionKind], h)
               && Slots.Get(st'[DrawableKind], h) == Slots.Get(st[DrawableKind], h)
    ensures Grown(st0, live0, st', live', es + [e])
  {
    var es' := es + [e];
    forall j, l | 0 <= j < l < |es'|
      ensures es'[j] != es'[l]
    {
      assert es'[j] == es[j] && es[j] in live;
      if l < |es| {
        assert es'[l] == es[l];
      }
    }
  }

  /** After the three passes of the loop, the live set has gained exactly
      the three entities. */
  lemma GrownThree(st0: map<Kind, Storage>, live0: set<nat>, st: map<Kind, Storage>, live: set<nat>, es: seq<nat>)
    requires Grown(st0, live0, st, live, es) && |es| == 3
    ensures live == live0 + {es[0], es[1], es[2]}
    ensures es[0] != es[1] && es[0] != es[2] && es[1] != es[2]
  {
    assert forall h :: h in es <==> h == es[0] || h == es[1] || h == es[2];
  }

  /** What initialize leaves behind, from storages st0, live set live0 and
      systems sys0: exactly the four kinds added to the kinds registered,
      the position integration appended, and the three distinct new
      entities es spawned, each at its place and drawn in its colour; every
      other storage and every other entity's slot is as before (an empty
      storage for a kind that was missing). */
  ghost predicate Initialized(st0: map<Kind, Storage>, live0: set<nat>, sys0: seq<System>,
                              st: map<Kind, Storage>, live: set<nat>, sys: seq<System>, es: seq<nat>) {
    sys == sys0 + [PositionIntegration]
    && (forall k :: k in st <==> k in st0 || IsStartingKind(k))
    && (forall k :: k in st && k != PositionKind && k != DrawableKind ==> st[k] == StoreOr(st0, k))
    && |es| == 3 && es[0] != es[1] && es[0] != es[2] && es[1] != es[2]
    && es[0] !in live0 && es[1] !in live0 && es[2] !in live0
    && live == live0 + {es[0], es[1], es[2]}
    && Placed(st, es)
    && (forall h :: h !in es ==>
          Slots.Get(st[PositionKind], h) == Slots.Get(StoreOr(st0, PositionKind), h)
          && Slots.Get(st[DrawableKind], h) == Slots.Get(StoreOr(st0, DrawableKind), h))
  }

  /** The two halves of initialize together: registering the kinds, then
      the loop over the registered storages. */
  lemma InitializedFrom(st0: map<Kind, Storage>, live0: set<nat>, sys0: seq<System>, st1: map<Kind, Storage>,
                        st: map<Kind, Storage>, live: set<nat>, sys: seq<System>, es: seq<nat>)
    requires sys == sys0 + [PositionIntegration]
    requires forall k :: k in st1 <==> k in st0 || IsStartingKind(k)
    requires forall k :: k in st1 ==> st1[k] == StoreOr(st0, k)
    requires Grown(st1, live0, st, live, es) && |es| == 3 && Placed(st, es)
    ensures Initialized(st0, live0, sys0, st, live, sys, es)
  {
    GrownThree(st1, live0, st, live, es);
  }

  class Game {
    const registry: Registry
    var currentTick: u32
    var nextNetworkId: u32
    var entityToNetworkId: seq<(nat, u32)>
    var playerEntities: seq<nat>

    /** Game(): tick 0, network ids start at 1, an empty registry. */
    constructor ()
      ensures registry.Valid() && registry.Unique() && fresh(registry)
      ensures currentTick == 0 && nextNetworkId == 1
      ensures entityToNetworkId == [] && playerEntities == []
      ensures registry.stores == map[] && registry.systems == [] && registry.live == {}
    {
      registry := new Registry();
      currentTick := 0;
      nextNetworkId := 1;
      entityToNetworkId := [];
      playerEntities := [];
    }

    /** assignNetworkId: give e the next network id (uint32_t, wrapping) and
        record the pair last. */
    method AssignNetworkId(e: nat) returns (id: u32)
      modifies this
      ensures id == old(nextNetworkId) && nextNetworkId == Next32(old(nextNetworkId))
      ensures entityToNetworkId == old(entityToNetworkId) + [(e, id)]
      ensures currentTick == old(currentTick) && playerEntities == old(playerEntities)
    {
      id := nextNetworkId;
      nextNetworkId := Next32(nextNetworkId);
      entityToNetworkId := entityToNetworkId + [(e, id)];
    }

    /** getNetworkId: the id of the first pair whose entity is e, or 0. */
    method GetNetworkId(e: nat) returns (id: u32)
      ensures id == NetworkIdOf(entityToNetworkId, e)
    {
      var i := 0;
      while i < |entityToNetworkId|
        invariant 0 <= i <= |entityToNetworkId|
        invariant NetworkIdOf(entityToNetworkId[i..], e) == NetworkIdOf(entityToNetworkId, e)
      {
        if entityToNetworkId[i].0 == e {
          return entityToNetworkId[i].1;
        }
        assert entityToNetworkId[i..][1..] == entityToNetworkId[i + 1..];
        i := i + 1;
      }
      return 0;
    }

    /** initialize: register Position, Velocity, Drawable and Controllable,
        install the position integration, and spawn three entities at
        (100 + 150 i, 350), drawn 64x32 in colour (30, 100 + 30 i, 200), each
        given the next network id. */
    method Initialize() returns (spawned: seq<nat>)
      requires registry.Valid() && registry.Unique()
      modifies this, registry
      ensures registry.Valid() && registry.Unique()
      ensures PositionKind in registry.stores && VelocityKind in registry.stores
      ensures DrawableKind in registry.stores && ControllableKind in registry.stores
      ensures registry.systems == old(registry.systems) + [PositionIntegration]
      ensures |spawned| == 3
      ensures forall j :: 0 <= j < 3 ==> spawned[j] in registry.live && spawned[j] !in old(registry.live)
      ensures forall j :: 0 <= j < 3 ==> Slots.Get(registry.stores[PositionKind], spawned[j]) == Some(InitialPosition(j))
      ensures forall j :: 0 <= j < 3 ==> Slots.Get(registry.stores[DrawableKind], spawned[j]) == Some(InitialDrawable(j))
      ensures Recorded(entityToNetworkId, old(entityToNetworkId), spawned, old(nextNetworkId))
      ensures nextNetworkId == Advance32(old(nextNetworkId), 3)
      ensures currentTick == old(currentTick) && playerEntities == old(playerEntities)
      ensures Initialized(old(registry.stores), old(registry.live), old(registry.systems),
                          registry.stores, registry.live, registry.systems, spawned)
    {
      ghost var st0, live0, sys0 := registry.stores, registry.live, registry.systems;
      RegisterAndSetup();
      ghost var st1 := registry.stores;
      spawned := SpawnStartingEntities();
      InitializedFrom(st0, live0, sys0, st1, registry.stores, registry.live, registry.systems, spawned);
    }

    /** The first half of initialize: register the four component kinds and
        install the position integration. */
    method RegisterAndSetup()
      requires registry.Valid() && registry.Unique()
      modifies registry
      ensures registry.Valid() && registry.Unique()
      ensures PositionKind in registry.stores && VelocityKind in registry.stores
      ensures DrawableKind in registry.stores && ControllableKind in registry.stores
      ensures forall k :: k in old(registry.stores) ==> k in registry.stores && registry.stores[k] == old(registry.stores[k])
      ensures forall k :: k in registry.stores <==> k in old(registry.stores) || IsStartingKind(k)
      ensures forall k :: k in registry.stores ==> registry.stores[k] == StoreOr(old(registry.stores), k)
      ensures registry.systems == old(registry.systems) + [PositionIntegration]
      ensures registry.live == old(registry.live)
    {
      ghost var st0 := registry.stores;
      var positions := registry.RegisterComponent(PositionKind);
      RegisteredKeeps(st0, st0, PositionKind);
      ghost var st1 := registry.stores;
      var velocities := registry.RegisterComponent(VelocityKind);
      RegisteredKeeps(st0, st1, VelocityKind);
      ghost var st2 := registry.stores;
      var drawables := registry.RegisterComponent(DrawableKind);
      RegisteredKeeps(st0, st2, DrawableKind);
      ghost var st3 := registry.stores;
      var controllables := registry.RegisterComponent(ControllableKind);
      RegisteredKeeps(st0, st3, ControllableKind);
      registry.AddSystem(PositionIntegration);
    }

    /** The loop of initialize: three starting entities, each with its
        position, drawable and the next network id. */
    method SpawnStartingEntities() returns (spawned: seq<nat>)
      requires registry.Valid() && registry.Unique()
      requires PositionKind in registry.stores && VelocityKind in registry.stores
      requires DrawableKind in registry.stores && ControllableKind in registry.stores
      modifies this, registry
      ensures registry.Valid() && registry.Unique()
      ensures PositionKind in registry.stores && VelocityKind in registry.stores
      ensures DrawableKind in registry.stores && ControllableKind in registry.stores
      ensures registry.systems == old(registry.systems)
      ensures |spawned| == 3
      ensures forall j :: 0 <= j < 3 ==> spawned[j] in registry.live && spawned[j] !in old(registry.live)
      ensures Grown(old(registry.stores), old(registry.live), registry.stores, registry.live, spawned)
      ensures registry.live == old(registry.live) + {spawned[0], spawned[1], spawned[2]}
      ensures forall j :: 0 <= j < 3 ==> Slots.Get(registry.stores[PositionKind], spawned[j]) == Some(InitialPosition(j))
      ensures forall j :: 0 <= j < 3 ==> Slots.Get(registry.stores[DrawableKind], spawned[j]) == Some(InitialDrawable(j))
      ensures Recorded(entityToNetworkId, old(entityToNetworkId), spawned, old(nextNetworkId))
      ensures nextNetworkId == Advance32(old(nextNetworkId), 3)
      ensures currentTick == old(currentTick) && playerEntities == old(playerEntities)
    {
      spawned := [];
      var i := 0;
      while i < 3
        invariant 0 <= i <= 3 && |spawned| == i
        invariant registry.Valid() && registry.Unique()
        invariant PositionKind in registry.stores && VelocityKind in registry.stores
        invariant DrawableKind in registry.stores && ControllableKind in registry.stores
        invariant registry.systems == old(registry.systems)
        invariant Grown(old(registry.stores), old(registry.live), registry.stores, registry.live, spawned)
        invariant Placed(registry.stores, spawned)
        invariant Recorded(entityToNetworkId, old(entityToNetworkId), spawned, old(nextNetworkId))
        invariant nextNetworkId == Advance32(old(nextNetworkId), i)
        invariant currentTick == old(currentTick) && playerEntities == old(playerEntities)
      {
        ghost var liveBefore := registry.live;
        ghost var storesBefore := registry.stores;
        ghost var idsBefore := entityToNetworkId;
        var e := SpawnInitialEntity(i);
        GrownSnoc(old(registry.stores), old(registry.live), storesBefore, liveBefore, spawned,
                  registry.stores, registry.live, e);
        PlacedSnoc(storesBefore, registry.stores, spawned, e);
        RecordedSnoc(idsBefore, old(entityToNetworkId), spawned, old(nextNetworkId), e);
        spawned := spawned + [e];
        i := i + 1;
      }
      GrownThree(old(registry.stores), old(registry.live), registry.stores, registry.live, spawned);
    }

    /** One pass of the loop in initialize: spawn the i-th starting entity
        with its position and drawable, and give it the next network id. */
    method SpawnInitialEntity(i: nat) returns (e: nat)
      requires registry.Valid() && registry.Unique() && i < 3
      requires PositionKind in registry.stores && DrawableKind in registry.stores
      modifies this, registry
      ensures registry.Valid() && registry.Unique()
      ensures e !in old(registry.live) && registry.live == old(registry.live) + {e}
      ensures registry.stores.Keys == old(registry.stores).Keys
      ensures forall k :: k in old(registry.stores) && k != PositionKind && k != DrawableKind ==>
                registry.stores[k] == old(registry.stores)[k]
      ensures Slots.Get(registry.stores[PositionKind], e) == Some(InitialPosition(i))
      ensures Slots.Get(registry.stores[DrawableKind], e) == Some(InitialDrawable(i))
      ensures forall h :: h != e ==>
                Slots.Get(registry.stores[PositionKind], h) == Slots.Get(old(registry.stores)[PositionKind], h)
                && Slots.Get(registry.stores[DrawableKind], h) == Slots.Get(old(registry.stores)[DrawableKind], h)
      ensures registry.systems == old(registry.systems)
      ensures entityToNetworkId == old(entityToNetworkId) + [(e, old(nextNetworkId))]
      ensures nextNetworkId == Next32(old(nextNetworkId))
      ensures currentTick == old(currentTick) && playerEntities == old(playerEntities)
    {
      ghost var before := registry.stores;
      e := registry.SpawnWith(InitialParts(i));
      InitialPartsStored(before, e, i);
      forall h | h != e
        ensures Slots.Get(registry.stores[PositionKind], h) == Slots.Get(before[PositionKind], h)
                && Slots.Get(registry.stores[DrawableKind], h) == Slots.Get(before[DrawableKind], h)
      {
        InitialPartsKeep(before, e, i, h);
      }
      var id := AssignNetworkId(e);
    }

    /** tick: run every installed system once, then advance the tick counter
        (uint32_t, wrapping). */
    method Tick(deltaTime: real)
      requires registry.Valid() && registry.Unique()
      modifies this, registry
      ensures registry.Valid() && registry.Unique()
      ensures registry.stores == ApplySystems(old(registry.stores), registry.systems)
      ensures currentTick == Next32(old(currentTick))
      ensures registry.systems == old(registry.systems) && registry.live == old(registry.live)
      ensures nextNetworkId == old(nextNetworkId) && entityToNetworkId == old(entityToNetworkId)
      ensures playerEntities == old(playerEntities)
    {
      registry.RunSystems();
      currentTick := Next32(currentTick);
    }

    /** processInput: set the controlled entity's velocity from the input,
        as Steered describes; nothing else changes. */
    method ProcessInput(input: PlayerInput)
      requires registry.Valid() && registry.Unique()
      modifies registry
      ensures registry.Valid() && registry.Unique()
      ensures registry.stores == Steered(old(registry.stores), playerEntities, input)
      ensures registry.systems == old(registry.systems) && registry.live == old(registry.live)
    {
      if input.playerId >= |playerEntities| {
        return;
      }
      var playerEntity := playerEntities[input.playerId];
      var velocities := registry.GetComponentsIf(VelocityKind);
      var controllables := registry.GetComponentsIf(ControllableKind);
      if velocities.Some? && controllables.Some? {
        var velOpt := Slots.Get(velocities.value, playerEntity);
        var ctrlOpt := Slots.Get(controllables.value, playerEntity);
        if velOpt.Some? && ctrlOpt.Some? {
          assert velOpt.value.Velocity? && ctrlOpt.value.Controllable?;
          var speed := ctrlOpt.value.speed;
          var velocity := registry.AddComponent(playerEntity, Velocity(Scaled(input.moveX, speed), Scaled(input.moveY, speed)));
        }
      }
    }

    /** spawnPlayer: a new entity at (x, y) with zero velocity, a 48x48
        drawable in (200, 30, 30), speed 4 and the next network id; the player
        slots are padded with entity 0 up to the player id, and the slot of
        the player id is set to the new entity. */
    method SpawnPlayer(playerId: u8, x: real, y: real) returns (player: nat)
      requires registry.Valid() && registry.Unique()
      modifies this, registry
      ensures registry.Valid() && registry.Unique()
      ensures player !in old(registry.live) && registry.live == old(registry.live) + {player}
      ensures registry.stores == AddedAll(old(registry.stores), player, PlayerParts(x, y))
      ensures PositionKind in registry.stores && VelocityKind in registry.stores
      ensures DrawableKind in registry.stores && ControllableKind in registry.stores
      ensures Slots.Get(registry.stores[PositionKind], player) == Some(Position(x, y))
      ensures Slots.Get(registry.stores[VelocityKind], player) == Some(Velocity(0.0, 0.0))
      ensures Slots.Get(registry.stores[DrawableKind], player) == Some(Drawable(48.0, 48.0, Rgb(200, 30, 30)))
      ensures Slots.Get(registry.stores[ControllableKind], player) == Some(Controllable(4.0))
      ensures entityToNetworkId == old(entityToNetworkId) + [(player, old(nextNetworkId))]
      ensures nextNetworkId == Next32(old(nextNetworkId))
      ensures |playerEntities| == if playerId < |old(playerEntities)| then |old(playerEntities)| else playerId + 1
      ensures playerEntities[playerId] == player
      ensures forall j :: 0 <= j < |playerEntities| && j != playerId ==>
                playerEntities[j] == if j < |old(playerEntities)| then old(playerEntities)[j] else 0
      ensures currentTick == old(currentTick) && registry.systems == old(registry.systems)
    {
      ghost var before := registry.stores;
      player := registry.SpawnWith(PlayerParts(x, y));
      PlayerPartsStored(before, player, x, y);
      var networkId := AssignNetworkId(player);
      SetPlayerSlot(playerId, player);
    }

    /** The end of spawnPlayer: pad the player slots with entity 0 up to the
        player id, then give the player id's slot to the entity. */
    method SetPlayerSlot(playerId: u8, player: nat)
      modifies this
      ensures |playerEntities| == if playerId < |old(playerEntities)| then |old(playerEntities)| else playerId + 1
      ensures playerEntities[playerId] == player
      ensures forall j :: 0 <= j < |playerEntities| && j != playerId ==>
                playerEntities[j] == if j < |old(playerEntities)| then old(playerEntities)[j] else 0
      ensures currentTick == old(currentTick) && nextNetworkId == old(nextNetworkId)
      ensures entityToNetworkId == old(entityToNetworkId)
    {
      while |playerEntities| <= playerId
        invariant |old(playerEntities)| <= |playerEntities| <= if playerId < |old(playerEntities)| then |old(playerEntities)| else playerId + 1
        invariant forall j :: 0 <= j < |playerEntities| ==>
                    playerEntities[j] == if j < |old(playerEntities)| then old(playerEntities)[j] else 0
        invariant currentTick == old(currentTick) && nextNetworkId == old(nextNetworkId)
        invariant entityToNetworkId == old(entityToNetworkId)
        decreases playerId - |playerEntities|
      {
        playerEntities := playerEntities + [registry.EntityFromIndex(0)];
      }
      playerEntities := playerEntities[playerId := player];
    }

    /** The loop of getSnapshot over the player slots: the first player id
        whose slot holds the entity, or 0. */
    method OwnerOf(entity: nat) returns (owner: u8)
      ensures owner == match FirstIndexOf(playerEntities, entity) case Some(j) => Trunc8(j) case None => 0
    {
      owner := 0;
      var i := 0;
      while i < |playerEntities|
        invariant 0 <= i <= |playerEntities|
        invariant forall j :: 0 <= j < i ==> playerEntities[j] != entity
      {
        if playerEntities[i] == entity {
          return Trunc8(i);
        }
        i := i + 1;
      }
    }

    /** getSnapshot: the tick, its timestamp (tick * 16 ms, uint32_t), and
        one entry per recorded entity that has a position, in the order the
        network ids were assigned; no entries when Position is not
        registered. */
    method GetSnapshot() returns (snap: GameSnapshot)
      requires registry.Valid() && registry.Unique()
      ensures snap.tick == currentTick && snap.timestamp == Wrap32(currentTick * 16)
      ensures PositionKind !in registry.stores ==> snap.entities == []
      ensures PositionKind in registry.stores ==>
                snap.entities == SnapshotEntities(registry.stores, playerEntities, entityToNetworkId)
    {
      snap := GameSnapshot(currentTick, Wrap32(currentTick * 16), []);
      var positions := registry.GetComponentsIf(PositionKind);
      if positions.None? {
        return;
      }
      var stores := registry.stores;
      var entities: seq<EntitySnapshot> := [];
      var k := 0;
      while k < |entityToNetworkId|
        invariant 0 <= k <= |entityToNetworkId|
        invariant entities == SnapshotEntities(stores, playerEntities, entityToNetworkId[..k])
      {
        assert entityToNetworkId[..k + 1][..k] == entityToNetworkId[..k];
        var (entity, networkId) := entityToNetworkId[k];
        var posOpt := Slots.Get(positions.value, entity);
        if posOpt.Some? {
          var pos := posOpt.value;
          assert pos.Position?;
          var (velX, velY) := VelocityAt(stores, entity);
          var (width, height, color) := LookAt(stores, entity);
          var owner := OwnerOf(entity);
          entities := entities + [EntitySnapshot(networkId, 0, pos.x, pos.y, velX, velY, width, height,
                                                 color.r, color.g, color.b, 100, owner)];
        }
        k := k + 1;
      }
      assert entityToNetworkId[..k] == entityToNetworkId;
      snap := snap.(entities := entities);
    }
  }
}
