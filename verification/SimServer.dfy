/** src/GameServer.cpp: the authoritative game server. It owns a Registry with
    nine gameplay storages, maps each connected player to an entity, keeps the
    lists of live bullets and enemies, and on every tick spawns enemies, ages
    lifetimes, moves entities, resolves bullet hits and broadcasts the world.

    Every packet the server sends goes to every session whose UDP endpoint is
    known; the model appends it to `outbox`, the sequence of broadcasts. The
    clock (the frame's delta time, the shooting time stamp) and the random
    draws (an enemy's height, the next spawn interval) are parameters. */
module SimServer {
  import opened Wrappers
  import opened BoundedInts
  import opened Protocol
  import opened Components
  import Slots
  import opened Registries
  import opened SimRules

  const TICK_INTERVAL: real := 1.0 / 60.0
  const SHOOT_COOLDOWN_MS: int := 250
  const FIRST_ENEMY_SPAWN_TIME: real := 3.0
  const MIN_ENEMY_SPAWN_INTERVAL: real := 3.0
  const MAX_ENEMY_SPAWN_INTERVAL: real := 5.0
  const ENEMY_START_X: real := 850.0

  /** The storages the constructor registers, in order. */
  const SERVER_KINDS: seq<Kind> := [PositionKind, VelocityKind, DrawableKind, NetworkIdKind, PlayerOwnerKind,
                                    HealthKind, DamageKind, EntityTypeTagKind, LifetimeKind]

  /** The storage of kind k, read as empty when k is not registered (the
      null get_components_if result). */
  function StorageOf(st: map<Kind, Storage>, k: Kind): (r: Storage)
    ensures k in st ==> r == st[k]
    ensures k !in st ==> forall i :: !Slots.Has(r, i)
  {
    if k in st then st[k] else []
  }

  /** Adding components of other kinds leaves the storage of k as it was. */
  lemma AddedAllLeavesKind(st: map<Kind, Storage>, e: nat, cs: seq<Component>, k: Kind)
    requires forall j :: 0 <= j < |cs| ==> KindOf(cs[j]) != k
    ensures StorageOf(AddedAll(st, e, cs), k) == StorageOf(st, k)
  {
    if k in st {
      AddedAllFrame(st, e, cs, k);
    } else {
      AddedAllKeys(st, e, cs);
      KindNotListed(cs, k);
    }
  }

  /** The bookkeeping lists agree with the registry: tracked bullets, enemies
      and player entities are live; a player's entity is neither a bullet nor
      an enemy and has no lifetime; no two players share an entity. */
  ghost predicate Tracked(live: set<nat>, L: Storage, players: map<u8, nat>, bullets: seq<nat>, enemies: seq<nat>) {
    (forall x :: x in bullets ==> x in live)
    && (forall x :: x in enemies ==> x in live)
    && (forall p :: p in players ==>
          players[p] in live && players[p] !in bullets && players[p] !in enemies && !Slots.Has(L, players[p]))
    && (forall p, q :: p in players && q in players && players[p] == players[q] ==> p == q)
  }

  /** Destroying an entity that no player owns keeps the lists tracked. */
  lemma TrackedAfterDestroy(live: set<nat>, L: Storage, players: map<u8, nat>, bullets: seq<nat>, enemies: seq<nat>, e: nat)
    requires Tracked(live, L, players, bullets, enemies)
    requires forall p :: p in players ==> players[p] != e
    ensures Tracked(live - {e}, Slots.Clear(L, e), players, Without(bullets, e), Without(enemies, e))
  {
  }

  /** A new entity, not yet live and without a lifetime, given to a player who
      had none keeps the lists tracked; a player who had one keeps it. */
  lemma TrackedAfterConnect(live: set<nat>, L: Storage, players: map<u8, nat>, bullets: seq<nat>, enemies: seq<nat>,
                            pid: u8, e: nat)
    requires Tracked(live, L, players, bullets, enemies)
    requires e !in live && !Slots.Has(L, e)
    ensures Tracked(live + {e}, L, if pid in players then players else players[pid := e], bullets, enemies)
  {
  }

  /** Destroying a player's entity and forgetting the player keeps the lists tracked. */
  lemma TrackedAfterDisconnect(live: set<nat>, L: Storage, players: map<u8, nat>, bullets: seq<nat>, enemies: seq<nat>,
                               pid: u8)
    requires Tracked(live, L, players, bullets, enemies) && pid in players
    ensures Tracked(live - {players[pid]}, Slots.Clear(L, players[pid]), players - {pid}, bullets, enemies)
  {
  }

  // ---------------------------------------------------------------- entity parts

  /** onPlayerConnected: the components of player pid's entity. */
  function PlayerParts(pid: u8, id: u32): seq<Component> {
    [Position(100.0 + pid as real * 100.0, 300.0), Velocity(0.0, 0.0),
     Drawable(48.0, 48.0, PLAYER_COLORS[PaletteIndex(pid)]),
     NetworkId(id), PlayerOwner(pid), Health(100, 100), EntityTypeTag(Player)]
  }

  /** spawnBullet: the components of a bullet fired from (x, y). */
  function BulletParts(pid: u8, x: real, y: real, id: u32): seq<Component> {
    [Position(x + 60.0, y + 20.0), Velocity(400.0, 0.0), Drawable(8.0, 2.0, Rgb(255, 255, 0)),
     NetworkId(id), PlayerOwner(pid), EntityTypeTag(BulletPlayer), Damage(DEFAULT_DAMAGE), Lifetime(3.0)]
  }

  /** spawnEnemy: the components of an enemy entering at height y. */
  function EnemyParts(y: real, id: u32): seq<Component> {
    [Position(ENEMY_START_X, y), Velocity(-150.0, 0.0), Drawable(40.0, 40.0, Rgb(255, 0, 0)),
     NetworkId(id), PlayerOwner(0), EntityTypeTag(Enemy), Health(50, 50)]
  }

  function BulletSpawn(pid: u8, x: real, y: real, id: u32): SpawnPayload<real> {
    SpawnPayload(id, EntityTypeCode(BulletPlayer), pid, x + 60.0, y + 20.0, 400.0, 0.0, 1, NO_NAME)
  }

  function EnemySpawn(y: real, id: u32): SpawnPayload<real> {
    SpawnPayload(id, EntityTypeCode(Enemy), 0, ENEMY_START_X, y, -150.0, 0.0, 50, NO_NAME)
  }

  /** The kinds of a parts list, and that none of them is a Lifetime. */
  lemma PartsKinds(pid: u8, y: real, id: u32)
    ensures forall j :: 0 <= j < |PlayerParts(pid, id)| ==> KindOf(PlayerParts(pid, id)[j]) != LifetimeKind
    ensures forall j :: 0 <= j < |EnemyParts(y, id)| ==> KindOf(EnemyParts(y, id)[j]) != LifetimeKind
  {
  }

  /** A player's entity gets no lifetime. */
  lemma PlayerPartsKeepLifetimes(st: map<Kind, Storage>, e: nat, pid: u8, id: u32)
    ensures StorageOf(AddedAll(st, e, PlayerParts(pid, id)), LifetimeKind) == StorageOf(st, LifetimeKind)
  {
    PartsKinds(pid, 0.0, id);
    AddedAllLeavesKind(st, e, PlayerParts(pid, id), LifetimeKind);
  }

  // ---------------------------------------------------------------- destroying

  /** The network id of e, or 0 when e has none. */
  function NetIdOf(st: map<Kind, Storage>, e: nat): u32 {
    if NetworkIdKind !in st then 0
    else
      var c: Option<Component> := Slots.Get(st[NetworkIdKind], e);
      match c
      case Some(NetworkId(id)) => id
      case _ => 0
  }

  /** The ENTITY_DESTROY broadcast for e, when e has a non-zero network id. */
  function DestroyNotice(st: map<Kind, Storage>, e: nat): seq<Packet<real>> {
    var id := NetIdOf(st, e);
    if id != 0 then [DestroyPacket(id)] else []
  }

  /** std::remove + erase: the list without x, in order. */
  function Without(s: seq<nat>, x: nat): (r: seq<nat>)
    ensures forall y :: y in r <==> y in s && y != x
  {
    if s == [] then [] else (if s[0] == x then [] else [s[0]]) + Without(s[1..], x)
  }

  /** The list after removing each of es in turn. */
  function WithoutAll(s: seq<nat>, es: seq<nat>): seq<nat> {
    if es == [] then s else Without(WithoutAll(s, es[..|es| - 1]), es[|es| - 1])
  }

  /** WithoutAll keeps exactly the members of s that are not in es. */
  lemma {:induction false} WithoutAllMembers(s: seq<nat>, es: seq<nat>)
    ensures forall y :: y in WithoutAll(s, es) <==> y in s && y !in es
  {
    if es != [] {
      var n := |es| - 1;
      WithoutAllMembers(s, es[..n]);
      SnocSplit(es);
    }
  }

  /** The entities listed in es. */
  function Members(es: seq<nat>): set<nat> {
    if es == [] then {} else Members(es[..|es| - 1]) + {es[|es| - 1]}
  }

  /** Members holds exactly the listed entities. */
  lemma {:induction false} MembersMeaning(es: seq<nat>)
    ensures forall x :: x in Members(es) <==> x in es
  {
    if es != [] {
      var n := |es| - 1;
      MembersMeaning(es[..n]);
      SnocSplit(es);
    }
  }

  /** In a list without repeats, the entity at j is listed at j and not before. */
  lemma MembersAt(es: seq<nat>, j: nat)
    requires Distinct(es) && j < |es|
    ensures es[j] !in Members(es[..j]) && es[j] in Members(es)
  {
    DistinctAt(es, j);
    MembersMeaning(es[..j]);
    MembersMeaning(es);
  }

  /** The storages after killing each of es in turn. */
  function EraseEach(st: map<Kind, Storage>, es: seq<nat>): (r: map<Kind, Storage>)
    ensures r.Keys == st.Keys
  {
    if es == [] then st else EraseAll(EraseEach(st, es[..|es| - 1]), es[|es| - 1])
  }

  /** The destroy broadcasts of destroyEntity called on each of es in turn:
      each reads the network id from the storages as they are at that call. */
  function Notices(st: map<Kind, Storage>, es: seq<nat>): seq<Packet<real>> {
    if es == [] then []
    else
      var n := |es| - 1;
      Notices(st, es[..n]) + DestroyNotice(EraseEach(st, es[..n]), es[n])
  }

  /** The destroy broadcasts for es, each with the network id the entity had
      before any of them was destroyed. */
  function Announced(st: map<Kind, Storage>, es: seq<nat>): seq<Packet<real>> {
    if es == [] then [] else Announced(st, es[..|es| - 1]) + DestroyNotice(st, es[|es| - 1])
  }

  /** Killing other entities leaves the slots of x alone. */
  lemma {:induction false} EraseEachKeeps(st: map<Kind, Storage>, es: seq<nat>, x: nat, k: Kind)
    requires k in st && x !in es
    ensures Slots.Get(EraseEach(st, es)[k], x) == Slots.Get(st[k], x)
  {
    if es != [] {
      var n := |es| - 1;
      assert x !in es[..n];
      EraseEachKeeps(st, es[..n], x, k);
    }
  }

  /** Killing every entity of es empties their slots. */
  lemma {:induction false} EraseEachClears(st: map<Kind, Storage>, es: seq<nat>, x: nat, k: Kind)
    requires k in st && x in es
    ensures !Slots.Has(EraseEach(st, es)[k], x)
  {
    var n := |es| - 1;
    if x != es[n] {
      assert x in es[..n];
      EraseEachClears(st, es[..n], x, k);
    }
  }

  /** When no entity is destroyed twice, each destroy broadcast carries the
      network id the entity had before the first destroy. */
  lemma {:induction false} NoticesAnnounceOwnIds(st: map<Kind, Storage>, es: seq<nat>)
    requires Distinct(es)
    ensures Notices(st, es) == Announced(st, es)
  {
    if es != [] {
      var n := |es| - 1;
      NoticesAnnounceOwnIds(st, es[..n]);
      if NetworkIdKind in st {
        EraseEachKeeps(st, es[..n], es[n], NetworkIdKind);
      }
    }
  }

  /** The state after destroyEntity has run on es[..j], starting from the
      storages st0, live set live0, enemy and bullet lists and outbox. */
  ghost predicate DestroyedPrefix(st0: map<Kind, Storage>, live0: set<nat>, enemies0: seq<nat>, bullets0: seq<nat>,
                                  outbox0: seq<Packet<real>>, es: seq<nat>, j: nat,
                                  st: map<Kind, Storage>, live: set<nat>, enemies: seq<nat>, bullets: seq<nat>,
                                  outbox: seq<Packet<real>>)
    requires j <= |es|
  {
    st == EraseEach(st0, es[..j]) && live == live0 - Members(es[..j])
    && enemies == WithoutAll(enemies0, es[..j]) && bullets == WithoutAll(bullets0, es[..j])
    && outbox == outbox0 + Notices(st0, es[..j])
  }

  /** One more destroyEntity extends the destroyed prefix by es[j]. */
  lemma DestroyedPrefixStep(st0: map<Kind, Storage>, live0: set<nat>, enemies0: seq<nat>, bullets0: seq<nat>,
                            outbox0: seq<Packet<real>>, es: seq<nat>, j: nat,
                            st: map<Kind, Storage>, live: set<nat>, enemies: seq<nat>, bullets: seq<nat>,
                            outbox: seq<Packet<real>>)
    requires j < |es|
    requires DestroyedPrefix(st0, live0, enemies0, bullets0, outbox0, es, j, st, live, enemies, bullets, outbox)
    ensures DestroyedPrefix(st0, live0, enemies0, bullets0, outbox0, es, j + 1,
                            EraseAll(st, es[j]), live - {es[j]}, Without(enemies, es[j]), Without(bullets, es[j]),
                            outbox + DestroyNotice(st, es[j]))
  {
    assert es[..j + 1][..j] == es[..j];
    AppendAssoc(outbox0, Notices(st0, es[..j]), DestroyNotice(st, es[j]));
  }

  /** Aging keeps the Lifetime storage a storage of lifetimes. */
  lemma AgedAllOfKind(L: Storage, dt: real)
    requires OfKind(L, LifetimeKind)
    ensures OfKind(AgedAll(L, dt), LifetimeKind)
  {
    var r := AgedAll(L, dt);
    forall i | 0 <= i < |r| && r[i].Some? ensures KindOf(r[i].value) == LifetimeKind {
      assert r[i] == Aged(L[i], dt);
    }
  }

  /** A strictly increasing list has no repeats. */
  lemma {:induction false} IncreasingDistinct(s: seq<nat>)
    requires StrictlyIncreasing(s)
    ensures Distinct(s)
  {
    if s != [] {
      var n := |s| - 1;
      IncreasingDistinct(s[..n]);
      assert forall k :: 0 <= k < n ==> s[..n][k] < s[n];
    }
  }

  /** After updateLifetimes no lifetime left in the storage has run out; every
      lifetime left is the old one aged by dt. */
  lemma LifetimesAfterUpdate(st: map<Kind, Storage>, dt: real, i: nat)
    requires LifetimeKind in st
    ensures var aged := AgedAll(st[LifetimeKind], dt);
            var L := EraseEach(st[LifetimeKind := aged], Expired(aged))[LifetimeKind];
            !IsExpired(Slots.Get(L, i))
            && (Slots.Has(L, i) ==> Slots.Get(L, i) == Aged(Slots.Get(st[LifetimeKind], i), dt))
  {
    var aged := AgedAll(st[LifetimeKind], dt);
    var st1 := st[LifetimeKind := aged];
    var es := Expired(aged);
    if i in es {
      EraseEachClears(st1, es, i, LifetimeKind);
    } else {
      EraseEachKeeps(st1, es, i, LifetimeKind);
      if i < |aged| {
        assert aged[i] == Aged(st[LifetimeKind][i], dt);
      }
    }
  }

  // ---------------------------------------------------------------- spawning

  /** A missing storage and a registered one read alike. */
  lemma StorageOfRegistered(st: map<Kind, Storage>, k: Kind)
    ensures StorageOf(st, k) == Registered(st, k)[k]
  {
  }

  /** Spawning e leaves the lifetime of every other entity as it was. */
  lemma AddedAllLifetimesElsewhere(st: map<Kind, Storage>, e: nat, cs: seq<Component>)
    ensures forall h: nat :: h != e ==>
              Slots.Get(StorageOf(AddedAll(st, e, cs), LifetimeKind), h) == Slots.Get(StorageOf(st, LifetimeKind), h)
  {
    StorageOfRegistered(st, LifetimeKind);
    StorageOfRegistered(AddedAll(st, e, cs), LifetimeKind);
    forall h: nat | h != e
      ensures Slots.Get(StorageOf(AddedAll(st, e, cs), LifetimeKind), h) == Slots.Get(StorageOf(st, LifetimeKind), h)
    {
      AddedAllSlots(st, e, cs, LifetimeKind, h);
    }
  }

  /** A new entity listed as a bullet or as an enemy keeps the lists tracked,
      whatever lifetime it gets itself. */
  lemma TrackedAfterSpawn(live: set<nat>, L: Storage, L2: Storage, players: map<u8, nat>, bullets: seq<nat>,
                          enemies: seq<nat>, e: nat, bullet: bool)
    requires Tracked(live, L, players, bullets, enemies) && e !in live
    requires forall h: nat :: h != e ==> Slots.Get(L2, h) == Slots.Get(L, h)
    ensures Tracked(live + {e}, L2, players, if bullet then bullets + [e] else bullets,
                    if bullet then enemies else enemies + [e])
  {
  }

  /** The position of e, when the Position storage holds one for it. */
  function PositionOf(st: map<Kind, Storage>, e: nat): Option<(real, real)> {
    var p: Option<Component> := Slots.Get(StorageOf(st, PositionKind), e);
    match p
    case Some(Position(x, y)) => Some((x, y))
    case _ => None
  }

  /** spawnBullet refuses a shot when the player's previous accepted shot,
      kept in the function-static map, is less than 250 ms old. */
  predicate CoolingDown(last: map<u8, int>, pid: u8, now: int) {
    pid in last && now - last[pid] < SHOOT_COOLDOWN_MS
  }

  /** The storages after handlePlayerInput sets the velocity of entity pe to
      the input direction times 200; an entity without a velocity keeps none. */
  function Steered(st: map<Kind, Storage>, pe: nat, mx: i8, my: i8): (r: map<Kind, Storage>)
    ensures r.Keys == st.Keys
    ensures forall k :: k in st && k != VelocityKind ==> r[k] == st[k]
    ensures forall h: nat :: h != pe ==> Slots.Get(StorageOf(r, VelocityKind), h) == Slots.Get(StorageOf(st, VelocityKind), h)
    ensures Slots.Has(StorageOf(r, VelocityKind), pe) <==> Slots.Has(StorageOf(st, VelocityKind), pe)
    ensures Slots.Has(StorageOf(st, VelocityKind), pe) ==>
              Slots.Get(StorageOf(r, VelocityKind), pe) == Some(Velocity(mx as real * PLAYER_SPEED, my as real * PLAYER_SPEED))
    ensures PositionOf(r, pe) == PositionOf(st, pe)
  {
    if VelocityKind in st && Slots.Has(st[VelocityKind], pe) then
      st[VelocityKind := Slots.Put(st[VelocityKind], pe, Velocity(mx as real * PLAYER_SPEED, my as real * PLAYER_SPEED))]
    else st
  }

  /** The loop of updateLifetimes over the Lifetime storage: each lifetime
      drops by dt, and the indices whose lifetime reaches 0 or less are
      collected in increasing order. */
  method AgeAll(L: Storage, dt: real) returns (s: Storage, expired: seq<nat>)
    ensures s == AgedAll(L, dt) && expired == Expired(s)
  {
    ghost var aged := AgedAll(L, dt);
    s := L;
    expired := [];
    var i := 0;
    while i < |L|
      invariant 0 <= i <= |L| && |s| == |L|
      invariant forall j :: 0 <= j < i ==> s[j] == aged[j]
      invariant forall j :: i <= j < |L| ==> s[j] == L[j]
      invariant expired == Expired(aged[..i])
    {
      assert aged[..i + 1][..i] == aged[..i];
      if s[i].Some? {
        s := s[i := Aged(s[i], dt)];
        if IsExpired(s[i]) {
          expired := expired + [i];
        }
      }
      i := i + 1;
    }
    assert s == aged;
    assert aged[..i] == aged;
  }

  /** Every entity whose lifetime ran out had a lifetime. */
  lemma ExpiredWereStored(L: Storage, dt: real)
    ensures forall x :: x in Members(Expired(AgedAll(L, dt))) ==> Slots.Has(L, x)
  {
    MembersMeaning(Expired(AgedAll(L, dt)));
  }

  /** The position pass of updateGame over the first min(|P|, |V|) slots:
      an entity with a position and a velocity moves by v * dt and is then
      held inside the 800 x 600 area, whatever its type. */
  method MoveAll(P: Storage, V: Storage, dt: real) returns (r: Storage)
    ensures r == MovementClampingAll(P, V, dt)
  {
    r := P;
    var limit := if |P| < |V| then |P| else |V|;
    for i := 0 to limit
      invariant |r| == |P|
      invariant forall j :: 0 <= j < i ==> r[j] == MovementClampingAll(P, V, dt)[j]
      invariant forall j :: i <= j < |P| ==> r[j] == P[j]
    {
      assert MovementClampingAll(P, V, dt)[i] == MovedClampingAll(P[i], V[i], dt);
      match (P[i], V[i]) {
        case (Some(Position(x, y)), Some(Velocity(vx, vy))) =>
          MovedClampingAllStep(x, y, vx, vy, dt);
          r := r[i := Some(Position(Clamp(x + vx * dt, WORLD_WIDTH), Clamp(y + vy * dt, WORLD_HEIGHT)))];
        case _ =>
      }
    }
    assert forall j :: limit <= j < |P| ==> MovementClampingAll(P, V, dt)[j] == MovedClampingAll(P[j], None, dt);
  }

  /** The position pass keeps the Position storage a storage of positions,
      and no slot gains or loses a component. */
  lemma MovementKeepsSlots(P: Storage, V: Storage, dt: real)
    requires OfKind(P, PositionKind)
    ensures OfKind(MovementClampingAll(P, V, dt), PositionKind)
    ensures forall i: nat :: Slots.Has(MovementClampingAll(P, V, dt), i) <==> Slots.Has(P, i)
  {
    var r := MovementClampingAll(P, V, dt);
    forall i | 0 <= i < |r| && r[i].Some? ensures KindOf(r[i].value) == PositionKind {
      assert r[i] == MovedClampingAll(P[i], Slots.Get(V, i), dt);
    }
    forall i: nat ensures Slots.Has(r, i) <==> Slots.Has(P, i) {
      if i < |P| {
        MovementClampingAllMeaning(P, V, dt, i);
      }
    }
  }

  /** The bullet-versus-enemy loop of checkCollisions: each bullet with a
      position, a drawable and the BULLET_PLAYER tag damages the first enemy
      of the list it overlaps and stops there. */
  method ResolveHits(a: Arena, bullets: seq<nat>, enemies: seq<nat>) returns (o: Outcome)
    ensures o == HitPass(a, bullets, enemies)
  {
    o := Outcome(a.H, []);
    for i := 0 to |bullets|
      invariant o == HitPass(a, bullets[..i], enemies)
    {
      assert bullets[..i + 1][..i] == bullets[..i];
      var b := bullets[i];
      if ArmedBullet(a, b) {
        var damage := DamageOf(a, b);
        var H, queue := o.H, o.queue;
        var j, done := 0, false;
        while j < |enemies| && !done
          invariant 0 <= j <= |enemies|
          invariant !done ==> H == o.H && queue == o.queue
                              && FirstHit(a, o.H, b, enemies, 0) == FirstHit(a, o.H, b, enemies, j)
          invariant done ==> Outcome(H, queue) == BulletOutcome(a, o, b, enemies)
          decreases |enemies| - j, if done then 0 else 1
        {
          var e := enemies[j];
          if Hits(a, H, b, e) {
            var h := Slots.Get(H, e).value;
            if h.current > damage {
              H, queue := Slots.Put(H, e, Health(h.current - damage, h.maximum)), queue + [b];
            } else {
              H, queue := Slots.Put(H, e, Health(0, h.maximum)), queue + [e, b];
            }
            done := true;
          } else {
            j := j + 1;
          }
        }
        o := Outcome(H, queue);
      }
    }
    assert bullets[..|bullets|] == bullets;
  }

  /** The off-screen loop of checkCollisions over the enemies. */
  method CollectOffLeft(P: Storage, enemies: seq<nat>) returns (r: seq<nat>)
    ensures r == OffLeft(P, enemies)
  {
    r := [];
    for i := 0 to |enemies|
      invariant r == OffLeft(P, enemies[..i])
    {
      assert enemies[..i + 1][..i] == enemies[..i];
      var p := Slots.Get(P, enemies[i]);
      if p.Some? && p.value.Position? && p.value.x < ENEMY_EXIT_X {
        r := r + [enemies[i]];
      }
    }
    assert enemies[..|enemies|] == enemies;
  }

  /** The off-screen loop of checkCollisions over the bullets. */
  method CollectOffRight(P: Storage, bullets: seq<nat>) returns (r: seq<nat>)
    ensures r == OffRight(P, bullets)
  {
    r := [];
    for i := 0 to |bullets|
      invariant r == OffRight(P, bullets[..i])
    {
      assert bullets[..i + 1][..i] == bullets[..i];
      var p := Slots.Get(P, bullets[i]);
      if p.Some? && p.value.Position? && p.value.x > BULLET_EXIT_X {
        r := r + [bullets[i]];
      }
    }
    assert bullets[..|bullets|] == bullets;
  }

  /** The storages checkCollisions reads; a missing Damage storage reads as empty. */
  function ArenaOf(st: map<Kind, Storage>): Arena {
    Arena(StorageOf(st, PositionKind), StorageOf(st, DrawableKind), StorageOf(st, EntityTypeTagKind),
          StorageOf(st, DamageKind), StorageOf(st, HealthKind))
  }

  /** The entities checkCollisions destroys: those the hit pass queued, the
      enemies off the left edge and the bullets off the right edge, sorted
      and without repeats. */
  function CollisionQueue(st: map<Kind, Storage>, bullets: seq<nat>, enemies: seq<nat>): seq<nat> {
    var a := ArenaOf(st);
    SortUnique(HitPass(a, bullets, enemies).queue + OffLeft(a.P, enemies) + OffRight(a.P, bullets))
  }

  /** checkCollisions destroys only tracked bullets and enemies, each once. */
  lemma CollisionQueueTracked(st: map<Kind, Storage>, bullets: seq<nat>, enemies: seq<nat>)
    ensures Distinct(CollisionQueue(st, bullets, enemies))
    ensures forall x :: x in CollisionQueue(st, bullets, enemies) ==> x in bullets || x in enemies
  {
    HitPassQueuesTracked(ArenaOf(st), bullets, enemies);
    IncreasingDistinct(CollisionQueue(st, bullets, enemies));
  }

  /** The hit pass keeps the Health storage a storage of healths, and no slot
      gains or loses a component. */
  lemma HitPassKeepsSlots(a: Arena, bullets: seq<nat>, enemies: seq<nat>)
    requires OfKind(a.H, HealthKind)
    ensures OfKind(HitPass(a, bullets, enemies).H, HealthKind)
    ensures forall i: nat :: Slots.Has(HitPass(a, bullets, enemies).H, i) <==> Slots.Has(a.H, i)
  {
    var H := HitPass(a, bullets, enemies).H;
    forall i: nat ensures Slots.Has(H, i) <==> Slots.Has(a.H, i) {
      HitPassOnlyLowersHealth(a, bullets, enemies, i);
    }
    forall i | 0 <= i < |H| && H[i].Some? ensures KindOf(H[i].value) == HealthKind {
      HitPassOnlyLowersHealth(a, bullets, enemies, i);
      assert Slots.Get(H, i) == H[i];
    }
  }

  /** The passes of checkCollisions over the storages st: the Health storage
      after the hits, and the entities to destroy. */
  method Collide(st: map<Kind, Storage>, bullets: seq<nat>, enemies: seq<nat>) returns (H: Storage, doomed: seq<nat>)
    ensures H == HitPass(ArenaOf(st), bullets, enemies).H && doomed == CollisionQueue(st, bullets, enemies)
  {
    var a := ArenaOf(st);
    var o := ResolveHits(a, bullets, enemies);
    var left := CollectOffLeft(a.P, enemies);
    var right := CollectOffRight(a.P, bullets);
    H, doomed := o.H, SortUnique(o.queue + left + right);
  }

  /** With the lists tracked, the entities checkCollisions destroys are live,
      listed once, and belong to no player. */
  lemma DoomedDisposable(live: set<nat>, L: Storage, players: map<u8, nat>, bullets: seq<nat>, enemies: seq<nat>,
                         st: map<Kind, Storage>)
    requires Tracked(live, L, players, bullets, enemies)
    ensures var es := CollisionQueue(st, bullets, enemies);
            Distinct(es) && Members(es) <= live && forall p :: p in players ==> players[p] !in Members(es)
  {
    CollisionQueueTracked(st, bullets, enemies);
    MembersMeaning(CollisionQueue(st, bullets, enemies));
  }

  // ---------------------------------------------------------------- world state

  function Min3(a: nat, b: nat, c: nat): (r: nat)
    ensures r <= a && r <= b && r <= c && (r == a || r == b || r == c)
  {
    if a <= b && a <= c then a else if b <= c then b else c
  }

  /** The loop of broadcastWorldState: scan the indices below the smallest of
      the three storages, adding an entry for each index with a position, a
      network id and a drawable, until 10 entries are collected. */
  method CollectBatch(P: Storage, N: Storage, D: Storage, H: Storage) returns (entries: seq<BatchEntry<real>>)
    ensures entries == FirstBatch(EntriesBelow(P, N, D, H, Min3(|P|, |N|, |D|)))
  {
    var limit := Min3(|P|, |N|, |D|);
    entries := [];
    var i := 0;
    while i < limit && |entries| < MAX_BATCH_ENTITIES
      invariant 0 <= i <= limit
      invariant entries == EntriesBelow(P, N, D, H, i) && |entries| <= MAX_BATCH_ENTITIES
    {
      match (P[i], N[i], D[i]) {
        case (Some(Position(x, y)), Some(NetworkId(id)), Some(Drawable(_, _, _))) =>
          var health := DEFAULT_HEALTH;
          var h := Slots.Get(H, i);
          if h.Some? && h.value.Health? {
            health := h.value.current;
          }
          entries := entries + [BatchEntry(id, x, y, health)];
        case _ =>
      }
      i := i + 1;
    }
    EntriesBelowPrefix(P, N, D, H, i, limit);
  }

  /** The entries of the world-state batch built from the storages st. */
  function WorldBatch(st: map<Kind, Storage>): seq<BatchEntry<real>>
    requires PositionKind in st && NetworkIdKind in st && DrawableKind in st
  {
    var P, N, D := st[PositionKind], st[NetworkIdKind], st[DrawableKind];
    FirstBatch(EntriesBelow(P, N, D, StorageOf(st, HealthKind), Min3(|P|, |N|, |D|)))
  }

  /** Every entry of the world-state batch is the entry of one index that has
      a position, a network id and a drawable, and there are at most 10. */
  lemma WorldBatchSound(st: map<Kind, Storage>, k: nat)
    requires PositionKind in st && NetworkIdKind in st && DrawableKind in st
    requires k < |WorldBatch(st)|
    ensures |WorldBatch(st)| <= MAX_BATCH_ENTITIES
    ensures exists i :: 0 <= i < Min3(|st[PositionKind]|, |st[NetworkIdKind]|, |st[DrawableKind]|)
                        && EntryAt(st[PositionKind], st[NetworkIdKind], st[DrawableKind], StorageOf(st, HealthKind), i)
                           == Some(WorldBatch(st)[k])
  {
    var P, N, D := st[PositionKind], st[NetworkIdKind], st[DrawableKind];
    var all := EntriesBelow(P, N, D, StorageOf(st, HealthKind), Min3(|P|, |N|, |D|));
    assert WorldBatch(st)[k] == all[k];
    EntriesBelowSound(P, N, D, StorageOf(st, HealthKind), Min3(|P|, |N|, |D|), k);
  }

  /** A registry holding an empty storage for each of the nine gameplay
      kinds and no entity. */
  method NewServerRegistry() returns (r: Registry)
    ensures fresh(r) && r.Valid() && r.Unique() && r.ComponentsOnLive() && r.live == {}
    ensures forall k :: k in r.stores <==> k in SERVER_KINDS
    ensures forall k :: k in r.stores ==> r.stores[k] == []
  {
    r := new Registry();
    r.RegisterAll(SERVER_KINDS);
  }

  class GameServer {
    const registry: Registry
    var nextNetworkId: u32
    var enemySpawnTimer: real
    var nextEnemySpawnTime: real
    var playerEntities: map<u8, nat>
    var bulletEntities: seq<nat>
    var enemyEntities: seq<nat>
    /** The function-static map of spawnBullet: the last shot of each player, in milliseconds. */
    var lastShootTime: map<u8, int>
    var outbox: seq<Packet<real>>

    ghost predicate Valid()
      reads this, registry
    {
      registry.Valid() && registry.Unique() && registry.ComponentsOnLive()
      && Tracked(registry.live, StorageOf(registry.stores, LifetimeKind), playerEntities, bulletEntities, enemyEntities)
    }

    /** The constructor registers the nine gameplay storages; the first enemy
        is due after 3 seconds and network ids start at 1. */
    constructor ()
      ensures Valid()
      ensures fresh(registry) && registry.live == {}
      ensures forall k :: k in registry.stores <==> k in SERVER_KINDS
      ensures forall k :: k in registry.stores ==> registry.stores[k] == []
      ensures nextNetworkId == 1 && enemySpawnTimer == 0.0 && nextEnemySpawnTime == FIRST_ENEMY_SPAWN_TIME
      ensures playerEntities == map[] && bulletEntities == [] && enemyEntities == []
      ensures lastShootTime == map[] && outbox == []
    {
      var r := NewServerRegistry();
      registry := r;
      nextNetworkId := 1;
      enemySpawnTimer := 0.0;
      nextEnemySpawnTime := FIRST_ENEMY_SPAWN_TIME;
      playerEntities := map[];
      bulletEntities := [];
      enemyEntities := [];
      lastShootTime := map[];
      outbox := [];
    }

    /** destroyEntity: read the network id, drop e from the enemy and bullet
        lists, kill it, and broadcast ENTITY_DESTROY when the id is not 0. */
    method DestroyEntity(e: nat)
      requires Valid() && e in registry.live
      requires forall p :: p in playerEntities ==> playerEntities[p] != e
      modifies this, registry
      ensures Valid()
      ensures registry.stores == EraseAll(old(registry.stores), e) && registry.live == old(registry.live) - {e}
      ensures enemyEntities == Without(old(enemyEntities), e) && bulletEntities == Without(old(bulletEntities), e)
      ensures outbox == old(outbox) + DestroyNotice(old(registry.stores), e)
      ensures playerEntities == old(playerEntities) && nextNetworkId == old(nextNetworkId)
      ensures lastShootTime == old(lastShootTime)
      ensures enemySpawnTimer == old(enemySpawnTimer) && nextEnemySpawnTime == old(nextEnemySpawnTime)
    {
      var notice := DestroyNotice(registry.stores, e);
      TrackedAfterDestroy(registry.live, StorageOf(registry.stores, LifetimeKind), playerEntities, bulletEntities, enemyEntities, e);
      registry.KillEntity(e);
      enemyEntities, bulletEntities, outbox := Without(enemyEntities, e), Without(bulletEntities, e), outbox + notice;
    }

    /** destroyEntity on each of es in turn (the destroy loops of
        updateLifetimes and checkCollisions). */
    method DestroyAll(es: seq<nat>)
      requires Valid() && Distinct(es)
      requires Members(es) <= registry.live
      requires forall p :: p in playerEntities ==> playerEntities[p] !in Members(es)
      modifies this, registry
      ensures Valid()
      ensures registry.stores == EraseEach(old(registry.stores), es)
      ensures registry.live == old(registry.live) - Members(es)
      ensures enemyEntities == WithoutAll(old(enemyEntities), es) && bulletEntities == WithoutAll(old(bulletEntities), es)
      ensures outbox == old(outbox) + Announced(old(registry.stores), es)
      ensures playerEntities == old(playerEntities) && nextNetworkId == old(nextNetworkId)
      ensures lastShootTime == old(lastShootTime)
      ensures enemySpawnTimer == old(enemySpawnTimer) && nextEnemySpawnTime == old(nextEnemySpawnTime)
    {
      ghost var st0, live0 := registry.stores, registry.live;
      ghost var enemies0, bullets0, outbox0 := enemyEntities, bulletEntities, outbox;
      var j := 0;
      while j < |es|
        invariant 0 <= j <= |es|
        invariant Valid()
        invariant DestroyedPrefix(st0, live0, enemies0, bullets0, outbox0, es, j,
                                  registry.stores, registry.live, enemyEntities, bulletEntities, outbox)
        invariant playerEntities == old(playerEntities) && nextNetworkId == old(nextNetworkId)
        invariant lastShootTime == old(lastShootTime)
        invariant enemySpawnTimer == old(enemySpawnTimer) && nextEnemySpawnTime == old(nextEnemySpawnTime)
      {
        MembersAt(es, j);
        DestroyedPrefixStep(st0, live0, enemies0, bullets0, outbox0, es, j,
                            registry.stores, registry.live, enemyEntities, bulletEntities, outbox);
        DestroyEntity(es[j]);
        j := j + 1;
      }
      assert es[..j] == es;
      NoticesAnnounceOwnIds(st0, es);
    }

    /** spawn_entity and add_component of each of cs, the new entity becoming
        player pid's unless pid already has one. */
    method SpawnPlayerEntity(pid: u8, cs: seq<Component>) returns (e: nat)
      requires Valid()
      requires forall j :: 0 <= j < |cs| ==> KindOf(cs[j]) != LifetimeKind
      modifies this, registry
      ensures Valid()
      ensures e !in old(registry.live) && registry.live == old(registry.live) + {e}
      ensures registry.stores == AddedAll(old(registry.stores), e, cs)
      ensures playerEntities == if pid in old(playerEntities) then old(playerEntities) else old(playerEntities)[pid := e]
      ensures bulletEntities == old(bulletEntities) && enemyEntities == old(enemyEntities)
      ensures outbox == old(outbox) && lastShootTime == old(lastShootTime) && nextNetworkId == old(nextNetworkId)
      ensures enemySpawnTimer == old(enemySpawnTimer) && nextEnemySpawnTime == old(nextEnemySpawnTime)
    {
      ghost var st, live := registry.stores, registry.live;
      e := registry.SpawnWith(cs);
      AddedAllLeavesKind(st, e, cs, LifetimeKind);
      TrackedAfterConnect(live, StorageOf(st, LifetimeKind), playerEntities, bulletEntities, enemyEntities, pid, e);
      playerEntities := if pid in playerEntities then playerEntities else playerEntities[pid := e];
    }

    /** onPlayerConnected: spawn the player's entity at (100 + 100 * id, 300)
        and record it, unless the player already has one (the map insert then
        leaves the old entity in place). */
    method OnPlayerConnected(pid: u8) returns (e: nat)
      requires Valid()
      modifies this, registry
      ensures Valid()
      ensures e !in old(registry.live) && registry.live == old(registry.live) + {e}
      ensures registry.stores == AddedAll(old(registry.stores), e, PlayerParts(pid, old(nextNetworkId)))
      ensures nextNetworkId == Next32(old(nextNetworkId))
      ensures playerEntities == if pid in old(playerEntities) then old(playerEntities) else old(playerEntities)[pid := e]
      ensures bulletEntities == old(bulletEntities) && enemyEntities == old(enemyEntities)
      ensures outbox == old(outbox) && lastShootTime == old(lastShootTime)
      ensures enemySpawnTimer == old(enemySpawnTimer) && nextEnemySpawnTime == old(nextEnemySpawnTime)
    {
      PartsKinds(pid, 0.0, nextNetworkId);
      e := SpawnPlayerEntity(pid, PlayerParts(pid, nextNetworkId));
      nextNetworkId := Next32(nextNetworkId);
    }

    /** onPlayerDisconnected: when the player has an entity, read its network
        id, kill it, forget the mapping, and broadcast ENTITY_DESTROY when the
        id is not 0. */
    method OnPlayerDisconnected(pid: u8)
      requires Valid()
      modifies this, registry
      ensures Valid()
      ensures pid !in old(playerEntities) ==>
                registry.stores == old(registry.stores) && registry.live == old(registry.live) && outbox == old(outbox)
      ensures pid in old(playerEntities) ==>
                var e := old(playerEntities)[pid];
                registry.stores == EraseAll(old(registry.stores), e) && registry.live == old(registry.live) - {e}
                && outbox == old(outbox) + DestroyNotice(old(registry.stores), e)
      ensures playerEntities == old(playerEntities) - {pid}
      ensures bulletEntities == old(bulletEntities) && enemyEntities == old(enemyEntities)
      ensures nextNetworkId == old(nextNetworkId) && lastShootTime == old(lastShootTime)
      ensures enemySpawnTimer == old(enemySpawnTimer) && nextEnemySpawnTime == old(nextEnemySpawnTime)
    {
      if pid !in playerEntities {
        return;
      }
      var e := playerEntities[pid];
      var notice := DestroyNotice(registry.stores, e);
      TrackedAfterDisconnect(registry.live, StorageOf(registry.stores, LifetimeKind), playerEntities,
                             bulletEntities, enemyEntities, pid);
      registry.KillEntity(e);
      playerEntities, outbox := playerEntities - {pid}, outbox + notice;
    }
    /** The lifetimes aging of updateLifetimes, written back into the registry.
        The entities whose lifetime ran out are live and belong to no player. */
    method AgeLifetimes(dt: real) returns (expired: seq<nat>)
      requires Valid()
      modifies registry
      ensures Valid() && registry.live == old(registry.live)
      ensures LifetimeKind !in old(registry.stores) ==> registry.stores == old(registry.stores) && expired == []
      ensures LifetimeKind in old(registry.stores) ==>
                var aged := AgedAll(old(registry.stores)[LifetimeKind], dt);
                registry.stores == old(registry.stores)[LifetimeKind := aged] && expired == Expired(aged)
      ensures Distinct(expired) && Members(expired) <= registry.live
      ensures forall p :: p in playerEntities ==> playerEntities[p] !in Members(expired)
    {
      expired := [];
      if LifetimeKind !in registry.stores {
        return;
      }
      var L := registry.stores[LifetimeKind];
      var s;
      s, expired := AgeAll(L, dt);
      AgedAllOfKind(L, dt);
      ExpiredWereStored(L, dt);
      registry.WriteStorage(LifetimeKind, s);
      IncreasingDistinct(expired);
    }

    /** updateLifetimes: age every lifetime by dt, then destroyEntity on each
        entity whose lifetime ran out, in increasing order. */
    method UpdateLifetimes(dt: real)
      requires Valid()
      modifies this, registry
      ensures Valid()
      ensures LifetimeKind !in old(registry.stores) ==>
                registry.stores == old(registry.stores) && registry.live == old(registry.live)
                && enemyEntities == old(enemyEntities) && bulletEntities == old(bulletEntities) && outbox == old(outbox)
      ensures LifetimeKind in old(registry.stores) ==>
                var aged := AgedAll(old(registry.stores)[LifetimeKind], dt);
                var st, es := old(registry.stores)[LifetimeKind := aged], Expired(aged);
                registry.stores == EraseEach(st, es) && registry.live == old(registry.live) - Members(es)
                && enemyEntities == WithoutAll(old(enemyEntities), es) && bulletEntities == WithoutAll(old(bulletEntities), es)
                && outbox == old(outbox) + Announced(st, es)
      ensures playerEntities == old(playerEntities) && nextNetworkId == old(nextNetworkId)
      ensures lastShootTime == old(lastShootTime)
      ensures enemySpawnTimer == old(enemySpawnTimer) && nextEnemySpawnTime == old(nextEnemySpawnTime)
    {
      var expired := AgeLifetimes(dt);
      DestroyAll(expired);
    }

    /** The position pass of updateGame, written back into the registry; it
        runs only when both the Position and the Velocity storage exist, and
        says whether they did (updateGame returns early otherwise). */
    method MovePositions(dt: real) returns (ran: bool)
      requires Valid()
      modifies registry
      ensures Valid() && registry.live == old(registry.live)
      ensures ran <==> PositionKind in old(registry.stores) && VelocityKind in old(registry.stores)
      ensures !ran ==> registry.stores == old(registry.stores)
      ensures ran ==>
                var st := old(registry.stores);
                registry.stores == st[PositionKind := MovementClampingAll(st[PositionKind], st[VelocityKind], dt)]
    {
      ran := PositionKind in registry.stores && VelocityKind in registry.stores;
      if !ran {
        return;
      }
      var P, V := registry.stores[PositionKind], registry.stores[VelocityKind];
      var moved := MoveAll(P, V, dt);
      MovementKeepsSlots(P, V, dt);
      registry.WriteStorage(PositionKind, moved);
    }

    /** The damage part of checkCollisions, written back into the registry;
        when the Position, Drawable, EntityTypeTag or Health storage is
        missing nothing happens and nothing is to be destroyed. The entities
        to destroy are live and belong to no player. */
    method ApplyHits() returns (doomed: seq<nat>)
      requires Valid()
      modifies registry
      ensures Valid() && registry.live == old(registry.live)
      ensures var st := old(registry.stores);
              if PositionKind in st && DrawableKind in st && EntityTypeTagKind in st && HealthKind in st then
                registry.stores == st[HealthKind := HitPass(ArenaOf(st), bulletEntities, enemyEntities).H]
                && doomed == CollisionQueue(st, bulletEntities, enemyEntities)
              else registry.stores == st && doomed == []
      ensures Distinct(doomed) && Members(doomed) <= registry.live
      ensures forall p :: p in playerEntities ==> playerEntities[p] !in Members(doomed)
    {
      doomed := [];
      var st := registry.stores;
      if !(PositionKind in st && DrawableKind in st && EntityTypeTagKind in st && HealthKind in st) {
        return;
      }
      var H;
      H, doomed := Collide(st, bulletEntities, enemyEntities);
      HitPassKeepsSlots(ArenaOf(st), bulletEntities, enemyEntities);
      assert ArenaOf(st).H == st[HealthKind];
      assert forall i :: Slots.Get(H, i).Some? ==> Slots.Has(H, i) ==> Slots.Get(st[HealthKind], i).Some?;
      DoomedDisposable(registry.live, StorageOf(st, LifetimeKind), playerEntities, bulletEntities, enemyEntities, st);
      registry.WriteStorage(HealthKind, H);
      assert StorageOf(registry.stores, LifetimeKind) == StorageOf(st, LifetimeKind);
    }

    /** checkCollisions: bullets damage the enemies they overlap, then every
        hit bullet, dead enemy and off-screen entity is destroyed once, in
        increasing entity order. */
    method CheckCollisions()
      requires Valid()
      modifies this, registry
      ensures Valid()
      ensures var st := old(registry.stores);
              var ready := PositionKind in st && DrawableKind in st && EntityTypeTagKind in st && HealthKind in st;
              var st1 := if ready then st[HealthKind := HitPass(ArenaOf(st), old(bulletEntities), old(enemyEntities)).H]
                         else st;
              var es := if ready then CollisionQueue(st, old(bulletEntities), old(enemyEntities)) else [];
              registry.stores == EraseEach(st1, es) && registry.live == old(registry.live) - Members(es)
              && enemyEntities == WithoutAll(old(enemyEntities), es) && bulletEntities == WithoutAll(old(bulletEntities), es)
              && outbox == old(outbox) + Announced(st1, es)
      ensures playerEntities == old(playerEntities) && nextNetworkId == old(nextNetworkId)
      ensures lastShootTime == old(lastShootTime)
      ensures enemySpawnTimer == old(enemySpawnTimer) && nextEnemySpawnTime == old(nextEnemySpawnTime)
    {
      var doomed := ApplyHits();
      DestroyAll(doomed);
    }

    /** broadcastWorldState: when the Position, NetworkId and Drawable
        storages exist and the batch is not empty, broadcast one
        ENTITY_BATCH_UPDATE with the first 10 entities that have all three. */
    method BroadcastWorldState()
      requires Valid()
      modifies this
      ensures Valid()
      ensures var st := registry.stores;
              outbox == if PositionKind in st && NetworkIdKind in st && DrawableKind in st && WorldBatch(st) != []
                        then old(outbox) + [BatchPacket(WorldBatch(st), 0)]
                        else old(outbox)
      ensures playerEntities == old(playerEntities) && bulletEntities == old(bulletEntities)
      ensures enemyEntities == old(enemyEntities) && nextNetworkId == old(nextNetworkId)
      ensures lastShootTime == old(lastShootTime)
      ensures enemySpawnTimer == old(enemySpawnTimer) && nextEnemySpawnTime == old(nextEnemySpawnTime)
    {
      var st := registry.stores;
      if !(PositionKind in st && NetworkIdKind in st && DrawableKind in st) {
        return;
      }
      var entries := CollectBatch(st[PositionKind], st[NetworkIdKind], st[DrawableKind], StorageOf(st, HealthKind));
      if |entries| > 0 {
        outbox := outbox + [BatchPacket(entries, 0)];
      }
    }

    /** updateGame: advance the enemy spawn timer and, when it reaches the
        next spawn time, spawn an enemy at height y, reset the timer and take
        interval (the draw from [3, 5)) as the next spawn time; then age the
        lifetimes, and when the Position and Velocity storages exist, move
        the entities and resolve collisions. After a frame the timer is below
        the next spawn time, which stays within [3, 5]. */
    method UpdateGame(dt: real, y: real, interval: real) returns (spawned: Option<nat>)
      requires Valid()
      requires MIN_ENEMY_SPAWN_INTERVAL <= interval < MAX_ENEMY_SPAWN_INTERVAL
      modifies this, registry
      ensures Valid()
      ensures var due := old(enemySpawnTimer) + dt >= old(nextEnemySpawnTime);
              (spawned.Some? <==> due)
              && enemySpawnTimer == (if due then 0.0 else old(enemySpawnTimer) + dt)
              && nextEnemySpawnTime == (if due then interval else old(nextEnemySpawnTime))
      ensures enemySpawnTimer < nextEnemySpawnTime
      ensures old(MIN_ENEMY_SPAWN_INTERVAL <= nextEnemySpawnTime <= MAX_ENEMY_SPAWN_INTERVAL) ==>
                MIN_ENEMY_SPAWN_INTERVAL <= nextEnemySpawnTime <= MAX_ENEMY_SPAWN_INTERVAL
      ensures playerEntities == old(playerEntities) && lastShootTime == old(lastShootTime)
    {
      spawned := SpawnWhenDue(dt, y, interval);
      RunSystems(dt);
    }

    /** The enemy spawning part of updateGame. */
    method SpawnWhenDue(dt: real, y: real, interval: real) returns (spawned: Option<nat>)
      requires Valid()
      modifies this, registry
      ensures Valid()
      ensures var due := old(enemySpawnTimer) + dt >= old(nextEnemySpawnTime);
              (spawned.Some? <==> due)
              && enemySpawnTimer == (if due then 0.0 else old(enemySpawnTimer) + dt)
              && nextEnemySpawnTime == (if due then interval else old(nextEnemySpawnTime))
      ensures playerEntities == old(playerEntities) && lastShootTime == old(lastShootTime)
    {
      spawned := None;
      if enemySpawnTimer + dt < nextEnemySpawnTime {
        enemySpawnTimer := enemySpawnTimer + dt;
        return;
      }
      // spawnEnemy neither reads nor writes the two timers, so resetting them first is the same
      enemySpawnTimer, nextEnemySpawnTime := 0.0, interval;
      var e := SpawnEnemy(y);
      spawned := Some(e);
    }

    /** The systems part of updateGame: lifetimes, then, when the Position and
        Velocity storages exist, movement and collisions. */
    method RunSystems(dt: real)
      requires Valid()
      modifies this, registry
      ensures Valid()
      ensures playerEntities == old(playerEntities) && lastShootTime == old(lastShootTime)
      ensures enemySpawnTimer == old(enemySpawnTimer) && nextEnemySpawnTime == old(nextEnemySpawnTime)
    {
      UpdateLifetimes(dt);
      var ran := MovePositions(dt);
      if ran {
        CheckCollisions();
      }
    }

    /** One pass of gameLoopThread: when at least one tick interval has gone
        by since the last update, update the game and broadcast the world
        state; otherwise nothing happens. */
    method GameLoopStep(dt: real, y: real, interval: real) returns (ticked: bool)
      requires Valid()
      requires MIN_ENEMY_SPAWN_INTERVAL <= interval < MAX_ENEMY_SPAWN_INTERVAL
      modifies this, registry
      ensures Valid()
      ensures ticked <==> dt >= TICK_INTERVAL
      ensures !ticked ==>
                registry.stores == old(registry.stores) && registry.live == old(registry.live)
                && outbox == old(outbox) && bulletEntities == old(bulletEntities) && enemyEntities == old(enemyEntities)
                && enemySpawnTimer == old(enemySpawnTimer) && nextEnemySpawnTime == old(nextEnemySpawnTime)
      ensures ticked ==> enemySpawnTimer < nextEnemySpawnTime
      ensures ticked ==>
                var due := old(enemySpawnTimer) + dt >= old(nextEnemySpawnTime);
                enemySpawnTimer == (if due then 0.0 else old(enemySpawnTimer) + dt)
                && nextEnemySpawnTime == (if due then interval else old(nextEnemySpawnTime))
      ensures ticked ==>
                var st := registry.stores;
                PositionKind in st && NetworkIdKind in st && DrawableKind in st && WorldBatch(st) != [] ==>
                  |outbox| > 0 && outbox[|outbox| - 1] == BatchPacket(WorldBatch(st), 0)
      ensures old(MIN_ENEMY_SPAWN_INTERVAL <= nextEnemySpawnTime <= MAX_ENEMY_SPAWN_INTERVAL) ==>
                MIN_ENEMY_SPAWN_INTERVAL <= nextEnemySpawnTime <= MAX_ENEMY_SPAWN_INTERVAL
      ensures playerEntities == old(playerEntities) && lastShootTime == old(lastShootTime)
    {
      ticked := dt >= TICK_INTERVAL;
      if ticked {
        var _ := UpdateGame(dt, y, interval);
        BroadcastWorldState();
      }
    }

    /** spawn_entity and add_component of each of cs, the new entity going to
        the end of the bullet list or of the enemy list, then the ENTITY_SPAWN
        broadcast: the common part of spawnBullet and spawnEnemy. */
    method SpawnListed(cs: seq<Component>, bullet: bool, notice: Packet<real>) returns (e: nat)
      requires Valid()
      modifies this, registry
      ensures Valid()
      ensures e !in old(registry.live) && registry.live == old(registry.live) + {e}
      ensures registry.stores == AddedAll(old(registry.stores), e, cs)
      ensures bulletEntities == if bullet then old(bulletEntities) + [e] else old(bulletEntities)
      ensures enemyEntities == if bullet then old(enemyEntities) else old(enemyEntities) + [e]
      ensures outbox == old(outbox) + [notice] && nextNetworkId == Next32(old(nextNetworkId))
      ensures playerEntities == old(playerEntities) && lastShootTime == old(lastShootTime)
      ensures enemySpawnTimer == old(enemySpawnTimer) && nextEnemySpawnTime == old(nextEnemySpawnTime)
    {
      ghost var st, live := registry.stores, registry.live;
      e := registry.SpawnWith(cs);
      AddedAllLifetimesElsewhere(st, e, cs);
      TrackedAfterSpawn(live, StorageOf(st, LifetimeKind), StorageOf(registry.stores, LifetimeKind), playerEntities,
                        bulletEntities, enemyEntities, e, bullet);
      if bullet {
        bulletEntities := bulletEntities + [e];
      } else {
        enemyEntities := enemyEntities + [e];
      }
      outbox, nextNetworkId := outbox + [notice], Next32(nextNetworkId);
    }

    /** spawnBullet: unless the player shot less than 250 ms ago, record the
        shot time (even when no bullet follows), then, when the player's entity
        has a position, spawn a bullet 60 to the right of and 20 below it,
        list it and broadcast ENTITY_SPAWN. */
    method SpawnBullet(pid: u8, pe: nat, now: int) returns (bullet: Option<nat>)
      requires Valid()
      modifies this, registry
      ensures Valid()
      ensures lastShootTime == if CoolingDown(old(lastShootTime), pid, now) then old(lastShootTime)
                               else old(lastShootTime)[pid := now]
      ensures bullet.Some? <==> !CoolingDown(old(lastShootTime), pid, now) && PositionOf(old(registry.stores), pe).Some?
      ensures bullet.None? ==>
                registry.stores == old(registry.stores) && registry.live == old(registry.live)
                && bulletEntities == old(bulletEntities) && outbox == old(outbox) && nextNetworkId == old(nextNetworkId)
      ensures bullet.Some? ==>
                var b, at, id := bullet.value, PositionOf(old(registry.stores), pe).value, old(nextNetworkId);
                b !in old(registry.live) && registry.live == old(registry.live) + {b}
                && registry.stores == AddedAll(old(registry.stores), b, BulletParts(pid, at.0, at.1, id))
                && bulletEntities == old(bulletEntities) + [b]
                && outbox == old(outbox) + [SpawnPacket(BulletSpawn(pid, at.0, at.1, id))]
                && nextNetworkId == Next32(id)
      ensures playerEntities == old(playerEntities) && enemyEntities == old(enemyEntities)
      ensures enemySpawnTimer == old(enemySpawnTimer) && nextEnemySpawnTime == old(nextEnemySpawnTime)
    {
      bullet := None;
      if CoolingDown(lastShootTime, pid, now) {
        return;
      }
      lastShootTime := lastShootTime[pid := now];
      var at := PositionOf(registry.stores, pe);
      if at.None? {
        return;
      }
      var id := nextNetworkId;
      var b := SpawnListed(BulletParts(pid, at.value.0, at.value.1, id), true,
                           SpawnPacket(BulletSpawn(pid, at.value.0, at.value.1, id)));
      bullet := Some(b);
    }

    /** spawnEnemy: spawn an enemy at (850, y) moving left, list it and
        broadcast ENTITY_SPAWN; y is the random draw from [0, 600). */
    method SpawnEnemy(y: real) returns (e: nat)
      requires Valid()
      modifies this, registry
      ensures Valid()
      ensures e !in old(registry.live) && registry.live == old(registry.live) + {e}
      ensures registry.stores == AddedAll(old(registry.stores), e, EnemyParts(y, old(nextNetworkId)))
      ensures enemyEntities == old(enemyEntities) + [e]
      ensures outbox == old(outbox) + [SpawnPacket(EnemySpawn(y, old(nextNetworkId)))]
      ensures nextNetworkId == Next32(old(nextNetworkId))
      ensures playerEntities == old(playerEntities) && bulletEntities == old(bulletEntities)
      ensures lastShootTime == old(lastShootTime)
      ensures enemySpawnTimer == old(enemySpawnTimer) && nextEnemySpawnTime == old(nextEnemySpawnTime)
    {
      e := SpawnListed(EnemyParts(y, nextNetworkId), false, SpawnPacket(EnemySpawn(y, nextNetworkId)));
    }

    /** The velocity update of handlePlayerInput, in place. */
    method Steer(pe: nat, mx: i8, my: i8)
      requires Valid()
      modifies registry
      ensures Valid()
      ensures registry.stores == Steered(old(registry.stores), pe, mx, my) && registry.live == old(registry.live)
    {
      if VelocityKind in registry.stores && Slots.Has(registry.stores[VelocityKind], pe) {
        var v := registry.stores[VelocityKind];
        OfKindPut(v, pe, Velocity(mx as real * PLAYER_SPEED, my as real * PLAYER_SPEED));
        registry.WriteStorage(VelocityKind, Slots.Put(v, pe, Velocity(mx as real * PLAYER_SPEED, my as real * PLAYER_SPEED)));
      }
    }

    /** handlePlayerInput: input for a player without an entity is ignored;
        otherwise the entity's velocity, when it has one, becomes the input
        direction times 200, and bit 0 of the buttons fires a bullet. */
    method HandlePlayerInput(pid: u8, mx: i8, my: i8, buttons: u8, now: int) returns (bullet: Option<nat>)
      requires Valid()
      modifies this, registry
      ensures Valid()
      ensures pid !in old(playerEntities) || VelocityKind !in old(registry.stores) ==>
                bullet.None? && registry.stores == old(registry.stores) && registry.live == old(registry.live)
                && bulletEntities == old(bulletEntities) && outbox == old(outbox)
                && nextNetworkId == old(nextNetworkId) && lastShootTime == old(lastShootTime)
      ensures pid in old(playerEntities) && VelocityKind in old(registry.stores) ==>
                var pe := old(playerEntities)[pid];
                var steered := Steered(old(registry.stores), pe, mx, my);
                var fires := buttons % 2 == 1 && !CoolingDown(old(lastShootTime), pid, now);
                lastShootTime == (if buttons % 2 == 1 && !CoolingDown(old(lastShootTime), pid, now)
                                  then old(lastShootTime)[pid := now] else old(lastShootTime))
                && (bullet.Some? <==> fires && PositionOf(old(registry.stores), pe).Some?)
                && (bullet.None? ==>
                      registry.stores == steered && registry.live == old(registry.live)
                      && bulletEntities == old(bulletEntities) && outbox == old(outbox)
                      && nextNetworkId == old(nextNetworkId))
                && (bullet.Some? ==>
                      var b, at, id := bullet.value, PositionOf(old(registry.stores), pe).value, old(nextNetworkId);
                      b !in old(registry.live) && registry.live == old(registry.live) + {b}
                      && registry.stores == AddedAll(steered, b, BulletParts(pid, at.0, at.1, id))
                      && bulletEntities == old(bulletEntities) + [b]
                      && outbox == old(outbox) + [SpawnPacket(BulletSpawn(pid, at.0, at.1, id))]
                      && nextNetworkId == Next32(id))
      ensures playerEntities == old(playerEntities) && enemyEntities == old(enemyEntities)
      ensures enemySpawnTimer == old(enemySpawnTimer) && nextEnemySpawnTime == old(nextEnemySpawnTime)
    {
      bullet := None;
      if pid !in playerEntities {
        return;
      }
      if VelocityKind !in registry.stores {
        return;
      }
      var pe := playerEntities[pid];
      Steer(pe, mx, my);
      if buttons % 2 == 1 {
        bullet := SpawnBullet(pid, pe, now);
      }
    }
  }
}
