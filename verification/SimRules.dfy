/** The pure rules behind the simulation of src/GameServer.cpp: how one frame
    moves entities, ages lifetimes, resolves bullet hits, and which entities a
    world-state batch carries. The GameServer class in module SimServer runs
    these rules in place over its registry; here they are functions of the
    storages so that their properties can be stated and proved once. */
module SimRules {
  import opened Wrappers
  import opened BoundedInts
  import opened Protocol
  import opened Components
  import Slots

  type Storage = seq<Option<Component>>

  const WORLD_WIDTH: real := 800.0
  const WORLD_HEIGHT: real := 600.0
  const PLAYER_SPEED: real := 200.0
  const ENEMY_EXIT_X: real := -100.0
  const BULLET_EXIT_X: real := 900.0
  const DEFAULT_DAMAGE: u8 := 25
  const DEFAULT_HEALTH: u8 := 100

  // ---------------------------------------------------------------- movement

  /** The boundary check of updateGame for one coordinate: below 0 becomes 0,
      above hi becomes hi. */
  function Clamp(v: real, hi: real): (r: real)
    requires 0.0 <= hi
    ensures 0.0 <= r <= hi
    ensures 0.0 <= v <= hi ==> r == v
    ensures v < 0.0 ==> r == 0.0
    ensures v > hi ==> r == hi
  {
    if v < 0.0 then 0.0 else if v > hi then hi else v
  }

  predicate IsPlayer(t: Option<Component>) {
    t == Some(EntityTypeTag(Player))
  }

  /** One slot of the movement pass as the code is written: every entity with a
      position and a velocity moves by v * dt and is then clamped into the
      800 x 600 area, whatever its type. */
  function MovedClampingAll(p: Option<Component>, v: Option<Component>, dt: real): Option<Component> {
    match (p, v)
    case (Some(Position(x, y)), Some(Velocity(vx, vy))) =>
      Some(Position(Clamp(x + vx * dt, WORLD_WIDTH), Clamp(y + vy * dt, WORLD_HEIGHT)))
    case _ => p
  }

  /** One slot of the movement pass as its comment intends: the boundary check
      applies to players only. */
  function Moved(p: Option<Component>, v: Option<Component>, t: Option<Component>, dt: real): Option<Component> {
    match (p, v)
    case (Some(Position(x, y)), Some(Velocity(vx, vy))) =>
      if IsPlayer(t) then Some(Position(Clamp(x + vx * dt, WORLD_WIDTH), Clamp(y + vy * dt, WORLD_HEIGHT)))
      else Some(Position(x + vx * dt, y + vy * dt))
    case _ => p
  }

  /** The position storage after the movement pass of updateGame as written;
      indices past the velocity storage read as empty there. */
  function MovementClampingAll(P: Storage, V: Storage, dt: real): (r: Storage)
    ensures |r| == |P|
  {
    seq(|P|, i requires 0 <= i < |P| => MovedClampingAll(P[i], Slots.Get(V, i), dt))
  }

  /** The position storage after the movement pass with the boundary check on
      players only; T is the EntityTypeTag storage. */
  function Movement(P: Storage, V: Storage, T: Storage, dt: real): (r: Storage)
    ensures |r| == |P|
  {
    seq(|P|, i requires 0 <= i < |P| => Moved(P[i], Slots.Get(V, i), Slots.Get(T, i), dt))
  }

  /** As written, every moved entity ends inside the area, so an enemy that
      moves can never satisfy the off-screen test x < -100 of checkCollisions,
      and a moved bullet never satisfies x > 900. */
  lemma ClampingAllKeepsEveryoneOnScreen(P: Storage, V: Storage, dt: real, i: nat)
    requires i < |P| && P[i].Some? && P[i].value.Position?
    requires i < |V| && V[i].Some? && V[i].value.Velocity?
    ensures var q := MovementClampingAll(P, V, dt)[i];
            q.Some? && q.value.Position?
            && 0.0 <= q.value.x <= WORLD_WIDTH && 0.0 <= q.value.y <= WORLD_HEIGHT
            && !(q.value.x < ENEMY_EXIT_X) && !(q.value.x > BULLET_EXIT_X)
  {
  }

  /** One moved slot, as a whole component. */
  lemma MovedClampingAllStep(x: real, y: real, vx: real, vy: real, dt: real)
    ensures MovedClampingAll(Some(Position(x, y)), Some(Velocity(vx, vy)), dt)
         == Some(Position(Clamp(x + vx * dt, WORLD_WIDTH), Clamp(y + vy * dt, WORLD_HEIGHT)))
  {
    var r := MovedClampingAll(Some(Position(x, y)), Some(Velocity(vx, vy)), dt);
    assert r.value.x == Clamp(x + vx * dt, WORLD_WIDTH);
    assert r.value.y == Clamp(y + vy * dt, WORLD_HEIGHT);
  }

  /** As written, an entity with a position and a velocity moves by v * dt
      and is then held inside the area; an entity without a velocity slot
      stays where it is, and no slot gains or loses its position. */
  lemma MovementClampingAllMeaning(P: Storage, V: Storage, dt: real, i: nat)
    requires i < |P|
    ensures var q := MovementClampingAll(P, V, dt)[i];
            (q.Some? <==> P[i].Some?)
            && (P[i].Some? && P[i].value.Position? && i < |V| && V[i].Some? && V[i].value.Velocity? ==>
                  q == Some(Position(Clamp(P[i].value.x + V[i].value.vx * dt, WORLD_WIDTH),
                                     Clamp(P[i].value.y + V[i].value.vy * dt, WORLD_HEIGHT))))
            && (i >= |V| || V[i].None? ==> q == P[i])
  {
    assert MovementClampingAll(P, V, dt)[i] == MovedClampingAll(P[i], Slots.Get(V, i), dt);
    if P[i].Some? && P[i].value.Position? && i < |V| && V[i].Some? && V[i].value.Velocity? {
      var x, y, vx, vy := P[i].value.x, P[i].value.y, V[i].value.vx, V[i].value.vy;
      assert P[i] == Some(Position(x, y)) && Slots.Get(V, i) == Some(Velocity(vx, vy));
      MovedClampingAllStep(x, y, vx, vy, dt);
      assert Clamp(x + vx * dt, WORLD_WIDTH) == Clamp(P[i].value.x + V[i].value.vx * dt, WORLD_WIDTH);
      assert Clamp(y + vy * dt, WORLD_HEIGHT) == Clamp(P[i].value.y + V[i].value.vy * dt, WORLD_HEIGHT);
    }
  }

  /** The enemy spawnEnemy places at x = 850 moving left at 150 per second is
      pulled back to x = 800 by the first frame. */
  lemma EnemySpawnPulledBack()
    ensures MovementClampingAll([Some(Position(850.0, 300.0))], [Some(Velocity(-150.0, 0.0))], 1.0 / 60.0)
            == [Some(Position(800.0, 300.0))]
  {
    var r := MovementClampingAll([Some(Position(850.0, 300.0))], [Some(Velocity(-150.0, 0.0))], 1.0 / 60.0);
    assert r[0] == Some(Position(Clamp(850.0 + -150.0 * (1.0 / 60.0), WORLD_WIDTH), Clamp(300.0 + 0.0 * (1.0 / 60.0), WORLD_HEIGHT)));
  }

  /** With the boundary check on players only, an entity that is not a player
      moves by exactly v * dt, a moving player stays inside the area, and no
      slot gains or loses its position. */
  lemma MovementMeaning(P: Storage, V: Storage, T: Storage, dt: real, i: nat)
    requires i < |P|
    ensures var q := Movement(P, V, T, dt)[i];
            (q.Some? <==> P[i].Some?)
            && (P[i].Some? && P[i].value.Position? && i < |V| && V[i].Some? && V[i].value.Velocity? ==>
                  q.Some? && q.value.Position?
                  && (!IsPlayer(Slots.Get(T, i)) ==>
                        q.value.x == P[i].value.x + V[i].value.vx * dt && q.value.y == P[i].value.y + V[i].value.vy * dt)
                  && (IsPlayer(Slots.Get(T, i)) ==>
                        0.0 <= q.value.x <= WORLD_WIDTH && 0.0 <= q.value.y <= WORLD_HEIGHT))
            && (i >= |V| || V[i].None? ==> q == P[i])
  {
  }

  /** With the boundary check on players only, an enemy that has moved past the
      left edge leaves the screen: from x = -50 at 150 per second, one second
      later it is at x = -200, past the off-screen line. */
  lemma EnemyLeavesLeftEdge()
    ensures var q := Movement([Some(Position(-50.0, 300.0))], [Some(Velocity(-150.0, 0.0))],
                              [Some(EntityTypeTag(Enemy))], 1.0)[0];
            q == Some(Position(-200.0, 300.0)) && q.value.x < ENEMY_EXIT_X
  {
    assert !IsPlayer(Slots.Get([Some(EntityTypeTag(Enemy))], 0));
  }

  // ---------------------------------------------------------------- lifetimes

  /** One Lifetime slot after `remaining -= dt`. */
  function Aged(l: Option<Component>, dt: real): Option<Component> {
    match l
    case Some(Lifetime(r)) => Some(Lifetime(r - dt))
    case _ => l
  }

  /** The Lifetime storage after the aging loop of updateLifetimes: every
      lifetime drops by dt, and no slot gains or loses a component. */
  function AgedAll(L: Storage, dt: real): (r: Storage)
    ensures |r| == |L|
    ensures forall i: nat :: Slots.Has(r, i) <==> Slots.Has(L, i)
  {
    seq(|L|, i requires 0 <= i < |L| => Aged(L[i], dt))
  }

  predicate IsExpired(l: Option<Component>) {
    l.Some? && l.value.Lifetime? && l.value.remaining <= 0.0
  }

  predicate StrictlyIncreasing(s: seq<nat>) {
    forall a, b :: 0 <= a < b < |s| ==> s[a] < s[b]
  }

  /** The indices, in increasing order, whose lifetime has run out. */
  function Expired(L: Storage): (r: seq<nat>)
    ensures StrictlyIncreasing(r)
    ensures forall j :: 0 <= j < |r| ==> r[j] < |L|
    ensures forall i :: 0 <= i < |L| ==> (IsExpired(L[i]) <==> i in r)
  {
    if L == [] then []
    else
      var n := |L| - 1;
      var init := Expired(L[..n]);
      assert forall i :: 0 <= i < n ==> L[..n][i] == L[i];
      init + (if IsExpired(L[n]) then [n] else [])
  }

  // ---------------------------------------------------------------- collisions

  /** The axis-aligned boxes at (x1, y1) of size (w1, h1) and at (x2, y2) of
      size (w2, h2) overlap; touching edges do not count. */
  predicate Overlap(x1: real, y1: real, w1: real, h1: real, x2: real, y2: real, w2: real, h2: real) {
    x1 < x2 + w2 && x1 + w1 > x2 && y1 < y2 + h2 && y1 + h1 > y2
  }

  /** The storages checkCollisions reads, and the Health storage it writes. */
  datatype Arena = Arena(P: Storage, D: Storage, T: Storage, Dm: Storage, H: Storage)

  /** What the pass has done so far: the Health storage and the destroy queue. */
  datatype Outcome = Outcome(H: Storage, queue: seq<nat>)

  /** The bullet b takes part when it has a position, a drawable and the
      BULLET_PLAYER tag. */
  predicate ArmedBullet(a: Arena, b: nat) {
    Slots.Get(a.P, b).Some? && Slots.Get(a.P, b).value.Position?
    && Slots.Get(a.D, b).Some? && Slots.Get(a.D, b).value.Drawable?
    && Slots.Get(a.T, b) == Some(EntityTypeTag(BulletPlayer))
  }

  /** The damage of bullet b: its Damage component, or 25. */
  function DamageOf(a: Arena, b: nat): u8 {
    var d: Option<Component> := Slots.Get(a.Dm, b);
    match d
    case Some(Damage(amount)) => amount
    case _ => DEFAULT_DAMAGE
  }

  /** The enemy e is hit by bullet b, given the current Health storage H: both
      have a position and a drawable, e has a health, and the boxes overlap. */
  predicate Hits(a: Arena, H: Storage, b: nat, e: nat) {
    var bp, bd := Slots.Get(a.P, b), Slots.Get(a.D, b);
    var ep, ed := Slots.Get(a.P, e), Slots.Get(a.D, e);
    ArmedBullet(a, b)
    && ep.Some? && ep.value.Position? && ed.Some? && ed.value.Drawable?
    && Slots.Get(H, e).Some? && Slots.Get(H, e).value.Health?
    && Overlap(bp.value.x, bp.value.y, bd.value.width, bd.value.height,
               ep.value.x, ep.value.y, ed.value.width, ed.value.height)
  }

  /** The first enemy, scanning enemies from position j on, that bullet b hits. */
  function FirstHit(a: Arena, H: Storage, b: nat, enemies: seq<nat>, j: nat): (r: Option<nat>)
    requires j <= |enemies|
    ensures r.Some? ==> r.value in enemies[j..] && Hits(a, H, b, r.value)
    ensures r.None? ==> forall k :: j <= k < |enemies| ==> !Hits(a, H, b, enemies[k])
    decreases |enemies| - j
  {
    if j == |enemies| then None
    else if Hits(a, H, b, enemies[j]) then Some(enemies[j])
    else FirstHit(a, H, b, enemies, j + 1)
  }

  /** The effect of one bullet: on its first hit, the enemy loses the damage if
      it has more health than that, otherwise its health drops to 0 and it is
      queued; the bullet is queued. A bullet that hits nothing changes nothing. */
  function BulletOutcome(a: Arena, o: Outcome, b: nat, enemies: seq<nat>): Outcome {
    match FirstHit(a, o.H, b, enemies, 0)
    case None => o
    case Some(e) =>
      var h := Slots.Get(o.H, e).value;
      var d := DamageOf(a, b);
      if h.Health? && h.current > d then
        Outcome(Slots.Put(o.H, e, Health(h.current - d, h.maximum)), o.queue + [b])
      else if h.Health? then
        Outcome(Slots.Put(o.H, e, Health(0, h.maximum)), o.queue + [e, b])
      else o
  }

  /** The bullet-versus-enemy loop of checkCollisions over the bullets in order. */
  function HitPass(a: Arena, bullets: seq<nat>, enemies: seq<nat>): Outcome {
    if bullets == [] then Outcome(a.H, [])
    else BulletOutcome(a, HitPass(a, bullets[..|bullets| - 1], enemies), bullets[|bullets| - 1], enemies)
  }

  /** The enemies left of x = -100, in list order. */
  function OffLeft(P: Storage, enemies: seq<nat>): (r: seq<nat>)
    ensures forall x :: x in r ==> x in enemies
  {
    if enemies == [] then []
    else
      var n := |enemies| - 1;
      var p := Slots.Get(P, enemies[n]);
      OffLeft(P, enemies[..n]) + (if p.Some? && p.value.Position? && p.value.x < ENEMY_EXIT_X then [enemies[n]] else [])
  }

  /** The bullets right of x = 900, in list order. */
  function OffRight(P: Storage, bullets: seq<nat>): (r: seq<nat>)
    ensures forall x :: x in r ==> x in bullets
  {
    if bullets == [] then []
    else
      var n := |bullets| - 1;
      var p := Slots.Get(P, bullets[n]);
      OffRight(P, bullets[..n]) + (if p.Some? && p.value.Position? && p.value.x > BULLET_EXIT_X then [bullets[n]] else [])
  }

  /** Every entity the hit pass queues is a bullet or an enemy of the lists. */
  lemma {:induction false} HitPassQueuesTracked(a: Arena, bullets: seq<nat>, enemies: seq<nat>)
    ensures forall x :: x in HitPass(a, bullets, enemies).queue ==> x in bullets || x in enemies
  {
    if bullets != [] {
      var n := |bullets| - 1;
      HitPassQueuesTracked(a, bullets[..n], enemies);
      var o := HitPass(a, bullets[..n], enemies);
      match FirstHit(a, o.H, bullets[n], enemies, 0)
      case None =>
      case Some(e) =>
        assert e in enemies;
        forall x | x in HitPass(a, bullets, enemies).queue ensures x in bullets || x in enemies {
          if x in o.queue {
            assert x in bullets[..n] || x in enemies;
          }
        }
    }
  }

  /** The hit pass never raises a health, and never adds or removes a Health
      component. */
  lemma {:induction false} HitPassOnlyLowersHealth(a: Arena, bullets: seq<nat>, enemies: seq<nat>, i: nat)
    ensures var H := HitPass(a, bullets, enemies).H;
            Slots.Has(H, i) == Slots.Has(a.H, i)
            && (Slots.Get(a.H, i).Some? && Slots.Get(a.H, i).value.Health? ==>
                  Slots.Get(H, i).value.Health? && Slots.Get(H, i).value.current <= Slots.Get(a.H, i).value.current
                  && Slots.Get(H, i).value.maximum == Slots.Get(a.H, i).value.maximum)
            && (Slots.Get(a.H, i).Some? && !Slots.Get(a.H, i).value.Health? ==> Slots.Get(H, i) == Slots.Get(a.H, i))
  {
    if bullets != [] {
      HitPassOnlyLowersHealth(a, bullets[..|bullets| - 1], enemies, i);
    }
  }

  /** A bullet with no enemy under it leaves the health storage and the queue
      as they were; a bullet over an enemy is always queued, together with the
      enemy exactly when the damage is at least the enemy's health. */
  lemma BulletOutcomeMeaning(a: Arena, o: Outcome, b: nat, enemies: seq<nat>)
    ensures var r := BulletOutcome(a, o, b, enemies);
            (forall k :: 0 <= k < |enemies| ==> !Hits(a, o.H, b, enemies[k])) ==> r == o
    ensures var r := BulletOutcome(a, o, b, enemies);
            forall k :: 0 <= k < |enemies| && Hits(a, o.H, b, enemies[k])
                        && (forall m :: 0 <= m < k ==> !Hits(a, o.H, b, enemies[m])) ==>
              var e, h := enemies[k], Slots.Get(o.H, enemies[k]).value;
              (h.current > DamageOf(a, b) ==>
                 r.queue == o.queue + [b] && Slots.Get(r.H, e) == Some(Health(h.current - DamageOf(a, b), h.maximum)))
              && (h.current <= DamageOf(a, b) ==>
                 r.queue == o.queue + [e, b] && Slots.Get(r.H, e) == Some(Health(0, h.maximum)))
  {
    forall k | 0 <= k < |enemies| && Hits(a, o.H, b, enemies[k]) && (forall m :: 0 <= m < k ==> !Hits(a, o.H, b, enemies[m]))
      ensures FirstHit(a, o.H, b, enemies, 0) == Some(enemies[k])
    {
      FirstHitIsFirst(a, o.H, b, enemies, 0, k);
    }
  }

  lemma {:induction false} FirstHitIsFirst(a: Arena, H: Storage, b: nat, enemies: seq<nat>, j: nat, k: nat)
    requires j <= k < |enemies| && Hits(a, H, b, enemies[k])
    requires forall m :: j <= m < k ==> !Hits(a, H, b, enemies[m])
    ensures FirstHit(a, H, b, enemies, j) == Some(enemies[k])
    decreases k - j
  {
    if j < k {
      FirstHitIsFirst(a, H, b, enemies, j + 1, k);
    }
  }

  // ---------------------------------------------------------------- destroy queue

  /** x inserted into the strictly increasing s, unless already present. */
  function InsertSorted(s: seq<nat>, x: nat): (r: seq<nat>)
    requires StrictlyIncreasing(s)
    ensures StrictlyIncreasing(r)
    ensures forall y :: y in r <==> y in s || y == x
  {
    if s == [] then [x]
    else if x < s[0] then [x] + s
    else if x == s[0] then s
    else
      TailIncreasing(s);
      var rest := InsertSorted(s[1..], x);
      assert forall y :: y in rest ==> s[0] < y;
      ConsIncreasing(s[0], rest);
      [s[0]] + rest
  }

  lemma TailIncreasing(s: seq<nat>)
    requires s != [] && StrictlyIncreasing(s)
    ensures StrictlyIncreasing(s[1..]) && forall y :: y in s[1..] ==> s[0] < y
  {
    forall a, b | 0 <= a < b < |s| - 1 ensures s[1..][a] < s[1..][b] {
      assert s[1..][a] == s[a + 1] && s[1..][b] == s[b + 1];
    }
  }

  lemma ConsIncreasing(h: nat, rest: seq<nat>)
    requires StrictlyIncreasing(rest) && forall y :: y in rest ==> h < y
    ensures StrictlyIncreasing([h] + rest)
  {
    var s := [h] + rest;
    forall a, b | 0 <= a < b < |s| ensures s[a] < s[b] {
      assert s[b] == rest[b - 1] && rest[b - 1] in rest;
      if a > 0 { assert s[a] == rest[a - 1]; }
    }
  }

  /** std::sort followed by std::unique and erase: the distinct entities of
      the queue in increasing order. */
  function SortUnique(s: seq<nat>): (r: seq<nat>)
    ensures StrictlyIncreasing(r)
    ensures forall y :: y in r <==> y in s
  {
    if s == [] then []
    else
      var init := SortUnique(s[..|s| - 1]);
      assert forall y :: y in s <==> y in s[..|s| - 1] || y == s[|s| - 1];
      InsertSorted(init, s[|s| - 1])
  }

  // ---------------------------------------------------------------- world state

  /** The batch entry of index i, when it has a position, a network id and a
      drawable; health is the Health component's current value, or 100. */
  function EntryAt(P: Storage, N: Storage, D: Storage, H: Storage, i: nat): Option<BatchEntry<real>> {
    var p: Option<Component>, n: Option<Component>, d: Option<Component> := Slots.Get(P, i), Slots.Get(N, i), Slots.Get(D, i);
    var h: Option<Component> := Slots.Get(H, i);
    match (p, n, d)
    case (Some(Position(x, y)), Some(NetworkId(id)), Some(Drawable(_, _, _))) =>
      var health := match h case Some(Health(cur, _)) => cur case _ => DEFAULT_HEALTH;
      Some(BatchEntry(id, x, y, health))
    case _ => None
  }

  /** The entries of every index below n that has all three components, in
      index order. */
  function EntriesBelow(P: Storage, N: Storage, D: Storage, H: Storage, n: nat): seq<BatchEntry<real>> {
    if n == 0 then []
    else
      var init := EntriesBelow(P, N, D, H, n - 1);
      match EntryAt(P, N, D, H, n - 1)
      case Some(e) => init + [e]
      case None => init
  }

  /** Scanning further only appends. */
  lemma {:induction false} EntriesBelowPrefix(P: Storage, N: Storage, D: Storage, H: Storage, m: nat, n: nat)
    requires m <= n
    ensures var a, b := EntriesBelow(P, N, D, H, m), EntriesBelow(P, N, D, H, n);
            |a| <= |b| && b[..|a|] == a
    decreases n - m
  {
    if m < n {
      EntriesBelowPrefix(P, N, D, H, m, n - 1);
      var a, c := EntriesBelow(P, N, D, H, m), EntriesBelow(P, N, D, H, n - 1);
      var b := EntriesBelow(P, N, D, H, n);
      assert b[..|c|] == c;
      assert b[..|a|] == c[..|a|];
    }
  }

  /** Every entry comes from an index below n that has all three components,
      and carries that index's network id and position. */
  lemma {:induction false} EntriesBelowSound(P: Storage, N: Storage, D: Storage, H: Storage, n: nat, k: nat)
    requires k < |EntriesBelow(P, N, D, H, n)|
    ensures exists i :: 0 <= i < n && EntryAt(P, N, D, H, i) == Some(EntriesBelow(P, N, D, H, n)[k])
  {
    var init := EntriesBelow(P, N, D, H, n - 1);
    if k < |init| {
      EntriesBelowSound(P, N, D, H, n - 1, k);
      var i :| 0 <= i < n - 1 && EntryAt(P, N, D, H, i) == Some(init[k]);
    } else {
      assert EntryAt(P, N, D, H, n - 1) == Some(EntriesBelow(P, N, D, H, n)[k]);
    }
  }

  /** The first at most 10 entries. */
  function FirstBatch(es: seq<BatchEntry<real>>): (r: seq<BatchEntry<real>>)
    ensures |r| <= MAX_BATCH_ENTITIES
    ensures |es| <= MAX_BATCH_ENTITIES ==> r == es
  {
    if |es| <= MAX_BATCH_ENTITIES then es else es[..MAX_BATCH_ENTITIES]
  }
}
