/** Serveur/src/GameServer.cpp: the server that runs a Game at a fixed tick
    rate and, on every other tick, sends each client whose UDP endpoint is
    known the game's snapshot as ENTITY_BATCH_UPDATE datagrams of at most ten
    entries, stamped with that client's session token.

    The sessions come from the transport (Transport.SessionEntry); datagrams
    sent are appended to `outbox` with the endpoint they go to. The frame's
    delta time is a parameter; the loop's thread and its sleeping are not
    modelled. */
module SnapshotServer {
  import opened Wrappers
  import opened BoundedInts
  import Slots
  import opened Protocol
  import opened Components
  import opened Registries
  import opened Games
  import opened Transport

  // ---------------------------------------------------------------- batching

  /** The part of a snapshot entity a batch entry carries. */
  function EntryOf(e: EntitySnapshot): BatchEntry<real> {
    BatchEntry(e.networkId, e.posX, e.posY, e.health)
  }

  function Entries(es: seq<EntitySnapshot>): (r: seq<BatchEntry<real>>)
    ensures |r| == |es| && forall i :: 0 <= i < |es| ==> r[i] == EntryOf(es[i])
  {
    seq(|es|, i requires 0 <= i < |es| => EntryOf(es[i]))
  }

  /** numBatches: the number of ten-entry batches n entities need, rounded up. */
  function BatchCount(n: nat): nat {
    (n + MAX_BATCH_ENTITIES - 1) / MAX_BATCH_ENTITIES
  }

  function Min(a: nat, b: nat): nat {
    if a < b then a else b
  }

  /** Batch b: the entities from 10b up to 10b + 10 or the end. */
  function BatchSlice(es: seq<EntitySnapshot>, b: nat): (r: seq<BatchEntry<real>>)
    requires b < BatchCount(|es|)
    ensures 1 <= |r| <= MAX_BATCH_ENTITIES
  {
    Entries(es[b * MAX_BATCH_ENTITIES..Min(b * MAX_BATCH_ENTITIES + MAX_BATCH_ENTITIES, |es|)])
  }

  /** The datagrams sendSnapshotToClient builds for one client: batch b as an
      ENTITY_BATCH_UPDATE packet with the client's token. */
  function SnapshotBatches(es: seq<EntitySnapshot>, token: u32): (r: seq<Packet<real>>)
    ensures |r| == BatchCount(|es|)
  {
    seq(BatchCount(|es|), b requires 0 <= b < BatchCount(|es|) => BatchPacket(BatchSlice(es, b), token))
  }

  /** The entries the packets carry, one packet after the other. */
  function Carried(pks: seq<Packet<real>>): seq<BatchEntry<real>> {
    if pks == [] then []
    else
      var n := |pks| - 1;
      Carried(pks[..n]) + (if pks[n].payload.BatchBody? then pks[n].payload.entries else [])
  }

  /** Each batch packet holds one to ten entries, declares a payload of the
      count byte plus 13 bytes per entry, and carries the client's token;
      an empty snapshot gives no packet at all. */
  lemma BatchPacketsWellFormed(es: seq<EntitySnapshot>, token: u32)
    ensures |es| == 0 <==> SnapshotBatches(es, token) == []
    ensures forall b :: 0 <= b < |SnapshotBatches(es, token)| ==>
              var pk := SnapshotBatches(es, token)[b];
              pk.payload.BatchBody? && 1 <= |pk.payload.entries| <= MAX_BATCH_ENTITIES
              && pk.header.msgType == ENTITY_BATCH_UPDATE && pk.header.sessionToken == token
              && pk.header.payloadSize == 1 + BATCH_ENTRY_SIZE * |pk.payload.entries|
  {
  }

  lemma EntriesSplit(es: seq<EntitySnapshot>, lo: nat, hi: nat)
    requires lo <= hi <= |es|
    ensures Entries(es[..hi]) == Entries(es[..lo]) + Entries(es[lo..hi])
  {
    assert es[..hi] == es[..lo] + es[lo..hi];
    var a, b := es[..lo], es[lo..hi];
    assert forall i :: 0 <= i < |a| + |b| ==> Entries(a + b)[i] == (Entries(a) + Entries(b))[i];
  }

  /** Batch k - 1 starts inside the snapshot, and batch k starts ten
      entities later. */
  lemma BatchBounds(n: nat, k: nat)
    requires 0 < k <= BatchCount(n)
    ensures (k - 1) * MAX_BATCH_ENTITIES < n
    ensures k * MAX_BATCH_ENTITIES == (k - 1) * MAX_BATCH_ENTITIES + MAX_BATCH_ENTITIES
  {
  }

  /** One more batch carries the entries of its own slice after the others. */
  lemma CarriedStep(es: seq<EntitySnapshot>, token: u32, k: nat)
    requires 0 < k <= BatchCount(|es|)
    ensures var pks := SnapshotBatches(es, token);
            Carried(pks[..k]) == Carried(pks[..k - 1]) + BatchSlice(es, k - 1)
  {
    var pks := SnapshotBatches(es, token);
    assert pks[..k][..k - 1] == pks[..k - 1];
  }

  /** The first k batches carry the first min(10k, N) entities, in order. */
  lemma {:induction false} BatchPrefixCarries(es: seq<EntitySnapshot>, token: u32, k: nat)
    requires k <= BatchCount(|es|)
    ensures Carried(SnapshotBatches(es, token)[..k]) == Entries(es[..Min(k * MAX_BATCH_ENTITIES, |es|)])
  {
    if k == 0 {
      assert Entries(es[..0]) == [];
    } else {
      BatchPrefixCarries(es, token, k - 1);
      BatchBounds(|es|, k);
      CarriedStep(es, token, k);
      var lo := (k - 1) * MAX_BATCH_ENTITIES;
      EntriesSplit(es, lo, Min(lo + MAX_BATCH_ENTITIES, |es|));
    }
  }

  /** Concatenating the entries of all batches gives back every snapshot
      entity's id, position and health, in snapshot order. */
  lemma BatchesCoverSnapshot(es: seq<EntitySnapshot>, token: u32)
    ensures Carried(SnapshotBatches(es, token)) == Entries(es)
  {
    var pks := SnapshotBatches(es, token);
    BatchPrefixCarries(es, token, |pks|);
    assert pks[..|pks|] == pks;
    assert es[..Min(|pks| * MAX_BATCH_ENTITIES, |es|)] == es;
  }

  /** sendSnapshotToClient: for each batch, fill the payload's entries from
      the snapshot, then frame it with the client's token. */
  method SendSnapshotToClient(snapshot: GameSnapshot, token: u32) returns (packets: seq<Packet<real>>)
    ensures packets == SnapshotBatches(snapshot.entities, token)
  {
    var es := snapshot.entities;
    var numEntities := |es|;
    var numBatches := (numEntities + MAX_BATCH_ENTITIES - 1) / MAX_BATCH_ENTITIES;
    packets := [];
    var batchIdx := 0;
    while batchIdx < numBatches
      invariant 0 <= batchIdx <= numBatches == BatchCount(|es|)
      invariant packets == SnapshotBatches(es, token)[..batchIdx]
    {
      var startIdx := batchIdx * MAX_BATCH_ENTITIES;
      var endIdx := Min(startIdx + MAX_BATCH_ENTITIES, numEntities);
      var batchSize := endIdx - startIdx;
      var entries: seq<BatchEntry<real>> := [];
      var i := 0;
      while i < batchSize
        invariant 0 <= i <= batchSize
        invariant |entries| == i && forall j :: 0 <= j < i ==> entries[j] == EntryOf(es[startIdx + j])
      {
        var ent := es[startIdx + i];
        entries := entries + [BatchEntry(ent.networkId, ent.posX, ent.posY, ent.health)];
        i := i + 1;
      }
      assert entries == BatchSlice(es, batchIdx);
      packets := packets + [BatchPacket(entries, token)];
      batchIdx := batchIdx + 1;
    }
  }

  // ---------------------------------------------------------------- broadcasting

  /** Packets addressed to one endpoint. */
  function Addressed(ep: Endpoint, pks: seq<Packet<real>>): (r: seq<(Endpoint, Packet<real>)>)
    ensures |r| == |pks| && forall i :: 0 <= i < |pks| ==> r[i] == (ep, pks[i])
  {
    seq(|pks|, i requires 0 <= i < |pks| => (ep, pks[i]))
  }

  /** broadcastSnapshot: every session whose UDP endpoint is known gets the
      snapshot's batches at that endpoint, in session order. */
  function SnapshotDatagrams(ss: seq<SessionEntry>, es: seq<EntitySnapshot>): seq<(Endpoint, Packet<real>)> {
    if ss == [] then []
    else
      var n := |ss| - 1;
      SnapshotDatagrams(ss[..n], es)
      + (if ss[n].info.udpInitialized then Addressed(ss[n].info.udpEndpoint, SnapshotBatches(es, ss[n].info.sessionToken)) else [])
  }

  lemma AddressedMembers(ep: Endpoint, pks: seq<Packet<real>>, d: (Endpoint, Packet<real>))
    ensures d in Addressed(ep, pks) <==> d.0 == ep && d.1 in pks
  {
    if d.0 == ep && d.1 in pks {
      var k :| 0 <= k < |pks| && pks[k] == d.1;
      assert Addressed(ep, pks)[k] == d;
    }
  }

  /** Whether session i of ss is sent snapshot packet pk. */
  predicate SentTo(ss: seq<SessionEntry>, es: seq<EntitySnapshot>, i: nat, d: (Endpoint, Packet<real>)) {
    i < |ss| && ss[i].info.udpInitialized && d.0 == ss[i].info.udpEndpoint
    && d.1 in SnapshotBatches(es, ss[i].info.sessionToken)
  }

  /** A datagram goes out only to a session whose endpoint is bound, and it is
      one of the snapshot batches stamped with that session's token. */
  lemma {:induction false} OnlyBoundSessionsReceive(ss: seq<SessionEntry>, es: seq<EntitySnapshot>, d: (Endpoint, Packet<real>))
    requires d in SnapshotDatagrams(ss, es)
    ensures exists i: nat :: SentTo(ss, es, i, d)
  {
    var n := |ss| - 1;
    if d in SnapshotDatagrams(ss[..n], es) {
      OnlyBoundSessionsReceive(ss[..n], es, d);
      var i: nat :| SentTo(ss[..n], es, i, d);
      assert ss[..n][i] == ss[i];
      assert SentTo(ss, es, i, d);
    } else {
      AddressedMembers(ss[n].info.udpEndpoint, SnapshotBatches(es, ss[n].info.sessionToken), d);
      assert SentTo(ss, es, n, d);
    }
  }

  /** Every session whose endpoint is bound is sent every batch of the
      snapshot with its own token. */
  lemma {:induction false} EveryBoundSessionReceives(ss: seq<SessionEntry>, es: seq<EntitySnapshot>, i: nat, d: (Endpoint, Packet<real>))
    requires SentTo(ss, es, i, d)
    ensures d in SnapshotDatagrams(ss, es)
  {
    var n := |ss| - 1;
    if i < n {
      assert ss[..n][i] == ss[i];
      EveryBoundSessionReceives(ss[..n], es, i, d);
    } else {
      AddressedMembers(ss[n].info.udpEndpoint, SnapshotBatches(es, ss[n].info.sessionToken), d);
    }
  }

  /** An endpoint that no bound session has is sent nothing, so a client
      that has not yet sent a UDP packet receives no snapshot. */
  lemma UnboundSessionsSkipped(ss: seq<SessionEntry>, es: seq<EntitySnapshot>, ep: Endpoint)
    requires forall i :: 0 <= i < |ss| && ss[i].info.udpInitialized ==> ss[i].info.udpEndpoint != ep
    ensures forall d :: d in SnapshotDatagrams(ss, es) ==> d.0 != ep
  {
    forall d | d in SnapshotDatagrams(ss, es) ensures d.0 != ep {
      OnlyBoundSessionsReceive(ss, es, d);
    }
  }

  /** The datagrams broadcastSnapshot sends for the sessions, built session
      by session. */
  method SendToBound(sessions: seq<SessionEntry>, snapshot: GameSnapshot) returns (sent: seq<(Endpoint, Packet<real>)>)
    ensures sent == SnapshotDatagrams(sessions, snapshot.entities)
  {
    sent := [];
    var i := 0;
    while i < |sessions|
      invariant 0 <= i <= |sessions|
      invariant sent == SnapshotDatagrams(sessions[..i], snapshot.entities)
    {
      assert sessions[..i + 1][..i] == sessions[..i];
      var info := sessions[i].info;
      if info.udpInitialized {
        var packets := SendSnapshotToClient(snapshot, info.sessionToken);
        sent := sent + Addressed(info.udpEndpoint, packets);
      }
      i := i + 1;
    }
    assert sessions[..i] == sessions;
  }

  /** The ticks on which the loop broadcasts: the tick count after the
      update is even. */
  predicate BroadcastTick(tick: u32) {
    tick % 2 == 0
  }

  /** Broadcasts alternate: of two successive ticks exactly one is a
      broadcast tick, across the uint32_t wrap as well. */
  lemma BroadcastEveryOtherTick(t: u32)
    ensures BroadcastTick(Next32(t)) <==> !BroadcastTick(Next32(Next32(t)))
  {
  }

  // ---------------------------------------------------------------- the server

  /** The x coordinate addPlayer gives player p: 100 + 100p. */
  function SpawnX(p: u8): real {
    100.0 + p as real * 100.0
  }

  /** What a first start leaves behind, from storages st0, live set live0,
      systems sys0, network ids ids0 and next id next0: three ids are
      appended and the counter advanced by three, and the three entities they
      name are the starting entities initialize spawns. */
  ghost predicate Started(st0: map<Kind, Storage>, live0: set<nat>, sys0: seq<System>,
                          ids0: seq<(nat, u32)>, next0: u32,
                          st: map<Kind, Storage>, live: set<nat>, sys: seq<System>,
                          ids: seq<(nat, u32)>, next: u32) {
    |ids| == |ids0| + 3 && next == Advance32(next0, 3)
    && var n := |ids0|;
       var spawned := [ids[n].0, ids[n + 1].0, ids[n + 2].0];
       Recorded(ids, ids0, spawned, next0) && Initialized(st0, live0, sys0, st, live, sys, spawned)
  }

  lemma StartedFrom(st0: map<Kind, Storage>, live0: set<nat>, sys0: seq<System>,
                    ids0: seq<(nat, u32)>, next0: u32,
                    st: map<Kind, Storage>, live: set<nat>, sys: seq<System>,
                    ids: seq<(nat, u32)>, next: u32, spawned: seq<nat>)
    requires |spawned| == 3 && next == Advance32(next0, 3)
    requires Recorded(ids, ids0, spawned, next0) && Initialized(st0, live0, sys0, st, live, sys, spawned)
    ensures Started(st0, live0, sys0, ids0, next0, st, live, sys, ids, next)
  {
    var n := |ids0|;
    assert spawned == [ids[n].0, ids[n + 1].0, ids[n + 2].0];
  }

  class GameServer {
    const game: Game
    var running: bool
    var outbox: seq<(Endpoint, Packet<real>)>

    ghost predicate Valid()
      reads this, game, game.registry
    {
      game.registry.Valid() && game.registry.Unique()
    }

    /** The entities game.getSnapshot() reports right now. */
    ghost function SnapshotNow(): seq<EntitySnapshot>
      reads game, game.registry
    {
      if PositionKind in game.registry.stores
      then SnapshotEntities(game.registry.stores, game.playerEntities, game.entityToNetworkId)
      else []
    }

    constructor ()
      ensures Valid() && fresh(game) && fresh(game.registry)
      ensures !running && outbox == []
      ensures game.currentTick == 0 && game.nextNetworkId == 1
      ensures game.entityToNetworkId == [] && game.playerEntities == []
    {
      game := new Game();
      running := false;
      outbox := [];
    }

    /** start: initialise the game once; a second start changes nothing. */
    method Start()
      requires Valid()
      modifies this, game, game.registry
      ensures Valid() && running
      ensures old(running) ==> game.registry.stores == old(game.registry.stores)
                               && game.registry.live == old(game.registry.live)
                               && game.registry.systems == old(game.registry.systems)
                               && game.entityToNetworkId == old(game.entityToNetworkId)
                               && game.nextNetworkId == old(game.nextNetworkId)
      ensures !old(running) ==>
                Started(old(game.registry.stores), old(game.registry.live), old(game.registry.systems),
                        old(game.entityToNetworkId), old(game.nextNetworkId),
                        game.registry.stores, game.registry.live, game.registry.systems,
                        game.entityToNetworkId, game.nextNetworkId)
      ensures game.currentTick == old(game.currentTick) && game.playerEntities == old(game.playerEntities)
      ensures outbox == old(outbox)
    {
      if running {
        return;
      }
      var spawned := game.Initialize();
      StartedFrom(old(game.registry.stores), old(game.registry.live), old(game.registry.systems),
                  old(game.entityToNetworkId), old(game.nextNetworkId),
                  game.registry.stores, game.registry.live, game.registry.systems,
                  game.entityToNetworkId, game.nextNetworkId, spawned);
      running := true;
    }

    method Stop()
      modifies this
      ensures !running && outbox == old(outbox)
    {
      running := false;
    }

    /** broadcastSnapshot: take the snapshot, then send its batches to every
      session whose UDP endpoint is known. */
    method BroadcastSnapshot(sessions: seq<SessionEntry>)
      requires Valid()
      modifies this
      ensures outbox == old(outbox) + SnapshotDatagrams(sessions, SnapshotNow())
      ensures running == old(running)
    {
      var snapshot := game.GetSnapshot();
      var sent := SendToBound(sessions, snapshot);
      outbox := outbox + sent;
    }

    /** One pass of gameLoop: tick the game, then broadcast when the new tick
      count is even. */
    method GameLoopStep(deltaTime: real, sessions: seq<SessionEntry>) returns (broadcast: bool)
      requires Valid()
      modifies this, game, game.registry
      ensures Valid()
      ensures game.currentTick == Next32(old(game.currentTick))
      ensures game.registry.stores == ApplySystems(old(game.registry.stores), game.registry.systems)
      ensures broadcast <==> BroadcastTick(game.currentTick)
      ensures outbox == old(outbox) + if broadcast then SnapshotDatagrams(sessions, SnapshotNow()) else []
      ensures game.entityToNetworkId == old(game.entityToNetworkId) && game.playerEntities == old(game.playerEntities)
      ensures running == old(running)
    {
      game.Tick(deltaTime);
      broadcast := game.currentTick % 2 == 0;
      if broadcast {
        BroadcastSnapshot(sessions);
      }
    }

    /** handlePlayerInput: the five fields go unchanged to processInput. */
    method HandlePlayerInput(playerId: u8, moveX: i8, moveY: i8, buttons: u8, timestamp: u32)
      requires Valid()
      modifies game.registry
      ensures Valid()
      ensures game.registry.stores
              == Games.Steered(old(game.registry.stores), game.playerEntities, PlayerInput(playerId, moveX, moveY, buttons, timestamp))
      ensures game.registry.live == old(game.registry.live)
    {
      var input := PlayerInput(playerId, moveX, moveY, buttons, timestamp);
      game.ProcessInput(input);
    }

    /** addPlayer: player p spawns at (100 + 100p, 100), with everything
        else spawnPlayer gives a player. */
    method AddPlayer(playerId: u8) returns (player: nat)
      requires Valid()
      modifies game, game.registry
      ensures Valid()
      ensures player !in old(game.registry.live) && game.registry.live == old(game.registry.live) + {player}
      ensures game.registry.stores
              == AddedAll(old(game.registry.stores), player, PlayerParts(SpawnX(playerId), 100.0))
      ensures PositionKind in game.registry.stores && VelocityKind in game.registry.stores
      ensures DrawableKind in game.registry.stores && ControllableKind in game.registry.stores
      ensures Slots.Get(game.registry.stores[PositionKind], player) == Some(Position(SpawnX(playerId), 100.0))
      ensures Slots.Get(game.registry.stores[VelocityKind], player) == Some(Velocity(0.0, 0.0))
      ensures Slots.Get(game.registry.stores[DrawableKind], player) == Some(Drawable(48.0, 48.0, Rgb(200, 30, 30)))
      ensures Slots.Get(game.registry.stores[ControllableKind], player) == Some(Controllable(4.0))
      ensures game.entityToNetworkId == old(game.entityToNetworkId) + [(player, old(game.nextNetworkId))]
      ensures game.nextNetworkId == Next32(old(game.nextNetworkId))
      ensures |game.playerEntities| == if playerId < |old(game.playerEntities)| then |old(game.playerEntities)| else playerId + 1
      ensures game.playerEntities[playerId] == player
      ensures forall j :: 0 <= j < |game.playerEntities| && j != playerId ==>
                game.playerEntities[j] == if j < |old(game.playerEntities)| then old(game.playerEntities)[j] else 0
      ensures game.currentTick == old(game.currentTick) && game.registry.systems == old(game.registry.systems)
    {
      var x := SpawnX(playerId);
      var y := 100.0;
      player := game.SpawnPlayer(playerId, x, y);
    }
  }
}
