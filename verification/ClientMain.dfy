/** The rendering client of src/client/ClientMain.cpp, restricted to what it
    does with a UDP datagram: handleUdpPacket upserts the entities of an
    ENTITY_BATCH_UPDATE into the map the render loop draws. An entity the
    client has never seen is created as a 32x32 box of colour (100, 150, 200);
    a known one only moves. Floats are carried as their 32-bit patterns. */
module RenderClients {
  import opened BoundedInts
  import opened Protocol
  import opened Components

  /** 32.0f as an IEEE-754 single. */
  const F32_32: u32 := 0x4200_0000

  const NEW_ENTITY_COLOR: Color := Rgb(100, 150, 200)

  datatype RenderEntity = RenderEntity(networkId: u32, x: u32, y: u32, width: u32, height: u32, color: Color)

  /** One batch entry applied to the map: a new id gets a default box, a
      known id gets the entry's position and keeps everything else. */
  function EntryUpserted(es: map<u32, RenderEntity>, e: BatchEntry<u32>): (r: map<u32, RenderEntity>)
    ensures r.Keys == es.Keys + {e.networkId}
    ensures r[e.networkId].x == e.posX && r[e.networkId].y == e.posY
    ensures forall id :: id in es && id != e.networkId ==> r[id] == es[id]
  {
    var id := e.networkId;
    if id in es then es[id := es[id].(x := e.posX, y := e.posY)]
    else es[id := RenderEntity(id, e.posX, e.posY, F32_32, F32_32, NEW_ENTITY_COLOR)]
  }

  /** The entries applied in order. */
  function Upserted(es: map<u32, RenderEntity>, entries: seq<BatchEntry<u32>>): map<u32, RenderEntity>
  {
    if entries == [] then es
    else EntryUpserted(Upserted(es, entries[..|entries| - 1]), entries[|entries| - 1])
  }

  /** The ids of a batch. */
  function Ids(entries: seq<BatchEntry<u32>>): set<u32> {
    set i | 0 <= i < |entries| :: entries[i].networkId
  }

  /** A batch adds exactly the ids it names and removes none. */
  lemma {:induction false} UpsertedKeys(es: map<u32, RenderEntity>, entries: seq<BatchEntry<u32>>)
    ensures Upserted(es, entries).Keys == es.Keys + Ids(entries)
  {
    if entries != [] {
      var init := entries[..|entries| - 1];
      UpsertedKeys(es, init);
      assert Ids(entries) == Ids(init) + {entries[|entries| - 1].networkId} by {
        forall id | id in Ids(entries) ensures id in Ids(init) + {entries[|entries| - 1].networkId} {
          var i :| 0 <= i < |entries| && entries[i].networkId == id;
          if i < |entries| - 1 { assert init[i] == entries[i]; }
        }
        forall id | id in Ids(init) ensures id in Ids(entries) {
          var i :| 0 <= i < |init| && init[i].networkId == id;
          assert entries[i] == init[i];
        }
      }
    }
  }

  /** What an id looks like after a batch: the last entry naming it sets its
      position; its size and colour are those it had, or the defaults when the
      batch created it; an id the batch does not name is untouched. */
  lemma {:induction false} UpsertLastWins(es: map<u32, RenderEntity>, entries: seq<BatchEntry<u32>>, id: u32)
    ensures LastFor(entries, id).None? && id in es ==> id in Upserted(es, entries) && Upserted(es, entries)[id] == es[id]
    ensures LastFor(entries, id).None? && id !in es ==> id !in Upserted(es, entries)
    ensures LastFor(entries, id).Some? ==>
              var e := LastFor(entries, id).value;
              var r := Upserted(es, entries);
              id in r && r[id].networkId == (if id in es then es[id].networkId else id)
              && r[id].x == e.posX && r[id].y == e.posY
              && (id in es ==> r[id].width == es[id].width && r[id].height == es[id].height && r[id].color == es[id].color)
              && (id !in es ==> r[id].width == F32_32 && r[id].height == F32_32 && r[id].color == NEW_ENTITY_COLOR)
  {
    if entries != [] {
      var init := entries[..|entries| - 1];
      UpsertLastWins(es, init, id);
      var last := entries[|entries| - 1];
      if last.networkId == id && LastFor(init, id).Some? {
        UpsertedKeys(es, init);
        assert id in Ids(init) by {
          var i :| 0 <= i < |init| && init[i] == LastFor(init, id).value;
        }
      }
    }
  }

  /** handleUdpPacket on a datagram of length |data|, with the batch guard
      that the entries array requires: the count must not exceed
      MAX_BATCH_ENTITIES. Only the header's magic and version are checked;
      its payloadSize and token are not read. Every other message type,
      PONG included, leaves the map unchanged. */
  function Handled(es: map<u32, RenderEntity>, data: seq<u8>): map<u32, RenderEntity>
  {
    if |data| < HEADER_SIZE then es
    else
      var h := DecodeHeader(data[..HEADER_SIZE]);
      if h.magic != PROTOCOL_MAGIC || h.version != PROTOCOL_VERSION then es
      else if h.msgType != ENTITY_BATCH_UPDATE || |data| < HEADER_SIZE + 1 then es
      else
        var count := data[HEADER_SIZE];
        if !BatchFits(count, |data|) then es
        else Upserted(es, DecodeEntries(data[HEADER_SIZE + 1..], count))
  }

  /** A batch packet as the servers build it is applied entry by entry. */
  lemma ServerBatchHandled(es: map<u32, RenderEntity>, entries: seq<BatchEntry<u32>>, token: u32)
    requires |entries| <= MAX_BATCH_ENTITIES
    ensures Handled(es, EncodePacket(BatchPacket(entries, token))) == Upserted(es, entries)
  {
    BatchPacketReadsBack(entries, token);
  }

  /** The client trusts the count byte, not the header's payloadSize: two
      datagrams that differ only in payloadSize are handled alike. */
  lemma PayloadSizeIgnored(es: map<u32, RenderEntity>, data: seq<u8>, size: u8)
    requires |data| >= HEADER_SIZE
    ensures Handled(es, data[3 := size]) == Handled(es, data)
  {
    var other := data[3 := size];
    var h, g := DecodeHeader(data[..HEADER_SIZE]), DecodeHeader(other[..HEADER_SIZE]);
    assert g == h.(payloadSize := size);
    assert other[HEADER_SIZE..] == data[HEADER_SIZE..];
  }

  /** handleUdpPacket as written only checks that the count entries are
      within the datagram before copying them into an array of
      MAX_BATCH_ENTITIES entries. */
  predicate BatchCopiedAsWritten(count: u8, length: nat) {
    length >= HEADER_SIZE + 1 && length >= HEADER_SIZE + 1 + BATCH_ENTRY_SIZE * count
  }

  /** A valid-looking batch of 153 bytes whose count byte says 11: the guard
      as written lets it through, and the copy writes 143 bytes into an array
      of 130; the corrected guard refuses it. */
  lemma ElevenEntriesOverflowArray()
    ensures var d := EncodeHeader(HeaderFor(ENTITY_BATCH_UPDATE, 144, 0)) + [11] + seq(143, _ => 0);
            |d| == 153 && DecodeHeader(d[..HEADER_SIZE]).magic == PROTOCOL_MAGIC
            && DecodeHeader(d[..HEADER_SIZE]).version == PROTOCOL_VERSION
            && DecodeHeader(d[..HEADER_SIZE]).msgType == ENTITY_BATCH_UPDATE
            && d[HEADER_SIZE] == 11
            && BatchCopiedAsWritten(d[HEADER_SIZE], |d|)
            && BATCH_ENTRY_SIZE * d[HEADER_SIZE] > BATCH_ENTRY_SIZE * MAX_BATCH_ENTITIES
            && !BatchFits(d[HEADER_SIZE], |d|)
  {
    var h := HeaderFor(ENTITY_BATCH_UPDATE, 144, 0);
    var eleven: u8 := 11;
    var zeros: seq<u8> := seq(143, _ => 0);
    var d := EncodeHeader(h) + [eleven] + zeros;
    HeaderRoundTrip(h);
    assert d[..HEADER_SIZE] == EncodeHeader(h);
    assert d[HEADER_SIZE] == eleven;
  }

  /** The entries of a batch applied in order, as the client's loop does. */
  method UpsertAll(es: map<u32, RenderEntity>, entries: seq<BatchEntry<u32>>) returns (r: map<u32, RenderEntity>)
    ensures r == Upserted(es, entries)
  {
    r := es;
    var i := 0;
    while i < |entries|
      invariant 0 <= i <= |entries|
      invariant r == Upserted(es, entries[..i])
    {
      var e := entries[i];
      if e.networkId !in r {
        r := r[e.networkId := RenderEntity(e.networkId, e.posX, e.posY, F32_32, F32_32, NEW_ENTITY_COLOR)];
      } else {
        r := r[e.networkId := r[e.networkId].(x := e.posX, y := e.posY)];
      }
      assert entries[..i + 1][..i] == entries[..i];
      i := i + 1;
    }
    assert entries[..i] == entries;
  }

  /** The entity map of RTypeClient; the render loop only reads it. */
  class RTypeClient {
    var entities: map<u32, RenderEntity>

    constructor()
      ensures entities == map[]
    {
      entities := map[];
    }

    /** handleUdpPacket: the map after the datagram is Handled of the map
        before it. */
    method HandleUdpPacket(data: seq<u8>)
      modifies this
      ensures entities == Handled(old(entities), data)
    {
      if |data| < HEADER_SIZE {
        return;
      }
      var h := DecodeHeader(data[..HEADER_SIZE]);
      if h.magic != PROTOCOL_MAGIC || h.version != PROTOCOL_VERSION {
        return;
      }
      if h.msgType == ENTITY_BATCH_UPDATE && |data| >= HEADER_SIZE + 1 {
        var count := data[HEADER_SIZE];
        if BatchFits(count, |data|) {
          var entries := DecodeEntries(data[HEADER_SIZE + 1..], count);
          entities := UpsertAll(entities, entries);
        }
      }
    }
  }
}
