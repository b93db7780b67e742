/** Serveur/src/GameClient.cpp: the thin client. It authenticates over TCP,
    sends its input as PLAYER_INPUT datagrams, and mirrors the server's
    entities in a map from network id to ClientEntity, fed by the datagrams it
    drains from its UDP socket into a 1024-byte receive buffer.

    The socket is abstracted: the CONNECT_OK reply is a parameter of Connect,
    the datagrams waiting on the socket are a parameter of Update, and sent
    datagrams are appended to `outbox`. The clock reading a datagram carries
    is a parameter. Float fields are kept as the 32-bit words they arrive as. */
module GameClients {
  import opened Wrappers
  import opened BoundedInts
  import opened Protocol
  import opened Components
  import opened TextProtocol
  import opened Transport

  /** sizeof(_udpBuffer) in include/GameClient.hpp. */
  const UDP_BUFFER_SIZE: nat := 1024

  /** The bit patterns of 48.0f and 0.0f. */
  const F32_48: u32 := 0x4240_0000
  const F32_ZERO: u32 := 0

  datatype ClientEntity = ClientEntity(
    networkId: u32, x: u32, y: u32, width: u32, height: u32,
    health: u8, color: Color, username: string)

  /** A default-constructed ClientEntity. */
  const DEFAULT_ENTITY: ClientEntity := ClientEntity(0, F32_ZERO, F32_ZERO, F32_48, F32_48, 100, WHITE, "")

  // ---------------------------------------------------------------- the mirror

  /** The colour handleEntitySpawn gives: the owner's palette entry for a
      player, white for anything else. */
  function SpawnColor(p: SpawnPayload<u32>): Color {
    if p.entityType == EntityTypeCode(Player) then PLAYER_COLORS[PaletteIndex(p.ownerPlayer)] else WHITE
  }

  /** handleEntitySpawn: the entry for the id is created or replaced by a
      48x48 entity at the payload's position with its health. */
  function Spawned(es: map<u32, ClientEntity>, p: SpawnPayload<u32>): map<u32, ClientEntity> {
    es[p.networkId := DEFAULT_ENTITY.(networkId := p.networkId, x := p.posX, y := p.posY,
                                      width := F32_48, height := F32_48, health := p.health,
                                      color := SpawnColor(p))]
  }

  /** The fields an update or a batch entry changes. */
  function Moved(e: ClientEntity, x: u32, y: u32, health: u8): ClientEntity {
    e.(x := x, y := y, health := health)
  }

  /** handleEntityUpdate: only an id already known is changed. */
  function UpdateApplied(es: map<u32, ClientEntity>, p: UpdatePayload<u32>): map<u32, ClientEntity> {
    if p.networkId in es then es[p.networkId := Moved(es[p.networkId], p.posX, p.posY, p.health)] else es
  }

  /** One batch entry, applied only to an id already known. */
  function EntryApplied(es: map<u32, ClientEntity>, e: BatchEntry<u32>): map<u32, ClientEntity> {
    if e.networkId in es then es[e.networkId := Moved(es[e.networkId], e.posX, e.posY, e.health)] else es
  }

  /** handleEntityBatchUpdate: the entries applied in order. */
  function BatchApplied(es: map<u32, ClientEntity>, entries: seq<BatchEntry<u32>>): map<u32, ClientEntity> {
    if entries == [] then es
    else EntryApplied(BatchApplied(es, entries[..|entries| - 1]), entries[|entries| - 1])
  }

  /** handleEntityDestroy: the id is erased if present. */
  function Destroyed(es: map<u32, ClientEntity>, id: u32): map<u32, ClientEntity> {
    es - {id}
  }

  /** Destroying an entity that was just spawned under a fresh id gives the
      mirror back as it was. */
  lemma SpawnThenDestroy(es: map<u32, ClientEntity>, p: SpawnPayload<u32>)
    requires p.networkId !in es
    ensures Destroyed(Spawned(es, p), p.networkId) == es
  {
  }

  /** A spawn makes its id known with the payload's position and health at
      48x48, and leaves every other id as it was. */
  lemma SpawnMeaning(es: map<u32, ClientEntity>, p: SpawnPayload<u32>)
    ensures var r := Spawned(es, p);
            r.Keys == es.Keys + {p.networkId}
            && r[p.networkId].x == p.posX && r[p.networkId].y == p.posY && r[p.networkId].health == p.health
            && r[p.networkId].width == F32_48 && r[p.networkId].height == F32_48
            && (p.entityType != EntityTypeCode(Player) ==> r[p.networkId].color == WHITE)
            && forall k :: k in es && k != p.networkId ==> r[k] == es[k]
  {
  }

  /** Players are coloured by owner: four owners in a row get four
      different colours. */
  lemma PlayersColouredByOwner(p: SpawnPayload<u32>, q: SpawnPayload<u32>)
    requires p.entityType == q.entityType == EntityTypeCode(Player)
    requires 1 <= p.ownerPlayer < q.ownerPlayer <= p.ownerPlayer + 3
    ensures SpawnColor(p) != SpawnColor(q)
  {
  }

  /** An update never adds or removes an id; a known id gets the payload's
      position and health and keeps its size, colour and name. */
  lemma UpdateMeaning(es: map<u32, ClientEntity>, p: UpdatePayload<u32>)
    ensures var r := UpdateApplied(es, p);
            r.Keys == es.Keys
            && (p.networkId in es ==>
                  r[p.networkId].x == p.posX && r[p.networkId].y == p.posY && r[p.networkId].health == p.health
                  && r[p.networkId].width == es[p.networkId].width && r[p.networkId].height == es[p.networkId].height
                  && r[p.networkId].color == es[p.networkId].color && r[p.networkId].networkId == es[p.networkId].networkId)
            && forall k :: k in es && k != p.networkId ==> r[k] == es[k]
  {
  }

  /** A batch entry does to the mirror what an update with the same id,
      position and health does, whatever velocity the update carries. */
  lemma BatchEntryIsUpdate(es: map<u32, ClientEntity>, e: BatchEntry<u32>, vx: u32, vy: u32)
    ensures BatchApplied(es, [e]) == UpdateApplied(es, UpdatePayload(e.networkId, e.posX, e.posY, vx, vy, e.health))
  {
    assert [e][..0] == [];
  }

  /** A batch never adds or removes an id. A known id ends with the position
      and health of its last entry, and keeps the rest; an id the batch does
      not name is untouched. */
  lemma {:induction false} BatchLastWriteWins(es: map<u32, ClientEntity>, entries: seq<BatchEntry<u32>>, id: u32)
    ensures BatchApplied(es, entries).Keys == es.Keys
    ensures id in es && LastFor(entries, id).None? ==> BatchApplied(es, entries)[id] == es[id]
    ensures id in es && LastFor(entries, id).Some? ==>
              var e := LastFor(entries, id).value;
              BatchApplied(es, entries)[id] == Moved(es[id], e.posX, e.posY, e.health)
  {
    if entries != [] {
      var n := |entries| - 1;
      BatchLastWriteWins(es, entries[..n], id);
      BatchLastWriteWins(es, entries[..n], entries[n].networkId);
    }
  }

  // ---------------------------------------------------------------- receiving

  /** The buffer after receive_from: the datagram's bytes, cut at the buffer's
      size, over whatever the earlier datagrams left behind. */
  function Received(buf: seq<u8>, d: seq<u8>): (r: seq<u8>)
    requires |buf| == UDP_BUFFER_SIZE
    ensures |r| == UDP_BUFFER_SIZE
  {
    var n := ReceivedLength(d);
    d[..n] + buf[n..]
  }

  function ReceivedLength(d: seq<u8>): (n: nat)
    ensures n <= UDP_BUFFER_SIZE && n <= |d|
  {
    if |d| < UDP_BUFFER_SIZE then |d| else UDP_BUFFER_SIZE
  }

  /** One pass of update's loop once the datagram is in the buffer: too short
      or invalid datagrams are skipped, the rest are dispatched on their type.
      The handlers read the buffer whatever the header's payloadSize says,
      and a batch applies all `count` entries after its count byte, stale
      bytes included; a count above 78 reads past the 1024-byte buffer,
      which has no defined outcome, and leaves the entities as they were
      here. */
  function Absorbed(es: map<u32, ClientEntity>, buf: seq<u8>, length: nat): map<u32, ClientEntity>
    requires |buf| == UDP_BUFFER_SIZE && length <= UDP_BUFFER_SIZE
  {
    if length < HEADER_SIZE then es
    else
      var h := DecodeHeader(buf[..HEADER_SIZE]);
      if !ValidatePacket(h, length) then es
      else if h.msgType == ENTITY_SPAWN then Spawned(es, DecodeSpawn(buf[HEADER_SIZE..HEADER_SIZE + SPAWN_SIZE]))
      else if h.msgType == ENTITY_UPDATE then UpdateApplied(es, DecodeUpdate(buf[HEADER_SIZE..HEADER_SIZE + UPDATE_SIZE]))
      else if h.msgType == ENTITY_BATCH_UPDATE then
        var count := buf[HEADER_SIZE];
        if BatchReadEndAsWritten(count) <= UDP_BUFFER_SIZE then BatchApplied(es, DecodeEntries(buf[HEADER_SIZE + 1..], count)) else es
      else if h.msgType == ENTITY_DESTROY then Destroyed(es, DecodeDestroy(buf[HEADER_SIZE..HEADER_SIZE + DESTROY_SIZE]).networkId)
      else es
  }

  /** The client's side of the wire: its entities and its receive buffer. */
  datatype Mirror = Mirror(entities: map<u32, ClientEntity>, buffer: seq<u8>)

  function Step(m: Mirror, d: seq<u8>): (r: Mirror)
    requires |m.buffer| == UDP_BUFFER_SIZE
    ensures |r.buffer| == UDP_BUFFER_SIZE
  {
    var buf := Received(m.buffer, d);
    Mirror(Absorbed(m.entities, buf, ReceivedLength(d)), buf)
  }

  /** update: the datagrams waiting on the socket, drained in order. */
  function Drained(m: Mirror, ds: seq<seq<u8>>): (r: Mirror)
    requires |m.buffer| == UDP_BUFFER_SIZE
    ensures |r.buffer| == UDP_BUFFER_SIZE
  {
    if ds == [] then m else Step(Drained(m, ds[..|ds| - 1]), ds[|ds| - 1])
  }

  lemma ReceivedPrefix(buf: seq<u8>, d: seq<u8>)
    requires |buf| == UDP_BUFFER_SIZE && |d| <= UDP_BUFFER_SIZE
    ensures Received(buf, d)[..|d|] == d
  {
  }

  /** A spawn packet as the servers build it puts the entity in the mirror. */
  lemma ServerSpawnAbsorbed(m: Mirror, p: SpawnPayload<u32>)
    requires |m.buffer| == UDP_BUFFER_SIZE
    ensures Step(m, EncodePacket(SpawnPacket(p))).entities == Spawned(m.entities, p)
  {
    var d := EncodePacket(SpawnPacket(p));
    var buf := Received(m.buffer, d);
    ReceivedPrefix(m.buffer, d);
    assert buf[..HEADER_SIZE] == d[..HEADER_SIZE] == EncodeHeader(SpawnPacket(p).header);
    assert buf[HEADER_SIZE..HEADER_SIZE + SPAWN_SIZE] == EncodeSpawn(p);
    HeaderRoundTrip(SpawnPacket(p).header);
    SpawnRoundTrip(p);
  }

  /** A destroy packet as the servers build it erases the id. */
  lemma ServerDestroyAbsorbed(m: Mirror, id: u32)
    requires |m.buffer| == UDP_BUFFER_SIZE
    ensures Step(m, EncodePacket(DestroyPacket(id))).entities == Destroyed(m.entities, id)
  {
    var d := EncodePacket(DestroyPacket(id));
    var buf := Received(m.buffer, d);
    ReceivedPrefix(m.buffer, d);
    assert buf[..HEADER_SIZE] == EncodeHeader(DestroyPacket<u32>(id).header);
    assert buf[HEADER_SIZE..HEADER_SIZE + DESTROY_SIZE] == EncodeDestroy(DestroyPayload(id));
    HeaderRoundTrip(DestroyPacket<u32>(id).header);
    DestroyRoundTrip(DestroyPayload(id));
  }

  /** A datagram that fits is received whole. */
  lemma ReceivedWhole(buf: seq<u8>, d: seq<u8>)
    requires |buf| == UDP_BUFFER_SIZE && |d| <= UDP_BUFFER_SIZE
    ensures ReceivedLength(d) == |d| && Received(buf, d) == d + buf[|d|..]
  {
    assert d[..|d|] == d;
  }

  /** Where a batch datagram lands in the buffer: its header, its count byte
      and its entries, with stale bytes after them. */
  lemma BatchLayout(buf: seq<u8>, h: Header, entries: seq<BatchEntry<u32>>)
    requires |buf| == UDP_BUFFER_SIZE && |entries| <= MAX_BATCH_ENTITIES
    ensures var d := EncodeHeader(h) + EncodeBatch(entries);
            var r := Received(buf, d);
            DecodeHeader(r[..HEADER_SIZE]) == h
            && r[HEADER_SIZE] == |entries|
            && DecodeEntries(r[HEADER_SIZE + 1..], |entries|) == entries
  {
    var enc := EncodeEntries(entries);
    var count: u8 := |entries|;
    var d: seq<u8> := EncodeHeader(h) + ([count] + enc);
    assert EncodeBatch(entries) == [count] + enc;
    assert |d| <= UDP_BUFFER_SIZE by {
      assert |enc| <= BATCH_ENTRY_SIZE * MAX_BATCH_ENTITIES;
    }
    var rest: seq<u8> := buf[|d|..];
    ReceivedWhole(buf, d);
    SplitAfterHeader(EncodeHeader(h), count, enc, rest);
    HeaderRoundTrip(h);
    EntriesRoundTrip(entries, rest);
  }

  /** A valid batch datagram in the buffer whose entries lie inside the
      buffer applies exactly the entries its count byte announces. */
  lemma AbsorbedBatch(es: map<u32, ClientEntity>, buf: seq<u8>, length: nat, entries: seq<BatchEntry<u32>>)
    requires |buf| == UDP_BUFFER_SIZE && HEADER_SIZE <= length <= UDP_BUFFER_SIZE
    requires ValidatePacket(DecodeHeader(buf[..HEADER_SIZE]), length)
    requires DecodeHeader(buf[..HEADER_SIZE]).msgType == ENTITY_BATCH_UPDATE
    requires BatchReadEndAsWritten(buf[HEADER_SIZE]) <= UDP_BUFFER_SIZE && buf[HEADER_SIZE] == |entries|
    requires DecodeEntries(buf[HEADER_SIZE + 1..], |entries|) == entries
    ensures Absorbed(es, buf, length) == BatchApplied(es, entries)
  {
  }

  /** A batch packet as the servers build it applies exactly its entries. */
  lemma ServerBatchAbsorbed(m: Mirror, entries: seq<BatchEntry<u32>>, token: u32)
    requires |m.buffer| == UDP_BUFFER_SIZE && |entries| <= MAX_BATCH_ENTITIES
    ensures Step(m, EncodePacket(BatchPacket(entries, token))).entities == BatchApplied(m.entities, entries)
  {
    var h := HeaderFor(ENTITY_BATCH_UPDATE, 1 + BATCH_ENTRY_SIZE * |entries|, token);
    var d := EncodePacket(BatchPacket(entries, token));
    BatchBytes(entries, token);
    BatchLayout(m.buffer, h, entries);
    assert |d| == HEADER_SIZE + 1 + BATCH_ENTRY_SIZE * |entries|;
    var buf := Received(m.buffer, d);
    AbsorbedBatch(m.entities, buf, |d|, entries);
    assert Step(m, d).entities == Absorbed(m.entities, buf, |d|);
  }

  /** handleEntitySpawn reads its payload from the buffer whatever the
      header's payloadSize says: a spawn header that declares no payload
      passes validation and spawns the entity whose bytes an earlier
      datagram left in the buffer. */
  lemma EmptySpawnReadsStaleBytes(m: Mirror, token: u32)
    requires |m.buffer| == UDP_BUFFER_SIZE
    ensures Step(m, EncodeHeader(HeaderFor(ENTITY_SPAWN, 0, token))).entities
            == Spawned(m.entities, DecodeSpawn(m.buffer[HEADER_SIZE..HEADER_SIZE + SPAWN_SIZE]))
  {
    var d := EncodeHeader(HeaderFor(ENTITY_SPAWN, 0, token));
    var buf := Received(m.buffer, d);
    ReceivedPrefix(m.buffer, d);
    assert buf[..HEADER_SIZE] == d;
    HeaderRoundTrip(HeaderFor(ENTITY_SPAWN, 0, token));
    assert buf[HEADER_SIZE..HEADER_SIZE + SPAWN_SIZE] == m.buffer[HEADER_SIZE..HEADER_SIZE + SPAWN_SIZE];
  }

  /** A batch header that declares only the count byte passes validation,
      and the handler applies the entries an earlier datagram left in the
      buffer: here two of them, read from bytes 10 to 35 of a 10-byte
      datagram. */
  lemma ShortBatchReadsStaleBytes(m: Mirror, token: u32)
    requires |m.buffer| == UDP_BUFFER_SIZE
    ensures var d := EncodeHeader(HeaderFor(ENTITY_BATCH_UPDATE, 1, token)) + [2];
            |d| == 10 && !BatchFits(d[HEADER_SIZE], |d|)
            && Step(m, d).entities == BatchApplied(m.entities, DecodeEntries(m.buffer[HEADER_SIZE + 1..], 2))
  {
    var d := EncodeHeader(HeaderFor(ENTITY_BATCH_UPDATE, 1, token)) + [2];
    FramedPacketValidates(ENTITY_BATCH_UPDATE, token, [2]);
    var buf := Received(m.buffer, d);
    ReceivedPrefix(m.buffer, d);
    assert buf[..HEADER_SIZE] == d[..HEADER_SIZE];
    assert d[..HEADER_SIZE] == EncodeHeader(HeaderFor(ENTITY_BATCH_UPDATE, 1, token));
    HeaderRoundTrip(HeaderFor(ENTITY_BATCH_UPDATE, 1, token));
    assert buf[HEADER_SIZE] == 2;
    assert buf[HEADER_SIZE + 1..] == m.buffer[HEADER_SIZE + 1..];
  }

  /** update as written dispatches a batch on validatePacket alone: the count
      byte is never compared with the payload. */
  predicate BatchDispatchedAsWritten(h: Header, length: nat) {
    length >= HEADER_SIZE && ValidatePacket(h, length) && h.msgType == ENTITY_BATCH_UPDATE
  }

  /** handleEntityBatchUpdate as written reads count entries after the
      count byte: this is where the last read ends. */
  function BatchReadEndAsWritten(count: u8): nat {
    HEADER_SIZE + 1 + BATCH_ENTRY_SIZE * count
  }

  /** A batch datagram of ten bytes, count 255, passes update's checks and
      sends handleEntityBatchUpdate reading up to byte 3325 of a 1024-byte
      buffer. */
  lemma OversizedCountOverrunsBuffer(token: u32)
    ensures var d := EncodeHeader(HeaderFor(ENTITY_BATCH_UPDATE, 1, token)) + [255];
            BatchDispatchedAsWritten(DecodeHeader(d), |d|)
            && d[HEADER_SIZE] == 255
            && BatchReadEndAsWritten(d[HEADER_SIZE]) == 3325 > UDP_BUFFER_SIZE
            && !BatchFits(d[HEADER_SIZE], |d|)
  {
    FramedPacketValidates(ENTITY_BATCH_UPDATE, token, [255]);
  }

  /** Where the guard lets a batch through, every entry read lies inside the
      datagram just received, so neither stale bytes nor bytes past the buffer
      are read. */
  lemma GuardedBatchReadsReceivedBytes(count: u8, length: nat)
    requires BatchFits(count, length)
    ensures BatchReadEndAsWritten(count) <= length
    ensures BatchReadEndAsWritten(count) <= HEADER_SIZE + 1 + BATCH_ENTRY_SIZE * MAX_BATCH_ENTITIES < UDP_BUFFER_SIZE
  {
  }

  // ---------------------------------------------------------------- sending

  /** The datagram sendInput builds: a header declaring the 8-byte payload
      with the session token, then the payload. */
  function InputDatagram(token: u32, playerId: u8, moveX: i8, moveY: i8, buttons: u8, now: u32): (d: seq<u8>)
    ensures |d| == HEADER_SIZE + INPUT_SIZE
  {
    EncodeHeader(HeaderFor(PLAYER_INPUT, INPUT_SIZE, token))
    + EncodeInput(InputPayload(now, playerId, buttons, moveX, moveY))
  }

  /** The server reads back the header and the payload sendInput wrote. */
  lemma InputDatagramReadsBack(token: u32, playerId: u8, moveX: i8, moveY: i8, buttons: u8, now: u32)
    ensures var d := InputDatagram(token, playerId, moveX, moveY, buttons, now);
            DecodeHeader(d) == HeaderFor(PLAYER_INPUT, INPUT_SIZE, token)
            && ValidatePacket(DecodeHeader(d), |d|)
            && DecodeInput(d[HEADER_SIZE..HEADER_SIZE + INPUT_SIZE]) == InputPayload(now, playerId, buttons, moveX, moveY)
  {
    var p := InputPayload(now, playerId, buttons, moveX, moveY);
    var enc := EncodeInput(p);
    var d := EncodeHeader(HeaderFor(PLAYER_INPUT, INPUT_SIZE, token)) + enc;
    FramedPacketValidates(PLAYER_INPUT, token, enc);
    assert d[HEADER_SIZE..HEADER_SIZE + INPUT_SIZE] == enc;
    InputRoundTrip(p);
  }

  /** An input datagram reaches the server's game as the movement and buttons
      it carries, for the player of the session that owns the token (not the
      player id written in the payload); the session's first datagram binds
      its endpoint. */
  lemma InputReachesServer(ss: seq<SessionEntry>, i: nat, playerId: u8, moveX: i8, moveY: i8, buttons: u8, now: u32)
    requires i < |ss| && TokenOwner(ss, ss[i].info.sessionToken) == Some(i)
    ensures TriageAsWritten(ss, InputDatagram(ss[i].info.sessionToken, playerId, moveX, moveY, buttons, now))
            == Deliver(i, !ss[i].info.udpInitialized, ApplyInput(ss[i].info.playerId, moveX, moveY, buttons))
  {
    var token := ss[i].info.sessionToken;
    InputDatagramReadsBack(token, playerId, moveX, moveY, buttons, now);
  }

  // ---------------------------------------------------------------- connecting

  predicate IsDecDigit(c: char) {
    '0' <= c <= '9'
  }

  predicate IsHexDigit(c: char) {
    IsDecDigit(c) || ('a' <= c <= 'f') || ('A' <= c <= 'F')
  }

  predicate IsBaseDigit(c: char, hex: bool) {
    if hex then IsHexDigit(c) else IsDecDigit(c)
  }

  /** The length of the run of digits s starts with. */
  function DigitRun(s: string, hex: bool): (n: nat)
    ensures n <= |s|
    ensures forall i :: 0 <= i < n ==> IsBaseDigit(s[i], hex)
    ensures n < |s| ==> !IsBaseDigit(s[n], hex)
  {
    if s == [] || !IsBaseDigit(s[0], hex) then 0 else 1 + DigitRun(s[1..], hex)
  }

  const INT_MIN: int := -0x8000_0000
  const INT_MAX: int := 0x7FFF_FFFF

  /** std::stoi on a parameter value (which never holds white space): an
      optional sign and at least one decimal digit, read up to the first
      non-digit; no digit, or a value outside int, throws (None). */
  function Stoi(s: string): (r: Option<int>)
    ensures r.Some? ==> INT_MIN <= r.value <= INT_MAX
  {
    var signed := |s| > 0 && (s[0] == '-' || s[0] == '+');
    var digits := if signed then s[1..] else s;
    var n := DigitRun(digits, false);
    if n == 0 then None
    else
      var v: int := NumeralValue(digits[..n], 10);
      var value: int := if signed && s[0] == '-' then -v else v;
      if INT_MIN <= value <= INT_MAX then Some(value) else None
  }

  /** Reading a uint32_t from a std::hex stream: an optional sign, an optional
      0x prefix and the run of hex digits. No digit reads 0; a magnitude too
      large reads the largest uint32_t; a minus sign negates modulo 2^32, as
      the extraction of an unsigned integer does. */
  function HexToken(s: string): (r: u32)
    ensures |s| == 0 || (!IsSign(s[0]) && !IsHexDigit(s[0])) ==> r == 0
    ensures |s| > 0 && s[0] == '-' && HexMagnitude(s[1..]) < TWO_TO_THE_32 ==>
              r == (TWO_TO_THE_32 - HexMagnitude(s[1..])) % TWO_TO_THE_32
    ensures |s| > 0 && s[0] == '+' && HexMagnitude(s[1..]) < TWO_TO_THE_32 ==> r == HexMagnitude(s[1..])
    ensures |s| > 0 && IsSign(s[0]) && HexMagnitude(s[1..]) >= TWO_TO_THE_32 ==> r == TWO_TO_THE_32 - 1
    ensures (|s| == 0 || !IsSign(s[0])) ==>
              r == if HexMagnitude(s) < TWO_TO_THE_32 then HexMagnitude(s) else TWO_TO_THE_32 - 1
  {
    var signed := |s| > 0 && IsSign(s[0]);
    var v := HexMagnitude(if signed then s[1..] else s);
    if v >= TWO_TO_THE_32 then TWO_TO_THE_32 - 1
    else if signed && s[0] == '-' then (TWO_TO_THE_32 - v) % TWO_TO_THE_32
    else v
  }

  predicate IsSign(c: char) {
    c == '+' || c == '-'
  }

  /** The unsigned value of the hex digits after an optional 0x prefix; no
      digit is 0. */
  function HexMagnitude(s: string): (v: nat)
    ensures |s| == 0 || !IsHexDigit(s[0]) ==> v == 0
  {
    var body := if |s| >= 3 && s[0] == '0' && (s[1] == 'x' || s[1] == 'X') && IsHexDigit(s[2]) then s[2..] else s;
    var n := DigitRun(body, true);
    if n == 0 then 0 else NumeralValue(body[..n], 16)
  }

  /** A leading plus sign changes nothing: "+1f" reads 31. */
  lemma PlusSignIgnored(s: string)
    requires |s| == 0 || !IsSign(s[0])
    ensures HexToken("+" + s) == HexToken(s)
  {
    assert ("+" + s)[1..] == s;
  }

  /** A leading minus sign negates modulo 2^32: "-1" reads 0xFFFFFFFF. */
  lemma MinusSignNegates(s: string)
    requires |s| == 0 || !IsSign(s[0])
    requires HexToken(s) < TWO_TO_THE_32 - 1
    ensures HexToken("-" + s) == (TWO_TO_THE_32 - HexToken(s)) % TWO_TO_THE_32
  {
    assert ("-" + s)[1..] == s;
  }

  /** An int stored in a short: the low 16 bits, read as two's complement. */
  function ShortOf(v: int): (r: int)
    ensures -32768 <= r < 32768
    ensures -32768 <= v < 32768 ==> r == v
  {
    var w := v % 0x1_0000;
    if w >= 0x8000 then w - 0x1_0000 else w
  }

  /** A parameter looked up with operator[]: a missing key reads "". */
  function ParamOr(m: Message, key: string): string {
    Lookup(m.params, key).GetOr("")
  }

  /** What connect makes of the server's reply. Refused: the reply is not
      CONNECT_OK or its id does not parse, and nothing is set. PortRejected:
      the player id and token were already stored when the port failed to
      parse. Granted: all three were read. */
  datatype Handshake = Refused | PortRejected(playerId: u8, token: u32) | Granted(playerId: u8, token: u32, udpPort: int)

  function HandshakeOf(reply: string): (r: Handshake)
    ensures Parsed(reply).msgType != CONNECT_OK ==> r == Refused
    ensures !r.Refused? ==> Stoi(ParamOr(Parsed(reply), "id")).Some?
    ensures r.Granted? ==> -32768 <= r.udpPort < 32768
  {
    var m := Parsed(reply);
    if m.msgType != CONNECT_OK then Refused
    else match Stoi(ParamOr(m, "id"))
      case None => Refused
      case Some(id) =>
        var token := HexToken(ParamOr(m, "token"));
        match Stoi(ParamOr(m, "udp_port"))
        case None => PortRejected(id % 256, token)
        case Some(port) => Granted(id % 256, token, ShortOf(port))
  }

  lemma {:induction false} NumeralIsDecimal(n: nat)
    ensures forall i :: 0 <= i < |Numeral(n, 10)| ==> IsDecDigit(Numeral(n, 10)[i])
  {
    if n >= 10 {
      NumeralIsDecimal(n / 10);
    }
  }

  /** stoi reads back what std::to_string wrote. */
  lemma StoiOfDecimal(n: int)
    requires INT_MIN <= n <= INT_MAX
    ensures Stoi(Decimal(n)) == Some(n)
  {
    var a := if n < 0 then -n else n;
    var s := Numeral(a, 10);
    NumeralIsDecimal(a);
    NumeralRoundTrip(a, 10);
    assert DigitRun(s, false) == |s|;
    assert s[..|s|] == s;
    if n < 0 {
      assert Decimal(n)[1..] == s;
    }
  }

  /** Reading the token back with std::hex gives the token the server wrote. */
  lemma HexTokenOfHex(t: u32)
    ensures HexToken(Hex(t)) == t
  {
    var s := Hex(t);
    NumeralRoundTrip(t, 16);
    assert DigitRun(s, true) == |s|;
    assert s[..|s|] == s;
  }

  lemma HandshakeOfGrant(reply: string, id: u8, token: u32, port: int)
    requires -32768 <= port < 32768
    requires Parsed(reply).msgType == CONNECT_OK
    requires Stoi(ParamOr(Parsed(reply), "id")) == Some(id as int)
    requires HexToken(ParamOr(Parsed(reply), "token")) == token
    requires Stoi(ParamOr(Parsed(reply), "udp_port")) == Some(port)
    ensures HandshakeOf(reply) == Granted(id, token, port)
  {
    var m := Parsed(reply);
    var token' := HexToken(ParamOr(m, "token"));
    assert token' == token;
    assert Trunc8(id as nat) == id;
    assert ShortOf(port) == port;
    assert HandshakeOf(reply) == Granted((id as int) % 256, token', ShortOf(port));
  }

  /** A client reading the CONNECT_OK line the server sends gets the player
      id, token and UDP port the server chose. */
  lemma ServerGrantAccepted(playerId: u8, token: u32, udpPort: int)
    requires -32768 <= udpPort < 32768
    ensures HandshakeOf(ConnectOkLine(playerId, token, udpPort)) == Granted(playerId, token, udpPort)
  {
    var reply := ConnectOkLine(playerId, token, udpPort);
    var m := Parsed(reply);
    ConnectOkReadsBack(playerId, token, udpPort);
    StoiOfDecimal(playerId);
    StoiOfDecimal(udpPort);
    HexTokenOfHex(token);
    assert Stoi(ParamOr(m, "id")) == Some(playerId as int);
    assert HexToken(ParamOr(m, "token")) == token;
    assert Stoi(ParamOr(m, "udp_port")) == Some(udpPort);
    HandshakeOfGrant(reply, playerId, token, udpPort);
  }

  // ---------------------------------------------------------------- the client

  class GameClient {
    var playerId: u8
    var sessionToken: u32
    var udpPort: int
    var connected: bool
    var entities: map<u32, ClientEntity>
    const udpBuffer: array<u8>
    var outbox: seq<seq<u8>>

    predicate Valid()
      reads this
    {
      udpBuffer.Length == UDP_BUFFER_SIZE
    }

    /** The buffer's initial bytes are indeterminate; nothing is promised
        about them. */
    constructor ()
      ensures Valid() && fresh(udpBuffer)
      ensures playerId == 0 && sessionToken == 0 && udpPort == 0 && !connected
      ensures entities == map[] && outbox == []
    {
      playerId, sessionToken, udpPort, connected := 0, 0, 0, false;
      entities, outbox := map[], [];
      udpBuffer := new u8[UDP_BUFFER_SIZE](_ => 0);
    }

    /** sendInput: nothing before the client is connected; otherwise one
      PLAYER_INPUT datagram with the session token and the player id. */
    method SendInput(moveX: i8, moveY: i8, buttons: u8, now: u32)
      modifies this
      ensures !connected ==> outbox == old(outbox)
      ensures connected ==> outbox == old(outbox) + [InputDatagram(sessionToken, playerId, moveX, moveY, buttons, now)]
      ensures playerId == old(playerId) && sessionToken == old(sessionToken) && udpPort == old(udpPort)
      ensures connected == old(connected) && entities == old(entities)
    {
      if !connected {
        return;
      }
      var header := HeaderFor(PLAYER_INPUT, INPUT_SIZE, sessionToken);
      var payload := InputPayload(now, playerId, buttons, moveX, moveY);
      outbox := outbox + [EncodeHeader(header) + EncodeInput(payload)];
    }

    /** The middle of connect: parse the reply and store the player id, the
      token and the UDP port, stopping where std::stoi would throw. */
    method Authenticate(reply: string) returns (h: Handshake)
      modifies this
      ensures h == HandshakeOf(reply)
      ensures h.Refused? ==> playerId == old(playerId) && sessionToken == old(sessionToken)
      ensures !h.Refused? ==> playerId == h.playerId && sessionToken == h.token
      ensures udpPort == if h.Granted? then h.udpPort else old(udpPort)
      ensures connected == old(connected) && entities == old(entities) && outbox == old(outbox)
    {
      var m := Parse(reply);
      if m.msgType != CONNECT_OK {
        return Refused;
      }
      var id := Stoi(ParamOr(m, "id"));
      if id.None? {
        return Refused;
      }
      playerId := id.value % 256;
      sessionToken := HexToken(ParamOr(m, "token"));
      var port := Stoi(ParamOr(m, "udp_port"));
      if port.None? {
        return PortRejected(playerId, sessionToken);
      }
      udpPort := ShortOf(port.value);
      h := Granted(playerId, sessionToken, udpPort);
    }

    /** connect as written: the "initial UDP packet" is sent through
      sendInput before the client is marked connected, so on a first
      connection nothing is sent. */
    method ConnectAsWritten(reply: string, now: u32) returns (ok: bool)
      modifies this
      ensures ok <==> HandshakeOf(reply).Granted?
      ensures ok ==> connected
      ensures ok && !old(connected) ==> outbox == old(outbox)
      ensures !ok ==> connected == old(connected) && outbox == old(outbox)
      ensures entities == old(entities)
    {
      var h := Authenticate(reply);
      if !h.Granted? {
        return false;
      }
      SendInput(0, 0, 0, now);
      connected := true;
      ok := true;
    }

    /** connect with the client marked connected before its first datagram:
      an accepted handshake sends one empty input with the new token, which
      is what lets the server learn the client's UDP endpoint. */
    method Connect(reply: string, now: u32) returns (ok: bool)
      modifies this
      ensures ok <==> HandshakeOf(reply).Granted?
      ensures ok ==> connected && playerId == HandshakeOf(reply).playerId && sessionToken == HandshakeOf(reply).token
      ensures ok ==> outbox == old(outbox) + [InputDatagram(sessionToken, playerId, 0, 0, 0, now)]
      ensures !ok ==> connected == old(connected) && outbox == old(outbox)
      ensures entities == old(entities)
    {
      var h := Authenticate(reply);
      if !h.Granted? {
        return false;
      }
      connected := true;
      SendInput(0, 0, 0, now);
      ok := true;
    }

    method HandleEntitySpawn()
      requires Valid()
      modifies this
      ensures entities == Spawned(old(entities), DecodeSpawn(udpBuffer[HEADER_SIZE..HEADER_SIZE + SPAWN_SIZE]))
      ensures playerId == old(playerId) && sessionToken == old(sessionToken) && udpPort == old(udpPort)
      ensures connected == old(connected) && outbox == old(outbox)
    {
      var payload := DecodeSpawn(udpBuffer[HEADER_SIZE..HEADER_SIZE + SPAWN_SIZE]);
      var entity := DEFAULT_ENTITY.(networkId := payload.networkId, x := payload.posX, y := payload.posY,
                                    width := F32_48, height := F32_48, health := payload.health);
      if payload.entityType == EntityTypeCode(Player) {
        var colorIdx := PaletteIndex(payload.ownerPlayer);
        entity := entity.(color := PLAYER_COLORS[colorIdx]);
      } else {
        entity := entity.(color := WHITE);
      }
      entities := entities[entity.networkId := entity];
    }

    method HandleEntityUpdate()
      requires Valid()
      modifies this
      ensures entities == UpdateApplied(old(entities), DecodeUpdate(udpBuffer[HEADER_SIZE..HEADER_SIZE + UPDATE_SIZE]))
      ensures playerId == old(playerId) && sessionToken == old(sessionToken) && udpPort == old(udpPort)
      ensures connected == old(connected) && outbox == old(outbox)
    {
      var payload := DecodeUpdate(udpBuffer[HEADER_SIZE..HEADER_SIZE + UPDATE_SIZE]);
      if payload.networkId in entities {
        entities := entities[payload.networkId := Moved(entities[payload.networkId], payload.posX, payload.posY, payload.health)];
      }
    }

    /** handleEntityBatchUpdate as written: the `count` entries after the
      count byte are applied, whatever the datagram's length; a count whose
      entries would run past the buffer is not modelled and leaves the
      entities as they were. */
    method HandleEntityBatchUpdate()
      requires Valid()
      modifies this
      ensures entities == if BatchReadEndAsWritten(udpBuffer[HEADER_SIZE]) <= UDP_BUFFER_SIZE
                          then BatchApplied(old(entities), DecodeEntries(udpBuffer[HEADER_SIZE + 1..], udpBuffer[HEADER_SIZE]))
                          else old(entities)
      ensures playerId == old(playerId) && sessionToken == old(sessionToken) && udpPort == old(udpPort)
      ensures connected == old(connected) && outbox == old(outbox)
    {
      var count := udpBuffer[HEADER_SIZE];
      if BatchReadEndAsWritten(count) > UDP_BUFFER_SIZE {
        return;
      }
      entities := ApplyBatch(entities, udpBuffer[HEADER_SIZE + 1..], count);
    }

    /** handleEntityBatchUpdate given the received length, so that the count
      is checked with BatchFits before any entry is read: only entries of
      the datagram just received are applied. */
    method HandleEntityBatchUpdateChecked(length: nat)
      requires Valid()
      modifies this
      ensures BatchFits(udpBuffer[HEADER_SIZE], length) ==>
                BatchReadEndAsWritten(udpBuffer[HEADER_SIZE]) <= length
                && entities == BatchApplied(old(entities), DecodeEntries(udpBuffer[HEADER_SIZE + 1..], udpBuffer[HEADER_SIZE]))
      ensures !BatchFits(udpBuffer[HEADER_SIZE], length) ==> entities == old(entities)
      ensures playerId == old(playerId) && sessionToken == old(sessionToken) && udpPort == old(udpPort)
      ensures connected == old(connected) && outbox == old(outbox)
    {
      var count := udpBuffer[HEADER_SIZE];
      if !BatchFits(count, length) {
        return;
      }
      GuardedBatchReadsReceivedBytes(count, length);
      entities := ApplyBatch(entities, udpBuffer[HEADER_SIZE + 1..], count);
    }

    method HandleEntityDestroy()
      requires Valid()
      modifies this
      ensures entities == Destroyed(old(entities), DecodeDestroy(udpBuffer[HEADER_SIZE..HEADER_SIZE + DESTROY_SIZE]).networkId)
      ensures playerId == old(playerId) && sessionToken == old(sessionToken) && udpPort == old(udpPort)
      ensures connected == old(connected) && outbox == old(outbox)
    {
      var payload := DecodeDestroy(udpBuffer[HEADER_SIZE..HEADER_SIZE + DESTROY_SIZE]);
      if payload.networkId in entities {
        entities := entities - {payload.networkId};
      }
    }

    /** receive_from: copy the datagram (cut at the buffer's size) to the
      start of the buffer. */
    method Receive(d: seq<u8>) returns (length: nat)
      requires Valid()
      modifies udpBuffer
      ensures length == ReceivedLength(d)
      ensures udpBuffer[..] == Received(old(udpBuffer[..]), d)
    {
      length := if |d| < UDP_BUFFER_SIZE then |d| else UDP_BUFFER_SIZE;
      var j := 0;
      while j < length
        invariant 0 <= j <= length
        invariant forall k :: 0 <= k < j ==> udpBuffer[k] == d[k]
        invariant forall k :: j <= k < udpBuffer.Length ==> udpBuffer[k] == old(udpBuffer[k])
      {
        udpBuffer[j] := d[j];
        j := j + 1;
      }
      assert udpBuffer[..] == d[..length] + old(udpBuffer[..])[length..];
    }

    /** The body of update's loop after the datagram is received. */
    method Dispatch(length: nat)
      requires Valid() && length <= UDP_BUFFER_SIZE
      modifies this
      ensures entities == Absorbed(old(entities), udpBuffer[..], length)
      ensures playerId == old(playerId) && sessionToken == old(sessionToken) && udpPort == old(udpPort)
      ensures connected == old(connected) && outbox == old(outbox)
    {
      if length < HEADER_SIZE {
        return;
      }
      var header := DecodeHeader(udpBuffer[..HEADER_SIZE]);
      assert udpBuffer[..][..HEADER_SIZE] == udpBuffer[..HEADER_SIZE];
      if !ValidatePacket(header, length) {
        return;
      }
      assert udpBuffer[..][HEADER_SIZE..HEADER_SIZE + SPAWN_SIZE] == udpBuffer[HEADER_SIZE..HEADER_SIZE + SPAWN_SIZE];
      assert udpBuffer[..][HEADER_SIZE..HEADER_SIZE + UPDATE_SIZE] == udpBuffer[HEADER_SIZE..HEADER_SIZE + UPDATE_SIZE];
      assert udpBuffer[..][HEADER_SIZE..HEADER_SIZE + DESTROY_SIZE] == udpBuffer[HEADER_SIZE..HEADER_SIZE + DESTROY_SIZE];
      assert udpBuffer[..][HEADER_SIZE + 1..] == udpBuffer[HEADER_SIZE + 1..];
      if header.msgType == ENTITY_SPAWN {
        HandleEntitySpawn();
      } else if header.msgType == ENTITY_UPDATE {
        HandleEntityUpdate();
      } else if header.msgType == ENTITY_BATCH_UPDATE {
        HandleEntityBatchUpdate();
      } else if header.msgType == ENTITY_DESTROY {
        HandleEntityDestroy();
      }
    }

    /** update: nothing before the client is connected; otherwise every
      waiting datagram is received into the buffer and dispatched, in order. */
    method Update(datagrams: seq<seq<u8>>)
      requires Valid()
      modifies this, udpBuffer
      ensures !old(connected) ==> entities == old(entities) && udpBuffer[..] == old(udpBuffer[..])
      ensures old(connected) ==> Mirror(entities, udpBuffer[..]) == Drained(Mirror(old(entities), old(udpBuffer[..])), datagrams)
      ensures playerId == old(playerId) && sessionToken == old(sessionToken) && udpPort == old(udpPort)
      ensures connected == old(connected) && outbox == old(outbox)
    {
      if !connected {
        return;
      }
      ghost var start := Mirror(entities, udpBuffer[..]);
      var i := 0;
      while i < |datagrams|
        invariant 0 <= i <= |datagrams|
        invariant Mirror(entities, udpBuffer[..]) == Drained(start, datagrams[..i])
        invariant playerId == old(playerId) && sessionToken == old(sessionToken) && udpPort == old(udpPort)
        invariant connected == old(connected) && outbox == old(outbox)
      {
        assert datagrams[..i + 1][..i] == datagrams[..i];
        var length := Receive(datagrams[i]);
        Dispatch(length);
        i := i + 1;
      }
      assert datagrams[..i] == datagrams;
    }
  }

  /** The loop of handleEntityBatchUpdate: each entry read and applied in
      turn. */
  method ApplyBatch(es: map<u32, ClientEntity>, b: seq<u8>, count: nat) returns (r: map<u32, ClientEntity>)
    requires BATCH_ENTRY_SIZE * count <= |b|
    ensures r == BatchApplied(es, DecodeEntries(b, count))
  {
    r := es;
    var i := 0;
    while i < count
      invariant 0 <= i <= count
      invariant r == BatchApplied(es, DecodeEntries(b, i))
    {
      ApplyBatchStep(es, b, count, i);
      var entry := DecodeEntry(b[i * BATCH_ENTRY_SIZE..i * BATCH_ENTRY_SIZE + BATCH_ENTRY_SIZE]);
      if entry.networkId in r {
        r := r[entry.networkId := Moved(r[entry.networkId], entry.posX, entry.posY, entry.health)];
      }
      i := i + 1;
    }
  }

  /** Reading the next entry of the batch applies it after the ones before. */
  lemma ApplyBatchStep(es: map<u32, ClientEntity>, b: seq<u8>, count: nat, i: nat)
    requires BATCH_ENTRY_SIZE * count <= |b| && i < count
    ensures i * BATCH_ENTRY_SIZE + BATCH_ENTRY_SIZE <= |b|
    ensures BatchApplied(es, DecodeEntries(b, i + 1))
            == EntryApplied(BatchApplied(es, DecodeEntries(b, i)),
                            DecodeEntry(b[i * BATCH_ENTRY_SIZE..i * BATCH_ENTRY_SIZE + BATCH_ENTRY_SIZE]))
  {
    DecodeEntriesStep(b, count, i);
    BatchAppliedSnoc(es, DecodeEntries(b, i), DecodeEntry(b[i * BATCH_ENTRY_SIZE..i * BATCH_ENTRY_SIZE + BATCH_ENTRY_SIZE]));
  }

  lemma BatchAppliedSnoc(es: map<u32, ClientEntity>, xs: seq<BatchEntry<u32>>, e: BatchEntry<u32>)
    ensures BatchApplied(es, xs + [e]) == EntryApplied(BatchApplied(es, xs), e)
  {
    assert (xs + [e])[..|xs|] == xs;
  }
}
