/** The binary UDP protocol of include/Protocol.hpp: constants, the 9-byte
    packet header, the packed payload structs and the receiver's header
    validation. Multi-byte fields travel little-endian (the byte order of the
    hosts the packed structs are copied from). Floats on the wire are carried
    as their 32-bit patterns: the payload types are generic in the float type F,
    which is `real` where the server builds a packet and a 32-bit word where
    bytes are encoded or decoded. */
module Protocol {
  import opened BoundedInts
  import opened Wrappers

  const PROTOCOL_MAGIC: u16 := 0xABCD
  const PROTOCOL_VERSION: u8 := 0x01

  // Message type codes of the header's type byte.
  const CONNECT_REQUEST: u8 := 0x01
  const CONNECT_RESPONSE: u8 := 0x02
  const DISCONNECT: u8 := 0x03
  const PLAYER_INPUT: u8 := 0x10
  const ENTITY_SPAWN: u8 := 0x20
  const ENTITY_UPDATE: u8 := 0x21
  const ENTITY_DESTROY: u8 := 0x22
  const ENTITY_BATCH_UPDATE: u8 := 0x23
  const PLAYER_SHOOT: u8 := 0x30
  const COLLISION: u8 := 0x31
  const SCORE_UPDATE: u8 := 0x32
  const PING: u8 := 0xF1
  const PONG: u8 := 0xF2

  // Button bits of PlayerInputPayload.buttons.
  const BTN_SHOOT: u8 := 0x01
  const BTN_SPECIAL: u8 := 0x02
  const BTN_UP: u8 := 0x04
  const BTN_DOWN: u8 := 0x08
  const BTN_LEFT: u8 := 0x10
  const BTN_RIGHT: u8 := 0x20

  // Sizes of the packed structs, in bytes.
  const HEADER_SIZE: nat := 9
  const INPUT_SIZE: nat := 8
  const SPAWN_SIZE: nat := 39
  const UPDATE_SIZE: nat := 21
  const DESTROY_SIZE: nat := 4
  const BATCH_ENTRY_SIZE: nat := 13
  const MAX_BATCH_ENTITIES: nat := 10
  const USERNAME_SIZE: nat := 16

  datatype EntityType = Player | Enemy | BulletPlayer | BulletEnemy | PowerUp | Obstacle

  function EntityTypeCode(t: EntityType): u8 {
    match t
    case Player => 0
    case Enemy => 1
    case BulletPlayer => 2
    case BulletEnemy => 3
    case PowerUp => 4
    case Obstacle => 5
  }

  function EntityTypeOf(code: u8): (r: Option<EntityType>)
    ensures r.Some? <==> code <= 5
    ensures r.Some? ==> EntityTypeCode(r.value) == code
  {
    if code == 0 then Some(Player)
    else if code == 1 then Some(Enemy)
    else if code == 2 then Some(BulletPlayer)
    else if code == 3 then Some(BulletEnemy)
    else if code == 4 then Some(PowerUp)
    else if code == 5 then Some(Obstacle)
    else None
  }

  lemma EntityTypeCodeRoundTrip(t: EntityType)
    ensures EntityTypeOf(EntityTypeCode(t)) == Some(t)
  {
  }

  // ---------------------------------------------------------------- bytes

  function U16Bytes(v: u16): (b: seq<u8>)
    ensures |b| == 2
  {
    [v % 256, v / 256]
  }

  function U16Of(b: seq<u8>): u16
    requires |b| == 2
  {
    b[0] as int + 256 * (b[1] as int)
  }

  function U32Bytes(v: u32): (b: seq<u8>)
    ensures |b| == 4
  {
    [v % 256, (v / 256) % 256, (v / 0x1_0000) % 256, v / 0x100_0000]
  }

  function U32Of(b: seq<u8>): u32
    requires |b| == 4
  {
    b[0] as int + 256 * (b[1] as int) + 0x1_0000 * (b[2] as int) + 0x100_0000 * (b[3] as int)
  }

  lemma U16RoundTrip(v: u16)
    ensures U16Of(U16Bytes(v)) == v
  {
  }

  lemma U16BytesRoundTrip(b: seq<u8>)
    requires |b| == 2
    ensures U16Bytes(U16Of(b)) == b
  {
  }

  lemma U32RoundTrip(v: u32)
    ensures U32Of(U32Bytes(v)) == v
  {
    var b0, b1, b2, b3 := v % 256, (v / 256) % 256, (v / 0x1_0000) % 256, v / 0x100_0000;
    assert v / 256 == b1 + 256 * (v / 0x1_0000);
    assert v / 0x1_0000 == b2 + 256 * b3;
  }

  lemma U32BytesRoundTrip(b: seq<u8>)
    requires |b| == 4
    ensures U32Bytes(U32Of(b)) == b
  {
    var v := U32Of(b);
    assert v / 256 == b[1] as int + 256 * (b[2] as int) + 0x1_0000 * (b[3] as int);
    assert v / 0x1_0000 == b[2] as int + 256 * (b[3] as int);
    assert v / 0x100_0000 == b[3];
  }

  /** int8_t travels as its two's-complement byte. */
  function I8Byte(v: i8): u8 {
    if v < 0 then v + 256 else v
  }

  function ByteI8(b: u8): i8 {
    if b >= 128 then b - 256 else b
  }

  lemma I8RoundTrip(v: i8)
    ensures ByteI8(I8Byte(v)) == v
  {
  }

  // ---------------------------------------------------------------- header

  datatype Header = Header(magic: u16, version: u8, payloadSize: u8, msgType: u8, sessionToken: u32)

  /** The header a default-constructed PacketHeader holds. */
  const DEFAULT_HEADER: Header := Header(PROTOCOL_MAGIC, PROTOCOL_VERSION, 0, 0, 0)

  /** A default header with its type, payload size and token filled in, the way
      every sender in the project builds one. */
  function HeaderFor(msgType: u8, payloadSize: u8, token: u32): Header {
    DEFAULT_HEADER.(msgType := msgType, payloadSize := payloadSize, sessionToken := token)
  }

  function EncodeHeader(h: Header): (b: seq<u8>)
    ensures |b| == HEADER_SIZE
  {
    U16Bytes(h.magic) + [h.version, h.payloadSize, h.msgType] + U32Bytes(h.sessionToken)
  }

  /** The header a receiver copies out of the first nine bytes of a datagram;
      those nine bytes are exactly the encoding of the header read. */
  function DecodeHeader(b: seq<u8>): (h: Header)
    requires |b| >= HEADER_SIZE
    ensures EncodeHeader(h) == b[..HEADER_SIZE]
  {
    U16BytesRoundTrip(b[0..2]);
    U32BytesRoundTrip(b[5..9]);
    assert b[..HEADER_SIZE] == b[0..2] + [b[2], b[3], b[4]] + b[5..9];
    Header(U16Of(b[0..2]), b[2], b[3], b[4], U32Of(b[5..9]))
  }

  lemma HeaderRoundTrip(h: Header)
    ensures DecodeHeader(EncodeHeader(h)) == h
  {
    var b := EncodeHeader(h);
    assert b[0..2] == U16Bytes(h.magic);
    assert b[5..9] == U32Bytes(h.sessionToken);
    U16RoundTrip(h.magic);
    U32RoundTrip(h.sessionToken);
  }

  /** Decoding reads the header from the first nine bytes whatever follows them. */
  lemma HeaderPrefix(h: Header, rest: seq<u8>)
    ensures DecodeHeader(EncodeHeader(h) + rest) == h
  {
    var b := EncodeHeader(h) + rest;
    assert b[..HEADER_SIZE] == EncodeHeader(h);
    assert b[0..2] == EncodeHeader(h)[0..2];
    assert b[5..9] == EncodeHeader(h)[5..9];
    HeaderRoundTrip(h);
  }

  /** validatePacket: at least a header, the right magic and version, and a
      received size of exactly header plus declared payload. A validated
      datagram is between 9 and 264 bytes and its payload is exactly the bytes
      after the header. */
  predicate ValidatePacket(h: Header, receivedSize: nat): (r: bool)
    ensures r ==> h.magic == PROTOCOL_MAGIC && h.version == PROTOCOL_VERSION
    ensures r ==> HEADER_SIZE <= receivedSize <= HEADER_SIZE + 255
    ensures r ==> receivedSize - HEADER_SIZE == h.payloadSize
  {
    receivedSize >= HEADER_SIZE
    && h.magic == PROTOCOL_MAGIC
    && h.version == PROTOCOL_VERSION
    && receivedSize == HEADER_SIZE + h.payloadSize
  }

  /** Whatever a sender frames with HeaderFor and a payload of the declared size
      passes the receiver's validation, and the receiver reads back the header
      that was sent. */
  lemma FramedPacketValidates(msgType: u8, token: u32, payload: seq<u8>)
    requires |payload| < 256
    ensures var bytes := EncodeHeader(HeaderFor(msgType, |payload|, token)) + payload;
            DecodeHeader(bytes) == HeaderFor(msgType, |payload|, token)
            && ValidatePacket(DecodeHeader(bytes), |bytes|)
  {
    HeaderPrefix(HeaderFor(msgType, |payload|, token), payload);
  }

  // ---------------------------------------------------------------- buttons

  /** `buttons & flag` is non-zero. */
  predicate Pressed(buttons: u8, flag: u8) {
    (buttons as bv8) & (flag as bv8) != 0
  }

  /** The six button flags are six distinct bits: a byte holding exactly one of
      them reports that one as pressed and no other. */
  lemma ButtonsAreDistinctBits()
    ensures forall f, g :: f in {BTN_SHOOT, BTN_SPECIAL, BTN_UP, BTN_DOWN, BTN_LEFT, BTN_RIGHT}
                        && g in {BTN_SHOOT, BTN_SPECIAL, BTN_UP, BTN_DOWN, BTN_LEFT, BTN_RIGHT}
                        ==> (Pressed(f, g) <==> f == g)
  {
  }

  // ---------------------------------------------------------------- payloads

  datatype InputPayload = InputPayload(timestamp: u32, playerId: u8, buttons: u8, moveX: i8, moveY: i8)

  function EncodeInput(p: InputPayload): (b: seq<u8>)
    ensures |b| == INPUT_SIZE
  {
    U32Bytes(p.timestamp) + [p.playerId, p.buttons, I8Byte(p.moveX), I8Byte(p.moveY)]
  }

  /** Every eight bytes are the encoding of the input they decode to. */
  function DecodeInput(b: seq<u8>): (p: InputPayload)
    requires |b| == INPUT_SIZE
    ensures EncodeInput(p) == b
  {
    U32BytesRoundTrip(b[0..4]);
    assert b == b[0..4] + [b[4], b[5], b[6], b[7]];
    InputPayload(U32Of(b[0..4]), b[4], b[5], ByteI8(b[6]), ByteI8(b[7]))
  }

  lemma InputRoundTrip(p: InputPayload)
    ensures DecodeInput(EncodeInput(p)) == p
  {
    var b := EncodeInput(p);
    assert b[0..4] == U32Bytes(p.timestamp);
    U32RoundTrip(p.timestamp);
  }

  type Name16 = s: seq<u8> | |s| == 16 witness seq(16, _ => 0)

  /** A username field with every byte zero (the server's memset). */
  const NO_NAME: Name16 := [0, 0, 0, 0, 0, 0, 0, 0, 0, 0, 0, 0, 0, 0, 0, 0]

  datatype SpawnPayload<F> = SpawnPayload(
    networkId: u32, entityType: u8, ownerPlayer: u8,
    posX: F, posY: F, velocityX: F, velocityY: F,
    health: u8, username: Name16)

  datatype UpdatePayload<F> = UpdatePayload(
    networkId: u32, posX: F, posY: F, velocityX: F, velocityY: F, health: u8)

  datatype DestroyPayload = DestroyPayload(networkId: u32)

  datatype BatchEntry<F> = BatchEntry(networkId: u32, posX: F, posY: F, health: u8)

  function EncodeSpawn(p: SpawnPayload<u32>): (b: seq<u8>)
    ensures |b| == SPAWN_SIZE
  {
    U32Bytes(p.networkId) + [p.entityType, p.ownerPlayer]
    + U32Bytes(p.posX) + U32Bytes(p.posY) + U32Bytes(p.velocityX) + U32Bytes(p.velocityY)
    + [p.health] + p.username
  }

  /** Every 39 bytes are the encoding of the spawn they decode to. */
  function DecodeSpawn(b: seq<u8>): (p: SpawnPayload<u32>)
    requires |b| == SPAWN_SIZE
    ensures EncodeSpawn(p) == b
  {
    U32BytesRoundTrip(b[0..4]);
    U32BytesRoundTrip(b[6..10]);
    U32BytesRoundTrip(b[10..14]);
    U32BytesRoundTrip(b[14..18]);
    U32BytesRoundTrip(b[18..22]);
    assert b == b[0..4] + [b[4], b[5]] + b[6..10] + b[10..14] + b[14..18] + b[18..22] + [b[22]] + b[23..39];
    SpawnPayload(U32Of(b[0..4]), b[4], b[5],
                 U32Of(b[6..10]), U32Of(b[10..14]), U32Of(b[14..18]), U32Of(b[18..22]),
                 b[22], b[23..39])
  }

  lemma SpawnRoundTrip(p: SpawnPayload<u32>)
    ensures DecodeSpawn(EncodeSpawn(p)) == p
  {
    var b := EncodeSpawn(p);
    assert b[0..4] == U32Bytes(p.networkId);
    assert b[6..10] == U32Bytes(p.posX);
    assert b[10..14] == U32Bytes(p.posY);
    assert b[14..18] == U32Bytes(p.velocityX);
    assert b[18..22] == U32Bytes(p.velocityY);
    assert b[23..39] == p.username;
    U32RoundTrip(p.networkId);
    U32RoundTrip(p.posX);
    U32RoundTrip(p.posY);
    U32RoundTrip(p.velocityX);
    U32RoundTrip(p.velocityY);
  }

  function EncodeUpdate(p: UpdatePayload<u32>): (b: seq<u8>)
    ensures |b| == UPDATE_SIZE
  {
    U32Bytes(p.networkId) + U32Bytes(p.posX) + U32Bytes(p.posY)
    + U32Bytes(p.velocityX) + U32Bytes(p.velocityY) + [p.health]
  }

  /** Every 21 bytes are the encoding of the update they decode to. */
  function DecodeUpdate(b: seq<u8>): (p: UpdatePayload<u32>)
    requires |b| == UPDATE_SIZE
    ensures EncodeUpdate(p) == b
  {
    U32BytesRoundTrip(b[0..4]);
    U32BytesRoundTrip(b[4..8]);
    U32BytesRoundTrip(b[8..12]);
    U32BytesRoundTrip(b[12..16]);
    U32BytesRoundTrip(b[16..20]);
    assert b == b[0..4] + b[4..8] + b[8..12] + b[12..16] + b[16..20] + [b[20]];
    UpdatePayload(U32Of(b[0..4]), U32Of(b[4..8]), U32Of(b[8..12]),
                  U32Of(b[12..16]), U32Of(b[16..20]), b[20])
  }

  lemma UpdateRoundTrip(p: UpdatePayload<u32>)
    ensures DecodeUpdate(EncodeUpdate(p)) == p
  {
    var b := EncodeUpdate(p);
    assert b[0..4] == U32Bytes(p.networkId);
    assert b[4..8] == U32Bytes(p.posX);
    assert b[8..12] == U32Bytes(p.posY);
    assert b[12..16] == U32Bytes(p.velocityX);
    assert b[16..20] == U32Bytes(p.velocityY);
    U32RoundTrip(p.networkId);
    U32RoundTrip(p.posX);
    U32RoundTrip(p.posY);
    U32RoundTrip(p.velocityX);
    U32RoundTrip(p.velocityY);
  }

  function EncodeDestroy(p: DestroyPayload): (b: seq<u8>)
    ensures |b| == DESTROY_SIZE
  {
    U32Bytes(p.networkId)
  }

  /** Every four bytes are the encoding of the destroy they decode to. */
  function DecodeDestroy(b: seq<u8>): (p: DestroyPayload)
    requires |b| == DESTROY_SIZE
    ensures EncodeDestroy(p) == b
  {
    U32BytesRoundTrip(b);
    DestroyPayload(U32Of(b))
  }

  lemma DestroyRoundTrip(p: DestroyPayload)
    ensures DecodeDestroy(EncodeDestroy(p)) == p
  {
    U32RoundTrip(p.networkId);
  }

  function EncodeEntry(e: BatchEntry<u32>): (b: seq<u8>)
    ensures |b| == BATCH_ENTRY_SIZE
  {
    U32Bytes(e.networkId) + U32Bytes(e.posX) + U32Bytes(e.posY) + [e.health]
  }

  /** Every 13 bytes are the encoding of the entry they decode to. */
  function DecodeEntry(b: seq<u8>): (e: BatchEntry<u32>)
    requires |b| == BATCH_ENTRY_SIZE
    ensures EncodeEntry(e) == b
  {
    U32BytesRoundTrip(b[0..4]);
    U32BytesRoundTrip(b[4..8]);
    U32BytesRoundTrip(b[8..12]);
    assert b == b[0..4] + b[4..8] + b[8..12] + [b[12]];
    BatchEntry(U32Of(b[0..4]), U32Of(b[4..8]), U32Of(b[8..12]), b[12])
  }

  lemma EntryRoundTrip(e: BatchEntry<u32>)
    ensures DecodeEntry(EncodeEntry(e)) == e
  {
    var b := EncodeEntry(e);
    assert b[0..4] == U32Bytes(e.networkId);
    assert b[4..8] == U32Bytes(e.posX);
    assert b[8..12] == U32Bytes(e.posY);
    U32RoundTrip(e.networkId);
    U32RoundTrip(e.posX);
    U32RoundTrip(e.posY);
  }

  /** The entries of a batch, back to back. */
  function EncodeEntries(es: seq<BatchEntry<u32>>): (b: seq<u8>)
    ensures |b| == BATCH_ENTRY_SIZE * |es|
  {
    if es == [] then [] else EncodeEntries(es[..|es| - 1]) + EncodeEntry(es[|es| - 1])
  }

  /** The count entries found back to back at the start of b: the first
      13 * count bytes are exactly their encoding. */
  function DecodeEntries(b: seq<u8>, count: nat): (es: seq<BatchEntry<u32>>)
    requires BATCH_ENTRY_SIZE * count <= |b|
    ensures |es| == count
    ensures EncodeEntries(es) == b[..BATCH_ENTRY_SIZE * count]
  {
    if count == 0 then []
    else
      var off := BATCH_ENTRY_SIZE * (count - 1);
      var front := DecodeEntries(b, count - 1);
      var es := front + [DecodeEntry(b[off..off + BATCH_ENTRY_SIZE])];
      assert es[..|es| - 1] == front;
      assert b[..off] + b[off..off + BATCH_ENTRY_SIZE] == b[..off + BATCH_ENTRY_SIZE];
      es
  }

  /** Reading one more entry appends the entry at the next 13-byte offset. */
  lemma DecodeEntriesStep(b: seq<u8>, count: nat, i: nat)
    requires BATCH_ENTRY_SIZE * count <= |b| && i < count
    ensures i * BATCH_ENTRY_SIZE + BATCH_ENTRY_SIZE <= |b|
    ensures DecodeEntries(b, i + 1)
            == DecodeEntries(b, i) + [DecodeEntry(b[i * BATCH_ENTRY_SIZE..i * BATCH_ENTRY_SIZE + BATCH_ENTRY_SIZE])]
  {
  }

  lemma {:induction false} EntriesRoundTrip(es: seq<BatchEntry<u32>>, rest: seq<u8>)
    ensures DecodeEntries(EncodeEntries(es) + rest, |es|) == es
  {
    if es != [] {
      var n := |es| - 1;
      var front, last := EncodeEntries(es[..n]), EncodeEntry(es[n]);
      var b := EncodeEntries(es) + rest;
      var off := BATCH_ENTRY_SIZE * n;
      assert b == front + (last + rest);
      EntriesRoundTrip(es[..n], last + rest);
      LastEntrySlice(front, last, rest, n);
      EntryRoundTrip(es[n]);
      assert DecodeEntries(b, |es|) == DecodeEntries(b, n) + [DecodeEntry(b[off..off + BATCH_ENTRY_SIZE])];
      assert DecodeEntries(b, n) == es[..n];
      SnocSplit(es);
    }
  }

  lemma LastEntrySlice(front: seq<u8>, last: seq<u8>, rest: seq<u8>, n: nat)
    requires |front| == BATCH_ENTRY_SIZE * n && |last| == BATCH_ENTRY_SIZE
    ensures (front + last + rest)[BATCH_ENTRY_SIZE * n..BATCH_ENTRY_SIZE * n + BATCH_ENTRY_SIZE] == last
  {
  }

  /** An ENTITY_BATCH_UPDATE payload: the count byte, then the entries. */
  function EncodeBatch(es: seq<BatchEntry<u32>>): (b: seq<u8>)
    requires |es| <= MAX_BATCH_ENTITIES
    ensures |b| == 1 + BATCH_ENTRY_SIZE * |es|
    ensures b[0] == |es|
  {
    [|es|] + EncodeEntries(es)
  }

  lemma BatchRoundTrip(es: seq<BatchEntry<u32>>)
    requires |es| <= MAX_BATCH_ENTITIES
    ensures var b := EncodeBatch(es); DecodeEntries(b[1..], b[0]) == es
  {
    var b := EncodeBatch(es);
    assert b[1..] == EncodeEntries(es) + [];
    EntriesRoundTrip(es, []);
  }

  // ---------------------------------------------------------------- packets

  datatype Payload<F> =
    | NoPayload
    | InputBody(input: InputPayload)
    | SpawnBody(spawn: SpawnPayload<F>)
    | UpdateBody(update: UpdatePayload<F>)
    | DestroyBody(destroy: DestroyPayload)
    | BatchBody(entries: seq<BatchEntry<F>>)

  /** A datagram as a sender builds it: a header and the payload that follows. */
  datatype Packet<F> = Packet(header: Header, payload: Payload<F>)

  function SpawnPacket<F>(p: SpawnPayload<F>): (pk: Packet<F>)
    ensures pk.header.payloadSize == SPAWN_SIZE
  {
    Packet(HeaderFor(ENTITY_SPAWN, SPAWN_SIZE, 0), SpawnBody(p))
  }

  function DestroyPacket<F>(networkId: u32): (pk: Packet<F>)
    ensures pk.header.payloadSize == DESTROY_SIZE
  {
    Packet(HeaderFor(ENTITY_DESTROY, DESTROY_SIZE, 0), DestroyBody(DestroyPayload(networkId)))
  }

  /** An ENTITY_BATCH_UPDATE packet: the header declares the count byte plus
      13 bytes per entry. */
  function BatchPacket<F>(entries: seq<BatchEntry<F>>, token: u32): (pk: Packet<F>)
    requires |entries| <= MAX_BATCH_ENTITIES
    ensures pk.header.payloadSize == 1 + BATCH_ENTRY_SIZE * |entries|
  {
    Packet(HeaderFor(ENTITY_BATCH_UPDATE, 1 + BATCH_ENTRY_SIZE * |entries|, token), BatchBody(entries))
  }

  /** The bytes of a packet whose floats are 32-bit words. */
  function EncodePayload(p: Payload<u32>): seq<u8>
    requires p.BatchBody? ==> |p.entries| <= MAX_BATCH_ENTITIES
  {
    match p
    case NoPayload => []
    case InputBody(i) => EncodeInput(i)
    case SpawnBody(s) => EncodeSpawn(s)
    case UpdateBody(u) => EncodeUpdate(u)
    case DestroyBody(d) => EncodeDestroy(d)
    case BatchBody(es) => EncodeBatch(es)
  }

  function EncodePacket(pk: Packet<u32>): seq<u8>
    requires pk.payload.BatchBody? ==> |pk.payload.entries| <= MAX_BATCH_ENTITIES
  {
    EncodeHeader(pk.header) + EncodePayload(pk.payload)
  }

  /** The packets the servers build declare the size of the payload they carry,
      so a receiver validates them. */
  lemma BuiltPacketsValidate(s: SpawnPayload<u32>, id: u32, es: seq<BatchEntry<u32>>, token: u32)
    requires |es| <= MAX_BATCH_ENTITIES
    ensures var b := EncodePacket(SpawnPacket(s)); ValidatePacket(DecodeHeader(b), |b|)
    ensures var b := EncodePacket(DestroyPacket(id)); ValidatePacket(DecodeHeader(b), |b|)
    ensures var b := EncodePacket(BatchPacket(es, token)); ValidatePacket(DecodeHeader(b), |b|)
  {
    FramedPacketValidates(ENTITY_SPAWN, 0, EncodeSpawn(s));
    FramedPacketValidates(ENTITY_DESTROY, 0, EncodeDestroy(DestroyPayload(id)));
    FramedPacketValidates(ENTITY_BATCH_UPDATE, token, EncodeBatch(es));
  }

  /** The guard a receiver needs before reading a batch: at most
      MAX_BATCH_ENTITIES entries, and the count byte and every entry inside
      the length bytes received. */
  predicate BatchFits(count: nat, length: nat) {
    count <= MAX_BATCH_ENTITIES && HEADER_SIZE + 1 + BATCH_ENTRY_SIZE * count <= length
  }

  /** Every batch a server builds passes that guard: the guard turns away no
      legitimate traffic. */
  lemma BuiltBatchesFit(es: seq<BatchEntry<u32>>, token: u32)
    requires |es| <= MAX_BATCH_ENTITIES
    ensures var b := EncodePacket(BatchPacket(es, token));
            |b| > HEADER_SIZE && b[HEADER_SIZE] == |es| && BatchFits(b[HEADER_SIZE], |b|)
  {
    var b := EncodePacket(BatchPacket(es, token));
    assert b[HEADER_SIZE] == EncodeBatch(es)[0];
  }

  /** The bytes of a server batch: header, count byte, entries. */
  lemma BatchBytes(entries: seq<BatchEntry<u32>>, token: u32)
    requires |entries| <= MAX_BATCH_ENTITIES
    ensures EncodePacket(BatchPacket(entries, token))
            == EncodeHeader(HeaderFor(ENTITY_BATCH_UPDATE, 1 + BATCH_ENTRY_SIZE * |entries|, token)) + EncodeBatch(entries)
  {
  }

  /** The bytes after a header: the byte that follows it, then the rest. */
  lemma SplitAfterHeader(hdr: seq<u8>, n: u8, enc: seq<u8>, rest: seq<u8>)
    requires |hdr| == HEADER_SIZE
    ensures var r := hdr + ([n] + enc) + rest;
            r[..HEADER_SIZE] == hdr && r[HEADER_SIZE] == n && r[HEADER_SIZE + 1..] == enc + rest
  {
  }

  /** A receiver reading a server batch finds the header that was sent, the
      entry count after it, and the entries themselves. */
  lemma BatchPacketReadsBack(entries: seq<BatchEntry<u32>>, token: u32)
    requires |entries| <= MAX_BATCH_ENTITIES
    ensures var d := EncodePacket(BatchPacket(entries, token));
            |d| == HEADER_SIZE + 1 + BATCH_ENTRY_SIZE * |entries|
            && DecodeHeader(d[..HEADER_SIZE]) == HeaderFor(ENTITY_BATCH_UPDATE, 1 + BATCH_ENTRY_SIZE * |entries|, token)
            && d[HEADER_SIZE] == |entries|
            && DecodeEntries(d[HEADER_SIZE + 1..], |entries|) == entries
  {
    var h := HeaderFor(ENTITY_BATCH_UPDATE, 1 + BATCH_ENTRY_SIZE * |entries|, token);
    BatchBytes(entries, token);
    var enc := EncodeEntries(entries);
    var count: u8 := |entries|;
    assert EncodeBatch(entries) == [count] + enc;
    var d: seq<u8> := EncodeHeader(h) + ([count] + enc);
    assert d == EncodeHeader(h) + ([count] + enc) + [];
    SplitAfterHeader(EncodeHeader(h), count, enc, []);
    HeaderRoundTrip(h);
    EntriesRoundTrip(entries, []);
    assert enc + [] == enc;
  }

  /** The last entry of a batch that names the id, if any. */
  function LastFor<F>(entries: seq<BatchEntry<F>>, id: u32): (r: Option<BatchEntry<F>>)
    ensures r.None? <==> forall i :: 0 <= i < |entries| ==> entries[i].networkId != id
    ensures r.Some? ==> r.value.networkId == id && r.value in entries
    ensures r.Some? ==>
              exists i :: 0 <= i < |entries| && entries[i] == r.value
                          && forall j :: i < j < |entries| ==> entries[j].networkId != id
  {
    if entries == [] then None
    else if entries[|entries| - 1].networkId == id then Some(entries[|entries| - 1])
    else
      assert forall i :: 0 <= i < |entries| - 1 ==> entries[..|entries| - 1][i] == entries[i];
      LastFor(entries[..|entries| - 1], id)
  }
}
