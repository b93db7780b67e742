/** src/Server.cpp: the transport. TCP sessions carry the text protocol
    (CONNECT, DISCONNECT); UDP datagrams are matched to a session by their
    session token and dispatched by type.

    Sockets become logs: the lines queued on a session's TCP write queue
    (`tcpOut`, tagged with the client id), the datagrams sent (`udpOut`) and the
    calls into the game logic the server's subclass overrides (`calls`). A UDP
    endpoint is an opaque handle. The session token is drawn at random from
    [1, 0xFFFFFFFF]; the draw is a parameter. */
module Transport {
  import opened Wrappers
  import opened BoundedInts
  import opened Protocol
  import opened TextProtocol

  /** The TCP message types of include/Protocol.hpp. */
  const CONNECT: string := "CONNECT"
  const CONNECT_OK: string := "CONNECT_OK"
  const CONNECT_ERROR: string := "CONNECT_ERROR"
  const DISCONNECT_MSG: string := "DISCONNECT"
  const DISCONNECT_OK: string := "DISCONNECT_OK"
  const GAME_START: string := "GAME_START"
  const GAME_OVER: string := "GAME_OVER"
  const PLAYER_JOIN: string := "PLAYER_JOIN"
  const PLAYER_LEAVE: string := "PLAYER_LEAVE"

  const MAX_PLAYERS: nat := 4
  const MAX_USERNAME: nat := 16

  /** An asio UDP endpoint. */
  type Endpoint = nat

  /** ClientInfo; a default-constructed one has player 0, token 0, no name and
      no UDP endpoint yet. */
  datatype ClientInfo = ClientInfo(playerId: u8, sessionToken: u32, username: string,
                                   udpEndpoint: Endpoint, udpInitialized: bool)

  const DEFAULT_CLIENT_INFO: ClientInfo := ClientInfo(0, 0, "", 0, false)

  /** A Session of `_sessions`: its client id and its ClientInfo. */
  datatype SessionEntry = SessionEntry(clientId: nat, info: ClientInfo)

  /** The virtual hooks Server calls into the game. */
  datatype GameCall =
    | PlayerConnected(playerId: u8)
    | PlayerDisconnected(playerId: u8)
    | PlayerUdpReady(playerId: u8)
    | PlayerInputCall(playerId: u8, moveX: i8, moveY: i8, buttons: u8)

  predicate ValidUsername(u: string) {
    1 <= |u| <= MAX_USERNAME
  }

  /** A session holding a token went through an accepted CONNECT: its name
      passed validation and its player id is its client id cast to uint8_t. */
  predicate Consistent(clientId: nat, info: ClientInfo) {
    info.sessionToken != 0 ==> ValidUsername(info.username) && info.playerId == Trunc8(clientId)
  }

  /** The session list: client ids below the next one to hand out, in
      increasing order (so distinct), every session consistent. */
  ghost predicate SessionsValid(ss: seq<SessionEntry>, nextClientId: nat) {
    (forall s :: s in ss ==> 1 <= s.clientId < nextClientId && Consistent(s.clientId, s.info))
    && IdsIncreasing(ss)
  }

  ghost predicate IdsIncreasing(ss: seq<SessionEntry>) {
    forall i, j :: 0 <= i < j < |ss| ==> ss[i].clientId < ss[j].clientId
  }

  // ---------------------------------------------------------------- numbers as text

  predicate IsDigitChar(c: char) {
    ('0' <= c <= '9') || ('a' <= c <= 'f')
  }

  /** The lower-case digit for 0..15. */
  function DigitChar(d: nat): (c: char)
    requires d < 16
    ensures IsDigitChar(c)
  {
    if d < 10 then ('0' as int + d) as char else ('a' as int + d - 10) as char
  }

  function DigitValue(c: char): nat {
    if '0' <= c <= '9' then c as int - '0' as int
    else if 'a' <= c <= 'f' then c as int - 'a' as int + 10
    else if 'A' <= c <= 'F' then c as int - 'A' as int + 10
    else 0
  }

  /** n written in base 10 or 16 with lower-case digits, no leading zeros. */
  function Numeral(n: nat, base: nat): (s: string)
    requires base == 10 || base == 16
    ensures s != [] && forall i :: 0 <= i < |s| ==> IsDigitChar(s[i])
    decreases n
  {
    if n < base then [DigitChar(n)] else Numeral(n / base, base) + [DigitChar(n % base)]
  }

  /** The value of a digit string in a base. */
  function NumeralValue(s: string, base: nat): nat {
    if s == [] then 0 else NumeralValue(s[..|s| - 1], base) * base + DigitValue(s[|s| - 1])
  }

  lemma {:induction false} NumeralRoundTrip(n: nat, base: nat)
    requires base == 10 || base == 16
    ensures NumeralValue(Numeral(n, base), base) == n
    decreases n
  {
    var s := Numeral(n, base);
    if n < base {
      assert s[..0] == [];
    } else {
      NumeralRoundTrip(n / base, base);
      assert s[..|s| - 1] == Numeral(n / base, base);
    }
  }

  /** std::to_string of an integer. */
  function Decimal(n: int): string {
    if n < 0 then "-" + Numeral(-n, 10) else Numeral(n, 10)
  }

  /** A stream's std::hex output of an unsigned value. */
  function Hex(n: nat): string {
    Numeral(n, 16)
  }

  lemma DecimalIsWord(n: int)
    ensures Decimal(n) != [] && NoSpace(Decimal(n)) && '=' !in Decimal(n)
  {
  }

  // ---------------------------------------------------------------- the lines sent

  function ConnectErrorLine(reason: string): string {
    Rendered(Message(CONNECT_ERROR, Insert([], "reason", reason)))
  }

  function ConnectOkParams(playerId: u8, token: u32, udpPort: int): Params {
    Insert(Insert(Insert([], "id", Decimal(playerId)), "token", Hex(token)), "udp_port", Decimal(udpPort))
  }

  function ConnectOkLine(playerId: u8, token: u32, udpPort: int): string {
    Rendered(Message(CONNECT_OK, ConnectOkParams(playerId, token, udpPort)))
  }

  function JoinLine(playerId: u8, username: string): string {
    Rendered(Message(PLAYER_JOIN, Insert(Insert([], "id", Decimal(playerId)), "username", username)))
  }

  function LeaveLine(playerId: u8): string {
    Rendered(Message(PLAYER_LEAVE, Insert([], "id", Decimal(playerId))))
  }

  const DISCONNECT_OK_LINE: string := Rendered(Message(DISCONNECT_OK, []))

  /** The parameters of CONNECT_OK in map order. */
  lemma ConnectOkParamsInOrder(playerId: u8, token: u32, udpPort: int)
    ensures ConnectOkParams(playerId, token, udpPort)
            == [("id", Decimal(playerId)), ("token", Hex(token)), ("udp_port", Decimal(udpPort))]
  {
    var ps1: Params := Insert([], "id", Decimal(playerId));
    var ps2: Params := Insert(ps1, "token", Hex(token));
    InsertGreatest([], "id", Decimal(playerId));
    assert ps1 == [("id", Decimal(playerId))];
    assert Less("id", "token");
    InsertGreatest(ps1, "token", Hex(token));
    assert ps2 == [("id", Decimal(playerId)), ("token", Hex(token))];
    assert Less("id", "udp_port") && Less("token", "udp_port");
    InsertGreatest(ps2, "udp_port", Decimal(udpPort));
  }

  lemma ConnectOkRoundTrips(playerId: u8, token: u32, udpPort: int)
    ensures RoundTrips(Message(CONNECT_OK, ConnectOkParams(playerId, token, udpPort)))
  {
    ConnectOkParamsInOrder(playerId, token, udpPort);
    DecimalIsWord(playerId);
    DecimalIsWord(udpPort);
    assert NoSpace(Hex(token));
    ConnectOkWords();
  }

  /** The type and the keys of CONNECT_OK are single words without '='. */
  lemma ConnectOkWords()
    ensures NoSpace(CONNECT_OK) && NoSpace("id") && NoSpace("token") && NoSpace("udp_port")
    ensures '=' !in "id" && '=' !in "token" && '=' !in "udp_port"
  {
    assert NoSpace(CONNECT_OK);
  }

  /** A client parsing the CONNECT_OK line reads back the player id, the
      token (in hex) and the UDP port it was given. */
  lemma ConnectOkReadsBack(playerId: u8, token: u32, udpPort: int)
    ensures var m := Parsed(ConnectOkLine(playerId, token, udpPort));
            m.msgType == CONNECT_OK
            && Lookup(m.params, "id") == Some(Decimal(playerId))
            && Lookup(m.params, "udp_port") == Some(Decimal(udpPort))
            && Lookup(m.params, "token") == Some(Hex(token))
            && NumeralValue(Hex(token), 16) == token
  {
    ConnectOkRoundTrips(playerId, token, udpPort);
    SerializeParseRoundTrip(Message(CONNECT_OK, ConnectOkParams(playerId, token, udpPort)));
    ConnectOkParamsInOrder(playerId, token, udpPort);
    NumeralRoundTrip(token, 16);
  }

  // ---------------------------------------------------------------- session list

  /** broadcastMessage: the line queued for every session but the excluded
      one, in list order. */
  function Fanout(ss: seq<SessionEntry>, message: string, exclude: int): seq<(nat, string)> {
    if ss == [] then []
    else
      var n := |ss| - 1;
      Fanout(ss[..n], message, exclude) + (if ss[n].clientId != exclude then [(ss[n].clientId, message)] else [])
  }

  /** Some session of the list belongs to the client. */
  predicate HasClient(ss: seq<SessionEntry>, id: nat) {
    exists i :: 0 <= i < |ss| && ss[i].clientId == id
  }

  lemma HasClientSnoc(ss: seq<SessionEntry>, id: nat)
    requires ss != []
    ensures HasClient(ss, id) <==> HasClient(ss[..|ss| - 1], id) || ss[|ss| - 1].clientId == id
  {
    var n := |ss| - 1;
    if HasClient(ss, id) {
      var i :| 0 <= i < |ss| && ss[i].clientId == id;
      if i < n {
        assert ss[..n][i].clientId == id;
      }
    }
    if HasClient(ss[..n], id) {
      var i :| 0 <= i < n && ss[..n][i].clientId == id;
      assert ss[i].clientId == id;
    }
  }

  /** Every session but the excluded one gets the line, and nobody else
      does. */
  lemma {:induction false} FanoutReachesOthers(ss: seq<SessionEntry>, message: string, exclude: int, id: nat)
    ensures (id, message) in Fanout(ss, message, exclude) <==> id != exclude && HasClient(ss, id)
    ensures forall p :: p in Fanout(ss, message, exclude) ==> p.1 == message
  {
    if ss != [] {
      FanoutReachesOthers(ss[..|ss| - 1], message, exclude, id);
      HasClientSnoc(ss, id);
    }
  }

  /** The list remove_if leaves: the sessions with another client id, in order. */
  function WithoutClient(ss: seq<SessionEntry>, clientId: nat): (r: seq<SessionEntry>)
    ensures |r| <= |ss|
  {
    if ss == [] then []
    else
      var n := |ss| - 1;
      WithoutClient(ss[..n], clientId) + (if ss[n].clientId != clientId then [ss[n]] else [])
  }

  /** remove_if keeps exactly the sessions with another client id. */
  lemma {:induction false} WithoutClientMembers(ss: seq<SessionEntry>, clientId: nat)
    ensures forall x :: x in WithoutClient(ss, clientId) <==> x in ss && x.clientId != clientId
  {
    if ss != [] {
      var n := |ss| - 1;
      WithoutClientMembers(ss[..n], clientId);
      SnocSplit(ss);
    }
  }

  /** Removing a client keeps the client ids increasing. */
  lemma {:induction false} WithoutClientIncreasing(ss: seq<SessionEntry>, clientId: nat)
    requires IdsIncreasing(ss)
    ensures IdsIncreasing(WithoutClient(ss, clientId))
  {
    if ss != [] {
      var n := |ss| - 1;
      WithoutClientIncreasing(ss[..n], clientId);
      WithoutClientMembers(ss[..n], clientId);
      var front := WithoutClient(ss[..n], clientId);
      forall x | x in front
        ensures x.clientId < ss[n].clientId
      {
        var k :| 0 <= k < n && ss[..n][k] == x;
      }
      if ss[n].clientId != clientId {
        var r := front + [ss[n]];
        forall i, j | 0 <= i < j < |r|
          ensures r[i].clientId < r[j].clientId
        {
          if j == |front| {
            assert r[i] in front;
          } else {
            assert r[i] == front[i] && r[j] == front[j];
          }
        }
      }
    }
  }

  /** Removing a client keeps the list valid. */
  lemma WithoutClientValid(ss: seq<SessionEntry>, nextClientId: nat, clientId: nat)
    requires SessionsValid(ss, nextClientId)
    ensures SessionsValid(WithoutClient(ss, clientId), nextClientId)
  {
    WithoutClientIncreasing(ss, clientId);
    WithoutClientMembers(ss, clientId);
  }

  /** The session with that client id, given new ClientInfo. */
  function Updated(ss: seq<SessionEntry>, clientId: nat, info: ClientInfo): (r: seq<SessionEntry>)
    ensures |r| == |ss|
    ensures forall i :: 0 <= i < |ss| ==> r[i].clientId == ss[i].clientId
    ensures forall i :: 0 <= i < |ss| ==> r[i].info == if ss[i].clientId == clientId then info else ss[i].info
  {
    seq(|ss|, i requires 0 <= i < |ss| => if ss[i].clientId == clientId then ss[i].(info := info) else ss[i])
  }

  // ---------------------------------------------------------------- UDP triage

  /** The first session holding the token (the lookup loop of handleUDPPacket). */
  function TokenOwner(ss: seq<SessionEntry>, token: u32): (r: Option<nat>)
    ensures r.None? <==> forall i :: 0 <= i < |ss| ==> ss[i].info.sessionToken != token
    ensures r.Some? ==> r.value < |ss| && ss[r.value].info.sessionToken == token
                        && forall j :: 0 <= j < r.value ==> ss[j].info.sessionToken != token
  {
    if ss == [] then None
    else if ss[0].info.sessionToken == token then Some(0)
    else match TokenOwner(ss[1..], token)
      case None => None
      case Some(i) => Some(i + 1)
  }

  /** Two lists holding the same tokens in the same places have the same
      token owners. */
  lemma SameTokensSameOwner(ss: seq<SessionEntry>, ss': seq<SessionEntry>, token: u32)
    requires |ss| == |ss'|
    requires forall i :: 0 <= i < |ss| ==> ss[i].info.sessionToken == ss'[i].info.sessionToken
    ensures TokenOwner(ss, token) == TokenOwner(ss', token)
  {
  }

  /** What the server does with a datagram after matching its session. */
  datatype Dispatch =
    | ApplyInput(playerId: u8, moveX: i8, moveY: i8, buttons: u8)
    | Reply(pong: Header)
    | Ignore

  datatype UdpAction = Drop | Deliver(session: nat, bind: bool, dispatch: Dispatch)

  /** The switch on the header type. A PLAYER_INPUT counts only with an
      8-byte payload and acts for the session's player; a PING is answered
      with a PONG header carrying no payload and the same token. */
  function DispatchOf(playerId: u8, h: Header, data: seq<u8>): (d: Dispatch)
    requires |data| >= HEADER_SIZE && ValidatePacket(h, |data|)
    ensures d.ApplyInput? <==> h.msgType == PLAYER_INPUT && h.payloadSize == INPUT_SIZE
    ensures d.ApplyInput? ==> d.playerId == playerId
    ensures d.Reply? <==> h.msgType == PING
    ensures d.Reply? ==> d.pong == Header(PROTOCOL_MAGIC, PROTOCOL_VERSION, 0, PONG, h.sessionToken)
  {
    if h.msgType == PLAYER_INPUT then
      if h.payloadSize == INPUT_SIZE then
        var p := DecodeInput(data[HEADER_SIZE..HEADER_SIZE + INPUT_SIZE]);
        ApplyInput(playerId, p.moveX, p.moveY, p.buttons)
      else Ignore
    else if h.msgType == PING then Reply(HeaderFor(PONG, 0, h.sessionToken))
    else Ignore
  }

  /** The common tail of both triages: the token's session, whether this
      packet binds its endpoint, and the dispatch. */
  function Delivered(ss: seq<SessionEntry>, data: seq<u8>): UdpAction
    requires |data| >= HEADER_SIZE && ValidatePacket(DecodeHeader(data), |data|)
  {
    var h := DecodeHeader(data);
    match TokenOwner(ss, h.sessionToken)
    case None => Drop
    case Some(i) => Deliver(i, !ss[i].info.udpInitialized, DispatchOf(ss[i].info.playerId, h, data))
  }

  /** handleUDPPacket as written: the token lookup also matches a session
      that never completed CONNECT, whose token is still the default 0. */
  function TriageAsWritten(ss: seq<SessionEntry>, data: seq<u8>): (a: UdpAction)
    ensures a.Deliver? <==> |data| >= HEADER_SIZE && ValidatePacket(DecodeHeader(data), |data|)
                            && TokenOwner(ss, DecodeHeader(data).sessionToken).Some?
    ensures a.Deliver? ==> a.session < |ss| && ss[a.session].info.sessionToken == DecodeHeader(data).sessionToken
    ensures a.Deliver? ==> (a.bind <==> !ss[a.session].info.udpInitialized)
    ensures a.Deliver? && a.dispatch.ApplyInput? ==> a.dispatch.playerId == ss[a.session].info.playerId
  {
    if |data| < HEADER_SIZE then Drop
    else if !ValidatePacket(DecodeHeader(data), |data|) then Drop
    else Delivered(ss, data)
  }

  /** handleUDPPacket with the token-0 case dropped: tokens the server hands
      out are never 0, so only a session that went through CONNECT can be
      matched. A delivered packet acts for its session's player and binds the
      endpoint only on the session's first packet. */
  function Triage(ss: seq<SessionEntry>, data: seq<u8>): (a: UdpAction)
    ensures a.Deliver? <==> |data| >= HEADER_SIZE && ValidatePacket(DecodeHeader(data), |data|)
                            && DecodeHeader(data).sessionToken != 0
                            && TokenOwner(ss, DecodeHeader(data).sessionToken).Some?
    ensures a.Deliver? ==> a.session < |ss| && ss[a.session].info.sessionToken == DecodeHeader(data).sessionToken != 0
    ensures a.Deliver? ==> (a.bind <==> !ss[a.session].info.udpInitialized)
    ensures a.Deliver? && a.dispatch.ApplyInput? ==> a.dispatch.playerId == ss[a.session].info.playerId
  {
    if |data| < HEADER_SIZE then Drop
    else if !ValidatePacket(DecodeHeader(data), |data|) then Drop
    else if DecodeHeader(data).sessionToken == 0 then Drop
    else Delivered(ss, data)
  }

  /** The two triages differ only on packets carrying token 0. */
  lemma TriagesAgreeOffTokenZero(ss: seq<SessionEntry>, data: seq<u8>)
    requires |data| >= HEADER_SIZE ==> DecodeHeader(data).sessionToken != 0
    ensures Triage(ss, data) == TriageAsWritten(ss, data)
  {
  }

  /** A session that connected over TCP but never sent CONNECT answers a
      token-0 PING as written; the corrected triage drops it. */
  lemma TokenZeroReachesUnconnectedSession()
    ensures var ss := [SessionEntry(1, DEFAULT_CLIENT_INFO)];
            var data := EncodeHeader(HeaderFor(PING, 0, 0));
            TriageAsWritten(ss, data) == Deliver(0, true, Reply(HeaderFor(PONG, 0, 0)))
            && Triage(ss, data) == Drop
  {
    HeaderRoundTrip(HeaderFor(PING, 0, 0));
  }

  /** With a valid session list, a delivered packet belongs to a player that
      completed CONNECT. */
  lemma DeliveredToConnectedPlayer(ss: seq<SessionEntry>, nextClientId: nat, data: seq<u8>)
    requires SessionsValid(ss, nextClientId)
    requires Triage(ss, data).Deliver?
    ensures var s := ss[Triage(ss, data).session];
            ValidUsername(s.info.username) && s.info.playerId == Trunc8(s.clientId)
  {
  }

  /** The sessions after a triage: the first packet of a session records
      its endpoint and marks UDP as initialised. */
  function Bound(ss: seq<SessionEntry>, a: UdpAction, sender: Endpoint): seq<SessionEntry>
    requires a.Deliver? ==> a.session < |ss|
  {
    if a.Deliver? && a.bind then
      var s := ss[a.session];
      ss[a.session := s.(info := s.info.(udpEndpoint := sender, udpInitialized := true))]
    else ss
  }

  /** Binding an endpoint touches neither client ids, tokens, names nor
      player ids, so the session list stays valid. */
  lemma BoundKeepsValid(ss: seq<SessionEntry>, a: UdpAction, sender: Endpoint, n: nat)
    requires a.Deliver? ==> a.session < |ss|
    requires SessionsValid(ss, n)
    ensures SessionsValid(Bound(ss, a, sender), n)
  {
    var r := Bound(ss, a, sender);
    assert forall k :: 0 <= k < |r| ==>
      r[k].clientId == ss[k].clientId && r[k].info.sessionToken == ss[k].info.sessionToken
      && r[k].info.username == ss[k].info.username && r[k].info.playerId == ss[k].info.playerId;
    forall s | s in r ensures 1 <= s.clientId < n && Consistent(s.clientId, s.info) {
      var k :| 0 <= k < |r| && r[k] == s;
      assert ss[k] in ss;
    }
  }

  /** The hooks a triage calls: onPlayerUdpReady on the binding packet, then
      handlePlayerInput for an input. */
  function UdpCalls(ss: seq<SessionEntry>, a: UdpAction): seq<GameCall>
    requires a.Deliver? ==> a.session < |ss|
  {
    if a.Drop? then []
    else
      (if a.bind then [PlayerUdpReady(ss[a.session].info.playerId)] else [])
      + (match a.dispatch
         case ApplyInput(p, mx, my, b) => [PlayerInputCall(p, mx, my, b)]
         case _ => [])
  }

  function UdpReplies(a: UdpAction, sender: Endpoint): seq<(Header, Endpoint)> {
    if a.Deliver? && a.dispatch.Reply? then [(a.dispatch.pong, sender)] else []
  }

  /** The endpoint is bound once: after a session's packet is handled, a
      later packet with the same token reaches the same session and does
      not bind again. */
  lemma BindsOnce(ss: seq<SessionEntry>, first: seq<u8>, later: seq<u8>, sender: Endpoint)
    requires TriageAsWritten(ss, first).Deliver?
    requires |later| >= HEADER_SIZE && DecodeHeader(later).sessionToken == DecodeHeader(first).sessionToken
    ensures var a := TriageAsWritten(Bound(ss, TriageAsWritten(ss, first), sender), later);
            a.Deliver? ==> a.session == TriageAsWritten(ss, first).session && !a.bind
  {
    var ss' := Bound(ss, TriageAsWritten(ss, first), sender);
    SameTokensSameOwner(ss, ss', DecodeHeader(first).sessionToken);
  }

  /** The player id a client writes in an input payload plays no part: only
      the session's player is used. */
  lemma PayloadPlayerIdIgnored(ss: seq<SessionEntry>, data: seq<u8>, forged: u8)
    requires |data| == HEADER_SIZE + INPUT_SIZE
    ensures TriageAsWritten(ss, data[HEADER_SIZE + 4 := forged]) == TriageAsWritten(ss, data)
  {
    var data' := data[HEADER_SIZE + 4 := forged];
    assert data'[0..2] == data[0..2] && data'[5..9] == data[5..9];
    assert DecodeHeader(data') == DecodeHeader(data);
    var p, p' := data[HEADER_SIZE..HEADER_SIZE + INPUT_SIZE], data'[HEADER_SIZE..HEADER_SIZE + INPUT_SIZE];
    assert p'[5] == p[5] && p'[6] == p[6] && p'[7] == p[7];
  }

  // ---------------------------------------------------------------- TCP messages

  /** The server-side state one TCP message can change. */
  datatype Net = Net(sessions: seq<SessionEntry>, tcpOut: seq<(nat, string)>, calls: seq<GameCall>)

  datatype ConnectVerdict = ServerFull | InvalidUsername | Accepted(username: string)

  /** `params["username"]`, empty when absent. */
  function UsernameOf(params: Params): string {
    Lookup(params, "username").GetOr("")
  }

  /** CONNECT is refused while more than four sessions are open, then for a
      name that is empty or longer than 16, and accepted otherwise. */
  function ConnectDecision(count: nat, params: Params): (v: ConnectVerdict)
    ensures v == ServerFull <==> count > MAX_PLAYERS
    ensures v.Accepted? <==> count <= MAX_PLAYERS && ValidUsername(UsernameOf(params))
    ensures v.Accepted? ==> v.username == UsernameOf(params)
  {
    if count > MAX_PLAYERS then ServerFull
    else
      var u := UsernameOf(params);
      if |u| == 0 || |u| > MAX_USERNAME then InvalidUsername else Accepted(u)
  }

  /** The CONNECT branch of handleMessage. */
  function Connected(n: Net, clientId: nat, me: ClientInfo, params: Params, token: u32, udpPort: int): (Net, ClientInfo) {
    match ConnectDecision(|n.sessions|, params)
    case ServerFull => (n.(tcpOut := n.tcpOut + [(clientId, ConnectErrorLine("server_full"))]), me)
    case InvalidUsername => (n.(tcpOut := n.tcpOut + [(clientId, ConnectErrorLine("invalid_username"))]), me)
    case Accepted(u) =>
      var me' := ClientInfo(Trunc8(clientId), token, u, me.udpEndpoint, false);
      var ss := Updated(n.sessions, clientId, me');
      (Net(ss, n.tcpOut + [(clientId, ConnectOkLine(me'.playerId, token, udpPort))]
                        + Fanout(ss, JoinLine(me'.playerId, u), clientId),
           n.calls + [PlayerConnected(me'.playerId)]),
       me')
  }

  /** A session leaving (DISCONNECT or a failed read): the game and the other
      sessions are told when a player id was assigned, and the session is
      removed from the list. */
  function Departed(n: Net, clientId: nat, me: ClientInfo): Net {
    var told := if me.playerId != 0 then
                  Net(n.sessions, n.tcpOut + Fanout(n.sessions, LeaveLine(me.playerId), clientId),
                      n.calls + [PlayerDisconnected(me.playerId)])
                else n;
    told.(sessions := WithoutClient(told.sessions, clientId))
  }

  /** Session::handleMessage for the session clientId whose ClientInfo is me;
      token is the draw generateSessionToken would make. */
  function Handled(n: Net, clientId: nat, me: ClientInfo, line: string, token: u32, udpPort: int): (Net, ClientInfo) {
    var m := Parsed(line);
    if m.msgType == CONNECT then Connected(n, clientId, me, m.params, token, udpPort)
    else if m.msgType == DISCONNECT_MSG then
      (Departed(n.(tcpOut := n.tcpOut + [(clientId, DISCONNECT_OK_LINE)]), clientId, me), me)
    else (n, me)
  }

  /** handleMessage over successive lines, the k-th CONNECT drawing tokens[k]. */
  function HandledAll(n: Net, clientId: nat, me: ClientInfo, lines: seq<string>, tokens: seq<u32>, udpPort: int): (Net, ClientInfo)
    requires |tokens| >= |lines|
  {
    if lines == [] then (n, me)
    else
      var k := |lines| - 1;
      var (n', me') := HandledAll(n, clientId, me, lines[..k], tokens, udpPort);
      Handled(n', clientId, me', lines[k], tokens[k], udpPort)
  }

  /** handleMessage keeps the session list valid and the session consistent:
      an accepted CONNECT gives the session a non-zero token, the client id
      as player id and a valid name; any other outcome leaves its info as it was. */
  lemma HandledKeepsValid(n: Net, nextClientId: nat, clientId: nat, me: ClientInfo, line: string, token: u32, udpPort: int)
    requires SessionsValid(n.sessions, nextClientId) && Consistent(clientId, me) && token != 0
    ensures var (n', me') := Handled(n, clientId, me, line, token, udpPort);
            SessionsValid(n'.sessions, nextClientId) && Consistent(clientId, me')
            && (me' != me ==> me'.sessionToken == token && me'.playerId == Trunc8(clientId)
                              && ValidUsername(me'.username) && !me'.udpInitialized)
  {
    var m := Parsed(line);
    if m.msgType == CONNECT {
      var v := ConnectDecision(|n.sessions|, m.params);
      if v.Accepted? {
        var me' := ClientInfo(Trunc8(clientId), token, v.username, me.udpEndpoint, false);
        var ss := Updated(n.sessions, clientId, me');
        assert forall i :: 0 <= i < |ss| ==> Consistent(ss[i].clientId, ss[i].info);
      }
    } else if m.msgType == DISCONNECT_MSG {
      WithoutClientValid(n.sessions, nextClientId, clientId);
    }
  }

  /** me is the ClientInfo the session list holds for clientId (the Session
      object and the list share it), when the list holds one. */
  predicate HoldsInfo(ss: seq<SessionEntry>, clientId: nat, me: ClientInfo) {
    forall s :: s in ss && s.clientId == clientId ==> s.info == me
  }

  /** handleMessage keeps the session's ClientInfo and its entry in the
      session list the same. */
  lemma HandledKeepsInfo(n: Net, clientId: nat, me: ClientInfo, line: string, token: u32, udpPort: int)
    requires HoldsInfo(n.sessions, clientId, me)
    ensures var (n', me') := Handled(n, clientId, me, line, token, udpPort);
            HoldsInfo(n'.sessions, clientId, me')
  {
    var m := Parsed(line);
    if m.msgType == CONNECT {
      var v := ConnectDecision(|n.sessions|, m.params);
      if v.Accepted? {
        var me' := ClientInfo(Trunc8(clientId), token, v.username, me.udpEndpoint, false);
        var ss := Updated(n.sessions, clientId, me');
        forall s | s in ss && s.clientId == clientId
          ensures s.info == me'
        {
          var i :| 0 <= i < |ss| && ss[i] == s;
        }
      }
    } else if m.msgType == DISCONNECT_MSG {
      WithoutClientMembers(n.sessions, clientId);
    }
  }

  /** A DISCONNECT removes the session, and only a session that had been given
      a player id is announced as leaving. */
  lemma DisconnectRemovesSession(n: Net, clientId: nat, me: ClientInfo, line: string, token: u32, udpPort: int)
    requires Parsed(line).msgType == DISCONNECT_MSG
    ensures var (n', me') := Handled(n, clientId, me, line, token, udpPort);
            me' == me
            && (forall s :: s in n'.sessions <==> s in n.sessions && s.clientId != clientId)
            && n'.tcpOut[|n.tcpOut|] == (clientId, DISCONNECT_OK_LINE)
            && (n'.calls == if me.playerId != 0 then n.calls + [PlayerDisconnected(me.playerId)] else n.calls)
  {
    assert DISCONNECT_MSG != CONNECT;
    WithoutClientMembers(if me.playerId != 0 then n.sessions else n.sessions, clientId);
  }

  // ---------------------------------------------------------------- line framing

  /** std::string::find('\n'). */
  function FindNewline(s: string): (r: Option<nat>)
    ensures r.Some? ==> r.value < |s| && s[r.value] == '\n' && forall i :: 0 <= i < r.value ==> s[i] != '\n'
    ensures r.None? ==> forall i :: 0 <= i < |s| ==> s[i] != '\n'
  {
    if s == [] then None
    else if s[0] == '\n' then Some(0)
    else match FindNewline(s[1..])
      case None => None
      case Some(p) => Some(p + 1)
  }

  /** The lines doRead hands to handleMessage: every non-empty line ended by
      '\n', in order; bytes after the last '\n' are dropped. */
  function CompleteLines(s: string): (ls: seq<string>)
    ensures forall i :: 0 <= i < |ls| ==> ls[i] != [] && '\n' !in ls[i]
    decreases |s|
  {
    match FindNewline(s)
    case None => []
    case Some(p) => (if p == 0 then [] else [s[..p]]) + CompleteLines(s[p + 1..])
  }

  /** Lines each ended by '\n'. */
  function Framed(ls: seq<string>): string {
    if ls == [] then [] else ls[0] + "\n" + Framed(ls[1..])
  }

  /** Non-empty lines sent each with its '\n' come back one by one, in order,
      whatever unfinished text follows them. */
  lemma {:induction false} FramedLinesSplit(ls: seq<string>, tail: string)
    requires forall i :: 0 <= i < |ls| ==> ls[i] != [] && '\n' !in ls[i]
    requires '\n' !in tail
    ensures CompleteLines(Framed(ls) + tail) == ls
  {
    var s := Framed(ls) + tail;
    if ls == [] {
      assert FindNewline(s) == None;
    } else {
      var w := ls[0];
      var rest := Framed(ls[1..]) + tail;
      assert s == w + ("\n" + rest);
      var r := FindNewline(s);
      assert s[|w|] == '\n';
      assert forall i :: 0 <= i < |w| ==> s[i] == w[i] && w[i] != '\n';
      assert r == Some(|w|);
      assert s[..|w|] == w && s[|w| + 1..] == rest;
      FramedLinesSplit(ls[1..], tail);
    }
  }

  /** The loop of doRead: cut at each '\n' and hand on the non-empty lines. */
  method SplitLines(data: string) returns (lines: seq<string>)
    ensures lines == CompleteLines(data)
  {
    var received := data;
    lines := [];
    var pos := FindNewline(received);
    while pos.Some?
      invariant pos == FindNewline(received)
      invariant lines + CompleteLines(received) == CompleteLines(data)
      decreases |received|
    {
      var line := received[..pos.value];
      ghost var after := CompleteLines(received[pos.value + 1..]);
      assert CompleteLines(received) == (if line != [] then [line] else []) + after;
      if line != [] {
        AppendAssoc(lines, [line], after);
        lines := lines + [line];
      }
      received := received[pos.value + 1..];
      pos := FindNewline(received);
    }
  }

  // ---------------------------------------------------------------- loops over the session list

  /** The lookup loop of handleUDPPacket: the first session holding the token. */
  method FindSession(ss: seq<SessionEntry>, token: u32) returns (r: Option<nat>)
    ensures r == TokenOwner(ss, token)
  {
    var i := 0;
    while i < |ss|
      invariant 0 <= i <= |ss|
      invariant forall j :: 0 <= j < i ==> ss[j].info.sessionToken != token
    {
      if ss[i].info.sessionToken == token {
        return Some(i);
      }
      i := i + 1;
    }
    return None;
  }

  /** The decisions of handleUDPPacket, taken in its order: size, validation,
      session lookup (token 0 included, see TriageAsWritten), first-packet
      binding, then the switch on the type. */
  method TriagePacket(ss: seq<SessionEntry>, data: seq<u8>) returns (action: UdpAction)
    ensures action == TriageAsWritten(ss, data)
  {
    if |data| < HEADER_SIZE {
      return Drop;
    }
    var header := DecodeHeader(data);
    if !ValidatePacket(header, |data|) {
      return Drop;
    }
    var found := FindSession(ss, header.sessionToken);
    if found.None? {
      return Drop;
    }
    var i := found.value;
    var authenticatedPlayerId := ss[i].info.playerId;
    var dispatch := Ignore;
    if header.msgType == PLAYER_INPUT {
      if header.payloadSize == INPUT_SIZE {
        var payload := DecodeInput(data[HEADER_SIZE..HEADER_SIZE + INPUT_SIZE]);
        dispatch := ApplyInput(authenticatedPlayerId, payload.moveX, payload.moveY, payload.buttons);
      }
    } else if header.msgType == PING {
      dispatch := Reply(HeaderFor(PONG, 0, header.sessionToken));
    }
    action := Deliver(i, !ss[i].info.udpInitialized, dispatch);
  }

  /** The loop of broadcastMessage. */
  method FanoutLoop(ss: seq<SessionEntry>, message: string, exclude: int) returns (out: seq<(nat, string)>)
    ensures out == Fanout(ss, message, exclude)
  {
    out := [];
    var i := 0;
    while i < |ss|
      invariant 0 <= i <= |ss|
      invariant out == Fanout(ss[..i], message, exclude)
    {
      assert ss[..i + 1][..i] == ss[..i];
      if ss[i].clientId != exclude {
        out := out + [(ss[i].clientId, message)];
      }
      i := i + 1;
    }
    assert ss[..i] == ss;
  }

  /** The std::remove_if pass of removeSession. */
  method KeepOthers(ss: seq<SessionEntry>, clientId: nat) returns (kept: seq<SessionEntry>, removed: bool)
    ensures kept == WithoutClient(ss, clientId)
    ensures removed <==> HasClient(ss, clientId)
  {
    kept := [];
    removed := false;
    var i := 0;
    while i < |ss|
      invariant 0 <= i <= |ss|
      invariant kept == WithoutClient(ss[..i], clientId)
      invariant removed <==> exists j :: 0 <= j < i && ss[j].clientId == clientId
    {
      assert ss[..i + 1][..i] == ss[..i];
      if ss[i].clientId != clientId {
        kept := kept + [ss[i]];
      } else {
        removed := true;
      }
      i := i + 1;
    }
    assert ss[..i] == ss;
  }

  // ---------------------------------------------------------------- the server

  class Server {
    var sessions: seq<SessionEntry>
    var nextClientId: nat
    const udpPort: int
    var tcpOut: seq<(nat, string)>
    var udpOut: seq<(Header, Endpoint)>
    var calls: seq<GameCall>

    ghost predicate Valid()
      reads this
    {
      1 <= nextClientId && SessionsValid(sessions, nextClientId)
    }

    function NetState(): Net
      reads this
    {
      Net(sessions, tcpOut, calls)
    }

    /** A server on the given (short) UDP port: no sessions, client ids from 1. */
    constructor(udpPort: int)
      requires -32768 <= udpPort < 32768
      ensures Valid()
      ensures sessions == [] && nextClientId == 1 && this.udpPort == udpPort
      ensures tcpOut == [] && udpOut == [] && calls == []
    {
      this.udpPort := udpPort;
      sessions, nextClientId := [], 1;
      tcpOut, udpOut, calls := [], [], [];
    }

    /** doAccept: a new session with the next client id and a default ClientInfo. */
    method Accept() returns (clientId: nat)
      requires Valid()
      modifies this
      ensures Valid()
      ensures clientId == old(nextClientId) && nextClientId == clientId + 1
      ensures sessions == old(sessions) + [SessionEntry(clientId, DEFAULT_CLIENT_INFO)]
      ensures tcpOut == old(tcpOut) && udpOut == old(udpOut) && calls == old(calls)
    {
      clientId := nextClientId;
      sessions, nextClientId := sessions + [SessionEntry(clientId, DEFAULT_CLIENT_INFO)], nextClientId + 1;
    }

    /** handleUDPPacket: triage the datagram, then bind the endpoint on the
      session's first packet (telling the game the player's UDP is ready) and
      apply the input or answer the PING. */
    method HandleUdpPacket(data: seq<u8>, sender: Endpoint) returns (action: UdpAction)
      requires Valid()
      modifies this
      ensures Valid()
      ensures action == TriageAsWritten(old(sessions), data)
      ensures sessions == Bound(old(sessions), action, sender)
      ensures calls == old(calls) + UdpCalls(old(sessions), action)
      ensures udpOut == old(udpOut) + UdpReplies(action, sender)
      ensures tcpOut == old(tcpOut) && nextClientId == old(nextClientId)
    {
      action := TriagePacket(sessions, data);
      if action.Drop? {
        return;
      }
      BoundKeepsValid(sessions, action, sender, nextClientId);
      var i := action.session;
      var s := sessions[i];
      if action.bind {
        sessions := sessions[i := s.(info := s.info.(udpEndpoint := sender, udpInitialized := true))];
        calls := calls + [PlayerUdpReady(s.info.playerId)];
      }
      match action.dispatch {
        case ApplyInput(p, mx, my, b) =>
          calls := calls + [PlayerInputCall(p, mx, my, b)];
        case Reply(pong) =>
          udpOut := udpOut + [(pong, sender)];
        case Ignore =>
      }
    }

    /** broadcastMessage: queue the line on every session but the excluded one. */
    method BroadcastMessage(message: string, exclude: int)
      modifies this
      ensures tcpOut == old(tcpOut) + Fanout(sessions, message, exclude)
      ensures sessions == old(sessions) && nextClientId == old(nextClientId)
      ensures udpOut == old(udpOut) && calls == old(calls)
    {
      var out := FanoutLoop(sessions, message, exclude);
      tcpOut := tcpOut + out;
    }

    /** removeSession: drop every session with that client id, keeping the
      others in order; removed tells whether there was one. */
    method RemoveSession(clientId: nat) returns (removed: bool)
      modifies this
      ensures sessions == WithoutClient(old(sessions), clientId)
      ensures removed <==> exists i :: 0 <= i < |old(sessions)| && old(sessions)[i].clientId == clientId
      ensures tcpOut == old(tcpOut) && udpOut == old(udpOut) && calls == old(calls)
      ensures nextClientId == old(nextClientId)
    {
      var kept;
      kept, removed := KeepOthers(sessions, clientId);
      sessions := kept;
    }

    /** Session::handleMessage for session clientId, whose ClientInfo is me;
      token is the draw generateSessionToken makes for an accepted CONNECT. */
    method HandleMessage(clientId: nat, me: ClientInfo, line: string, token: u32) returns (me': ClientInfo)
      requires Valid() && Consistent(clientId, me) && token != 0
      requires HoldsInfo(sessions, clientId, me)
      modifies this
      ensures Valid() && Consistent(clientId, me') && HoldsInfo(sessions, clientId, me')
      ensures (NetState(), me') == Handled(old(NetState()), clientId, me, line, token, udpPort)
      ensures udpOut == old(udpOut) && nextClientId == old(nextClientId)
    {
      HandledKeepsValid(NetState(), nextClientId, clientId, me, line, token, udpPort);
      HandledKeepsInfo(NetState(), clientId, me, line, token, udpPort);
      var msg := Parse(line);
      me' := me;
      if msg.msgType == CONNECT {
        me' := Connect(clientId, me, msg.params, token);
      } else if msg.msgType == DISCONNECT_MSG {
        var bye := Serialize(Message(DISCONNECT_OK, []));
        tcpOut := tcpOut + [(clientId, bye)];
        Depart(clientId, me);
      }
    }

    /** The CONNECT branch of handleMessage. */
    method Connect(clientId: nat, me: ClientInfo, params: Params, token: u32) returns (me': ClientInfo)
      modifies this
      ensures (NetState(), me') == Connected(old(NetState()), clientId, me, params, token, udpPort)
      ensures udpOut == old(udpOut) && nextClientId == old(nextClientId)
    {
      me' := me;
      if |sessions| > MAX_PLAYERS {
        var text := Serialize(Message(CONNECT_ERROR, Insert([], "reason", "server_full")));
        tcpOut := tcpOut + [(clientId, text)];
        return;
      }
      var username := Lookup(params, "username").GetOr("");
      if |username| == 0 || |username| > MAX_USERNAME {
        var text := Serialize(Message(CONNECT_ERROR, Insert([], "reason", "invalid_username")));
        tcpOut := tcpOut + [(clientId, text)];
        return;
      }
      me' := ClientInfo(Trunc8(clientId), token, username, me.udpEndpoint, false);
      sessions := Updated(sessions, clientId, me');
      var ok := Serialize(Message(CONNECT_OK, ConnectOkParams(me'.playerId, token, udpPort)));
      tcpOut := tcpOut + [(clientId, ok)];
      calls := calls + [PlayerConnected(me'.playerId)];
      var join := Serialize(Message(PLAYER_JOIN, Insert(Insert([], "id", Decimal(me'.playerId)), "username", username)));
      BroadcastMessage(join, clientId);
    }

    /** The end of a session, after a DISCONNECT or a failed read. */
    method Depart(clientId: nat, me: ClientInfo)
      modifies this
      ensures NetState() == Departed(old(NetState()), clientId, me)
      ensures udpOut == old(udpOut) && nextClientId == old(nextClientId)
    {
      if me.playerId != 0 {
        calls := calls + [PlayerDisconnected(me.playerId)];
      }
      if me.playerId != 0 {
        var leave := Serialize(Message(PLAYER_LEAVE, Insert([], "id", Decimal(me.playerId))));
        BroadcastMessage(leave, clientId);
      }
      var removed := RemoveSession(clientId);
    }

    /** doRead's success branch: every complete line of the chunk goes to
      handleMessage in order; me is the session's ClientInfo, and tokens the
      draws for the CONNECTs among the lines. */
    method Receive(clientId: nat, me: ClientInfo, data: string, tokens: seq<u32>) returns (me': ClientInfo)
      requires Valid() && Consistent(clientId, me) && HoldsInfo(sessions, clientId, me)
      requires |tokens| >= |CompleteLines(data)| && forall k :: 0 <= k < |tokens| ==> tokens[k] != 0
      modifies this
      ensures Valid() && Consistent(clientId, me') && HoldsInfo(sessions, clientId, me')
      ensures (NetState(), me') == HandledAll(old(NetState()), clientId, me, CompleteLines(data), tokens, udpPort)
      ensures udpOut == old(udpOut) && nextClientId == old(nextClientId)
    {
      var lines := SplitLines(data);
      me' := me;
      var k := 0;
      while k < |lines|
        invariant 0 <= k <= |lines|
        invariant Valid() && Consistent(clientId, me') && HoldsInfo(sessions, clientId, me')
        invariant (NetState(), me') == HandledAll(old(NetState()), clientId, me, lines[..k], tokens, udpPort)
        invariant udpOut == old(udpOut) && nextClientId == old(nextClientId)
      {
        assert lines[..k + 1][..k] == lines[..k];
        me' := HandleMessage(clientId, me', lines[k], tokens[k]);
        k := k + 1;
      }
      assert lines[..k] == lines;
    }

    /** doRead's error branch: the connection is gone. */
    method ConnectionLost(clientId: nat, me: ClientInfo)
      requires Valid()
      modifies this
      ensures Valid()
      ensures NetState() == Departed(old(NetState()), clientId, me)
      ensures udpOut == old(udpOut) && nextClientId == old(nextClientId)
    {
      WithoutClientValid(sessions, nextClientId, clientId);
      Depart(clientId, me);
    }
  }
}
