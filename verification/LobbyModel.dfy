/** The lobby as a value: every room ever registered (deleted ones included, because
    members may still point at them), the three indexes, and what each lobby operation
    and each client request does to them. */
module LobbyModel {
  import opened Machine
  import opened ControlSum
  import opened Decimal

  type PlayerId = uint32
  type RoomId = uint32

  datatype RoomRec = RoomRec(
    hostId: PlayerId,
    password: Bytes,
    maxPlayers: int,
    playersCount: int,
    players: set<PlayerId>,
    started: bool,
    startPlayers: int,
    row: Row,
    ctlSum: uint32)

  /** `rooms` holds every room object by its id; `live` is the by-id index, `byHost` the
      membership index, `bySum` the control-sum index. */
  datatype Lobby = Lobby(
    lastPlayer: uint32,
    lastRoom: uint32,
    players: set<PlayerId>,
    rooms: map<RoomId, RoomRec>,
    live: set<RoomId>,
    byHost: map<PlayerId, RoomId>,
    bySum: map<uint32, RoomId>)

  /** Every index entry refers to a room that was registered. */
  ghost predicate Linked(l: Lobby)
  {
    && l.live <= l.rooms.Keys
    && (forall p :: p in l.byHost ==> l.byHost[p] in l.rooms)
    && (forall k :: k in l.bySum ==> l.bySum[k] in l.rooms)
  }

  function PlayersColumn(count: int, max: int): Bytes { Itoa(count) + [47] + Itoa(max) }

  /** Fourth column from the end, or the last one of a shorter row. */
  function SetPlayersColumn(row: Row, count: int, max: int): (out: Row)
    ensures |out| == |row|
  {
    if row == [] then row
    else
      var idx := if |row| < 4 then |row| - 1 else |row| - 4;
      row[idx := PlayersColumn(count, max)]
  }

  // ---- Leave ----

  function LeaveRoom(r: RoomRec, p: PlayerId): (r': RoomRec)
  {
    var n := r.playersCount - 1;
    if r.started then
      r.(playersCount := n, ctlSum := RowSum(r.row))
    else
      var row := SetPlayersColumn(r.row, n, r.maxPlayers);
      r.(playersCount := n, players := r.players - {p}, row := row, ctlSum := RowSum(row))
  }

  predicate DeletedByLeave(r: RoomRec, p: PlayerId)
  {
    r.playersCount - 1 <= 0 || (!r.started && r.hostId == p)
  }

  function Leave(l: Lobby, p: PlayerId): (l': Lobby)
    requires Linked(l)
    ensures Linked(l')
  {
    if p !in l.byHost then l
    else
      var id := l.byHost[p];
      var r := l.rooms[id];
      var r' := LeaveRoom(r, p);
      var rooms := l.rooms[id := r'];
      var byHost := l.byHost - {p};
      var bySum := l.bySum - {r.ctlSum};
      if DeletedByLeave(r, p) then
        l.(rooms := rooms, byHost := byHost, live := l.live - {id}, bySum := bySum - {r'.ctlSum})
      else
        l.(rooms := rooms, byHost := byHost, bySum := bySum[r'.ctlSum := id])
  }

  // ---- Join ----

  function JoinRoom(r: RoomRec, p: PlayerId): (r': RoomRec)
  {
    var row := SetPlayersColumn(r.row, r.playersCount + 1, r.maxPlayers);
    r.(playersCount := r.playersCount + 1, players := r.players + {p}, row := row, ctlSum := RowSum(row))
  }

  /** A player who is not registered (a nil pointer in the source) is not admitted. */
  function Join(l: Lobby, id: RoomId, p: PlayerId): (l': Lobby)
    requires Linked(l) && id in l.rooms
    ensures Linked(l')
  {
    if p !in l.players then l
    else
      var r := l.rooms[id];
      var r' := JoinRoom(r, p);
      l.(rooms := l.rooms[id := r'],
         byHost := l.byHost[p := id],
         bySum := (l.bySum - {r.ctlSum})[r'.ctlSum := id])
  }

  // ---- RegisterNew ----

  datatype RoomParams = RoomParams(
    password: Bytes, maxPlayers: int, levelLabel: Bytes, lockMark: Bytes, title: Bytes,
    nick: Bytes, veType: Bytes, isAC: bool, ver: byte, hostAddrInt: uint32)

  function NewRow(id: RoomId, p: RoomParams): (row: Row)
    ensures |row| == if p.isAC then 10 else 9
  {
    [Itoa(id), p.lockMark, p.title, p.nick]
    + (if p.isAC then [p.veType] else [])
    + [p.levelLabel, PlayersColumn(1, p.maxPlayers), Itoa(p.ver), Itoa(p.hostAddrInt),
       [48] + HexUpper(0xFFFF_FFFF - id)]
  }

  function NewRoom(id: RoomId, host: PlayerId, p: RoomParams): RoomRec
  {
    var row := NewRow(id, p);
    RoomRec(host, p.password, p.maxPlayers, 1, {host}, false, 0, row, RowSum(row))
  }

  /** NextRoomID is a 32-bit counter; an unregistered host is recorded as player 0. */
  function RegisterNew(l: Lobby, pid: PlayerId, p: RoomParams): (l': Lobby)
    requires Linked(l)
    ensures Linked(l')
  {
    var id := Wrap32(l.lastRoom + 1);
    var host: PlayerId := if pid in l.players then pid else 0;
    var r := NewRoom(id, host, p);
    l.(lastRoom := id,
       rooms := l.rooms[id := r],
       live := l.live + {id},
       byHost := l.byHost[host := id],
       bySum := l.bySum[r.ctlSum := id])
  }

  // ---- MarkStarted ----

  /** "\x7f0018" */
  const STARTED_MARK: Bytes := [0x7F, 48, 48, 49, 56]

  function StartedRow(row: Row): (row': Row)
    ensures |row'| == |row|
  {
    var marked := if |row| > 1 then row[1 := STARTED_MARK] else row;
    if |marked| > 0 && |marked[|marked| - 1]| > 0 then
      marked[|marked| - 1 := marked[|marked| - 1][0 := 49]]
    else marked
  }

  function StartRoom(r: RoomRec): RoomRec
  {
    var row := StartedRow(r.row);
    r.(started := true, startPlayers := r.playersCount, row := row, ctlSum := RowSum(row))
  }

  function MarkStarted(l: Lobby, id: RoomId): (l': Lobby)
    requires Linked(l) && id in l.rooms
    ensures Linked(l')
  {
    var r := l.rooms[id];
    var r' := StartRoom(r);
    l.(rooms := l.rooms[id := r'], bySum := (l.bySum - {r.ctlSum})[r'.ctlSum := id])
  }

  // ---- Client requests ----

  datatype RegRequest = RegRequest(
    astate: bool, titleOk: bool, title: Bytes, maxPl: Option<int>, level: Option<int>,
    password: Bytes, veType: Bytes, ver: byte, hostAddrInt: uint32)

  datatype JoinRequest = JoinRequest(
    astate: bool, nickBlank: bool, rid: Option<RoomId>, password: Bytes)

  /** Go's 64-bit int addition. */
  function Wrap64(x: int): int
  {
    (x + 0x8000_0000_0000_0000) % 0x1_0000_0000_0000_0000 - 0x8000_0000_0000_0000
  }

  function LevelLabel(level: int): Bytes
  {
    match level
    case 1 => [69, 97, 115, 121]
    case 2 => [78, 111, 114, 109, 97, 108]
    case 3 => [72, 97, 114, 100]
    case _ => [70, 111, 114, 32, 97, 108, 108]
  }

  function ParamsOf(req: RegRequest, nick: Bytes): RoomParams
  {
    RoomParams(
      req.password,
      match req.maxPl case Some(v) => Wrap64(v + 2) case None => 8,
      LevelLabel(match req.level case Some(v) => v case None => 0),
      if req.password != [] then [35] else [],
      req.title, nick, req.veType,
      req.ver == 3 || req.ver == 8 || req.ver == 10,
      req.ver, req.hostAddrInt)
  }

  predicate RegAccepted(pid: PlayerId, nick: Bytes, req: RegRequest)
  {
    req.astate && pid != 0 && nick != [] && req.titleOk
  }

  /** reg_new_room: guards, then leave any room, then register. */
  function RegNewRoom(l: Lobby, pid: PlayerId, nick: Bytes, req: RegRequest): (l': Lobby)
    requires Linked(l)
    ensures Linked(l')
  {
    if RegAccepted(pid, nick, req) then RegisterNew(Leave(l, pid), pid, ParamsOf(req, nick)) else l
  }

  /** The guards of join_game on the target room. */
  predicate Admits(r: RoomRec, password: Bytes)
  {
    !r.started && r.playersCount < r.maxPlayers && (r.password == [] || password == r.password)
  }

  predicate JoinAccepted(l: Lobby, pid: PlayerId, req: JoinRequest)
    requires Linked(l)
  {
    && req.astate && pid != 0 && !req.nickBlank && req.rid.Some?
    && req.rid.value in l.live && Admits(l.rooms[req.rid.value], req.password)
  }

  /** join_game: the room is looked up before the player leaves, so it may be deleted
      by that very leave and is then joined all the same. */
  function JoinGame(l: Lobby, pid: PlayerId, req: JoinRequest): (l': Lobby)
    requires Linked(l)
    ensures Linked(l')
  {
    if JoinAccepted(l, pid, req) then Join(Leave(l, pid), req.rid.value, pid) else l
  }

  /** start: any member of a room may start it. */
  function Start(l: Lobby, pid: PlayerId): (l': Lobby)
    requires Linked(l)
    ensures Linked(l')
  {
    if pid == 0 || pid !in l.byHost then l else MarkStarted(l, l.byHost[pid])
  }

  function RemovePlayer(l: Lobby, pid: PlayerId): (l': Lobby)
    requires Linked(l)
    ensures Linked(l')
  {
    var l1 := Leave(l, pid);
    l1.(players := l1.players - {pid})
  }

  // ---- The server: the lobby and the sessions of the open connections ----

  type Conn = nat
  datatype Session = Session(playerId: PlayerId, nick: Bytes)
  datatype Server = Server(lobby: Lobby, sessions: map<Conn, Session>)

  const EMPTY := Server(Lobby(0, 0, {}, map[], {}, map[], map[]), map[])

  datatype Step =
    | EnterStep(conn: Conn, nick: Bytes)
    | RegStep(conn: Conn, reg: RegRequest)
    | JoinStep(conn: Conn, join: JoinRequest)
    | LeaveStep(conn: Conn)
    | StartStep(conn: Conn)
    | DisconnectStep(conn: Conn)
    | TimerStep(player: PlayerId)

  function PlayerOf(s: Server, c: Conn): PlayerId
  {
    if c in s.sessions then s.sessions[c].playerId else 0
  }

  function NickOf(s: Server, c: Conn): Bytes
  {
    if c in s.sessions then s.sessions[c].nick else []
  }

  /** try_enter's success path on the lobby: a re-entering player leaves the room and keeps
      the id, a new one is given the next id. */
  function EnterLobby(l: Lobby, known: PlayerId): (r: (Lobby, PlayerId))
    requires Linked(l)
    ensures Linked(r.0)
  {
    if known > 0 then
      var l1 := Leave(l, known);
      (l1.(players := l1.players + {known}), known)
    else
      var id := Wrap32(l.lastPlayer + 1);
      (l.(lastPlayer := id, players := l.players + {id}), id)
  }

  function Enter(s: Server, c: Conn, nick: Bytes): (s': Server)
    requires Linked(s.lobby)
    ensures Linked(s'.lobby)
  {
    var (l, id) := EnterLobby(s.lobby, PlayerOf(s, c));
    Server(l, s.sessions[c := Session(id, nick)])
  }

  function Disconnect(s: Server, c: Conn): (s': Server)
    requires Linked(s.lobby)
    ensures Linked(s'.lobby)
  {
    var pid := PlayerOf(s, c);
    Server(if pid == 0 then s.lobby else RemovePlayer(s.lobby, pid), s.sessions - {c})
  }

  function Next(s: Server, step: Step): (s': Server)
    requires Linked(s.lobby)
    ensures Linked(s'.lobby)
  {
    match step
    case EnterStep(c, nick) => Enter(s, c, nick)
    case RegStep(c, req) => s.(lobby := RegNewRoom(s.lobby, PlayerOf(s, c), NickOf(s, c), req))
    case JoinStep(c, req) => s.(lobby := JoinGame(s.lobby, PlayerOf(s, c), req))
    case LeaveStep(c) => if PlayerOf(s, c) == 0 then s else s.(lobby := Leave(s.lobby, PlayerOf(s, c)))
    case StartStep(c) => s.(lobby := Start(s.lobby, PlayerOf(s, c)))
    case DisconnectStep(c) => Disconnect(s, c)
    case TimerStep(p) => s.(lobby := Leave(s.lobby, p))
  }

  function Run(steps: seq<Step>): (s: Server)
    ensures Linked(s.lobby)
  {
    if steps == [] then EMPTY else Next(Run(steps[..|steps| - 1]), steps[|steps| - 1])
  }

  /** No 32-bit id counter is about to wrap around. */
  predicate IdsLeft(s: Server)
  {
    s.lobby.lastPlayer + 1 < U32 && s.lobby.lastRoom + 1 < U32
  }

  /** Id counters had room for one more id before every step of the run. */
  ghost predicate IdsSuffice(steps: seq<Step>)
  {
    forall i :: 0 <= i < |steps| ==> IdsLeft(Run(steps[..i]))
  }
}
