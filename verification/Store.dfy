/** The in-memory store and the lobby operations that update its rooms and indexes in
    place. Every operation is proved to do to the store's abstract value exactly what the
    value-level model says. */
module Store {
  import opened Machine
  import opened ControlSum
  import opened Decimal
  import opened LobbyModel
  import opened Domain
  import StartedUsers

  /** A reference to a room is represented by the room's id, which is unique; `rooms` finds
      the object, including objects that are no longer listed. */
  class Store {
    var lastPlayerId: uint32
    var lastRoomId: uint32
    var players: map<PlayerId, Player>
    var rooms: map<RoomId, Room>
    var roomsById: set<RoomId>
    var roomsByPid: map<PlayerId, RoomId>
    var roomsBySum: map<uint32, RoomId>

    ghost var repr: set<Room>
    /** The rooms' contents. */
    ghost var recs: map<RoomId, RoomRec>

    ghost predicate RoomsMatch()
      reads this, repr
    {
      && recs.Keys == rooms.Keys
      && forall id :: id in rooms ==>
           rooms[id] in repr && rooms[id].id == id && 0 < id <= lastRoomId
           && rooms[id].KeyedById() && rooms[id].Rec() == recs[id]
    }

    ghost predicate Valid()
      reads this, repr
    {
      RoomsMatch() && Linked(Abs()) && forall p :: p in players ==> players[p].id == p
    }

    ghost function Abs(): Lobby
      reads this
    {
      Lobby(lastPlayerId, lastRoomId, players.Keys, recs, roomsById, roomsByPid, roomsBySum)
    }

    constructor ()
      ensures Valid() && Abs() == EMPTY.lobby
    {
      lastPlayerId, lastRoomId, players := 0, 0, map[];
      rooms, roomsById, roomsByPid, roomsBySum := map[], {}, map[], map[];
      repr, recs := {}, map[];
    }

    // ---- The changes to the room itself ----

    /** setPlayersColumn works on a copy of the row. */
    method SetColumn(row: Row, count: int, max: int) returns (out: Row)
      ensures out == SetPlayersColumn(row, count, max)
    {
      if |row| == 0 {
        return row;
      }
      var idx := |row| - 4;
      if idx < 0 {
        idx := |row| - 1;
      }
      out := row[idx := PlayersColumn(count, max)];
    }

    method DetachPlayer(r: Room, pid: PlayerId)
      requires r.KeyedById()
      modifies r
      ensures r.Rec() == LeaveRoom(old(r.Rec()), pid) && r.KeyedById()
    {
      r.playersCount := r.playersCount - 1;
      if !r.started {
        r.players := r.players - {pid};
        r.row := SetColumn(r.row, r.playersCount, r.maxPlayers);
      }
      r.ctlSum := Compute(r.row);
    }

    method AttachPlayer(r: Room, p: Player)
      requires r.KeyedById()
      modifies r
      ensures r.Rec() == JoinRoom(old(r.Rec()), p.id) && r.KeyedById()
    {
      r.players := r.players[p.id := p];
      r.playersCount := r.playersCount + 1;
      r.row := SetColumn(r.row, r.playersCount, r.maxPlayers);
      r.ctlSum := Compute(r.row);
    }

    /** The start marks, column by column. */
    method MarkRow(row: Row) returns (out: Row)
      ensures out == StartedRow(row)
    {
      out := row;
      if |out| > 1 {
        out := out[1 := STARTED_MARK];
      }
      if |out| > 0 && |out[|out| - 1]| > 0 {
        var last := out[|out| - 1][0 := 49];
        out := out[|out| - 1 := last];
      }
    }

    /** The part of a room and of its players that only start arguments change. */
    ghost function Users(r: Room): (map<PlayerId, Player?>, seq<Player>, StartedUsers.MarkMap)
      reads r, r.players.Values
    {
      (r.players, r.startedUsers, StartedUsers.MarksOf(r))
    }

    /** MarkStarted's edit of the room; the row is changed column by column. */
    method MarkRoom(r: Room)
      modifies r
      ensures r.Rec() == StartRoom(old(r.Rec()))
      ensures Users(r) == old(Users(r))
    {
      r.started := true;
      r.startPlayers := r.playersCount;
      r.row := MarkRow(r.row);
      r.ctlSum := Compute(r.row);
      assert StartedUsers.MarksOf(r) == old(StartedUsers.MarksOf(r));
    }

    /** DetachPlayer on a room of the store. */
    method Detach(id: RoomId, pid: PlayerId)
      requires RoomsMatch() && id in rooms
      modifies `recs, rooms[id]
      ensures RoomsMatch() && recs == old(recs)[id := LeaveRoom(old(recs)[id], pid)]
    {
      assert forall x :: x in rooms && x != id ==> rooms[x] != rooms[id];
      DetachPlayer(rooms[id], pid);
      recs := recs[id := LeaveRoom(recs[id], pid)];
    }

    method Attach(id: RoomId, p: Player)
      requires RoomsMatch() && id in rooms
      modifies `recs, rooms[id]
      ensures RoomsMatch() && recs == old(recs)[id := JoinRoom(old(recs)[id], p.id)]
    {
      AttachPlayer(rooms[id], p);
      recs := recs[id := JoinRoom(recs[id], p.id)];
    }

    method Mark(id: RoomId)
      requires RoomsMatch() && id in rooms
      modifies `recs, rooms[id]
      ensures RoomsMatch() && recs == old(recs)[id := StartRoom(old(recs)[id])]
      ensures Users(rooms[id]) == old(Users(rooms[id]))
    {
      MarkRoom(rooms[id]);
      recs := recs[id := StartRoom(recs[id])];
    }

    // ---- The lobby service ----

    method Refile(byId: set<RoomId>, byPid: map<PlayerId, RoomId>, bySum: map<uint32, RoomId>)
      requires RoomsMatch()
      modifies `roomsById, `roomsByPid, `roomsBySum
      ensures RoomsMatch() && roomsById == byId && roomsByPid == byPid && roomsBySum == bySum
    {
      roomsById, roomsByPid, roomsBySum := byId, byPid, bySum;
    }

    /** The body of Leave for a player who is in the room `id`. */
    method LeaveFrom(id: RoomId, pid: PlayerId) returns (deleted: bool)
      requires RoomsMatch() && id in rooms
      modifies `recs, `roomsById, `roomsByPid, `roomsBySum, rooms[id]
      ensures RoomsMatch() && recs == old(recs)[id := LeaveRoom(old(recs)[id], pid)]
      ensures deleted == DeletedByLeave(old(recs)[id], pid)
      ensures roomsByPid == old(roomsByPid) - {pid}
      ensures roomsById == if deleted then old(roomsById) - {id} else old(roomsById)
      ensures var bySum := old(roomsBySum) - {old(recs)[id].ctlSum};
        roomsBySum == if deleted then bySum - {recs[id].ctlSum} else bySum[recs[id].ctlSum := id]
    {
      var r := rooms[id];
      var byPid, bySum := roomsByPid - {pid}, roomsBySum - {r.ctlSum};
      Detach(id, pid);
      assert recs[id] == r.Rec();
      deleted := if r.started then r.playersCount <= 0 else r.hostId == pid || r.playersCount <= 0;
      Refile(if deleted then roomsById - {id} else roomsById, byPid,
             if deleted then bySum - {r.ctlSum} else bySum[r.ctlSum := id]);
    }

    method Leave(pid: PlayerId) returns (room: Option<RoomId>, deleted: bool)
      requires Valid()
      modifies `recs, `roomsById, `roomsByPid, `roomsBySum, repr
      ensures Valid() && Abs() == LobbyModel.Leave(old(Abs()), pid)
      ensures room == if pid in old(roomsByPid) then Some(old(roomsByPid[pid])) else None
      ensures deleted <==> room.Some? && DeletedByLeave(old(recs)[room.value], pid)
    {
      if pid !in roomsByPid {
        return None, false;
      }
      room := Some(roomsByPid[pid]);
      deleted := LeaveFrom(roomsByPid[pid], pid);
    }

    /** The body of Join for a registered player. */
    method JoinTo(id: RoomId, p: Player)
      requires RoomsMatch() && id in rooms
      modifies `recs, `roomsById, `roomsByPid, `roomsBySum, rooms[id]
      ensures RoomsMatch() && recs == old(recs)[id := JoinRoom(old(recs)[id], p.id)] && roomsById == old(roomsById)
      ensures roomsByPid == old(roomsByPid)[p.id := id]
      ensures roomsBySum == (old(roomsBySum) - {old(recs)[id].ctlSum})[recs[id].ctlSum := id]
    {
      var r := rooms[id];
      var bySum := roomsBySum - {r.ctlSum};
      Attach(id, p);
      assert recs[id] == r.Rec();
      Refile(roomsById, roomsByPid[p.id := id], bySum[r.ctlSum := id]);
    }

    /** Join; p is what GetPlayer returned, possibly nil. */
    method Join(id: RoomId, p: Player?, ghost pid: PlayerId)
      requires Valid() && id in rooms
      requires p == if pid in players then players[pid] else null
      modifies `recs, `roomsById, `roomsByPid, `roomsBySum, repr
      ensures Valid() && Abs() == LobbyModel.Join(old(Abs()), id, pid)
    {
      if p == null {
        return;
      }
      JoinTo(id, p);
      assert Abs() == LobbyModel.Join(old(Abs()), id, pid);
    }

    /** Build the row and the room object under the next id. */
    method NewRoomObject(host: Player?, params: RoomParams) returns (r: Room)
      requires lastRoomId + 1 < U32
      modifies `lastRoomId
      ensures lastRoomId == old(lastRoomId) + 1 && fresh(r) && r.id == lastRoomId && r.KeyedById()
      ensures r.hostId == (if host == null then 0 else host.id)
      ensures r.Rec() == NewRoom(r.id, r.hostId, params)
    {
      lastRoomId := Wrap32(lastRoomId + 1);
      var id := lastRoomId;
      var row := [Itoa(id), params.lockMark, params.title, params.nick];
      if params.isAC {
        row := row + [params.veType];
      }
      row := row + [
        params.levelLabel, PlayersColumn(1, params.maxPlayers), Itoa(params.ver), Itoa(params.hostAddrInt),
        [48] + HexUpper(0xFFFF_FFFF - id)];
      assert row == NewRow(id, params);
      var sum := Compute(row);
      r := new Room(id, host, params, row, sum);
    }

    method AddRoom(host: Player?, params: RoomParams) returns (r: Room)
      requires RoomsMatch() && lastRoomId + 1 < U32
      modifies `lastRoomId, `rooms, `repr, `recs
      ensures RoomsMatch() && fresh(repr - old(repr))
      ensures lastRoomId == old(lastRoomId) + 1 && r.id == lastRoomId
      ensures r.hostId == (if host == null then 0 else host.id)
      ensures var rec := NewRoom(r.id, r.hostId, params); recs == old(recs)[r.id := rec] && r.ctlSum == rec.ctlSum
    {
      r := NewRoomObject(host, params);
      assert r.Rec().ctlSum == r.ctlSum;
      rooms, repr, recs := rooms[r.id := r], repr + {r}, recs[r.id := NewRoom(r.id, r.hostId, params)];
    }

    /** Create the room and file it under its id, its host and its tag. */
    method AddAndFile(host: Player?, params: RoomParams) returns (id: RoomId)
      requires RoomsMatch() && lastRoomId + 1 < U32
      modifies `lastRoomId, `rooms, `repr, `recs, `roomsById, `roomsByPid, `roomsBySum
      ensures RoomsMatch() && fresh(repr - old(repr))
      ensures lastRoomId == old(lastRoomId) + 1 && id == lastRoomId && roomsById == old(roomsById) + {id}
      ensures var hostId := if host == null then 0 else host.id; var rec := NewRoom(id, hostId, params);
        && recs == old(recs)[id := rec] && roomsByPid == old(roomsByPid)[hostId := id]
        && roomsBySum == old(roomsBySum)[rec.ctlSum := id]
    {
      var r := AddRoom(host, params);
      id := r.id;
      Refile(roomsById + {id}, roomsByPid[r.hostId := id], roomsBySum[r.ctlSum := id]);
    }

    method RegisterNew(pid: PlayerId, params: RoomParams) returns (id: RoomId)
      requires Valid() && lastRoomId + 1 < U32
      modifies `lastRoomId, `rooms, `repr, `recs, `roomsById, `roomsByPid, `roomsBySum
      ensures Valid() && Abs() == LobbyModel.RegisterNew(old(Abs()), pid, params)
      ensures id == old(lastRoomId) + 1 && fresh(repr - old(repr))
    {
      var host: Player? := if pid in players then players[pid] else null;
      id := AddAndFile(host, params);
      assert Abs() == LobbyModel.RegisterNew(old(Abs()), pid, params);
    }

    /** The body of MarkStarted. */
    method MarkIn(id: RoomId)
      requires RoomsMatch() && id in rooms
      modifies `recs, `roomsById, `roomsByPid, `roomsBySum, rooms[id]
      ensures RoomsMatch() && recs == old(recs)[id := StartRoom(old(recs)[id])]
      ensures roomsById == old(roomsById) && roomsByPid == old(roomsByPid)
      ensures roomsBySum == (old(roomsBySum) - {old(recs)[id].ctlSum})[recs[id].ctlSum := id]
      ensures Users(rooms[id]) == old(Users(rooms[id]))
    {
      var r := rooms[id];
      var bySum := roomsBySum - {r.ctlSum};
      Mark(id);
      assert recs[id] == r.Rec();
      Refile(roomsById, roomsByPid, bySum[r.ctlSum := id]);
    }

    method MarkStarted(id: RoomId)
      requires Valid() && id in rooms
      modifies `recs, `roomsById, `roomsByPid, `roomsBySum, rooms[id]
      ensures Valid() && Abs() == LobbyModel.MarkStarted(old(Abs()), id)
      ensures Users(rooms[id]) == old(Users(rooms[id]))
    {
      MarkIn(id);
    }

    // ---- Request handlers ----

    method RegNewRoom(pid: PlayerId, nick: Bytes, req: RegRequest) returns (room: Option<RoomId>)
      requires Valid() && lastRoomId + 1 < U32
      modifies this, repr
      ensures Valid() && Abs() == LobbyModel.RegNewRoom(old(Abs()), pid, nick, req)
      ensures room.Some? <==> RegAccepted(pid, nick, req)
    {
      if !req.astate || pid == 0 || nick == [] || !req.titleOk {
        return None;
      }
      var _, _ := Leave(pid);
      var id := RegisterNew(pid, ParamsOf(req, nick));
      room := Some(id);
    }

    /** join_game; the room is looked up before the player leaves. */
    method JoinGame(pid: PlayerId, req: JoinRequest) returns (joined: bool)
      requires Valid()
      modifies `recs, `roomsById, `roomsByPid, `roomsBySum, repr
      ensures Valid() && Abs() == LobbyModel.JoinGame(old(Abs()), pid, req)
      ensures joined == JoinAccepted(old(Abs()), pid, req)
    {
      if !req.astate || pid == 0 || req.nickBlank || req.rid.None? || req.rid.value !in roomsById {
        return false;
      }
      var room := rooms[req.rid.value];
      assert room.Rec() == recs[req.rid.value];
      if room.started || room.playersCount >= room.maxPlayers {
        return false;
      }
      if room.password != [] && req.password != room.password {
        return false;
      }
      var _, _ := Leave(pid);
      Join(req.rid.value, if pid in players then players[pid] else null, pid);
      joined := true;
    }

    /** What the host's arguments leave on a room that had `users` and `marks`. */
    ghost predicate UsersSet(
      r: Room, args: seq<Bytes>, intArg: StartedUsers.IntArg, users: seq<Player>, marks: StartedUsers.MarkMap)
      reads r, r.players.Values
    {
      var entries := StartedUsers.Applicable(args, intArg, StartedUsers.Registered(r));
      && (if StartedUsers.CountOf(args, intArg) > 0 then StartedUsers.UsersAre(r, entries) else r.startedUsers == users)
      && StartedUsers.MarksAre(r, entries, marks)
    }

    method SetStartedUsers(r: Room, args: seq<Bytes>, intArg: StartedUsers.IntArg)
      requires RoomsMatch() && r.KeyedById()
      modifies r`startedUsers, r.players.Values
      ensures RoomsMatch() && UsersSet(r, args, intArg, old(r.startedUsers), old(StartedUsers.MarksOf(r)))
    {
      StartedUsers.ApplyStartedUsers(r, args, intArg);
    }

    /** The body of start for a player who is in the room `id`. */
    method StartIn(id: RoomId, pid: PlayerId, args: seq<Bytes>, intArg: StartedUsers.IntArg)
      requires Valid() && id in rooms
      modifies `recs, `roomsById, `roomsByPid, `roomsBySum, rooms[id], rooms[id].players.Values
      ensures Valid() && Abs() == LobbyModel.MarkStarted(old(Abs()), id)
      ensures rooms[id].hostId == pid ==>
        UsersSet(rooms[id], args, intArg, old(rooms[id].startedUsers), old(StartedUsers.MarksOf(rooms[id])))
      ensures rooms[id].hostId != pid ==> Users(rooms[id]) == old(Users(rooms[id]))
    {
      MarkStarted(id);
      if pid == rooms[id].hostId {
        SetStartedUsers(rooms[id], args, intArg);
      }
    }

    /** start: mark the caller's room; the host's arguments also set the started users. */
    method Start(pid: PlayerId, args: seq<Bytes>, intArg: StartedUsers.IntArg)
      requires Valid()
      modifies `recs, `roomsById, `roomsByPid, `roomsBySum, repr,
               if pid in roomsByPid then rooms[roomsByPid[pid]].players.Values else {}
      ensures Valid() && Abs() == LobbyModel.Start(old(Abs()), pid)
      ensures pid != 0 && pid in roomsByPid ==>
        && (rooms[roomsByPid[pid]].hostId == pid ==>
              UsersSet(rooms[roomsByPid[pid]], args, intArg, old(rooms[roomsByPid[pid]].startedUsers),
                       old(StartedUsers.MarksOf(rooms[roomsByPid[pid]]))))
        && (rooms[roomsByPid[pid]].hostId != pid ==>
              Users(rooms[roomsByPid[pid]]) == old(Users(rooms[roomsByPid[pid]])))
    {
      if pid == 0 || pid !in roomsByPid {
        return;
      }
      StartIn(roomsByPid[pid], pid, args, intArg);
    }

    method Upsert(id: PlayerId)
      requires Valid()
      modifies `players
      ensures Valid() && Abs() == old(Abs()).(players := old(players).Keys + {id})
    {
      var pl := new Player(id);
      players := players[id := pl];
    }

    method NextPlayerId() returns (id: PlayerId)
      requires Valid()
      modifies `lastPlayerId
      ensures Valid() && id == Wrap32(old(lastPlayerId) + 1) && Abs() == old(Abs()).(lastPlayer := id)
    {
      lastPlayerId := Wrap32(lastPlayerId + 1);
      id := lastPlayerId;
    }

    /** successEnter on the store: `known` is the session's player id, 0 if it has none. */
    method Enter(known: PlayerId) returns (id: PlayerId)
      requires Valid()
      modifies `recs, `roomsById, `roomsByPid, `roomsBySum, `lastPlayerId, `players, repr
      ensures Valid() && Abs() == EnterLobby(old(Abs()), known).0 && id == EnterLobby(old(Abs()), known).1
    {
      if known > 0 {
        id := known;
        var _, _ := Leave(id);
      } else {
        id := NextPlayerId();
      }
      Upsert(id);
    }

    method DeletePlayer(id: PlayerId)
      requires Valid()
      modifies `players
      ensures Valid() && Abs() == old(Abs()).(players := old(players).Keys - {id})
    {
      players := players - {id};
    }

    /** OnDisconnect for a connection with a player. */
    method Remove(pid: PlayerId)
      requires Valid()
      modifies `recs, `roomsById, `roomsByPid, `roomsBySum, `players, repr
      ensures Valid() && Abs() == RemovePlayer(old(Abs()), pid)
    {
      var _, _ := Leave(pid);
      DeletePlayer(pid);
    }
  }
}
