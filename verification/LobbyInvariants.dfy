/** What every run of client requests keeps true of every room, deleted or not. */
module LobbyInvariants {
  import opened Machine
  import opened ControlSum
  import opened LobbyModel

  /** The players whose by-host entry is the room. */
  function Members(byHost: map<PlayerId, RoomId>, id: RoomId): set<PlayerId>
  {
    set p | p in byHost && byHost[p] == id
  }

  /** What the lobby reads off a row: the players column of a waiting room, its lock mark
      and the leading digit of the last column; the start marks of a started one. */
  predicate RowShape(row: Row, started: bool, count: int, max: int)
  {
    && |row| in {9, 10}
    && |row[|row| - 1]| > 0
    && (!started ==> row[|row| - 4] == PlayersColumn(count, max) && row[1] in {[], [35]} && row[|row| - 1][0] == 48)
    && (started ==> row[1] == STARTED_MARK && row[|row| - 1][0] == 49)
  }

  predicate RowOk(r: RoomRec)
  {
    RowShape(r.row, r.started, r.playersCount, r.maxPlayers) && r.ctlSum == RowSum(r.row)
  }

  /** The count is the number of members, the players are exactly the members before the
      start and include them afterwards, the capacity is respected, and nobody joins after
      the start. */
  predicate RosterOk(r: RoomRec, members: set<PlayerId>)
  {
    && r.playersCount == |members|
    && members <= r.players
    && (!r.started ==> r.players == members)
    && (r.playersCount <= 1 || r.playersCount <= r.maxPlayers)
    && (r.started ==> r.playersCount <= r.startPlayers)
  }

  /** A listed room has a member, and its host until it starts. */
  predicate OccupiedOk(r: RoomRec, members: set<PlayerId>)
  {
    members != {} && (!r.started ==> r.hostId in members)
  }

  ghost predicate RoomsOk(l: Lobby)
  {
    forall id :: id in l.rooms ==>
      && 0 < id <= l.lastRoom
      && RowOk(l.rooms[id])
      && RosterOk(l.rooms[id], Members(l.byHost, id))
      && (id in l.live ==> OccupiedOk(l.rooms[id], Members(l.byHost, id)))
  }

  /** Every by-sum entry is filed under its room's current tag. */
  ghost predicate SumKeysOk(l: Lobby)
  {
    forall k :: k in l.bySum ==> l.bySum[k] in l.rooms && l.rooms[l.bySum[k]].ctlSum == k
  }

  ghost predicate LobbyInv(l: Lobby)
  {
    && Linked(l)
    && (forall p :: p in l.players ==> 0 < p <= l.lastPlayer)
    && l.byHost.Keys <= l.players
    && RoomsOk(l)
    && SumKeysOk(l)
  }

  /** Connections hold distinct, registered player ids, and every registered player is
      held by one. */
  ghost predicate SessionsOk(players: set<PlayerId>, sessions: map<Conn, Session>)
  {
    && (forall c :: c in sessions ==> sessions[c].playerId in players)
    && (forall c, d :: c in sessions && d in sessions && c != d ==> sessions[c].playerId != sessions[d].playerId)
    && (forall p :: p in players ==> exists c :: c in sessions && sessions[c].playerId == p)
  }

  ghost predicate Inv(s: Server)
  {
    LobbyInv(s.lobby) && SessionsOk(s.lobby.players, s.sessions)
  }

  // ---- Rows ----

  lemma ColumnShape(row: Row, was: int, count: int, max: int)
    requires RowShape(row, false, was, max)
    ensures RowShape(SetPlayersColumn(row, count, max), false, count, max)
  {
  }

  lemma ColumnSet(r: RoomRec, count: int)
    requires RowOk(r) && !r.started
    ensures var row := SetPlayersColumn(r.row, count, r.maxPlayers);
      RowOk(r.(playersCount := count, row := row, ctlSum := RowSum(row)))
  {
    ColumnShape(r.row, r.playersCount, count, r.maxPlayers);
  }

  lemma StartedShape(row: Row, started: bool, count: int, max: int)
    requires RowShape(row, started, count, max)
    ensures RowShape(StartedRow(row), true, count, max)
  {
  }

  lemma RowStarted(r: RoomRec)
    requires RowOk(r)
    ensures RowOk(StartRoom(r))
  {
    StartedShape(r.row, r.started, r.playersCount, r.maxPlayers);
  }

  lemma NewRoomOk(id: RoomId, host: PlayerId, p: RoomParams)
    requires p.lockMark in {[], [35]}
    ensures RowOk(NewRoom(id, host, p))
  {
  }

  // ---- Leave ----

  lemma MembersWithout(byHost: map<PlayerId, RoomId>, p: PlayerId, id: RoomId)
    ensures Members(byHost - {p}, id) == Members(byHost, id) - {p}
    ensures (p in byHost && byHost[p] == id) <==> p in Members(byHost, id)
  {
  }

  lemma MembersWith(byHost: map<PlayerId, RoomId>, p: PlayerId, to: RoomId, id: RoomId)
    requires p !in byHost
    ensures Members(byHost[p := to], id) == if id == to then Members(byHost, id) + {p} else Members(byHost, id)
    ensures p !in Members(byHost, id)
  {
  }

  lemma LeaveRoomOk(l: Lobby, p: PlayerId)
    requires LobbyInv(l) && p in l.byHost
    ensures var id := l.byHost[p]; var r' := LeaveRoom(l.rooms[id], p); var m' := Members(l.byHost - {p}, id);
      && RowOk(r') && RosterOk(r', m')
      && (id in l.live && !DeletedByLeave(l.rooms[id], p) ==> OccupiedOk(r', m'))
  {
    var id := l.byHost[p];
    var r := l.rooms[id];
    MembersWithout(l.byHost, p, id);
    if !r.started {
      ColumnSet(r, r.playersCount - 1);
    }
  }

  lemma LeaveKeepsRooms(l: Lobby, p: PlayerId)
    requires LobbyInv(l) && p in l.byHost
    ensures RoomsOk(Leave(l, p))
  {
    var id := l.byHost[p];
    var l' := Leave(l, p);
    LeaveRoomOk(l, p);
    forall x | x in l'.rooms
      ensures 0 < x <= l'.lastRoom && RowOk(l'.rooms[x]) && RosterOk(l'.rooms[x], Members(l'.byHost, x))
      ensures x in l'.live ==> OccupiedOk(l'.rooms[x], Members(l'.byHost, x))
    {
      MembersWithout(l.byHost, p, x);
      if x != id { assert Members(l'.byHost, x) == Members(l.byHost, x); }
    }
  }

  lemma LeaveFrame(l: Lobby, p: PlayerId)
    requires Linked(l)
    ensures var l' := Leave(l, p);
      && l'.players == l.players && l'.lastPlayer == l.lastPlayer && l'.lastRoom == l.lastRoom
      && l'.rooms.Keys == l.rooms.Keys && l'.live <= l.live
      && p !in l'.byHost && l'.byHost.Keys <= l.byHost.Keys
  {
  }

  lemma LeaveKeepsSumKeys(l: Lobby, p: PlayerId)
    requires Linked(l) && SumKeysOk(l)
    ensures SumKeysOk(Leave(l, p))
  {
    if p in l.byHost {
      var l', id := Leave(l, p), l.byHost[p];
      forall k | k in l'.bySum
        ensures l'.rooms[l'.bySum[k]].ctlSum == k
      {
        if k in l.bySum && l'.bySum[k] == l.bySum[k] && l.bySum[k] == id {
          assert k == l.rooms[id].ctlSum;
        }
      }
    }
  }

  lemma LeaveKeepsInv(l: Lobby, p: PlayerId)
    requires LobbyInv(l)
    ensures LobbyInv(Leave(l, p))
  {
    LeaveFrame(l, p);
    LeaveKeepsSumKeys(l, p);
    if p in l.byHost {
      LeaveKeepsRooms(l, p);
    } else {
      assert Leave(l, p) == l;
    }
  }

  // ---- Join ----

  lemma JoinRoomOk(l: Lobby, id: RoomId, p: PlayerId)
    requires LobbyInv(l) && id in l.rooms && p in l.players && p !in l.byHost
    requires !l.rooms[id].started && l.rooms[id].playersCount < l.rooms[id].maxPlayers
    ensures var r' := JoinRoom(l.rooms[id], p); var m' := Members(l.byHost[p := id], id);
      RowOk(r') && RosterOk(r', m') && (id in l.live ==> OccupiedOk(r', m'))
  {
    ColumnSet(l.rooms[id], l.rooms[id].playersCount + 1);
    MembersWith(l.byHost, p, id, id);
  }

  lemma JoinKeepsRooms(l: Lobby, id: RoomId, p: PlayerId)
    requires LobbyInv(l) && id in l.rooms && p in l.players && p !in l.byHost
    requires !l.rooms[id].started && l.rooms[id].playersCount < l.rooms[id].maxPlayers
    ensures RoomsOk(Join(l, id, p))
  {
    var l' := Join(l, id, p);
    JoinRoomOk(l, id, p);
    forall x | x in l'.rooms
      ensures 0 < x <= l'.lastRoom && RowOk(l'.rooms[x]) && RosterOk(l'.rooms[x], Members(l'.byHost, x))
      ensures x in l'.live ==> OccupiedOk(l'.rooms[x], Members(l'.byHost, x))
    {
      MembersWith(l.byHost, p, id, x);
    }
  }

  lemma RefiledSumKeys(l: Lobby, id: RoomId, r': RoomRec, l': Lobby)
    requires Linked(l) && SumKeysOk(l) && id in l.rooms && l'.rooms == l.rooms[id := r']
    requires l'.bySum == (l.bySum - {l.rooms[id].ctlSum})[r'.ctlSum := id]
    ensures SumKeysOk(l')
  {
  }

  lemma JoinKeepsInv(l: Lobby, id: RoomId, p: PlayerId)
    requires LobbyInv(l) && id in l.rooms && p !in l.byHost
    requires !l.rooms[id].started && l.rooms[id].playersCount < l.rooms[id].maxPlayers
    ensures LobbyInv(Join(l, id, p))
  {
    if p in l.players {
      JoinKeepsRooms(l, id, p);
      RefiledSumKeys(l, id, JoinRoom(l.rooms[id], p), Join(l, id, p));
    }
  }

  /** join_game checks the room before the leave; its count cannot grow in between. */
  lemma LeaveKeepsAdmission(l: Lobby, p: PlayerId, id: RoomId)
    requires Linked(l) && id in l.rooms
    requires !l.rooms[id].started && l.rooms[id].playersCount < l.rooms[id].maxPlayers
    ensures id in Leave(l, p).rooms
    ensures var r' := Leave(l, p).rooms[id]; !r'.started && r'.playersCount < r'.maxPlayers
  {
  }

  lemma JoinGameKeepsInv(l: Lobby, p: PlayerId, req: JoinRequest)
    requires LobbyInv(l)
    ensures LobbyInv(JoinGame(l, p, req))
  {
    if JoinAccepted(l, p, req) {
      LeaveKeepsInv(l, p);
      LeaveFrame(l, p);
      LeaveKeepsAdmission(l, p, req.rid.value);
      JoinKeepsInv(Leave(l, p), req.rid.value, p);
    }
  }

  // ---- Register and start ----

  lemma RegisterKeepsInv(l: Lobby, p: PlayerId, params: RoomParams)
    requires LobbyInv(l) && p in l.players && p !in l.byHost
    requires l.lastRoom + 1 < U32 && params.lockMark in {[], [35]}
    ensures LobbyInv(RegisterNew(l, p, params))
  {
    var id := l.lastRoom + 1;
    NewRoomOk(id, p, params);
    FilingKeepsInv(l, p, id, NewRoom(id, p, params), RegisterNew(l, p, params));
  }

  /** A new room with its host as the one member, filed under the next id. */
  lemma FilingKeepsInv(l: Lobby, p: PlayerId, id: uint32, r: RoomRec, l': Lobby)
    requires LobbyInv(l) && p in l.players && p !in l.byHost && id == l.lastRoom + 1
    requires RowOk(r) && r.playersCount == 1 && r.players == {p} && r.hostId == p && !r.started
    requires l' == l.(lastRoom := id, rooms := l.rooms[id := r], live := l.live + {id}, byHost := l.byHost[p := id],
                      bySum := l.bySum[r.ctlSum := id])
    ensures LobbyInv(l')
  {
    FilingKeepsRooms(l, p, id, r, l');
    FiledSumKeys(l, id, r, l');
  }

  lemma FiledSumKeys(l: Lobby, id: RoomId, r: RoomRec, l': Lobby)
    requires Linked(l) && SumKeysOk(l) && id !in l.rooms
    requires l'.rooms == l.rooms[id := r] && l'.bySum == l.bySum[r.ctlSum := id]
    ensures SumKeysOk(l')
  {
  }

  lemma FilingKeepsRooms(l: Lobby, p: PlayerId, id: uint32, r: RoomRec, l': Lobby)
    requires LobbyInv(l) && p in l.players && p !in l.byHost && id == l.lastRoom + 1
    requires RowOk(r) && r.playersCount == 1 && r.players == {p} && r.hostId == p && !r.started
    requires l'.lastRoom == id && l'.rooms == l.rooms[id := r] && l'.live == l.live + {id}
    requires l'.byHost == l.byHost[p := id]
    ensures RoomsOk(l')
  {
    assert Members(l.byHost, id) == {};
    forall x | x in l'.rooms
      ensures 0 < x <= l'.lastRoom && RowOk(l'.rooms[x]) && RosterOk(l'.rooms[x], Members(l'.byHost, x))
      ensures x in l'.live ==> OccupiedOk(l'.rooms[x], Members(l'.byHost, x))
    {
      MembersWith(l.byHost, p, id, x);
      if x == id { assert Members(l'.byHost, x) == {p}; }
    }
  }

  lemma RegNewRoomKeepsInv(l: Lobby, p: PlayerId, nick: Bytes, req: RegRequest)
    requires LobbyInv(l) && (p == 0 || p in l.players) && l.lastRoom + 1 < U32
    ensures LobbyInv(RegNewRoom(l, p, nick, req))
  {
    LeaveKeepsInv(l, p);
    LeaveFrame(l, p);
    if RegAccepted(p, nick, req) { RegisterKeepsInv(Leave(l, p), p, ParamsOf(req, nick)); }
  }

  lemma MarkStartedKeepsInv(l: Lobby, id: RoomId)
    requires LobbyInv(l) && id in l.rooms
    ensures LobbyInv(MarkStarted(l, id))
  {
    RowStarted(l.rooms[id]);
    RefiledSumKeys(l, id, StartRoom(l.rooms[id]), MarkStarted(l, id));
    assert RosterOk(StartRoom(l.rooms[id]), Members(l.byHost, id));
  }

  // ---- Whole runs ----

  lemma AddPlayerKeepsInv(l: Lobby, p: PlayerId, last: uint32)
    requires LobbyInv(l) && l.lastPlayer <= last && 0 < p <= last
    ensures LobbyInv(l.(lastPlayer := last, players := l.players + {p}))
  {
  }

  lemma SessionAdded(players: set<PlayerId>, sessions: map<Conn, Session>, c: Conn, v: Session)
    requires SessionsOk(players, sessions)
    requires if c in sessions then v.playerId == sessions[c].playerId else v.playerId !in players
    ensures SessionsOk(players + {v.playerId}, sessions[c := v])
  {
    var sessions' := sessions[c := v];
    forall p | p in players + {v.playerId}
      ensures exists d :: d in sessions' && sessions'[d].playerId == p
    {
      if p == v.playerId {
        assert c in sessions' && sessions'[c].playerId == p;
      } else {
        var d :| d in sessions && sessions[d].playerId == p;
        assert d in sessions' && sessions'[d].playerId == p;
      }
    }
  }

  lemma SessionRemoved(players: set<PlayerId>, sessions: map<Conn, Session>, c: Conn)
    requires SessionsOk(players, sessions) && c in sessions
    ensures SessionsOk(players - {sessions[c].playerId}, sessions - {c})
  {
    forall p | p in players - {sessions[c].playerId}
      ensures exists d :: d in sessions - {c} && (sessions - {c})[d].playerId == p
    {
      var d :| d in sessions && sessions[d].playerId == p;
      assert d in sessions - {c};
    }
  }

  lemma EnterLobbyKeepsInv(l: Lobby, known: PlayerId)
    requires LobbyInv(l) && (known == 0 || known in l.players) && l.lastPlayer + 1 < U32
    ensures var (l', id) := EnterLobby(l, known);
      LobbyInv(l') && l'.players == l.players + {id} && (if known == 0 then id !in l.players else id == known)
  {
    if known == 0 {
      AddPlayerKeepsInv(l, l.lastPlayer + 1, l.lastPlayer + 1);
    } else {
      LeaveKeepsInv(l, known);
      LeaveFrame(l, known);
      AddPlayerKeepsInv(Leave(l, known), known, l.lastPlayer);
    }
  }

  lemma EnterKeepsInv(s: Server, c: Conn, nick: Bytes)
    requires Inv(s) && s.lobby.lastPlayer + 1 < U32
    ensures Inv(Enter(s, c, nick))
  {
    var known := PlayerOf(s, c);
    EnterLobbyKeepsInv(s.lobby, known);
    SessionAdded(s.lobby.players, s.sessions, c, Session(EnterLobby(s.lobby, known).1, nick));
  }

  lemma RemovePlayerKeepsInv(l: Lobby, p: PlayerId)
    requires LobbyInv(l)
    ensures LobbyInv(RemovePlayer(l, p))
  {
    LeaveKeepsInv(l, p);
    LeaveFrame(l, p);
  }

  lemma DisconnectKeepsInv(s: Server, c: Conn)
    requires Inv(s)
    ensures Inv(Disconnect(s, c))
  {
    if c in s.sessions {
      RemovePlayerKeepsInv(s.lobby, PlayerOf(s, c));
      LeaveFrame(s.lobby, PlayerOf(s, c));
      SessionRemoved(s.lobby.players, s.sessions, c);
    } else {
      assert s.sessions - {c} == s.sessions;
    }
  }

  /** Every request, disconnect and timer expiry keeps the invariant. */
  lemma StepKeepsInv(s: Server, step: Step)
    requires Inv(s) && IdsLeft(s)
    ensures Inv(Next(s, step))
  {
    match step
    case EnterStep(c, nick) => EnterKeepsInv(s, c, nick);
    case RegStep(c, req) => RegKeepsServerInv(s, c, req);
    case JoinStep(c, req) => JoinKeepsServerInv(s, c, req);
    case LeaveStep(c) => LeaveKeepsInv(s.lobby, PlayerOf(s, c));
    case StartStep(c) =>
      if PlayerOf(s, c) in s.lobby.byHost { MarkStartedKeepsInv(s.lobby, s.lobby.byHost[PlayerOf(s, c)]); }
    case DisconnectStep(c) => DisconnectKeepsInv(s, c);
    case TimerStep(p) =>
      LeaveKeepsInv(s.lobby, p);
      LeaveFrame(s.lobby, p);
  }

  lemma RegKeepsServerInv(s: Server, c: Conn, req: RegRequest)
    requires Inv(s) && IdsLeft(s)
    ensures Inv(Next(s, RegStep(c, req)))
  {
    RegNewRoomKeepsInv(s.lobby, PlayerOf(s, c), NickOf(s, c), req);
    LeaveKeepsInv(s.lobby, PlayerOf(s, c));
    LeaveFrame(s.lobby, PlayerOf(s, c));
  }

  lemma JoinKeepsServerInv(s: Server, c: Conn, req: JoinRequest)
    requires Inv(s)
    ensures Inv(Next(s, JoinStep(c, req)))
  {
    JoinGameKeepsInv(s.lobby, PlayerOf(s, c), req);
    LeaveKeepsInv(s.lobby, PlayerOf(s, c));
    LeaveFrame(s.lobby, PlayerOf(s, c));
  }

  /** Every reachable state satisfies the invariant. */
  lemma {:induction false} RunKeepsInv(steps: seq<Step>)
    requires IdsSuffice(steps)
    ensures Inv(Run(steps))
  {
    if steps != [] {
      var before := steps[..|steps| - 1];
      forall i | 0 <= i < |before|
        ensures IdsLeft(Run(before[..i]))
      {
        assert before[..i] == steps[..i];
      }
      RunKeepsInv(before);
      StepKeepsInv(Run(before), steps[|steps| - 1]);
    }
  }

  /** What that says of one room, deleted or not, after any run. */
  lemma ReachableRoom(steps: seq<Step>, id: RoomId)
    requires IdsSuffice(steps) && id in Run(steps).lobby.rooms
    ensures var l := Run(steps).lobby; var r := l.rooms[id]; var members := Members(l.byHost, id);
      && r.playersCount == |members| && members <= r.players && members <= l.players
      && (!r.started ==> r.players == members)
      && (r.playersCount <= 1 || r.playersCount <= r.maxPlayers)
      && (r.started ==> r.playersCount <= r.startPlayers)
      && r.ctlSum == RowSum(r.row) && |r.row| in {9, 10}
      && (!r.started ==> r.row[|r.row| - 4] == PlayersColumn(r.playersCount, r.maxPlayers))
      && (id in l.live ==> members != {} && (!r.started ==> r.hostId in members))
  {
    RunKeepsInv(steps);
  }
}
