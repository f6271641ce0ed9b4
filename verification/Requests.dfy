/** What each client request does to who is in which room and to which rooms are listed, in
    terms of the state before and after it. */
module Requests {
  import opened Machine
  import opened LobbyModel
  import opened LobbyInvariants
  import opened SumIndex
  import opened GuestStart

  // ---- Joining ----

  /** The connection has a player and asks properly for a listed waiting room that has room
      for one more, with the right password if the room has one. */
  predicate MayJoin(s: Server, c: Conn, req: JoinRequest, id: RoomId)
    requires Linked(s.lobby)
  {
    && c in s.sessions && req.astate && !req.nickBlank && req.rid == Some(id)
    && id in s.lobby.live
    && var r := s.lobby.rooms[id];
       !r.started && |Members(s.lobby.byHost, id)| < r.maxPlayers && (r.password == [] || req.password == r.password)
  }

  lemma SessionPlayer(s: Server, c: Conn)
    requires Inv(s)
    ensures PlayerOf(s, c) != 0 <==> c in s.sessions
    ensures c in s.sessions ==> PlayerOf(s, c) in s.lobby.players
  {
  }

  lemma MayJoinIff(s: Server, c: Conn, req: JoinRequest)
    requires Inv(s)
    ensures JoinAccepted(s.lobby, PlayerOf(s, c), req) <==> req.rid.Some? && MayJoin(s, c, req, req.rid.value)
  {
    SessionPlayer(s, c);
  }

  /** In every reachable state: whoever may join is in the room afterwards, in no other, and
      everybody else where he was; otherwise the request changes nothing at all. */
  lemma JoinDoes(s: Server, c: Conn, req: JoinRequest)
    requires Inv(s)
    ensures var s', p := Next(s, JoinStep(c, req)), PlayerOf(s, c);
      if req.rid.Some? && MayJoin(s, c, req, req.rid.value)
      then s'.lobby.byHost == s.lobby.byHost[p := req.rid.value] && s'.sessions == s.sessions
      else s' == s
  {
    MayJoinIff(s, c, req);
    SessionPlayer(s, c);
    if req.rid.Some? && MayJoin(s, c, req, req.rid.value) { JoinMoves(s.lobby, PlayerOf(s, c), req); }
  }

  lemma JoinMoves(l: Lobby, p: PlayerId, req: JoinRequest)
    requires Linked(l) && p in l.players && JoinAccepted(l, p, req)
    ensures JoinGame(l, p, req).byHost == l.byHost[p := req.rid.value]
  {
    LeaveFrame(l, p);
    if p in l.byHost { assert (l.byHost - {p})[p := req.rid.value] == l.byHost[p := req.rid.value]; }
  }

  /** So a player is a newcomer of a room exactly when he may join it and was not in it. */
  lemma NewcomerIff(s: Server, c: Conn, req: JoinRequest, id: RoomId)
    requires Inv(s)
    ensures var p, byHost, byHost' := PlayerOf(s, c), s.lobby.byHost, Next(s, JoinStep(c, req)).lobby.byHost;
      p in Members(byHost', id) && p !in Members(byHost, id) <==> MayJoin(s, c, req, id) && p !in Members(byHost, id)
  {
    JoinDoes(s, c, req);
  }

  /** The target room gains the player and nothing else of it changes but its row. */
  lemma JoinedRoom(s: Server, c: Conn, req: JoinRequest, id: RoomId)
    requires Inv(s) && MayJoin(s, c, req, id) && PlayerOf(s, c) !in s.lobby.byHost
    ensures var r, l' := s.lobby.rooms[id], Next(s, JoinStep(c, req)).lobby;
      && id in l'.live && l'.live == s.lobby.live
      && l'.rooms[id] == r.(playersCount := r.playersCount + 1, players := r.players + {PlayerOf(s, c)},
                            row := l'.rooms[id].row, ctlSum := l'.rooms[id].ctlSum)
  {
    MayJoinIff(s, c, req);
    SessionPlayer(s, c);
  }

  lemma GuestMayNot(s: Server, req: JoinRequest)
    requires Inv(s) && req.rid.Some? && req.rid.value in s.lobby.live
    requires s.lobby.rooms[req.rid.value].password != [] && req.password != s.lobby.rooms[req.rid.value].password
    ensures Next(s, JoinStep(1, req)) == s
  {
    JoinDoes(s, 1, req);
  }

  /** A room behind a password: the wrong one changes nothing. */
  lemma WrongPasswordRun(nick: Bytes, reg: RegRequest, guest: Bytes, wrong: Bytes) returns (steps: seq<Step>)
    requires RegAccepted(1, nick, reg) && reg.password != [] && wrong != reg.password
    ensures steps == [EnterStep(0, nick), RegStep(0, reg)] + [EnterStep(1, guest)]
    ensures IdsSuffice(steps + [JoinStep(1, JoinRequest(true, false, Some(1), wrong))])
    ensures Run(steps + [JoinStep(1, JoinRequest(true, false, Some(1), wrong))]) == Run(steps)
  {
    var host := HostRun(nick, reg);
    var s := GuestEnters(Run(host), guest);
    RunSnoc(host, EnterStep(1, guest));
    steps := host + [EnterStep(1, guest)];
    RunKeepsInv(steps);
    GuestMayNot(s, JoinRequest(true, false, Some(1), wrong));
    RunSnoc(steps, JoinStep(1, JoinRequest(true, false, Some(1), wrong)));
  }

  // ---- Leaving ----

  /** p has left room id: it stays listed exactly if it was, somebody remains, and it has
      started or p was not its host. No other room has changed. */
  ghost predicate HasLeft(l: Lobby, l': Lobby, p: PlayerId, id: RoomId)
    requires id in l.rooms
  {
    && (id in l'.live <==>
          id in l.live && Members(l'.byHost, id) != {} && (l.rooms[id].started || l.rooms[id].hostId != p))
    && l'.live - {id} == l.live - {id} && id in l'.rooms && l'.rooms == l.rooms[id := l'.rooms[id]]
  }

  /** In every reachable state a leave takes the player out of his room, if he is in one,
      and leaves everybody else in theirs. */
  lemma LeaveDoes(l: Lobby, p: PlayerId)
    requires LobbyInv(l)
    ensures var l' := Leave(l, p);
      && l'.byHost == l.byHost - {p} && l'.players == l.players
      && (if p in l.byHost then HasLeft(l, l', p, l.byHost[p]) else l' == l)
  {
    if p in l.byHost {
      LeaveDeletes(l, p);
      LeftAlone(l, Leave(l, p), p, l.byHost[p]);
    } else {
      assert l.byHost - {p} == l.byHost;
    }
  }

  lemma LeaveDeletes(l: Lobby, p: PlayerId)
    requires LobbyInv(l) && p in l.byHost
    ensures var id := l.byHost[p]; var r := l.rooms[id];
      DeletedByLeave(r, p) <==> Members(l.byHost - {p}, id) == {} || (!r.started && r.hostId == p)
  {
    MembersWithout(l.byHost, p, l.byHost[p]);
    EmptyIff(Members(l.byHost, l.byHost[p]), p);
  }

  lemma LeftAlone(l: Lobby, l': Lobby, p: PlayerId, id: RoomId)
    requires Linked(l) && p in l.byHost && id == l.byHost[p] && l' == Leave(l, p)
    requires DeletedByLeave(l.rooms[id], p) <==>
      Members(l.byHost - {p}, id) == {} || (!l.rooms[id].started && l.rooms[id].hostId == p)
    ensures HasLeft(l, l', p, id)
  {
  }

  /** A leave request and an expired timer both do that, for the connection's player and for
      the one the timer was armed for. */
  lemma LeaveStepsDo(s: Server, c: Conn, p: PlayerId)
    requires Inv(s)
    ensures Next(s, LeaveStep(c)).lobby.byHost == s.lobby.byHost - {PlayerOf(s, c)}
    ensures Next(s, LeaveStep(c)) == s.(lobby := Leave(s.lobby, PlayerOf(s, c)))
    ensures Next(s, TimerStep(p)).lobby.byHost == s.lobby.byHost - {p}
    ensures Next(s, TimerStep(p)) == s.(lobby := Leave(s.lobby, p))
  {
    SessionPlayer(s, c);
    LeaveDoes(s.lobby, PlayerOf(s, c));
    LeaveDoes(s.lobby, p);
  }

  lemma EmptyIff(m: set<PlayerId>, p: PlayerId)
    requires p in m
    ensures m - {p} == {} <==> |m| == 1
  {
    assert |m - {p}| == |m| - 1;
  }

  /** The players of a room that has started keep his name; a waiting room forgets him. */
  lemma LeftRoom(l: Lobby, p: PlayerId)
    requires Linked(l) && p in l.byHost
    ensures var id := l.byHost[p]; var r, r' := l.rooms[id], Leave(l, p).rooms[id];
      && r'.playersCount == r.playersCount - 1
      && r'.players == (if r.started then r.players else r.players - {p})
      && r'.row == (if r.started then r.row else r'.row)
      && (r'.hostId, r'.password, r'.maxPlayers, r'.started, r'.startPlayers)
         == (r.hostId, r.password, r.maxPlayers, r.started, r.startPlayers)
  {
  }

  // ---- Registering ----

  predicate MayRegister(s: Server, c: Conn, req: RegRequest)
  {
    c in s.sessions && s.sessions[c].nick != [] && req.astate && req.titleOk
  }

  /** The number of places a request asks for: two more than it says, as a 64-bit integer,
      or eight. */
  predicate Places(req: RegRequest, n: int)
  {
    match req.maxPl
    case None => n == 8
    case Some(v) =>
      && -0x8000_0000_0000_0000 <= n < 0x8000_0000_0000_0000
      && (v + 2 - n) % 0x1_0000_0000_0000_0000 == 0
  }

  lemma PlacesOf(req: RegRequest, nick: Bytes)
    ensures Places(req, ParamsOf(req, nick).maxPlayers)
    ensures match req.maxPl
      case None => true
      case Some(v) => -0x8000_0000_0000_0000 <= v < 0x7FFF_FFFF_FFFF_FFFE ==> ParamsOf(req, nick).maxPlayers == v + 2
  {
    if req.maxPl.Some? { WrapsTo(req.maxPl.value + 2); }
  }

  lemma WrapsTo(x: int)
    ensures -0x8000_0000_0000_0000 <= Wrap64(x) < 0x8000_0000_0000_0000
    ensures (x - Wrap64(x)) % 0x1_0000_0000_0000_0000 == 0
  {
    var m, h := 0x1_0000_0000_0000_0000, 0x8000_0000_0000_0000;
    assert x - Wrap64(x) == m * ((x + h) / m);
    ModUnique(x - Wrap64(x), m, (x + h) / m, 0);
  }

  /** In every reachable state: an acceptable registration takes the player out of any room
      and makes him host and only member of a new, waiting, listed room under the next id;
      otherwise it changes nothing. */
  lemma RegisterDoes(s: Server, c: Conn, req: RegRequest)
    requires Inv(s) && IdsLeft(s)
    ensures var s', p, id := Next(s, RegStep(c, req)), PlayerOf(s, c), s.lobby.lastRoom + 1;
      if !MayRegister(s, c, req) then s' == s
      else s'.sessions == s.sessions && RegisteredAs(s.lobby, s'.lobby, p, id, req)
  {
    SessionPlayer(s, c);
    if MayRegister(s, c, req) {
      PlacesOf(req, NickOf(s, c));
      RegisteredRoom(s.lobby, PlayerOf(s, c), NickOf(s, c), req);
    }
  }

  ghost predicate NewlyRegistered(r: RoomRec, p: PlayerId, req: RegRequest)
  {
    && r.hostId == p && r.players == {p} && r.playersCount == 1 && !r.started
    && r.password == req.password && Places(req, r.maxPlayers)
  }

  lemma RegisteredRoom(l: Lobby, p: PlayerId, nick: Bytes, req: RegRequest)
    requires LobbyInv(l) && p in l.players && RegAccepted(p, nick, req) && l.lastRoom + 1 < U32
    requires Places(req, ParamsOf(req, nick).maxPlayers)
    ensures RegisteredAs(l, RegNewRoom(l, p, nick, req), p, l.lastRoom + 1, req)
  {
    var params, id := ParamsOf(req, nick), l.lastRoom + 1;
    var r := NewRoom(id, p, params);
    LeaveFrame(l, p);
    LeaveDoes(l, p);
    NextIdIsFresh(l);
    NewIsRegistered(r, id, p, params, req);
    ShapeAfter(l, Leave(l, p), RegNewRoom(l, p, nick, req), p, params, id, r);
    NewRoomFiled(l, Leave(l, p), RegNewRoom(l, p, nick, req), p, id, r, req);
  }

  ghost predicate RegisteredAs(l: Lobby, l': Lobby, p: PlayerId, id: int, req: RegRequest)
    requires Linked(l)
  {
    && l'.lastRoom == id && l'.byHost == l.byHost[p := id] && l'.live == Leave(l, p).live + {id}
    && id !in l.rooms && id in l'.rooms && NewlyRegistered(l'.rooms[id], p, req)
  }

  lemma NewIsRegistered(r: RoomRec, id: RoomId, p: PlayerId, params: RoomParams, req: RegRequest)
    requires r == NewRoom(id, p, params) && params.password == req.password && Places(req, params.maxPlayers)
    ensures NewlyRegistered(r, p, req)
  {
  }

  lemma ShapeAfter(l: Lobby, l1: Lobby, m: Lobby, p: PlayerId, params: RoomParams, id: RoomId, r: RoomRec)
    requires Linked(l1) && p in l1.players && m == RegisterNew(l1, p, params) && r == NewRoom(id, p, params)
    requires id == Wrap32(l1.lastRoom + 1)
    ensures m.lastRoom == id && m.byHost == l1.byHost[p := id] && m.live == l1.live + {id}
    ensures m.rooms == l1.rooms[id := r]
  {
  }

  lemma NewRoomFiled(l: Lobby, l1: Lobby, m: Lobby, p: PlayerId, id: RoomId, r: RoomRec, req: RegRequest)
    requires Linked(l) && l1.byHost == l.byHost - {p} && l1.live == Leave(l, p).live && id !in l.rooms
    requires NewlyRegistered(r, p, req)
    requires m.lastRoom == id && m.byHost == l1.byHost[p := id] && m.live == l1.live + {id}
    requires m.rooms == l1.rooms[id := r]
    ensures RegisteredAs(l, m, p, id, req)
  {
    assert (l.byHost - {p})[p := id] == l.byHost[p := id];
  }

  /** Without a registered player the room is filed under player 0. */
  lemma HostlessRoom(l: Lobby, p: PlayerId, params: RoomParams)
    requires Linked(l) && p !in l.players
    ensures var id, l' := Wrap32(l.lastRoom + 1), RegisterNew(l, p, params);
      id in l'.rooms && l'.rooms[id].hostId == 0 && l'.rooms[id].players == {0} && l'.byHost == l.byHost[0 := id]
  {
  }

  // ---- Starting ----

  /** In every reachable state a start by a member marks his room and records how many were
      in it; a start by anybody else changes nothing, and nobody is moved. */
  lemma StartDoes(s: Server, c: Conn)
    requires Inv(s)
    ensures var s', p := Next(s, StartStep(c)), PlayerOf(s, c);
      && s'.lobby.byHost == s.lobby.byHost && s'.lobby.live == s.lobby.live && s'.sessions == s.sessions
      && (p !in s.lobby.byHost ==> s' == s)
      && (p in s.lobby.byHost ==>
            var id := s.lobby.byHost[p]; var r, r' := s.lobby.rooms[id], s'.lobby.rooms[id];
            && r' == r.(started := true, startPlayers := |Members(s.lobby.byHost, id)|,
                        row := r'.row, ctlSum := r'.ctlSum)
            && s'.lobby.rooms == s.lobby.rooms[id := r'])
  {
    SessionPlayer(s, c);
  }

  // ---- Entering and going ----

  /** A new connection gets the next player id and no room; a known one keeps its id and
      leaves its room. A disconnect takes the player out of his room and off the server. */
  lemma EnterDoes(s: Server, c: Conn, nick: Bytes)
    requires Inv(s) && IdsLeft(s)
    ensures var s' := Next(s, EnterStep(c, nick)); var p := PlayerOf(s', c);
      && s'.sessions == s.sessions[c := Session(p, nick)]
      && p == (if c in s.sessions then s.sessions[c].playerId else s.lobby.lastPlayer + 1)
      && s'.lobby.players == s.lobby.players + {p} && s'.lobby.byHost == s.lobby.byHost - {p}
      && (c !in s.sessions ==> s'.lobby.rooms == s.lobby.rooms && s'.lobby.live == s.lobby.live)
      && (c in s.sessions ==> s'.lobby.rooms == Leave(s.lobby, p).rooms && s'.lobby.live == Leave(s.lobby, p).live)
  {
    SessionPlayer(s, c);
    EnterKeepsInv(s, c, nick);
    LeaveDoes(s.lobby, PlayerOf(s, c));
    if c !in s.sessions {
      assert s.lobby.lastPlayer + 1 !in s.lobby.byHost;
      assert s.lobby.byHost - {s.lobby.lastPlayer + 1} == s.lobby.byHost;
    }
  }

  lemma DisconnectDoes(s: Server, c: Conn)
    requires Inv(s)
    ensures var s', p := Next(s, DisconnectStep(c)), PlayerOf(s, c);
      && s'.sessions == s.sessions - {c} && s'.lobby.players == s.lobby.players - {p}
      && s'.lobby.byHost == s.lobby.byHost - {p}
      && s'.lobby.rooms == Leave(s.lobby, p).rooms && s'.lobby.live == Leave(s.lobby, p).live
  {
    SessionPlayer(s, c);
    LeaveDoes(s.lobby, PlayerOf(s, c));
    if c !in s.sessions {
      assert 0 !in s.lobby.players;
      assert s.lobby.players - {0} == s.lobby.players;
    }
  }
}
