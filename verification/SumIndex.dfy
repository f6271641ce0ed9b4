/** When the control-sum index is exactly {tag -> room} over the listed rooms, and exactly
    which operations break that. */
module SumIndex {
  import opened Machine
  import opened LobbyModel
  import opened LobbyInvariants

  /** by-sum is the inverse of ctlSum on the listed rooms. */
  ghost predicate SumExact(l: Lobby)
  {
    && Linked(l)
    && (forall k :: k in l.bySum ==> l.bySum[k] in l.live && l.rooms[l.bySum[k]].ctlSum == k)
    && (forall id :: id in l.live ==> l.rooms[id].ctlSum in l.bySum && l.bySum[l.rooms[id].ctlSum] == id)
  }

  /** Some other listed room already carries the tag. */
  ghost predicate Taken(l: Lobby, sum: uint32, id: RoomId)
    requires Linked(l)
  {
    exists x :: x in l.live && x != id && l.rooms[x].ctlSum == sum
  }

  /** What a caller must know before a leave for the index to stay exact. */
  ghost predicate LeaveSafe(l: Lobby, p: PlayerId)
    requires Linked(l)
  {
    p in l.byHost ==>
      var id := l.byHost[p];
      var r := l.rooms[id];
      && !Taken(l, LeaveRoom(r, p).ctlSum, id)
      && (id in l.live || (DeletedByLeave(r, p) && !Taken(l, r.ctlSum, id)))
  }

  ghost predicate JoinSafe(l: Lobby, id: RoomId, p: PlayerId)
    requires Linked(l) && id in l.rooms
  {
    p in l.players ==> id in l.live && !Taken(l, JoinRoom(l.rooms[id], p).ctlSum, id)
  }

  ghost predicate StartSafe(l: Lobby, id: RoomId)
    requires Linked(l) && id in l.rooms
  {
    id in l.live && !Taken(l, StartRoom(l.rooms[id]).ctlSum, id)
  }

  ghost predicate RegisterSafe(l: Lobby, pid: PlayerId, p: RoomParams)
    requires Linked(l)
  {
    var id := Wrap32(l.lastRoom + 1);
    !Taken(l, NewRoom(id, pid, p).ctlSum, id)
  }

  // ---- Exactly when each operation keeps the index exact ----

  lemma LeaveExactIff(l: Lobby, p: PlayerId)
    requires SumExact(l)
    ensures SumExact(Leave(l, p)) <==> LeaveSafe(l, p)
  {
    if p in l.byHost {
      var id, l' := l.byHost[p], Leave(l, p);
      var sum, sum' := l.rooms[id].ctlSum, l'.rooms[id].ctlSum;
      if Taken(l, sum', id) {
        var x :| x in l.live && x != id && l.rooms[x].ctlSum == sum';
        assert x in l'.live && l'.rooms[x].ctlSum == sum';
      } else if id !in l.live && Taken(l, sum, id) {
        var x :| x in l.live && x != id && l.rooms[x].ctlSum == sum;
        assert x in l'.live && l'.rooms[x].ctlSum == sum;
      } else if id !in l.live && !DeletedByLeave(l.rooms[id], p) {
        assert l'.bySum[sum'] == id;
      } else {
        forall x | x in l'.live
          ensures l'.rooms[x].ctlSum in l'.bySum && l'.bySum[l'.rooms[x].ctlSum] == x
        {
          if x != id { assert l.rooms[x].ctlSum in l.bySum; }
        }
      }
    }
  }

  /** Join and MarkStarted share one shape: a room record replaced and refiled. */
  function Refile(l: Lobby, id: RoomId, r': RoomRec): (l': Lobby)
    requires Linked(l) && id in l.rooms
    ensures Linked(l')
  {
    l.(rooms := l.rooms[id := r'], bySum := (l.bySum - {l.rooms[id].ctlSum})[r'.ctlSum := id])
  }

  lemma RefileExactIff(l: Lobby, id: RoomId, r': RoomRec)
    requires SumExact(l) && id in l.rooms
    ensures SumExact(Refile(l, id, r')) <==> id in l.live && !Taken(l, r'.ctlSum, id)
  {
    var l' := Refile(l, id, r');
    assert l'.bySum[r'.ctlSum] == id;
    if Taken(l, r'.ctlSum, id) {
      var x :| x in l.live && x != id && l.rooms[x].ctlSum == r'.ctlSum;
      assert x in l'.live && l'.rooms[x].ctlSum == r'.ctlSum;
    } else if id in l.live {
      forall x | x in l'.live
        ensures l'.rooms[x].ctlSum in l'.bySum && l'.bySum[l'.rooms[x].ctlSum] == x
      {
        if x != id { assert l.rooms[x].ctlSum in l.bySum; }
      }
    }
  }

  /** Membership does not enter into exactness. */
  lemma ExactIgnoresMembers(l: Lobby, m: Lobby)
    requires l.live == m.live && l.rooms == m.rooms && l.bySum == m.bySum && Linked(l) && Linked(m)
    ensures SumExact(l) <==> SumExact(m)
  {
  }

  lemma JoinExactIff(l: Lobby, id: RoomId, p: PlayerId)
    requires SumExact(l) && id in l.rooms
    ensures SumExact(Join(l, id, p)) <==> JoinSafe(l, id, p)
  {
    if p in l.players {
      var r' := JoinRoom(l.rooms[id], p);
      RefileExactIff(l, id, r');
      ExactIgnoresMembers(Join(l, id, p), Refile(l, id, r'));
    }
  }

  lemma StartExactIff(l: Lobby, id: RoomId)
    requires SumExact(l) && id in l.rooms
    ensures SumExact(MarkStarted(l, id)) <==> StartSafe(l, id)
  {
    RefileExactIff(l, id, StartRoom(l.rooms[id]));
  }

  /** A record filed as a room that was not there before. */
  lemma FiledExactIff(l: Lobby, m: Lobby, id: RoomId, r: RoomRec)
    requires SumExact(l) && Linked(m) && id !in l.rooms
    requires m.rooms == l.rooms[id := r] && m.live == l.live + {id} && m.bySum == l.bySum[r.ctlSum := id]
    ensures SumExact(m) <==> !Taken(l, r.ctlSum, id)
  {
    assert m.rooms[id] == r && m.bySum[r.ctlSum] == id;
    if Taken(l, r.ctlSum, id) {
      var x :| x in l.live && x != id && l.rooms[x].ctlSum == r.ctlSum;
      assert x in m.live && m.rooms[x].ctlSum == r.ctlSum;
    } else {
      forall x | x in m.live
        ensures m.rooms[x].ctlSum in m.bySum && m.bySum[m.rooms[x].ctlSum] == x
      {
        if x != id { assert l.rooms[x].ctlSum in l.bySum; }
      }
    }
  }

  lemma RegisterExactIff(l: Lobby, pid: PlayerId, p: RoomParams)
    requires SumExact(l) && pid in l.players && Wrap32(l.lastRoom + 1) !in l.rooms
    ensures SumExact(RegisterNew(l, pid, p)) <==> RegisterSafe(l, pid, p)
  {
    var id := Wrap32(l.lastRoom + 1);
    FiledExactIff(l, RegisterNew(l, pid, p), id, NewRoom(id, pid, p));
  }

  // ---- Whole runs ----

  ghost predicate RegSafe(l: Lobby, p: PlayerId, nick: Bytes, req: RegRequest)
    requires Linked(l)
  {
    RegAccepted(p, nick, req) ==> LeaveSafe(l, p) && RegisterSafe(Leave(l, p), p, ParamsOf(req, nick))
  }

  ghost predicate JoinGameSafe(l: Lobby, p: PlayerId, req: JoinRequest)
    requires Linked(l)
  {
    JoinAccepted(l, p, req) ==> LeaveSafe(l, p) && JoinSafe(Leave(l, p), req.rid.value, p)
  }

  ghost predicate StepSafe(s: Server, step: Step)
    requires Linked(s.lobby)
  {
    var l := s.lobby;
    match step
    case EnterStep(c, _) => PlayerOf(s, c) > 0 ==> LeaveSafe(l, PlayerOf(s, c))
    case RegStep(c, req) => RegSafe(l, PlayerOf(s, c), NickOf(s, c), req)
    case JoinStep(c, req) => JoinGameSafe(l, PlayerOf(s, c), req)
    case LeaveStep(c) => LeaveSafe(l, PlayerOf(s, c))
    case StartStep(c) => PlayerOf(s, c) in l.byHost ==> StartSafe(l, l.byHost[PlayerOf(s, c)])
    case DisconnectStep(c) => LeaveSafe(l, PlayerOf(s, c))
    case TimerStep(p) => LeaveSafe(l, p)
  }

  lemma StepKeepsExact(s: Server, step: Step)
    requires Inv(s) && IdsLeft(s) && SumExact(s.lobby) && StepSafe(s, step)
    ensures SumExact(Next(s, step).lobby)
  {
    match step
    case EnterStep(c, _) => LeaveExactIff(s.lobby, PlayerOf(s, c));
    case RegStep(c, req) =>
      NextIdIsFresh(s.lobby);
      RegKeepsExact(s.lobby, PlayerOf(s, c), NickOf(s, c), req);
    case JoinStep(c, req) => JoinKeepsExact(s.lobby, PlayerOf(s, c), req);
    case LeaveStep(c) => LeaveExactIff(s.lobby, PlayerOf(s, c));
    case StartStep(c) =>
      if PlayerOf(s, c) in s.lobby.byHost { StartExactIff(s.lobby, s.lobby.byHost[PlayerOf(s, c)]); }
    case DisconnectStep(c) => LeaveExactIff(s.lobby, PlayerOf(s, c));
    case TimerStep(p) => LeaveExactIff(s.lobby, p);
  }

  lemma NextIdIsFresh(l: Lobby)
    requires LobbyInv(l) && l.lastRoom + 1 < U32
    ensures Wrap32(l.lastRoom + 1) !in l.rooms
  {
  }

  lemma RegKeepsExact(l: Lobby, p: PlayerId, nick: Bytes, req: RegRequest)
    requires SumExact(l) && (p == 0 || p in l.players) && Wrap32(l.lastRoom + 1) !in l.rooms
    requires RegSafe(l, p, nick, req)
    ensures SumExact(RegNewRoom(l, p, nick, req))
  {
    LeaveExactIff(l, p);
    LeaveFrame(l, p);
    if RegAccepted(p, nick, req) { RegisterExactIff(Leave(l, p), p, ParamsOf(req, nick)); }
  }

  lemma JoinKeepsExact(l: Lobby, p: PlayerId, req: JoinRequest)
    requires SumExact(l) && JoinGameSafe(l, p, req)
    ensures SumExact(JoinGame(l, p, req))
  {
    LeaveExactIff(l, p);
    LeaveFrame(l, p);
    if JoinAccepted(l, p, req) { JoinExactIff(Leave(l, p), req.rid.value, p); }
  }

  /** A run of safe steps ends with an exact index. */
  lemma {:induction false} RunKeepsExact(steps: seq<Step>)
    requires IdsSuffice(steps)
    requires forall i :: 0 <= i < |steps| ==> StepSafe(Run(steps[..i]), steps[i])
    ensures SumExact(Run(steps).lobby)
  {
    if steps != [] {
      var n := |steps| - 1;
      var before := steps[..n];
      forall i | 0 <= i < n
        ensures IdsLeft(Run(before[..i])) && StepSafe(Run(before[..i]), before[i])
      {
        assert before[..i] == steps[..i];
      }
      RunKeepsExact(before);
      RunKeepsInv(before);
      StepKeepsExact(Run(before), steps[n]);
    }
  }

  // ---- Rooms that stay in the index after they are gone from the list ----

  /** A host who joins his own waiting room deletes it and is then filed in it. */
  lemma HostRejoinLeavesGhost(l: Lobby, p: PlayerId, req: JoinRequest)
    requires LobbyInv(l) && p in l.byHost && req.astate && !req.nickBlank
    requires req.rid == Some(l.byHost[p]) && l.byHost[p] in l.live
    requires Admits(l.rooms[l.byHost[p]], req.password) && l.rooms[l.byHost[p]].hostId == p
    ensures var l' := JoinGame(l, p, req); var id := l.byHost[p];
      && id !in l'.live && l'.byHost[p] == id
      && l'.rooms[id].ctlSum in l'.bySum && l'.bySum[l'.rooms[id].ctlSum] == id
      && !SumExact(l')
  {
    LeaveFrame(l, p);
  }

  /** One player, in the one room, which is filed exactly. */
  ghost predicate OneRoom(s: Server, r: RoomRec)
  {
    && LobbyInv(s.lobby) && SumExact(s.lobby) && IdsLeft(s)
    && s.sessions.Keys == {0} && PlayerOf(s, 0) == 1 && s.lobby.lastPlayer == 1 && s.lobby.lastRoom == 1
    && s.lobby.byHost == map[1 := 1] && s.lobby.live == {1} && s.lobby.rooms == map[1 := r]
  }

  /** The state after the first player has entered and created the first room. */
  lemma FirstRoom(nick: Bytes, reg: RegRequest) returns (s1: Server, s2: Server)
    requires RegAccepted(1, nick, reg)
    ensures s1 == Next(EMPTY, EnterStep(0, nick)) && Linked(s1.lobby) && IdsLeft(s1)
    ensures s2 == Next(s1, RegStep(0, reg)) && OneRoom(s2, NewRoom(1, 1, ParamsOf(reg, nick)))
  {
    s1 := FirstEnter(nick);
    s2 := Next(s1, RegStep(0, reg));
    StepKeepsInv(s1, RegStep(0, reg));
    RegisterExactIff(s1.lobby, 1, ParamsOf(reg, nick));
    FirstRegister(s1, nick, reg);
  }

  lemma FirstEnter(nick: Bytes) returns (s: Server)
    ensures s == Next(EMPTY, EnterStep(0, nick)) && Inv(s) && SumExact(s.lobby)
    ensures s == Server(EMPTY.lobby.(lastPlayer := 1, players := {1}), map[0 := Session(1, nick)])
  {
    s := Next(EMPTY, EnterStep(0, nick));
    assert EMPTY.lobby.players + {1} == {1};
    StepKeepsInv(EMPTY, EnterStep(0, nick));
  }

  lemma FirstRegister(s: Server, nick: Bytes, reg: RegRequest)
    requires s == Server(EMPTY.lobby.(lastPlayer := 1, players := {1}), map[0 := Session(1, nick)])
    requires Linked(s.lobby) && RegAccepted(1, nick, reg)
    ensures var l, r := Next(s, RegStep(0, reg)).lobby, NewRoom(1, 1, ParamsOf(reg, nick));
      && l == RegisterNew(s.lobby, 1, ParamsOf(reg, nick))
      && l == Lobby(1, 1, {1}, map[1 := r], {1}, map[1 := 1], map[r.ctlSum := 1])
  {
  }
}
