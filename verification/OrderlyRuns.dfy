/** A condition in the players' own terms under which the control-sum index stays exact:
    no host abandons a waiting room that has guests, no host joins his own waiting room,
    and no two listed rooms' tags collide. */
module OrderlyRuns {
  import opened Machine
  import opened LobbyModel
  import opened LobbyInvariants
  import opened SumIndex

  /** Every member's room is still listed. */
  ghost predicate NoOrphans(l: Lobby)
  {
    forall p :: p in l.byHost ==> l.byHost[p] in l.live
  }

  /** The player is not a host abandoning guests in a waiting room. */
  predicate AbandonsNobody(l: Lobby, p: PlayerId)
    requires Linked(l)
  {
    p in l.byHost ==>
      var r := l.rooms[l.byHost[p]];
      !r.started && r.hostId == p ==> r.playersCount == 1
  }

  ghost predicate LeaveTagFree(l: Lobby, p: PlayerId)
    requires Linked(l)
  {
    p in l.byHost ==> !Taken(l, LeaveRoom(l.rooms[l.byHost[p]], p).ctlSum, l.byHost[p])
  }

  ghost predicate OrderlyLeave(l: Lobby, p: PlayerId)
    requires Linked(l)
  {
    AbandonsNobody(l, p) && LeaveTagFree(l, p)
  }

  lemma AtMostOne(m: set<PlayerId>, p: PlayerId, q: PlayerId)
    requires |m| <= 1 && p in m && q in m
    ensures p == q
  {
    assert |m - {p}| == 0;
  }

  lemma OnlyMember(l: Lobby, id: RoomId, p: PlayerId, q: PlayerId)
    requires LobbyInv(l) && id in l.rooms && l.rooms[id].playersCount <= 1
    requires p in l.byHost && l.byHost[p] == id && q in l.byHost && l.byHost[q] == id
    ensures p == q
  {
    AtMostOne(Members(l.byHost, id), p, q);
  }

  lemma LeaveLeavesNoOrphans(l: Lobby, p: PlayerId)
    requires LobbyInv(l) && NoOrphans(l) && AbandonsNobody(l, p)
    ensures NoOrphans(Leave(l, p))
  {
    if p in l.byHost && DeletedByLeave(l.rooms[l.byHost[p]], p) {
      var id := l.byHost[p];
      forall q | q in l.byHost && q != p
        ensures l.byHost[q] != id
      {
        if l.byHost[q] == id { OnlyMember(l, id, p, q); }
      }
    }
  }

  lemma OrderlyIsSafe(l: Lobby, p: PlayerId)
    requires LobbyInv(l) && NoOrphans(l) && SumExact(l) && OrderlyLeave(l, p)
    ensures LeaveSafe(l, p) && LobbyInv(Leave(l, p)) && NoOrphans(Leave(l, p)) && SumExact(Leave(l, p))
  {
    LeaveExactIff(l, p);
    LeaveKeepsInv(l, p);
    LeaveLeavesNoOrphans(l, p);
  }

  /** A waiting room that somebody other than its host wants to join survives his leaving. */
  lemma TargetSurvives(l: Lobby, p: PlayerId, id: RoomId)
    requires LobbyInv(l) && id in l.live && !l.rooms[id].started && l.rooms[id].hostId != p
    ensures id in Leave(l, p).live
  {
    if p in l.byHost && l.byHost[p] == id && l.rooms[id].playersCount <= 1 {
      var host := l.rooms[id].hostId;
      assert host in Members(l.byHost, id);
      OnlyMember(l, id, p, host);
      assert false;
    }
  }

  ghost predicate OrderlyReg(l: Lobby, p: PlayerId, nick: Bytes, req: RegRequest)
    requires Linked(l)
  {
    RegAccepted(p, nick, req) ==> OrderlyLeave(l, p) && RegisterSafe(Leave(l, p), p, ParamsOf(req, nick))
  }

  ghost predicate OrderlyJoin(l: Lobby, p: PlayerId, req: JoinRequest)
    requires Linked(l)
  {
    JoinAccepted(l, p, req) ==>
      var l1 := Leave(l, p);
      && l.rooms[req.rid.value].hostId != p
      && OrderlyLeave(l, p)
      && !Taken(l1, JoinRoom(l1.rooms[req.rid.value], p).ctlSum, req.rid.value)
  }

  ghost predicate Orderly(s: Server, step: Step)
    requires Linked(s.lobby)
  {
    var l := s.lobby;
    match step
    case EnterStep(c, _) => OrderlyLeave(l, PlayerOf(s, c))
    case RegStep(c, req) => OrderlyReg(l, PlayerOf(s, c), NickOf(s, c), req)
    case JoinStep(c, req) => OrderlyJoin(l, PlayerOf(s, c), req)
    case LeaveStep(c) => OrderlyLeave(l, PlayerOf(s, c))
    case StartStep(c) =>
      var p := PlayerOf(s, c);
      p in l.byHost ==> !Taken(l, StartRoom(l.rooms[l.byHost[p]]).ctlSum, l.byHost[p])
    case DisconnectStep(c) => OrderlyLeave(l, PlayerOf(s, c))
    case TimerStep(p) => OrderlyLeave(l, p)
  }

  lemma RegIsOrderly(l: Lobby, p: PlayerId, nick: Bytes, req: RegRequest)
    requires LobbyInv(l) && NoOrphans(l) && SumExact(l) && OrderlyReg(l, p, nick, req)
    ensures RegSafe(l, p, nick, req) && NoOrphans(RegNewRoom(l, p, nick, req))
  {
    if RegAccepted(p, nick, req) { OrderlyIsSafe(l, p); }
  }

  lemma JoinIsOrderly(l: Lobby, p: PlayerId, req: JoinRequest)
    requires LobbyInv(l) && NoOrphans(l) && SumExact(l) && OrderlyJoin(l, p, req)
    ensures JoinGameSafe(l, p, req) && NoOrphans(JoinGame(l, p, req))
  {
    if JoinAccepted(l, p, req) {
      OrderlyIsSafe(l, p);
      TargetSurvives(l, p, req.rid.value);
    }
  }

  lemma StepStaysOrderly(s: Server, step: Step)
    requires Inv(s) && NoOrphans(s.lobby) && SumExact(s.lobby) && Orderly(s, step)
    ensures StepSafe(s, step) && NoOrphans(Next(s, step).lobby)
  {
    match step
    case EnterStep(c, _) => OrderlyIsSafe(s.lobby, PlayerOf(s, c));
    case RegStep(c, req) => RegIsOrderly(s.lobby, PlayerOf(s, c), NickOf(s, c), req);
    case JoinStep(c, req) => JoinIsOrderly(s.lobby, PlayerOf(s, c), req);
    case LeaveStep(c) => OrderlyIsSafe(s.lobby, PlayerOf(s, c));
    case StartStep(c) =>
    case DisconnectStep(c) => OrderlyIsSafe(s.lobby, PlayerOf(s, c));
    case TimerStep(p) => OrderlyIsSafe(s.lobby, p);
  }

  /** In every orderly run the index is exact and every member's room is listed. */
  lemma {:induction false} OrderlyRunsStayExact(steps: seq<Step>)
    requires IdsSuffice(steps)
    requires forall i :: 0 <= i < |steps| ==> Orderly(Run(steps[..i]), steps[i])
    ensures SumExact(Run(steps).lobby) && NoOrphans(Run(steps).lobby)
  {
    if steps != [] {
      var n := |steps| - 1;
      var before := steps[..n];
      forall i | 0 <= i < n
        ensures IdsLeft(Run(before[..i])) && Orderly(Run(before[..i]), before[i])
      {
        assert before[..i] == steps[..i];
      }
      OrderlyRunsStayExact(before);
      RunKeepsInv(before);
      StepStaysOrderly(Run(before), steps[n]);
      StepKeepsExact(Run(before), steps[n]);
    }
  }
}
