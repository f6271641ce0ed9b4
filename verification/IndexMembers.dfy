/** Every room the control-sum index leads to has a member, in every run: an unlisted room
    leaves the index with its last one. */
module IndexMembers {
  import opened Machine
  import opened LobbyModel
  import opened LobbyInvariants

  ghost predicate Inhabited(l: Lobby)
  {
    forall k :: k in l.bySum ==> Members(l.byHost, l.bySum[k]) != {}
  }

  /** A leave that does not delete the room leaves somebody in it. */
  lemma SomebodyStays(m: set<PlayerId>, p: PlayerId)
    requires p in m && |m| > 1
    ensures m - {p} != {}
  {
    assert |m - {p}| == |m| - 1;
  }

  lemma LeaveEntries(l: Lobby, p: PlayerId, k: uint32)
    requires Linked(l) && SumKeysOk(l) && p in l.byHost && k in Leave(l, p).bySum
    ensures var id, l' := l.byHost[p], Leave(l, p);
      if l'.bySum[k] == id then !DeletedByLeave(l.rooms[id], p) else k in l.bySum && l'.bySum[k] == l.bySum[k]
  {
  }

  lemma LeaveKeepsInhabited(l: Lobby, p: PlayerId)
    requires LobbyInv(l) && Inhabited(l)
    ensures Inhabited(Leave(l, p))
  {
    if p in l.byHost {
      var l', id := Leave(l, p), l.byHost[p];
      forall k | k in l'.bySum
        ensures Members(l'.byHost, l'.bySum[k]) != {}
      {
        LeaveEntries(l, p, k);
        MembersWithout(l.byHost, p, l'.bySum[k]);
        if l'.bySum[k] == id { SomebodyStays(Members(l.byHost, id), p); }
      }
    }
  }

  lemma NewMember(byHost: map<PlayerId, RoomId>, p: PlayerId, id: RoomId, x: RoomId)
    requires p !in byHost
    ensures x == id || Members(byHost, x) != {} ==> Members(byHost[p := id], x) != {}
  {
    MembersWith(byHost, p, id, x);
    if x == id { assert p in Members(byHost[p := id], x); }
  }

  lemma FilingKeepsInhabited(l: Lobby, m: Lobby, p: PlayerId, id: RoomId)
    requires Inhabited(l) && p !in l.byHost && m.byHost == l.byHost[p := id]
    requires forall k :: k in m.bySum ==> m.bySum[k] == id || (k in l.bySum && m.bySum[k] == l.bySum[k])
    ensures Inhabited(m)
  {
    forall k | k in m.bySum
      ensures Members(m.byHost, m.bySum[k]) != {}
    {
      NewMember(l.byHost, p, id, m.bySum[k]);
    }
  }

  lemma JoinGameKeepsInhabited(l: Lobby, p: PlayerId, req: JoinRequest)
    requires LobbyInv(l) && Inhabited(l)
    ensures Inhabited(JoinGame(l, p, req))
  {
    if JoinAccepted(l, p, req) {
      LeaveKeepsInhabited(l, p);
      LeaveFrame(l, p);
      JoinKeepsInhabited(Leave(l, p), req.rid.value, p);
    }
  }

  lemma JoinKeepsInhabited(l: Lobby, id: RoomId, p: PlayerId)
    requires Linked(l) && Inhabited(l) && id in l.rooms && p !in l.byHost
    ensures Inhabited(Join(l, id, p))
  {
    if p in l.players { FilingKeepsInhabited(l, Join(l, id, p), p, id); }
  }

  lemma RegNewRoomKeepsInhabited(l: Lobby, p: PlayerId, nick: Bytes, req: RegRequest)
    requires LobbyInv(l) && Inhabited(l) && (p == 0 || p in l.players)
    ensures Inhabited(RegNewRoom(l, p, nick, req))
  {
    if RegAccepted(p, nick, req) {
      LeaveKeepsInhabited(l, p);
      LeaveFrame(l, p);
      RegisterKeepsInhabited(Leave(l, p), p, ParamsOf(req, nick));
    }
  }

  lemma RegisterKeepsInhabited(l: Lobby, p: PlayerId, params: RoomParams)
    requires Linked(l) && Inhabited(l) && p in l.players && p !in l.byHost
    ensures Inhabited(RegisterNew(l, p, params))
  {
    FilingKeepsInhabited(l, RegisterNew(l, p, params), p, Wrap32(l.lastRoom + 1));
  }

  lemma MarkStartedKeepsInhabited(l: Lobby, id: RoomId)
    requires Linked(l) && Inhabited(l) && id in l.rooms && Members(l.byHost, id) != {}
    ensures Inhabited(MarkStarted(l, id))
  {
  }

  lemma StartKeepsInhabited(l: Lobby, p: PlayerId)
    requires LobbyInv(l) && Inhabited(l)
    ensures Inhabited(Start(l, p))
  {
    if p in l.byHost {
      assert p in Members(l.byHost, l.byHost[p]);
      MarkStartedKeepsInhabited(l, l.byHost[p]);
    }
  }

  lemma StepKeepsInhabited(s: Server, step: Step)
    requires Inv(s) && Inhabited(s.lobby)
    ensures Inhabited(Next(s, step).lobby)
  {
    var l := s.lobby;
    match step
    case EnterStep(c, _) => LeaveKeepsInhabited(l, PlayerOf(s, c));
    case RegStep(c, req) => RegNewRoomKeepsInhabited(l, PlayerOf(s, c), NickOf(s, c), req);
    case JoinStep(c, req) => JoinGameKeepsInhabited(l, PlayerOf(s, c), req);
    case LeaveStep(c) => LeaveKeepsInhabited(l, PlayerOf(s, c));
    case StartStep(c) => StartKeepsInhabited(l, PlayerOf(s, c));
    case DisconnectStep(c) => LeaveKeepsInhabited(l, PlayerOf(s, c));
    case TimerStep(p) => LeaveKeepsInhabited(l, p);
  }

  /** In every run the index leads only to rooms that have a member. */
  lemma {:induction false} RunKeepsInhabited(steps: seq<Step>)
    requires IdsSuffice(steps)
    ensures Inhabited(Run(steps).lobby)
  {
    if steps != [] {
      var before := steps[..|steps| - 1];
      forall i | 0 <= i < |before|
        ensures IdsLeft(Run(before[..i]))
      {
        assert before[..i] == steps[..i];
      }
      RunKeepsInhabited(before);
      RunKeepsInv(before);
      StepKeepsInhabited(Run(before), steps[|steps| - 1]);
    }
  }
}
