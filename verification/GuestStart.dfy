/** Who can start a room. The start command is documented as the host's; the code accepts
    it from every member. */
module GuestStart {
  import opened Machine
  import opened LobbyModel
  import opened LobbyInvariants
  import opened SumIndex

  /** A waiting room is started by its members, and by nobody else. */
  lemma StartedByMembers(l: Lobby, id: RoomId, p: PlayerId)
    requires LobbyInv(l) && id in l.rooms && !l.rooms[id].started
    ensures Start(l, p).rooms[id].started <==> p in Members(l.byHost, id)
  {
  }

  lemma OnlyOne(m: set<PlayerId>, host: PlayerId)
    requires host in m
    ensures (forall p :: p in m ==> p == host) <==> |m| == 1
  {
    if forall p :: p in m ==> p == host {
      assert m == {host};
    }
    if |m| == 1 {
      assert |m - {host}| == 0;
      assert m == (m - {host}) + {host};
    }
  }

  /** Only the host can start a listed waiting room exactly when he is alone in it. */
  lemma HostOnlyStartIff(l: Lobby, id: RoomId)
    requires LobbyInv(l) && id in l.live && !l.rooms[id].started
    ensures (forall p :: p in l.players && Start(l, p).rooms[id].started ==> p == l.rooms[id].hostId)
      <==> l.rooms[id].playersCount == 1
  {
    StartersAre(l, id);
    assert l.rooms[id].hostId in Members(l.byHost, id);
    OnlyOne(Members(l.byHost, id), l.rooms[id].hostId);
  }

  lemma StartersAre(l: Lobby, id: RoomId)
    requires LobbyInv(l) && id in l.rooms && !l.rooms[id].started
    ensures forall p :: p in l.players && Start(l, p).rooms[id].started <==> p in Members(l.byHost, id)
  {
    forall p
      ensures p in l.players && Start(l, p).rooms[id].started <==> p in Members(l.byHost, id)
    {
      StartedByMembers(l, id, p);
    }
  }

  lemma GuestEnters(s: Server, nick: Bytes) returns (s': Server)
    requires LobbyInv(s.lobby) && s.lobby.lastPlayer == 1 && 1 !in s.sessions && IdsLeft(s)
    ensures s' == Next(s, EnterStep(1, nick)) && IdsLeft(s')
    ensures s'.lobby == s.lobby.(lastPlayer := 2, players := s.lobby.players + {2})
    ensures PlayerOf(s', 1) == 2 && 2 !in s'.lobby.byHost
  {
    s' := Next(s, EnterStep(1, nick));
  }

  /** Player 2 waits in room 1. */
  predicate GuestWaits(s: Server, host: PlayerId)
  {
    && PlayerOf(s, 1) == 2 && 2 in s.lobby.byHost && s.lobby.byHost[2] == 1
    && 1 in s.lobby.rooms && !s.lobby.rooms[1].started && s.lobby.rooms[1].hostId == host
  }

  lemma GuestJoins(s: Server, req: JoinRequest) returns (s': Server)
    requires Linked(s.lobby) && PlayerOf(s, 1) == 2 && 2 in s.lobby.players && 2 !in s.lobby.byHost
    requires JoinAccepted(s.lobby, 2, req) && req.rid == Some(1)
    ensures s' == Next(s, JoinStep(1, req)) && GuestWaits(s', s.lobby.rooms[1].hostId)
    ensures s'.lobby.lastPlayer == s.lobby.lastPlayer && s'.lobby.lastRoom == s.lobby.lastRoom
  {
    s' := Next(s, JoinStep(1, req));
  }

  lemma GuestStarts(s: Server) returns (s': Server)
    requires Linked(s.lobby) && PlayerOf(s, 1) == 2 && 2 in s.lobby.byHost && s.lobby.byHost[2] == 1
    ensures s' == Next(s, StartStep(1)) && PlayerOf(s', 1) == 2
    ensures 1 in s'.lobby.rooms && s'.lobby.rooms[1].started && s'.lobby.rooms[1].hostId == s.lobby.rooms[1].hostId
  {
    s' := Next(s, StartStep(1));
  }

  lemma RunSnoc(steps: seq<Step>, step: Step)
    requires IdsSuffice(steps) && IdsLeft(Run(steps))
    ensures Run(steps + [step]) == Next(Run(steps), step) && IdsSuffice(steps + [step])
  {
    var more := steps + [step];
    assert more[..|steps|] == steps;
    forall i | 0 <= i < |more|
      ensures IdsLeft(Run(more[..i]))
    {
      assert more[..i] == steps[..i];
      assert steps[..|steps|] == steps;
    }
  }

  lemma TwoSteps(a: Step, b: Step, s1: Server, s2: Server)
    requires s1 == Next(EMPTY, a) && Linked(s1.lobby) && IdsLeft(s1) && s2 == Next(s1, b)
    ensures Run([a, b]) == s2 && IdsSuffice([a, b])
  {
    assert IdsLeft(EMPTY) && IdsSuffice([]);
    RunSnoc([], a);
    assert [] + [a] == [a] && [a] + [b] == [a, b];
    RunSnoc([a], b);
  }

  /** Enter, register. */
  lemma HostRun(nick: Bytes, reg: RegRequest) returns (steps: seq<Step>)
    requires RegAccepted(1, nick, reg)
    ensures steps == [EnterStep(0, nick), RegStep(0, reg)] && IdsSuffice(steps)
    ensures OneRoom(Run(steps), NewRoom(1, 1, ParamsOf(reg, nick)))
  {
    var s1, s2 := FirstRoom(nick, reg);
    TwoSteps(EnterStep(0, nick), RegStep(0, reg), s1, s2);
    steps := [EnterStep(0, nick), RegStep(0, reg)];
  }

  const JOIN_FIRST := JoinRequest(true, false, Some(1), [])

  /** ... enter as a second player, join. */
  lemma GuestRun(nick: Bytes, reg: RegRequest, guest: Bytes) returns (steps: seq<Step>)
    requires RegAccepted(1, nick, reg) && reg.password == [] && reg.maxPl == None
    ensures steps == [EnterStep(0, nick), RegStep(0, reg)] + [EnterStep(1, guest)] + [JoinStep(1, JOIN_FIRST)]
    ensures IdsSuffice(steps) && IdsLeft(Run(steps)) && GuestWaits(Run(steps), 1)
  {
    var host := HostRun(nick, reg);
    var s3 := GuestEnters(Run(host), guest);
    RunSnoc(host, EnterStep(1, guest));
    var s4 := GuestJoins(s3, JOIN_FIRST);
    RunSnoc(host + [EnterStep(1, guest)], JoinStep(1, JOIN_FIRST));
    steps := host + [EnterStep(1, guest)] + [JoinStep(1, JOIN_FIRST)];
  }

  /** Enter, register, enter, join, start by the guest: the host's waiting room is started
      by the other player. */
  lemma GuestStartRun(nick: Bytes, reg: RegRequest, guest: Bytes) returns (steps: seq<Step>)
    requires RegAccepted(1, nick, reg) && reg.password == [] && reg.maxPl == None
    ensures steps == [EnterStep(0, nick), RegStep(0, reg)] + [EnterStep(1, guest)] + [JoinStep(1, JOIN_FIRST)]
    ensures IdsSuffice(steps + [StartStep(1)])
    ensures var before, after := Run(steps), Run(steps + [StartStep(1)]);
      && PlayerOf(before, 1) == 2 && 1 in before.lobby.rooms && 1 in after.lobby.rooms
      && before.lobby.rooms[1].hostId == 1 && !before.lobby.rooms[1].started && after.lobby.rooms[1].started
  {
    steps := GuestRun(nick, reg, guest);
    var s5 := GuestStarts(Run(steps));
    RunSnoc(steps, StartStep(1));
  }
}
