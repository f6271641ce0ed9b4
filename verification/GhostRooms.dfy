/** Rooms that are gone from the list and stay in the control-sum index: how a host makes
    one, and what the clients who poll make of it. */
module GhostRooms {
  import opened Machine
  import opened CommandText
  import opened LobbyModel
  import opened LobbyInvariants
  import opened SumIndex
  import opened TagChange
  import opened Gettbl
  import opened GuestStart
  import opened IndexMembers

  /** The host of a listed waiting room asks, acceptably, to join it. */
  predicate HostRejoins(l: Lobby, p: PlayerId, req: JoinRequest)
    requires Linked(l)
  {
    && p in l.byHost && l.byHost[p] in l.live && l.rooms[l.byHost[p]].hostId == p
    && JoinAccepted(l, p, req) && req.rid == Some(l.byHost[p])
  }

  lemma RejoinRestores(r: RoomRec, p: PlayerId)
    requires RowOk(r) && !r.started && p in r.players
    ensures JoinRoom(LeaveRoom(r, p), p) == r
  {
    var row := SetPlayersColumn(r.row, r.playersCount - 1, r.maxPlayers);
    assert SetPlayersColumn(row, r.playersCount, r.maxPlayers) == r.row;
    assert r.players - {p} + {p} == r.players;
  }

  lemma PutBack<K, V>(m: map<K, V>, k: K, other: K, v: V)
    requires k in m && m[k] == v && other != k
    ensures (m - {k} - {other} - {other})[k := v] == m - {other}
  {
  }

  lemma JoinBack(l: Lobby, l1: Lobby, id: RoomId, p: PlayerId, r1: RoomRec)
    requires Linked(l) && Linked(l1) && p in l.players && id in l.rooms && p in l.byHost && l.byHost[p] == id
    requires var r := l.rooms[id];
      && JoinRoom(r1, p) == r && r1.ctlSum != r.ctlSum && r.ctlSum in l.bySum && l.bySum[r.ctlSum] == id
      && l1 == l.(rooms := l.rooms[id := r1], byHost := l.byHost - {p}, live := l.live - {id},
                  bySum := l.bySum - {r.ctlSum} - {r1.ctlSum})
    ensures LobbyModel.Join(l1, id, p) == l.(live := l.live - {id}, bySum := l.bySum - {r1.ctlSum})
  {
    PutBack(l.bySum, l.rooms[id].ctlSum, r1.ctlSum, id);
    assert l.rooms[id := r1][id := l.rooms[id]] == l.rooms;
    assert (l.byHost - {p})[p := id] == l.byHost;
  }

  /** The rejoin leaves every record and every membership as it was: only the listing goes,
      and whatever the index had under the tag the room carried in between. */
  lemma RejoinKeepsRecords(l: Lobby, p: PlayerId, req: JoinRequest)
    requires LobbyInv(l) && SumExact(l) && HostRejoins(l, p, req)
    ensures var id := l.byHost[p];
      JoinGame(l, p, req) == l.(live := l.live - {id}, bySum := l.bySum - {LeaveRoom(l.rooms[id], p).ctlSum})
  {
    var id := l.byHost[p];
    assert p in Members(l.byHost, id);
    RejoinRestores(l.rooms[id], p);
    LeaveChangesTag(l, p);
    JoinBack(l, Leave(l, p), id, p, LeaveRoom(l.rooms[id], p));
  }

  lemma OneKeyLess(l: Lobby, id: RoomId, sum: uint32)
    ensures l.(live := l.live - {id}, bySum := l.bySum - {sum}) == l.(live := l.live - {id}) <==> sum !in l.bySum
  {
    if sum !in l.bySum { assert l.bySum - {sum} == l.bySum; }
  }

  lemma FreeTag(l: Lobby, id: RoomId, sum: uint32)
    requires SumExact(l) && id in l.live && l.rooms[id].ctlSum != sum
    ensures sum in l.bySum <==> Taken(l, sum, id)
  {
  }

  /** The tag the host's room carries between his leave and his join. */
  function TagBetween(l: Lobby, p: PlayerId): uint32
    requires Linked(l) && p in l.byHost
  {
    LeaveRoom(l.rooms[l.byHost[p]], p).ctlSum
  }

  /** The deleted room is all that changes exactly when no other listed room carries the
      tag in between. */
  lemma RejoinUnlistsIff(l: Lobby, p: PlayerId, req: JoinRequest)
    requires LobbyInv(l) && SumExact(l) && HostRejoins(l, p, req)
    ensures JoinGame(l, p, req) == l.(live := l.live - {l.byHost[p]}) <==> !Taken(l, TagBetween(l, p), l.byHost[p])
  {
    RejoinKeepsRecords(l, p, req);
    LeaveChangesTag(l, p);
    FreeTag(l, l.byHost[p], TagBetween(l, p));
    OneKeyLess(l, l.byHost[p], TagBetween(l, p));
  }

  // ---- What polling clients are told ----

  lemma UnlistedInv(l: Lobby, id: RoomId)
    requires LobbyInv(l)
    ensures LobbyInv(l.(live := l.live - {id}))
  {
  }

  /** A waiting room goes from the list only. */
  ghost predicate OnlyUnlisted(l: Lobby, l': Lobby, id: RoomId)
  {
    && LobbyInv(l) && LobbyInv(l') && SumExact(l)
    && id in l.live && !l.rooms[id].started && l' == l.(live := l.live - {id})
  }

  lemma NothingDropped(l: Lobby, l': Lobby, id: RoomId, hideStarted: bool, requested: seq<uint32>)
    requires OnlyUnlisted(l, l', id) && ToSet(requested) == VisibleSums(l, hideStarted)
    ensures Deletions(l', hideStarted, requested) == []
  {
    ExactAnswers(l, hideStarted);
    DeletionsAre(l', hideStarted, requested);
    var dtbl := Deletions(l', hideStarted, requested);
    if dtbl != [] {
      FirstIn(dtbl);
      assert dtbl[0] in ToSet(requested) && Dropped(l, hideStarted, dtbl[0]);
    }
  }

  lemma NothingNew(l: Lobby, l': Lobby, id: RoomId, hideStarted: bool, matches: bool, held: set<uint32>)
    requires OnlyUnlisted(l, l', id) && held == VisibleSums(l, hideStarted)
    ensures NewRooms(l', hideStarted, matches, held) == {}
  {
    forall x | x in l'.live && Shown(l', hideStarted, x)
      ensures l'.rooms[x].ctlSum in held
    {
      assert x in l.live && Shown(l, hideStarted, x);
    }
  }

  lemma Unlisted(
    l: Lobby, l': Lobby, id: RoomId, hideStarted: bool, ver: byte, args: seq<Bytes>, cmds: CommandSet, ids: seq<RoomId>)
    requires OnlyUnlisted(l, l', id) && |args| >= 3 && ToSet(Unpack(args[2])) == VisibleSums(l, hideStarted)
    requires Replies(l', hideStarted, ver, args, cmds, ids)
    ensures cmds == QuietReply(TrimNul(args[0])) && ids == []
  {
    var requested := Unpack(args[2]);
    NothingDropped(l, l', id, hideStarted, requested);
    NothingNew(l, l', id, hideStarted, EqualFold(TrimNul(args[0]), TableName(ver)), ToSet(requested));
    if ids != [] { FirstIn(ids); }
    QuietIsEmpty(l', hideStarted, ver, args, cmds, ids);
  }

  lemma ShownButGone(l: Lobby, l': Lobby, id: RoomId, hideStarted: bool)
    requires OnlyUnlisted(l, l', id)
    ensures l.rooms[id].ctlSum in VisibleSums(l, hideStarted) && l.rooms[id].ctlSum !in VisibleSums(l', hideStarted)
  {
    assert Shown(l, hideStarted, id);
  }

  lemma RejoinUnlists(l: Lobby, p: PlayerId, req: JoinRequest)
    requires LobbyInv(l) && SumExact(l) && HostRejoins(l, p, req)
    requires !Taken(l, TagBetween(l, p), l.byHost[p])
    ensures OnlyUnlisted(l, JoinGame(l, p, req), l.byHost[p])
  {
    RejoinUnlistsIff(l, p, req);
    UnlistedInv(l, l.byHost[p]);
  }

  /** A client that was up to date is then sent nothing about the room that was deleted,
      and so goes on showing it. */
  lemma RejoinUnseen(
    l: Lobby, p: PlayerId, req: JoinRequest, hideStarted: bool, ver: byte, args: seq<Bytes>, cmds: CommandSet,
    ids: seq<RoomId>)
    requires LobbyInv(l) && SumExact(l) && HostRejoins(l, p, req)
    requires !Taken(l, TagBetween(l, p), l.byHost[p])
    requires |args| >= 3 && ToSet(Unpack(args[2])) == VisibleSums(l, hideStarted)
    requires Replies(JoinGame(l, p, req), hideStarted, ver, args, cmds, ids)
    ensures cmds == QuietReply(TrimNul(args[0]))
    ensures var tag := l.rooms[l.byHost[p]].ctlSum;
      tag in ToSet(Unpack(args[2])) && tag !in VisibleSums(JoinGame(l, p, req), hideStarted)
  {
    RejoinUnlists(l, p, req);
    Unlisted(l, JoinGame(l, p, req), l.byHost[p], hideStarted, ver, args, cmds, ids);
    ShownButGone(l, JoinGame(l, p, req), l.byHost[p], hideStarted);
  }

  // ---- Many polls ----

  ghost predicate PolledBy(
    l: Lobby, hideStarted: bool, held: set<uint32>, held': set<uint32>, ver: byte, args: seq<Bytes>, cmds: CommandSet,
    ids: seq<RoomId>)
    requires Linked(l)
  {
    && |args| >= 3 && Replies(l, hideStarted, ver, args, cmds, ids) && EqualFold(TrimNul(args[0]), TableName(ver))
    && held == ToSet(Unpack(args[2])) && held' == AfterPoll(l, held, cmds[0].args[1], ids)
  }

  /** One poll of the current table takes a client from `held` to `held'`. */
  ghost predicate Polled(l: Lobby, hideStarted: bool, held: set<uint32>, held': set<uint32>)
    requires Linked(l)
  {
    exists ver: byte, args: seq<Bytes>, cmds: CommandSet, ids: seq<RoomId> ::
      PolledBy(l, hideStarted, held, held', ver, args, cmds, ids)
  }

  /** The client's views through polls in one and the same state. */
  ghost predicate PollsHere(l: Lobby, hideStarted: bool, held: seq<set<uint32>>)
    requires Linked(l)
  {
    forall i :: 0 <= i < |held| - 1 ==> Polled(l, hideStarted, held[i], held[i + 1])
  }

  lemma PollKeepsIff(l: Lobby, hideStarted: bool, held: set<uint32>, held': set<uint32>, tag: uint32)
    requires LobbyInv(l) && Polled(l, hideStarted, held, held') && tag in held
    ensures tag in held' <==> !Dropped(l, hideStarted, tag)
  {
    var ver: byte, args: seq<Bytes>, cmds: CommandSet, ids: seq<RoomId> :|
      PolledBy(l, hideStarted, held, held', ver, args, cmds, ids);
    PollResult(l, hideStarted, Unpack(args[2]), ids, tag);
  }

  /** The client's views before and after each of a series of polls, in whatever states. */
  ghost predicate Polls(views: seq<Lobby>, hideStarted: bool, held: seq<set<uint32>>)
  {
    && |held| == |views| + 1
    && forall i :: 0 <= i < |views| ==> LobbyInv(views[i]) && Polled(views[i], hideStarted, held[i], held[i + 1])
  }

  lemma {:induction false} KeptUpTo(
    views: seq<Lobby>, hideStarted: bool, held: seq<set<uint32>>, tag: uint32, k: nat)
    requires Polls(views, hideStarted, held) && tag in held[0] && k <= |views|
    requires forall i :: 0 <= i < k ==> !Dropped(views[i], hideStarted, tag)
    ensures tag in held[k]
  {
    if k > 0 {
      KeptUpTo(views, hideStarted, held, tag, k - 1);
      PollKeepsIff(views[k - 1], hideStarted, held[k - 1], held[k], tag);
    }
  }

  /** Whatever happens between the polls: a client keeps a tag through all of them exactly
      when at every one the index leads to a room it may see, listed or not. */
  lemma KeptThroughPollsIff(views: seq<Lobby>, hideStarted: bool, held: seq<set<uint32>>, tag: uint32)
    requires Polls(views, hideStarted, held) && tag in held[0]
    ensures (forall i :: 0 <= i <= |views| ==> tag in held[i])
      <==> (forall i :: 0 <= i < |views| ==> !Dropped(views[i], hideStarted, tag))
  {
    if forall i :: 0 <= i <= |views| ==> tag in held[i] {
      forall i | 0 <= i < |views|
        ensures !Dropped(views[i], hideStarted, tag)
      {
        PollKeepsIff(views[i], hideStarted, held[i], held[i + 1], tag);
      }
    }
    if forall i :: 0 <= i < |views| ==> !Dropped(views[i], hideStarted, tag) {
      forall k | 0 <= k <= |views|
        ensures tag in held[k]
      {
        KeptUpTo(views, hideStarted, held, tag, k);
      }
    }
  }

  lemma QuietPoll(
    l: Lobby, hideStarted: bool, held: set<uint32>, held': set<uint32>, ver: byte, args: seq<Bytes>, cmds: CommandSet,
    ids: seq<RoomId>)
    requires Linked(l) && PolledBy(l, hideStarted, held, held', ver, args, cmds, ids)
    requires cmds == QuietReply(TrimNul(args[0])) && ids == []
    ensures held' == held
  {
  }

  lemma SentNothing(l: Lobby, l': Lobby, id: RoomId, hideStarted: bool, held: set<uint32>, held': set<uint32>)
    requires OnlyUnlisted(l, l', id) && held == VisibleSums(l, hideStarted) && Polled(l', hideStarted, held, held')
    ensures held' == held
  {
    var ver: byte, args: seq<Bytes>, cmds: CommandSet, ids: seq<RoomId> :|
      PolledBy(l', hideStarted, held, held', ver, args, cmds, ids);
    Unlisted(l, l', id, hideStarted, ver, args, cmds, ids);
    QuietPoll(l', hideStarted, held, held', ver, args, cmds, ids);
  }

  /** A view that no poll of the state changes. */
  ghost predicate Stable(l: Lobby, hideStarted: bool, view: set<uint32>)
    requires Linked(l)
  {
    forall h: set<uint32> :: Polled(l, hideStarted, view, h) ==> h == view
  }

  lemma UnlistedStable(l: Lobby, l': Lobby, id: RoomId, hideStarted: bool)
    requires OnlyUnlisted(l, l', id)
    ensures Stable(l', hideStarted, VisibleSums(l, hideStarted))
  {
    var view := VisibleSums(l, hideStarted);
    forall h: set<uint32> | Polled(l', hideStarted, view, h)
      ensures h == view
    {
      SentNothing(l, l', id, hideStarted, view, h);
    }
  }

  lemma {:induction false} NeverSeen(l: Lobby, hideStarted: bool, held: seq<set<uint32>>, k: nat)
    requires Linked(l) && k < |held| && Stable(l, hideStarted, held[0]) && PollsHere(l, hideStarted, held)
    ensures held[k] == held[0]
  {
    if k > 0 {
      NeverSeen(l, hideStarted, held, k - 1);
      assert Polled(l, hideStarted, held[k - 1], held[k - 1 + 1]);
    }
  }

  /** After the rejoin no number of polls tells an up-to-date client. */
  lemma RejoinNeverSeen(
    l: Lobby, p: PlayerId, req: JoinRequest, hideStarted: bool, held: seq<set<uint32>>, k: nat)
    requires LobbyInv(l) && SumExact(l) && HostRejoins(l, p, req)
    requires !Taken(l, TagBetween(l, p), l.byHost[p])
    requires k < |held| && held[0] == VisibleSums(l, hideStarted)
    requires PollsHere(JoinGame(l, p, req), hideStarted, held)
    ensures held[k] == VisibleSums(l, hideStarted)
    ensures held[k] - VisibleSums(JoinGame(l, p, req), hideStarted) != {}
  {
    RejoinUnlists(l, p, req);
    UnlistedStable(l, JoinGame(l, p, req), l.byHost[p], hideStarted);
    NeverSeen(JoinGame(l, p, req), hideStarted, held, k);
    ShownButGone(l, JoinGame(l, p, req), l.byHost[p], hideStarted);
    assert l.rooms[l.byHost[p]].ctlSum in held[k] - VisibleSums(JoinGame(l, p, req), hideStarted);
  }

  lemma RejoinedAlone(s: Server)
    requires LobbyInv(s.lobby) && SumExact(s.lobby) && HostRejoins(s.lobby, 1, JOIN_FIRST) && IdsLeft(s)
    requires PlayerOf(s, 0) == 1 && s.lobby.byHost == map[1 := 1]
    ensures var s' := Next(s, JoinStep(0, JOIN_FIRST));
      && s'.lobby == JoinGame(s.lobby, 1, JOIN_FIRST)
      && s'.lobby.live == s.lobby.live - {1} && !SumExact(s'.lobby)
      && IdsLeft(s') && PlayerOf(s', 0) == 1 && s'.lobby.byHost == map[1 := 1]
  {
    RejoinKeepsRecords(s.lobby, 1, JOIN_FIRST);
    HostRejoinLeavesGhost(s.lobby, 1, JOIN_FIRST);
  }

  lemma HostCanRejoin(l: Lobby, params: RoomParams)
    requires Linked(l) && l.live == {1} && l.byHost == map[1 := 1] && l.rooms == map[1 := NewRoom(1, 1, params)]
    requires params.password == [] && params.maxPlayers > 1
    ensures HostRejoins(l, 1, JOIN_FIRST) && l.live == {l.byHost[1]}
  {
  }

  /** Player 1 was alone in the one listed room before the last step, and is in it still,
      though nothing is listed and the index is not exact. */
  ghost predicate LeavesGhost(before: Server, after: Server)
  {
    var l, l' := before.lobby, after.lobby;
    && LobbyInv(l) && SumExact(l) && HostRejoins(l, 1, JOIN_FIRST) && l.live == {l.byHost[1]}
    && l' == JoinGame(l, 1, JOIN_FIRST) && l'.byHost == map[1 := 1] && l'.live == {} && !SumExact(l')
    && PlayerOf(after, 0) == 1
  }

  /** It happens: one player enters, creates a room and joins it. */
  lemma RejoinRun(nick: Bytes, reg: RegRequest) returns (host: seq<Step>, steps: seq<Step>)
    requires RegAccepted(1, nick, reg) && reg.password == [] && reg.maxPl == None
    ensures host == [EnterStep(0, nick), RegStep(0, reg)] && steps == host + [JoinStep(0, JOIN_FIRST)]
    ensures IdsSuffice(steps) && IdsLeft(Run(steps)) && LeavesGhost(Run(host), Run(steps))
  {
    host := HostRun(nick, reg);
    HostCanRejoin(Run(host).lobby, ParamsOf(reg, nick));
    RejoinedAlone(Run(host));
    RunSnoc(host, JoinStep(0, JOIN_FIRST));
    steps := host + [JoinStep(0, JOIN_FIRST)];
  }

  /** A client that was up to date in `l` shows a room after any number of polls in `l'`,
      where nothing is listed. */
  ghost predicate ShownForever(l: Lobby, l': Lobby, hideStarted: bool)
    requires Linked(l) && Linked(l')
  {
    && VisibleSums(l', hideStarted) == {}
    && forall held: seq<set<uint32>>, k: nat ::
         PollsHere(l', hideStarted, held) && k < |held| && held[0] == VisibleSums(l, hideStarted)
         ==> held[k] == held[0] != {}
  }

  lemma StableForever(l: Lobby, hideStarted: bool, view: set<uint32>)
    requires Linked(l) && Stable(l, hideStarted, view)
    ensures forall held: seq<set<uint32>>, k: nat ::
      PollsHere(l, hideStarted, held) && k < |held| && held[0] == view ==> held[k] == view
  {
    forall held: seq<set<uint32>>, k: nat | PollsHere(l, hideStarted, held) && k < |held| && held[0] == view
      ensures held[k] == view
    {
      NeverSeen(l, hideStarted, held, k);
    }
  }

  lemma LastRoomUnlisted(l: Lobby, l': Lobby, id: RoomId, hideStarted: bool)
    requires OnlyUnlisted(l, l', id) && l'.live == {}
    ensures ShownForever(l, l', hideStarted)
  {
    ShownButGone(l, l', id, hideStarted);
    UnlistedStable(l, l', id, hideStarted);
    StableForever(l', hideStarted, VisibleSums(l, hideStarted));
  }

  lemma LastRoomRejoined(l: Lobby, p: PlayerId, req: JoinRequest, hideStarted: bool)
    requires LobbyInv(l) && SumExact(l) && HostRejoins(l, p, req) && l.live == {l.byHost[p]}
    ensures ShownForever(l, JoinGame(l, p, req), hideStarted)
  {
    assert !Taken(l, TagBetween(l, p), l.byHost[p]);
    RejoinUnlists(l, p, req);
    LastRoomUnlisted(l, JoinGame(l, p, req), l.byHost[p], hideStarted);
  }

  /** And the run that gets there. */
  lemma GhostForever(nick: Bytes, reg: RegRequest, hideStarted: bool) returns (host: seq<Step>, steps: seq<Step>)
    requires RegAccepted(1, nick, reg) && reg.password == [] && reg.maxPl == None
    ensures host == [EnterStep(0, nick), RegStep(0, reg)] && steps == host + [JoinStep(0, JOIN_FIRST)]
    ensures IdsSuffice(steps) && ShownForever(Run(host).lobby, Run(steps).lobby, hideStarted)
  {
    host, steps := RejoinRun(nick, reg);
    LastRoomRejoined(Run(host).lobby, 1, JOIN_FIRST, hideStarted);
  }

  // ---- How it ends ----

  /** The tags of the rooms, listed or not, that have a member. */
  function InhabitedSums(l: Lobby): set<uint32>
  {
    set id | id in l.rooms && Members(l.byHost, id) != {} :: l.rooms[id].ctlSum
  }

  lemma AnsweredIsInhabited(l: Lobby, hideStarted: bool, tag: uint32)
    requires LobbyInv(l) && Inhabited(l)
    ensures !Dropped(l, hideStarted, tag) ==> tag in InhabitedSums(l)
    ensures tag in VisibleSums(l, hideStarted) ==> tag in InhabitedSums(l)
  {
    if !Dropped(l, hideStarted, tag) { assert l.bySum[tag] in l.rooms; }
    if tag in VisibleSums(l, hideStarted) {
      var id :| id in l.live && Shown(l, hideStarted, id) && l.rooms[id].ctlSum == tag;
      assert id in l.rooms && Members(l.byHost, id) != {};
    }
  }

  lemma PollShowsInhabited(l: Lobby, hideStarted: bool, held: set<uint32>, held': set<uint32>)
    requires LobbyInv(l) && Inhabited(l) && Polled(l, hideStarted, held, held')
    ensures held' <= InhabitedSums(l)
  {
    var ver: byte, args: seq<Bytes>, cmds: CommandSet, ids: seq<RoomId> :|
      PolledBy(l, hideStarted, held, held', ver, args, cmds, ids);
    forall tag | tag in held'
      ensures tag in InhabitedSums(l)
    {
      PollResult(l, hideStarted, Unpack(args[2]), ids, tag);
      AnsweredIsInhabited(l, hideStarted, tag);
    }
  }

  /** After any run and any poll a client shows only tags of rooms that have a member; so
      it drops a deleted room at its first poll after the last member has left. */
  lemma GhostsHaveMembers(steps: seq<Step>, hideStarted: bool, held: set<uint32>, held': set<uint32>)
    requires IdsSuffice(steps) && Polled(Run(steps).lobby, hideStarted, held, held')
    ensures held' <= InhabitedSums(Run(steps).lobby)
  {
    RunKeepsInv(steps);
    RunKeepsInhabited(steps);
    PollShowsInhabited(Run(steps).lobby, hideStarted, held, held');
  }

  lemma LastOneLeaves(s: Server)
    requires Linked(s.lobby) && PlayerOf(s, 0) == 1 && s.lobby.byHost == map[1 := 1]
    ensures Next(s, LeaveStep(0)).lobby.byHost == map[]
  {
  }

  /** Once the player has left as well, one poll empties every view. */
  lemma GhostEnds(nick: Bytes, reg: RegRequest) returns (steps: seq<Step>)
    requires RegAccepted(1, nick, reg) && reg.password == [] && reg.maxPl == None
    ensures steps == [EnterStep(0, nick), RegStep(0, reg)] + [JoinStep(0, JOIN_FIRST)] + [LeaveStep(0)]
    ensures IdsSuffice(steps)
    ensures forall hideStarted: bool, held: set<uint32>, held': set<uint32> ::
      Polled(Run(steps).lobby, hideStarted, held, held') ==> held' == {}
  {
    var _, joined := RejoinRun(nick, reg);
    LastOneLeaves(Run(joined));
    RunSnoc(joined, LeaveStep(0));
    steps := joined + [LeaveStep(0)];
    NobodyLeft(Run(steps).lobby);
    forall hideStarted: bool, held: set<uint32>, held': set<uint32> | Polled(Run(steps).lobby, hideStarted, held, held')
      ensures held' == {}
    {
      GhostsHaveMembers(steps, hideStarted, held, held');
    }
  }

  lemma NobodyLeft(l: Lobby)
    requires l.byHost == map[]
    ensures InhabitedSums(l) == {}
  {
    forall id ensures Members(l.byHost, id) == {} { }
  }
}
