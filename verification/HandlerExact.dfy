/** Exactly when the requests that leave one room and enter another keep the control-sum
    index exact. The second operation can repair what the first one broke, so the conditions
    are not just those of the two operations. */
module HandlerExact {
  import opened Machine
  import opened LobbyModel
  import opened LobbyInvariants
  import opened SumIndex

  type Index = map<uint32, RoomId>
  type Tags = map<RoomId, uint32>

  /** The index is the inverse of the tags of the listed rooms. */
  ghost predicate Inverse(index: Index, live: set<RoomId>, tags: Tags)
  {
    && (forall k :: k in index ==> index[k] in live && index[k] in tags && tags[index[k]] == k)
    && (forall x :: x in live ==> x in tags && tags[x] in index && index[tags[x]] == x)
  }

  function TagsOf(rooms: map<RoomId, RoomRec>): Tags { map id | id in rooms :: rooms[id].ctlSum }

  lemma ExactIsInverse(l: Lobby)
    requires Linked(l)
    ensures SumExact(l) <==> Inverse(l.bySum, l.live, TagsOf(l.rooms))
  {
  }

  /** A listed room other than the two carries the tag. */
  ghost predicate Held(live: set<RoomId>, tags: Tags, sum: uint32, a: RoomId, b: RoomId)
  {
    exists x :: x in live && x in tags && x != a && x != b && tags[x] == sum
  }

  /** The index and the list after a leave from room a, whose new tag is t. */
  function IndexAfterLeave(index: Index, tags: Tags, a: RoomId, t: uint32, deleted: bool): Index
    requires a in tags
  {
    if deleted then index - {tags[a]} - {t} else (index - {tags[a]})[t := a]
  }

  function LiveAfterLeave(live: set<RoomId>, a: RoomId, deleted: bool): set<RoomId>
  {
    if deleted then live - {a} else live
  }

  /** A listed room, neither a nor b, that the index does not lead to. */
  lemma Misses(index: Index, live: set<RoomId>, tags: Tags, x: RoomId)
    requires x in live && x in tags && (tags[x] in index ==> index[tags[x]] != x)
    ensures !Inverse(index, live, tags)
  {
  }

  lemma HeldMisses(
    index: Index, live: set<RoomId>, tags: Tags, sum: uint32, a: RoomId, b: RoomId, live': set<RoomId>, tags': Tags)
    requires Held(live, tags, sum, a, b) && live - {a} <= live'
    requires forall x :: x in tags && x != a && x != b ==> x in tags' && tags'[x] == tags[x]
    requires sum in index ==> index[sum] in {a, b}
    ensures !Inverse(index, live', tags')
  {
    var x :| x in live && x in tags && x != a && x != b && tags[x] == sum;
    Misses(index, live', tags', x);
  }

  /** When the two rooms' entries lie apart from all others', only they need checking. */
  lemma OthersFine(
    index: Index, live: set<RoomId>, tags: Tags, a: RoomId, b: RoomId, index': Index, live': set<RoomId>, tags': Tags)
    requires Inverse(index, live, tags) && live - {a, b} == live' - {a, b}
    requires forall x :: x !in {a, b} ==> (x in tags' <==> x in tags) && (x in tags ==> tags'[x] == tags[x])
    requires forall x :: x in live && x !in {a, b} ==> tags[x] in index' && index'[tags[x]] == x
    requires forall k :: k in index' && index'[k] !in {a, b} ==> k in index && index[k] == index'[k]
    requires forall k :: k in index' && index'[k] in {a, b} ==>
      index'[k] in live' && index'[k] in tags' && tags'[index'[k]] == k
    requires forall x :: x in live' && x in {a, b} ==> x in tags' && tags'[x] in index' && index'[tags'[x]] == x
    ensures Inverse(index', live', tags')
  {
    forall k | k in index'
      ensures index'[k] in live' && index'[k] in tags' && tags'[index'[k]] == k
    {
      var x := index'[k];
      if x !in {a, b} { assert x in live - {a, b}; }
    }
    forall x | x in live'
      ensures x in tags' && tags'[x] in index' && index'[tags'[x]] == x
    {
      if x !in {a, b} { assert x in live' - {a, b}; }
    }
  }

  lemma MoveStays(
    index: Index, live: set<RoomId>, tags: Tags, a: RoomId, b: RoomId, t: uint32, u: uint32, deleted: bool)
    requires Inverse(index, live, tags) && a in tags && b in tags && b in live && a != b
    requires
      && !Held(live, tags, u, a, b) && !Held(live, tags, t, a, b)
      && (a in live && !deleted ==> t != tags[b] && t != u)
      && (a !in live ==> !Held(live, tags, tags[a], a, b) && (deleted || t == tags[b] || t == u))
    ensures Inverse((IndexAfterLeave(index, tags, a, t, deleted) - {tags[b]})[u := b],
                    LiveAfterLeave(live, a, deleted), tags[a := t][b := u])
  {
    var index' := (IndexAfterLeave(index, tags, a, t, deleted) - {tags[b]})[u := b];
    OthersFine(index, live, tags, a, b, index', LiveAfterLeave(live, a, deleted), tags[a := t][b := u]);
  }

  /** Leave room a, then refile room b under u. */
  lemma MoveExactIff(
    index: Index, live: set<RoomId>, tags: Tags, a: RoomId, b: RoomId, t: uint32, u: uint32, deleted: bool)
    requires Inverse(index, live, tags) && a in tags && b in tags && b in live && a != b
    ensures Inverse((IndexAfterLeave(index, tags, a, t, deleted) - {tags[b]})[u := b],
                    LiveAfterLeave(live, a, deleted), tags[a := t][b := u])
      <==>
      && !Held(live, tags, u, a, b) && !Held(live, tags, t, a, b)
      && (a in live && !deleted ==> t != tags[b] && t != u)
      && (a !in live ==> !Held(live, tags, tags[a], a, b) && (deleted || t == tags[b] || t == u))
  {
    var index' := (IndexAfterLeave(index, tags, a, t, deleted) - {tags[b]})[u := b];
    var live' := LiveAfterLeave(live, a, deleted);
    var tags' := tags[a := t][b := u];
    if Held(live, tags, u, a, b) {
      HeldMisses(index', live, tags, u, a, b, live', tags');
    } else if Held(live, tags, t, a, b) {
      HeldMisses(index', live, tags, t, a, b, live', tags');
    } else if a in live && !deleted && (t == tags[b] || t == u) {
      Misses(index', live', tags', a);
    } else if a !in live && Held(live, tags, tags[a], a, b) {
      HeldMisses(index', live, tags, tags[a], a, b, live', tags');
    } else if a !in live && !deleted && t != tags[b] && t != u {
      assert t in index' && index'[t] == a;
    } else {
      MoveStays(index, live, tags, a, b, t, u, deleted);
    }
  }

  lemma AddStays(
    index: Index, live: set<RoomId>, tags: Tags, a: RoomId, b: RoomId, t: uint32, u: uint32, deleted: bool)
    requires Inverse(index, live, tags) && a in tags && b !in tags
    requires
      && !Held(live, tags, u, a, b) && !Held(live, tags, t, a, b)
      && (a in live && !deleted ==> t != u)
      && (a !in live ==> !Held(live, tags, tags[a], a, b) && (deleted || t == u))
    ensures Inverse(IndexAfterLeave(index, tags, a, t, deleted)[u := b],
                    LiveAfterLeave(live, a, deleted) + {b}, tags[a := t][b := u])
  {
    var index' := IndexAfterLeave(index, tags, a, t, deleted)[u := b];
    OthersFine(index, live, tags, a, b, index', LiveAfterLeave(live, a, deleted) + {b}, tags[a := t][b := u]);
  }

  /** Leave room a, then file the new room b under u. */
  lemma AddExactIff(
    index: Index, live: set<RoomId>, tags: Tags, a: RoomId, b: RoomId, t: uint32, u: uint32, deleted: bool)
    requires Inverse(index, live, tags) && a in tags && b !in tags
    ensures Inverse(IndexAfterLeave(index, tags, a, t, deleted)[u := b],
                    LiveAfterLeave(live, a, deleted) + {b}, tags[a := t][b := u])
      <==>
      && !Held(live, tags, u, a, b) && !Held(live, tags, t, a, b)
      && (a in live && !deleted ==> t != u)
      && (a !in live ==> !Held(live, tags, tags[a], a, b) && (deleted || t == u))
  {
    var index' := IndexAfterLeave(index, tags, a, t, deleted)[u := b];
    var live' := LiveAfterLeave(live, a, deleted) + {b};
    var tags' := tags[a := t][b := u];
    if Held(live, tags, u, a, b) {
      HeldMisses(index', live, tags, u, a, b, live', tags');
    } else if Held(live, tags, t, a, b) {
      HeldMisses(index', live, tags, t, a, b, live', tags');
    } else if a in live && !deleted && t == u {
      Misses(index', live', tags', a);
    } else if a !in live && Held(live, tags, tags[a], a, b) {
      HeldMisses(index', live, tags, tags[a], a, b, live', tags');
    } else if a !in live && !deleted && t != u {
      assert t in index' && index'[t] == a;
    } else {
      AddStays(index, live, tags, a, b, t, u, deleted);
    }
  }

  // ---- The requests ----

  /** What p's leave does to the tags, seen from the request that follows it; `refiled` is
      the tag the next operation removes and `filed` the one it writes. */
  ghost predicate LeaveHarmless(l: Lobby, p: PlayerId, b: RoomId, refiled: Option<uint32>, filed: uint32)
    requires Linked(l) && p in l.byHost
  {
    var a := l.byHost[p];
    var r := l.rooms[a];
    var t := LeaveRoom(r, p).ctlSum;
    var tags := TagsOf(l.rooms);
    var covered := refiled == Some(t) || filed == t;
    && !Held(l.live, tags, filed, a, b) && !Held(l.live, tags, t, a, b)
    && (a in l.live && !DeletedByLeave(r, p) ==> !covered)
    && (a !in l.live ==> !Held(l.live, tags, r.ctlSum, a, b) && (DeletedByLeave(r, p) || covered))
  }

  ghost predicate JoinGameExact(l: Lobby, p: PlayerId, req: JoinRequest)
    requires Linked(l)
  {
    JoinAccepted(l, p, req) ==>
      var b := req.rid.value;
      if p !in l.byHost then JoinSafe(l, b, p)
      else if l.byHost[p] == b then LeaveSafe(l, p) && JoinSafe(Leave(l, p), b, p)
      else LeaveHarmless(l, p, b, Some(l.rooms[b].ctlSum), JoinRoom(l.rooms[b], p).ctlSum)
  }

  /** What the tag of a new room b has to meet. */
  ghost predicate FreshRoomExact(l: Lobby, p: PlayerId, b: RoomId, tag: uint32)
    requires Linked(l)
  {
    if p !in l.byHost then !Taken(l, tag, b) else LeaveHarmless(l, p, b, None, tag)
  }

  ghost predicate RegNewRoomExact(l: Lobby, p: PlayerId, nick: Bytes, req: RegRequest)
    requires Linked(l)
  {
    RegAccepted(p, nick, req) ==>
      var b := Wrap32(l.lastRoom + 1);
      FreshRoomExact(l, p, b, NewRoom(b, p, ParamsOf(req, nick)).ctlSum)
  }

  lemma MoveTags(rooms: map<RoomId, RoomRec>, a: RoomId, ra: RoomRec, b: RoomId, rb: RoomRec)
    ensures TagsOf(rooms[a := ra][b := rb]) == TagsOf(rooms)[a := ra.ctlSum][b := rb.ctlSum]
  {
  }

  lemma MoveToOther(l: Lobby, p: PlayerId, b: RoomId)
    requires SumExact(l) && p in l.players && p in l.byHost && b in l.live && l.byHost[p] != b
    ensures SumExact(Join(Leave(l, p), b, p)) <==>
      LeaveHarmless(l, p, b, Some(l.rooms[b].ctlSum), JoinRoom(l.rooms[b], p).ctlSum)
  {
    var a := l.byHost[p];
    var ra, rb := LeaveRoom(l.rooms[a], p), JoinRoom(l.rooms[b], p);
    var m := Join(Leave(l, p), b, p);
    ExactIsInverse(l);
    ExactIsInverse(m);
    MoveTags(l.rooms, a, ra, b, rb);
    assert m.rooms == l.rooms[a := ra][b := rb];
    MoveExactIff(l.bySum, l.live, TagsOf(l.rooms), a, b, ra.ctlSum, rb.ctlSum, DeletedByLeave(l.rooms[a], p));
  }

  /** l1 is the lobby after p's leave, m the one that also has r filed as the new room b. */
  ghost predicate Filed(l: Lobby, l1: Lobby, m: Lobby, p: PlayerId, b: RoomId, r: RoomRec)
    requires Linked(l)
  {
    && l1 == Leave(l, p) && Linked(m) && b !in l.rooms
    && m.rooms == l1.rooms[b := r] && m.live == l1.live + {b} && m.bySum == l1.bySum[r.ctlSum := b]
  }

  lemma MoveToNew(l: Lobby, l1: Lobby, m: Lobby, p: PlayerId, b: RoomId, r: RoomRec)
    requires SumExact(l) && p in l.byHost && Filed(l, l1, m, p, b, r)
    ensures SumExact(m) <==> LeaveHarmless(l, p, b, None, r.ctlSum)
  {
    var a := l.byHost[p];
    var ra := LeaveRoom(l.rooms[a], p);
    ExactIsInverse(l);
    ExactIsInverse(m);
    MoveTags(l.rooms, a, ra, b, r);
    AddExactIff(l.bySum, l.live, TagsOf(l.rooms), a, b, ra.ctlSum, r.ctlSum, DeletedByLeave(l.rooms[a], p));
  }

  lemma NothingToLeave(l: Lobby, m: Lobby, p: PlayerId, b: RoomId, r: RoomRec)
    requires SumExact(l) && p !in l.byHost && Filed(l, l, m, p, b, r)
    ensures SumExact(m) <==> !Taken(l, r.ctlSum, b)
  {
    FiledExactIff(l, m, b, r);
  }

  lemma FreshRoomExactIff(l: Lobby, l1: Lobby, m: Lobby, p: PlayerId, b: RoomId, r: RoomRec)
    requires SumExact(l) && Filed(l, l1, m, p, b, r)
    ensures SumExact(m) <==> FreshRoomExact(l, p, b, r.ctlSum)
  {
    if p in l.byHost {
      MoveToNew(l, l1, m, p, b, r);
    } else {
      NothingToLeave(l, m, p, b, r);
    }
  }

  /** Leaving a room and joining the same one again. */
  lemma RejoinSame(l: Lobby, p: PlayerId, b: RoomId)
    requires SumExact(l) && p in l.players && p in l.byHost && b in l.live && l.byHost[p] == b
    ensures SumExact(Join(Leave(l, p), b, p)) <==> LeaveSafe(l, p) && JoinSafe(Leave(l, p), b, p)
  {
    var l1 := Leave(l, p);
    var m := Join(l1, b, p);
    var t := l1.rooms[b].ctlSum;
    LeaveExactIff(l, p);
    if LeaveSafe(l, p) {
      JoinExactIff(l1, b, p);
    } else {
      var x :| x in l.live && x != b && l.rooms[x].ctlSum == t;
      assert x in m.live && m.rooms[x].ctlSum == t && (t in m.bySum ==> m.bySum[t] == b);
    }
  }

  lemma JoinGameExactIff(l: Lobby, p: PlayerId, req: JoinRequest)
    requires SumExact(l) && (p == 0 || p in l.players)
    ensures SumExact(JoinGame(l, p, req)) <==> JoinGameExact(l, p, req)
  {
    if JoinAccepted(l, p, req) {
      var b := req.rid.value;
      if p !in l.byHost {
        JoinExactIff(l, b, p);
      } else if l.byHost[p] == b {
        RejoinSame(l, p, b);
      } else {
        MoveToOther(l, p, b);
      }
    }
  }

  lemma AcceptedIsFiled(
    l: Lobby, m: Lobby, p: PlayerId, nick: Bytes, req: RegRequest, params: RoomParams, b: RoomId, r: RoomRec)
    requires Linked(l) && p in l.players && RegAccepted(p, nick, req) && params == ParamsOf(req, nick)
    requires b == Wrap32(l.lastRoom + 1) && b !in l.rooms && r == NewRoom(b, p, params)
    requires m == RegNewRoom(l, p, nick, req)
    ensures Filed(l, Leave(l, p), m, p, b, r)
  {
    LeaveFrame(l, p);
    RegisterShape(Leave(l, p), m, p, params, b, r);
  }

  lemma RegisterShape(l: Lobby, m: Lobby, p: PlayerId, params: RoomParams, b: RoomId, r: RoomRec)
    requires Linked(l) && p in l.players && m == RegisterNew(l, p, params)
    requires b == Wrap32(l.lastRoom + 1) && r == NewRoom(b, p, params)
    ensures Linked(m) && m.rooms == l.rooms[b := r] && m.live == l.live + {b} && m.bySum == l.bySum[r.ctlSum := b]
  {
  }

  lemma AcceptedExactIff(
    l: Lobby, m: Lobby, p: PlayerId, nick: Bytes, req: RegRequest, params: RoomParams, b: RoomId, r: RoomRec)
    requires SumExact(l) && p in l.players && RegAccepted(p, nick, req) && params == ParamsOf(req, nick)
    requires b == Wrap32(l.lastRoom + 1) && b !in l.rooms && r == NewRoom(b, p, params)
    requires m == RegNewRoom(l, p, nick, req)
    ensures SumExact(m) <==> RegNewRoomExact(l, p, nick, req)
  {
    AcceptedIsFiled(l, m, p, nick, req, params, b, r);
    FreshRoomExactIff(l, Leave(l, p), m, p, b, r);
    AcceptedExactIs(l, p, nick, req, params, b, r);
  }

  lemma AcceptedExactIs(
    l: Lobby, p: PlayerId, nick: Bytes, req: RegRequest, params: RoomParams, b: RoomId, r: RoomRec)
    requires Linked(l) && RegAccepted(p, nick, req) && params == ParamsOf(req, nick)
    requires b == Wrap32(l.lastRoom + 1) && r == NewRoom(b, p, params)
    ensures RegNewRoomExact(l, p, nick, req) <==> FreshRoomExact(l, p, b, r.ctlSum)
  {
  }

  lemma RegNewRoomExactIff(l: Lobby, m: Lobby, p: PlayerId, nick: Bytes, req: RegRequest)
    requires SumExact(l) && (p == 0 || p in l.players) && Wrap32(l.lastRoom + 1) !in l.rooms
    requires m == RegNewRoom(l, p, nick, req)
    ensures SumExact(m) <==> RegNewRoomExact(l, p, nick, req)
  {
    if RegAccepted(p, nick, req) {
      var params, b := ParamsOf(req, nick), Wrap32(l.lastRoom + 1);
      AcceptedExactIff(l, m, p, nick, req, params, b, NewRoom(b, p, params));
    }
  }

  /** The exact condition for each kind of step. */
  ghost predicate StepExact(s: Server, step: Step)
    requires Linked(s.lobby)
  {
    match step
    case RegStep(c, req) => RegNewRoomExact(s.lobby, PlayerOf(s, c), NickOf(s, c), req)
    case JoinStep(c, req) => JoinGameExact(s.lobby, PlayerOf(s, c), req)
    case _ => StepSafe(s, step)
  }

  /** From an exact index every step, in every reachable state, keeps it exact exactly under
      its condition. */
  lemma StepExactIff(s: Server, step: Step)
    requires Inv(s) && IdsLeft(s) && SumExact(s.lobby)
    ensures SumExact(Next(s, step).lobby) <==> StepExact(s, step)
  {
    var l := s.lobby;
    match step
    case EnterStep(c, _) => EnterExactIff(s, step, c);
    case RegStep(c, req) =>
      NextIdIsFresh(l);
      RegNewRoomExactIff(l, Next(s, step).lobby, PlayerOf(s, c), NickOf(s, c), req);
    case JoinStep(c, req) => JoinGameExactIff(l, PlayerOf(s, c), req);
    case LeaveStep(c) => LeaveExactIff(l, PlayerOf(s, c));
    case StartStep(c) => if PlayerOf(s, c) in l.byHost { StartExactIff(l, l.byHost[PlayerOf(s, c)]); }
    case DisconnectStep(c) => DisconnectExactIff(s, c);
    case TimerStep(p) => LeaveExactIff(l, p);
  }

  lemma EnterExactIff(s: Server, step: Step, c: Conn)
    requires Inv(s) && SumExact(s.lobby) && step.EnterStep? && step.conn == c
    ensures SumExact(Next(s, step).lobby) <==> StepSafe(s, step)
  {
    var p := PlayerOf(s, c);
    LeaveExactIff(s.lobby, p);
    if p > 0 {
      ExactIgnoresMembers(Leave(s.lobby, p), Next(s, step).lobby);
    } else {
      ExactIgnoresMembers(s.lobby, Next(s, step).lobby);
    }
  }

  lemma DisconnectExactIff(s: Server, c: Conn)
    requires Inv(s) && SumExact(s.lobby)
    ensures SumExact(Disconnect(s, c).lobby) <==> LeaveSafe(s.lobby, PlayerOf(s, c))
  {
    var p := PlayerOf(s, c);
    LeaveExactIff(s.lobby, p);
    if p != 0 { ExactIgnoresMembers(Leave(s.lobby, p), Disconnect(s, c).lobby); }
  }

  // ---- Whole runs ----

  lemma PrefixInv(steps: seq<Step>, i: nat)
    requires IdsSuffice(steps) && i < |steps|
    ensures Inv(Run(steps[..i])) && IdsLeft(Run(steps[..i]))
    ensures Run(steps[..i + 1]) == Next(Run(steps[..i]), steps[i])
  {
    forall j | 0 <= j < i
      ensures IdsLeft(Run(steps[..i][..j]))
    {
      assert steps[..i][..j] == steps[..j];
    }
    RunKeepsInv(steps[..i]);
    assert steps[..i + 1][..i] == steps[..i];
  }

  lemma {:induction false} StaysExact(steps: seq<Step>, k: nat)
    requires IdsSuffice(steps) && k <= |steps|
    requires forall i :: 0 <= i < k ==> StepExact(Run(steps[..i]), steps[i])
    ensures SumExact(Run(steps[..k]).lobby)
  {
    if k > 0 {
      StaysExact(steps, k - 1);
      PrefixInv(steps, k - 1);
      StepExactIff(Run(steps[..k - 1]), steps[k - 1]);
    }
  }

  /** The index is exact all through a run exactly when every step of it met its condition. */
  lemma RunExactIff(steps: seq<Step>)
    requires IdsSuffice(steps)
    ensures (forall i :: 0 <= i <= |steps| ==> SumExact(Run(steps[..i]).lobby))
      <==> (forall i :: 0 <= i < |steps| ==> StepExact(Run(steps[..i]), steps[i]))
  {
    if forall i :: 0 <= i < |steps| ==> StepExact(Run(steps[..i]), steps[i]) {
      forall k | 0 <= k <= |steps|
        ensures SumExact(Run(steps[..k]).lobby)
      {
        StaysExact(steps, k);
      }
    }
    if forall i :: 0 <= i <= |steps| ==> SumExact(Run(steps[..i]).lobby) {
      forall i | 0 <= i < |steps|
        ensures StepExact(Run(steps[..i]), steps[i])
      {
        PrefixInv(steps, i);
        StepExactIff(Run(steps[..i]), steps[i]);
      }
    }
  }
}
