/** What the row of a room tells the players who see it. */
module RoomRows {
  import opened Machine
  import opened ControlSum
  import opened Decimal
  import opened LobbyModel
  import opened LobbyInvariants
  import opened Requests

  // ---- The row of a new room ----

  /** "Easy", "Normal", "Hard", or "For all" for any other level and for none. */
  predicate LevelText(level: Option<int>, text: string)
  {
    if level == Some(1) then text == "Easy"
    else if level == Some(2) then text == "Normal"
    else if level == Some(3) then text == "Hard"
    else text == "For all"
  }

  lemma LevelSpelled(level: Option<int>)
    ensures LevelText(level, Spell(LevelLabel(match level case Some(v) => v case None => 0)))
  {
    assert Spell([69, 97, 115, 121]) == "Easy";
    assert Spell([78, 111, 114, 109, 97, 108]) == "Normal";
    assert Spell([72, 97, 114, 100]) == "Hard";
    assert Spell([70, 111, 114, 32, 97, 108, 108]) == "For all";
  }

  /** The column reads as count, slash, capacity. */
  ghost predicate PlacesColumn(col: Bytes, count: nat, max: int)
  {
    exists a: Bytes, b: Bytes ::
      col == a + ['/' as int] + b && ParseNat(a) == count && (forall i :: 0 <= i < |a| ==> IsDigit(a[i]))
      && (if max >= 0 then ParseNat(b) == max && (forall i :: 0 <= i < |b| ==> IsDigit(b[i]))
          else b != [] && b[0] == '-' as int && ParseNat(b[1..]) == -max)
  }

  lemma PlacesColumnIs(count: nat, max: int)
    ensures PlacesColumn(PlayersColumn(count, max), count, max)
  {
    var a, b := Itoa(count), Itoa(max);
    ItoaReads(count);
    ItoaReads(max);
    DigitsShape(count);
    if max >= 0 { DigitsShape(max); }
    assert PlayersColumn(count, max) == a + ['/' as int] + b;
  }

  /** The places stand in the fourth column from the end, or the last of a shorter row. */
  lemma PlacesAt(row: Row, count: int, max: int, i: nat)
    requires i < |row|
    ensures SetPlayersColumn(row, count, max)[i] ==
      if i + 4 == |row| || (|row| < 4 && i + 1 == |row|) then PlayersColumn(count, max) else row[i]
  {
  }

  /** The columns by which the owner of a room is known: id, title, nick, the kind of game
      under the protocol versions 3, 8 and 10 only, level, version, address. */
  ghost predicate Describes(row: Row, id: RoomId, nick: Bytes, req: RegRequest)
  {
    && |row| == (if req.ver in {3, 8, 10} then 10 else 9)
    && ParseNat(row[0]) == id && row[2] == req.title && row[3] == nick
    && (|row| == 10 ==> row[4] == req.veType)
    && LevelText(req.level, Spell(row[|row| - 5]))
    && ParseNat(row[|row| - 3]) == req.ver && ParseNat(row[|row| - 2]) == req.hostAddrInt
  }

  /** The two columns that say whether the room can be joined freely, and its last one. */
  ghost predicate Open(row: Row, id: RoomId, password: Bytes)
    requires |row| >= 2
  {
    && Spell(row[1]) == (if password == [] then "" else "#")
    && row[|row| - 1] != [] && row[|row| - 1][0] == '0' as int
    && ParseHex(row[|row| - 1][1..]) == 0xFFFF_FFFF - id
  }

  lemma NewRowDescribes(id: RoomId, nick: Bytes, req: RegRequest)
    ensures Describes(NewRow(id, ParamsOf(req, nick)), id, nick, req)
  {
    ParseDigits(id);
    ParseDigits(req.ver);
    ParseDigits(req.hostAddrInt);
    LevelSpelled(req.level);
  }

  lemma NewRowOpen(id: RoomId, nick: Bytes, req: RegRequest)
    ensures Open(NewRow(id, ParamsOf(req, nick)), id, req.password)
  {
    HexReads(0xFFFF_FFFF - id);
    assert Spell([]) == "" && Spell([35]) == "#";
    var hex := HexUpper(0xFFFF_FFFF - id);
    assert ([48] + hex)[1..] == hex;
  }

  /** In every reachable state an accepted registration puts a row on the list that
      describes the room as it was asked for. */
  lemma RegisteredRow(s: Server, c: Conn, req: RegRequest)
    requires Inv(s) && IdsLeft(s) && RegAccepted(PlayerOf(s, c), NickOf(s, c), req)
    ensures var id, l' := s.lobby.lastRoom + 1, Next(s, RegStep(c, req)).lobby;
      && id in l'.live && id in l'.rooms
      && Describes(l'.rooms[id].row, id, NickOf(s, c), req) && Open(l'.rooms[id].row, id, req.password)
      && PlacesColumn(l'.rooms[id].row[|l'.rooms[id].row| - 4], 1, l'.rooms[id].maxPlayers)
  {
    var id, params := s.lobby.lastRoom + 1, ParamsOf(req, NickOf(s, c));
    NewRowDescribes(id, NickOf(s, c), req);
    NewRowOpen(id, NickOf(s, c), req);
    PlacesColumnIs(1, params.maxPlayers);
    RegisteredRecord(s, c, req, NewRow(id, params));
  }

  lemma RegisteredRecord(s: Server, c: Conn, req: RegRequest, row: Row)
    requires Inv(s) && IdsLeft(s) && RegAccepted(PlayerOf(s, c), NickOf(s, c), req)
    requires row == NewRow(s.lobby.lastRoom + 1, ParamsOf(req, NickOf(s, c)))
    ensures var id, l' := s.lobby.lastRoom + 1, Next(s, RegStep(c, req)).lobby;
      && id in l'.live && id in l'.rooms && l'.rooms[id].row == row && |row| in {9, 10}
      && l'.rooms[id].maxPlayers == ParamsOf(req, NickOf(s, c)).maxPlayers
      && row[|row| - 4] == PlayersColumn(1, l'.rooms[id].maxPlayers)
  {
    LeaveFrame(s.lobby, PlayerOf(s, c));
  }

  // ---- What stays of it ----

  /** A later row of the same room: only the mark behind the id, the places and the first
      byte of the last column can differ. */
  ghost predicate SameBut(row: Row, row': Row)
  {
    && |row'| == |row| >= 9
    && (forall i :: 0 <= i < |row| && i != 1 && i != |row| - 4 && i != |row| - 1 ==> row'[i] == row[i])
    && row[|row| - 1] != [] && row'[|row| - 1] != [] && row'[|row| - 1][1..] == row[|row| - 1][1..]
  }

  lemma SameButChain(a: Row, b: Row, c: Row)
    requires SameBut(a, b) && SameBut(b, c)
    ensures SameBut(a, c)
  {
  }

  /** The same room later: its password, and while it waits also the mark behind the id,
      are what they were. */
  ghost predicate Stays(r: RoomRec, r': RoomRec)
  {
    && SameBut(r.row, r'.row) && r'.password == r.password
    && (!r'.started ==> !r.started && r'.row[1] == r.row[1])
  }

  lemma LeaveRowSame(r: RoomRec, p: PlayerId)
    requires RowOk(r)
    ensures Stays(r, LeaveRoom(r, p))
  {
  }

  lemma JoinRowSame(r: RoomRec, p: PlayerId)
    requires RowOk(r)
    ensures Stays(r, JoinRoom(r, p))
  {
  }

  lemma MarkedSame(row: Row)
    requires |row| >= 9 && row[|row| - 1] != []
    ensures SameBut(row, StartedRow(row))
  {
    var n := |row| - 1;
    var marked := row[1 := STARTED_MARK];
    assert StartedRow(row) == marked[n := row[n][0 := 49]];
    assert row[n][0 := 49][1..] == row[n][1..];
  }

  lemma StartRoomStays(r: RoomRec, r': RoomRec)
    requires r' == StartRoom(r) && |r.row| >= 9 && r.row[|r.row| - 1] != []
    ensures Stays(r, r')
  {
    MarkedSame(r.row);
  }

  /** Every room there was is there still, under a row that differs only so. */
  ghost predicate RowsStay(l: Lobby, l': Lobby)
  {
    forall id :: id in l.rooms ==> id in l'.rooms && Stays(l.rooms[id], l'.rooms[id])
  }

  lemma RowsSame(l: Lobby, l': Lobby)
    requires LobbyInv(l) && l'.rooms == l.rooms
    ensures RowsStay(l, l')
  {
  }

  lemma OneChanged(l: Lobby, l': Lobby, id: RoomId, r': RoomRec)
    requires RowsStay(l, l) && id in l.rooms && l'.rooms == l.rooms[id := r'] && Stays(l.rooms[id], r')
    ensures RowsStay(l, l')
  {
  }

  lemma LeaveChanged(l: Lobby, l': Lobby, p: PlayerId, id: RoomId, r': RoomRec)
    requires LobbyInv(l) && RowsStay(l, l) && id in l.rooms && r' == LeaveRoom(l.rooms[id], p)
    requires l'.rooms == l.rooms[id := r']
    ensures RowsStay(l, l')
  {
    LeaveRowSame(l.rooms[id], p);
    OneChanged(l, l', id, r');
  }

  lemma LeaveRowsStay(l: Lobby, p: PlayerId)
    requires LobbyInv(l)
    ensures RowsStay(l, Leave(l, p))
  {
    RowsSame(l, l);
    if p in l.byHost { LeaveChanged(l, Leave(l, p), p, l.byHost[p], LeaveRoom(l.rooms[l.byHost[p]], p)); }
  }

  lemma JoinRowsStay(l: Lobby, id: RoomId, p: PlayerId)
    requires LobbyInv(l) && id in l.rooms
    ensures RowsStay(l, Join(l, id, p))
  {
    RowsSame(l, l);
    JoinRowSame(l.rooms[id], p);
    if p in l.players { OneChanged(l, Join(l, id, p), id, JoinRoom(l.rooms[id], p)); }
  }

  lemma RowsStayChain(a: Lobby, b: Lobby, c: Lobby)
    requires RowsStay(a, b) && RowsStay(b, c)
    ensures RowsStay(a, c)
  {
    forall id | id in a.rooms
      ensures id in c.rooms && Stays(a.rooms[id], c.rooms[id])
    {
      SameButChain(a.rooms[id].row, b.rooms[id].row, c.rooms[id].row);
    }
  }

  lemma JoinGameRowsStay(l: Lobby, p: PlayerId, req: JoinRequest)
    requires LobbyInv(l)
    ensures RowsStay(l, JoinGame(l, p, req))
  {
    if JoinAccepted(l, p, req) {
      LeaveRowsStay(l, p);
      LeaveKeepsInv(l, p);
      LeaveFrame(l, p);
      JoinRowsStay(Leave(l, p), req.rid.value, p);
      RowsStayChain(l, Leave(l, p), JoinGame(l, p, req));
    } else {
      RowsSame(l, l);
    }
  }

  lemma FiledRowsStay(l: Lobby, l': Lobby, id: RoomId)
    requires LobbyInv(l) && id !in l.rooms && l'.rooms.Keys == l.rooms.Keys + {id} && l'.rooms - {id} == l.rooms
    ensures RowsStay(l, l')
  {
    forall x | x in l.rooms
      ensures x in l'.rooms && l'.rooms[x] == l.rooms[x]
    {
      assert (l'.rooms - {id})[x] == l.rooms[x];
    }
    RowsSame(l, l);
  }

  lemma RegisterRowsStay(l: Lobby, p: PlayerId, params: RoomParams)
    requires LobbyInv(l) && l.lastRoom + 1 < U32
    ensures RowsStay(l, RegisterNew(l, p, params))
  {
    FiledRowsStay(l, RegisterNew(l, p, params), l.lastRoom + 1);
  }

  lemma RegNewRoomRowsStay(l: Lobby, p: PlayerId, nick: Bytes, req: RegRequest)
    requires LobbyInv(l) && l.lastRoom + 1 < U32
    ensures RowsStay(l, RegNewRoom(l, p, nick, req))
  {
    if RegAccepted(p, nick, req) {
      LeaveRowsStay(l, p);
      LeaveKeepsInv(l, p);
      LeaveFrame(l, p);
      RegisterRowsStay(Leave(l, p), p, ParamsOf(req, nick));
      RowsStayChain(l, Leave(l, p), RegNewRoom(l, p, nick, req));
    } else {
      RowsSame(l, l);
    }
  }

  lemma StartChanged(l: Lobby, l': Lobby, id: RoomId, r': RoomRec)
    requires RowsStay(l, l) && id in l.rooms && l'.rooms == l.rooms[id := r'] && r' == StartRoom(l.rooms[id])
    ensures RowsStay(l, l')
  {
    assert Stays(l.rooms[id], l.rooms[id]);
    StartRoomStays(l.rooms[id], r');
    OneChanged(l, l', id, r');
  }

  lemma StartRowsStay(l: Lobby, p: PlayerId)
    requires LobbyInv(l)
    ensures RowsStay(l, Start(l, p))
  {
    RowsSame(l, l);
    if p in l.byHost {
      var id := l.byHost[p];
      StartChanged(l, MarkStarted(l, id), id, StartRoom(l.rooms[id]));
    }
  }

  /** In every reachable state no step touches any other part of any room's row. */
  lemma StepRowsStay(s: Server, step: Step)
    requires Inv(s) && IdsLeft(s)
    ensures RowsStay(s.lobby, Next(s, step).lobby)
  {
    var l := s.lobby;
    RowsSame(l, l);
    match step
    case EnterStep(c, _) =>
      LeaveRowsStay(l, PlayerOf(s, c));
    case RegStep(c, req) => RegNewRoomRowsStay(l, PlayerOf(s, c), NickOf(s, c), req);
    case JoinStep(c, req) => JoinGameRowsStay(l, PlayerOf(s, c), req);
    case LeaveStep(c) => LeaveRowsStay(l, PlayerOf(s, c));
    case StartStep(c) => StartRowsStay(l, PlayerOf(s, c));
    case DisconnectStep(c) => LeaveRowsStay(l, PlayerOf(s, c));
    case TimerStep(p) => LeaveRowsStay(l, p);
  }

  // ---- What a row says in every run ----

  /** The part that never changes, and the lock mark of a waiting room. */
  ghost predicate Lasting(r: RoomRec, id: RoomId)
  {
    && |r.row| in {9, 10} && ParseNat(r.row[0]) == id && r.row[|r.row| - 1] != []
    && ParseHex(r.row[|r.row| - 1][1..]) == 0xFFFF_FFFF - id
    && (!r.started ==> Spell(r.row[1]) == (if r.password == [] then "" else "#"))
  }

  ghost predicate AllLasting(l: Lobby)
  {
    forall id :: id in l.rooms ==> Lasting(l.rooms[id], id)
  }

  lemma LastingStays(r: RoomRec, r': RoomRec, id: RoomId)
    requires Lasting(r, id) && Stays(r, r')
    ensures Lasting(r', id)
  {
  }

  /** Only a registration adds a room, the one under the next id. */
  lemma RoomsAfter(s: Server, step: Step)
    requires Inv(s) && IdsLeft(s)
    ensures var keys, keys' := s.lobby.rooms.Keys, Next(s, step).lobby.rooms.Keys;
      keys' == keys ||
      (step.RegStep? && RegAccepted(PlayerOf(s, step.conn), NickOf(s, step.conn), step.reg)
       && keys' == keys + {s.lobby.lastRoom + 1})
  {
    match step
    case EnterStep(c, _) => LeaveFrame(s.lobby, PlayerOf(s, c));
    case RegStep(c, req) => LeaveFrame(s.lobby, PlayerOf(s, c));
    case JoinStep(c, req) => LeaveFrame(s.lobby, PlayerOf(s, c));
    case LeaveStep(c) => LeaveFrame(s.lobby, PlayerOf(s, c));
    case StartStep(c) =>
    case DisconnectStep(c) => LeaveFrame(s.lobby, PlayerOf(s, c));
    case TimerStep(p) => LeaveFrame(s.lobby, p);
  }

  lemma NewLasting(s: Server, c: Conn, req: RegRequest)
    requires Inv(s) && IdsLeft(s) && RegAccepted(PlayerOf(s, c), NickOf(s, c), req)
    ensures var id, l' := s.lobby.lastRoom + 1, Next(s, RegStep(c, req)).lobby;
      id in l'.rooms && Lasting(l'.rooms[id], id)
  {
    RegisteredRow(s, c, req);
    RegisteredPassword(s, c, req);
  }

  lemma RegisteredPassword(s: Server, c: Conn, req: RegRequest)
    requires Inv(s) && IdsLeft(s) && RegAccepted(PlayerOf(s, c), NickOf(s, c), req)
    ensures var id, l' := s.lobby.lastRoom + 1, Next(s, RegStep(c, req)).lobby;
      id in l'.rooms && l'.rooms[id].password == req.password
  {
    SessionPlayer(s, c);
    RegisterDoes(s, c, req);
  }

  lemma StepKeepsLasting(s: Server, step: Step)
    requires Inv(s) && IdsLeft(s) && AllLasting(s.lobby)
    ensures AllLasting(Next(s, step).lobby)
  {
    StepRowsStay(s, step);
    RoomsAfter(s, step);
    if Next(s, step).lobby.rooms.Keys != s.lobby.rooms.Keys { NewLasting(s, step.conn, step.reg); }
    LastingAfter(s.lobby, Next(s, step).lobby, s.lobby.lastRoom + 1);
  }

  lemma LastingAfter(l: Lobby, l': Lobby, added: RoomId)
    requires AllLasting(l) && RowsStay(l, l') && l'.rooms.Keys <= l.rooms.Keys + {added}
    requires added in l'.rooms && added !in l.rooms ==> Lasting(l'.rooms[added], added)
    ensures AllLasting(l')
  {
    forall id | id in l'.rooms
      ensures Lasting(l'.rooms[id], id)
    {
      if id in l.rooms { LastingStays(l.rooms[id], l'.rooms[id], id); }
    }
  }

  lemma {:induction false} RunKeepsLasting(steps: seq<Step>)
    requires IdsSuffice(steps)
    ensures AllLasting(Run(steps).lobby)
  {
    if steps != [] {
      var before := steps[..|steps| - 1];
      forall i | 0 <= i < |before|
        ensures IdsLeft(Run(before[..i]))
      {
        assert before[..i] == steps[..i];
      }
      RunKeepsLasting(before);
      RunKeepsInv(before);
      StepKeepsLasting(Run(before), steps[|steps| - 1]);
    }
  }

  /** A waiting room's row shows its lock and the places taken; a started one's the start
      marks; both show the room's id, twice. */
  ghost predicate Tells(r: RoomRec, id: RoomId)
  {
    && |r.row| in {9, 10} && ParseNat(r.row[0]) == id && r.playersCount >= 0
    && var last := r.row[|r.row| - 1];
       && last != [] && ParseHex(last[1..]) == 0xFFFF_FFFF - id
       && last[0] == (if r.started then '1' else '0') as int
       && Spell(r.row[1]) == (if r.started then "\U{7F}0018" else if r.password == [] then "" else "#")
       && (!r.started ==> PlacesColumn(r.row[|r.row| - 4], r.playersCount, r.maxPlayers))
  }

  /** So in every run, for every room there ever was. */
  lemma RowTells(steps: seq<Step>, id: RoomId)
    requires IdsSuffice(steps) && id in Run(steps).lobby.rooms
    ensures Tells(Run(steps).lobby.rooms[id], id)
  {
    RunKeepsInv(steps);
    RunKeepsLasting(steps);
    RecordTells(Run(steps).lobby, id);
  }

  lemma RecordTells(l: Lobby, id: RoomId)
    requires LobbyInv(l) && id in l.rooms && Lasting(l.rooms[id], id)
    ensures Tells(l.rooms[id], id)
  {
    var r := l.rooms[id];
    assert r.playersCount == |Members(l.byHost, id)|;
    ShapeTells(r, id);
  }

  lemma ShapeTells(r: RoomRec, id: RoomId)
    requires Lasting(r, id) && r.playersCount >= 0 && RowShape(r.row, r.started, r.playersCount, r.maxPlayers)
    ensures Tells(r, id)
  {
    PlacesColumnIs(r.playersCount, r.maxPlayers);
    assert Spell(STARTED_MARK) == "\U{7F}0018";
  }
}
