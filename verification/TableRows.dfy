/** The reply to a poll as the client finds it: the rows of the table lie end to end in one
    list of fields, with nothing but their number to cut them by. */
module TableRows {
  import opened Machine
  import opened ControlSum
  import opened Decimal
  import opened CommandText
  import opened LobbyModel
  import opened LobbyInvariants
  import opened TagChange
  import opened OrderlyRuns
  import opened GuestStart
  import opened Gettbl

  // ---- Reading the table ----

  /** The fields cut into rows of w. */
  function Cut(fields: seq<Bytes>, w: nat): seq<Row>
    requires w > 0
    decreases |fields|
  {
    if |fields| < w then [] else [fields[..w]] + Cut(fields[w..], w)
  }

  /** The rows a client can read out of a table reply: as many as the count says, all of
      one width; None if the fields do not divide evenly. */
  function TableOf(args: seq<Bytes>): Option<seq<Row>>
  {
    if |args| < 2 then None
    else
      var n, fields := ParseNat(args[1]), args[2..];
      if n == 0 then Some([])
      else if |fields| < n || |fields| % n != 0 then None
      else Some(Cut(fields, |fields| / n))
  }

  /** What a client that holds `held` has after applying the reply. */
  function ClientView(held: set<uint32>, cmds: CommandSet): Option<set<uint32>>
  {
    if |cmds| != 2 || |cmds[0].args| != 2 then None
    else match TableOf(cmds[1].args)
      case None => None
      case Some(rows) => Some((held - ToSet(Unpack(cmds[0].args[1]))) + (set row | row in rows :: RowSum(row)))
  }

  // ---- Rows end to end ----

  function Flat(rows: seq<Row>): seq<Bytes>
  {
    if rows == [] then [] else rows[0] + Flat(rows[1..])
  }

  ghost predicate OneWidth(rows: seq<Row>)
  {
    forall i, j :: 0 <= i < |rows| && 0 <= j < |rows| ==> |rows[i]| == |rows[j]|
  }

  /** The widths of the two layouts. */
  ghost predicate RowWidths(rows: seq<Row>)
  {
    forall i :: 0 <= i < |rows| ==> |rows[i]| in {9, 10}
  }

  function TenWide(rows: seq<Row>): (k: nat)
    ensures k <= |rows|
  {
    if rows == [] then 0 else (if |rows[0]| == 10 then 1 else 0) + TenWide(rows[1..])
  }

  lemma {:induction false} TenWideIff(rows: seq<Row>)
    ensures TenWide(rows) == 0 <==> forall i :: 0 <= i < |rows| ==> |rows[i]| != 10
    ensures TenWide(rows) == |rows| <==> forall i :: 0 <= i < |rows| ==> |rows[i]| == 10
  {
    if rows != [] {
      TenWideIff(rows[1..]);
      assert forall i :: 0 <= i < |rows| - 1 ==> rows[1..][i] == rows[i + 1];
      assert forall i :: 0 < i < |rows| ==> rows[i] == rows[1..][i - 1];
    }
  }

  lemma {:induction false} FlatLength(rows: seq<Row>)
    requires RowWidths(rows)
    ensures |Flat(rows)| == 9 * |rows| + TenWide(rows)
  {
    if rows != [] { FlatLength(rows[1..]); }
  }

  lemma Divides(n: nat, t: nat)
    requires 0 < n && t <= n
    ensures (9 * n + t) % n == 0 <==> t == 0 || t == n
  {
    if t == n {
      ModUnique(9 * n + t, n, 10, 0);
    } else {
      ModUnique(9 * n + t, n, 9, t);
    }
  }

  /** The number of fields is a multiple of the number of rows exactly when all rows have
      one layout; otherwise it lies strictly between 9 and 10 fields a row. */
  lemma FieldsDivideIff(rows: seq<Row>)
    requires RowWidths(rows) && rows != []
    ensures |Flat(rows)| % |rows| == 0 <==> OneWidth(rows)
    ensures !OneWidth(rows) ==> 9 * |rows| < |Flat(rows)| < 10 * |rows|
  {
    FlatLength(rows);
    TenWideIff(rows);
    Divides(|rows|, TenWide(rows));
    if OneWidth(rows) {
      assert forall i :: 0 <= i < |rows| ==> |rows[i]| == |rows[0]|;
    }
  }

  lemma {:induction false} CutFlat(rows: seq<Row>, w: nat)
    requires w > 0 && forall i :: 0 <= i < |rows| ==> |rows[i]| == w
    ensures |Flat(rows)| == w * |rows| && Cut(Flat(rows), w) == rows
  {
    if rows != [] {
      CutFlat(rows[1..], w);
      var fields := rows[0] + Flat(rows[1..]);
      assert fields[..w] == rows[0] && fields[w..] == Flat(rows[1..]);
      assert w * |rows| == w + w * (|rows| - 1);
      assert [rows[0]] + rows[1..] == rows;
    }
  }

  /** Reading the table gives back the rows exactly when they have one layout. */
  lemma TableReadIff(args: seq<Bytes>, rows: seq<Row>)
    requires RowWidths(rows) && |args| >= 2 && args[1] == Itoa(|rows|) && args[2..] == Flat(rows)
    ensures TableOf(args) == if OneWidth(rows) then Some(rows) else None
  {
    ParseDigits(|rows|);
    if rows != [] {
      FieldsDivideIff(rows);
      FlatLength(rows);
      if OneWidth(rows) {
        CutFlat(rows, |rows[0]|);
        ModUnique(|Flat(rows)|, |rows|, |rows[0]|, 0);
      }
    }
  }

  // ---- The rows of a reply ----

  function RowsOf(l: Lobby, ids: seq<RoomId>): (rows: seq<Row>)
    requires forall i :: 0 <= i < |ids| ==> ids[i] in l.rooms
    ensures |rows| == |ids| && forall i :: 0 <= i < |ids| ==> rows[i] == l.rooms[ids[i]].row
  {
    seq(|ids|, i requires 0 <= i < |ids| => l.rooms[ids[i]].row)
  }

  lemma {:induction false} FlatSnoc(rows: seq<Row>, row: Row)
    ensures Flat(rows + [row]) == Flat(rows) + row
  {
    if rows == [] {
      assert rows + [row] == [row];
    } else {
      assert (rows + [row])[1..] == rows[1..] + [row];
      FlatSnoc(rows[1..], row);
    }
  }

  lemma {:induction false} RowArgsAreFlat(l: Lobby, ids: seq<RoomId>)
    requires forall i :: 0 <= i < |ids| ==> ids[i] in l.rooms
    ensures RowArgs(l, ids) == Flat(RowsOf(l, ids))
  {
    if ids != [] {
      var n := |ids| - 1;
      RowArgsAreFlat(l, ids[..n]);
      FlatSnoc(RowsOf(l, ids[..n]), l.rooms[ids[n]].row);
      assert RowsOf(l, ids) == RowsOf(l, ids[..n]) + [l.rooms[ids[n]].row];
    }
  }

  /** All rooms of the set have rows of one layout. */
  ghost predicate OneLayout(l: Lobby, ids: set<RoomId>)
    requires ids <= l.rooms.Keys
  {
    forall x, y :: x in ids && y in ids ==> |l.rooms[x].row| == |l.rooms[y].row|
  }

  lemma LayoutOfRows(l: Lobby, ids: seq<RoomId>, s: set<RoomId>)
    requires s <= l.rooms.Keys && Enumerates(ids, s)
    ensures OneWidth(RowsOf(l, ids)) <==> OneLayout(l, s)
  {
    var rows := RowsOf(l, ids);
    if OneWidth(rows) {
      forall x, y | x in s && y in s
        ensures |l.rooms[x].row| == |l.rooms[y].row|
      {
        var i :| 0 <= i < |ids| && ids[i] == x;
        var j :| 0 <= j < |ids| && ids[j] == y;
        assert |rows[i]| == |rows[j]|;
      }
    }
  }

  lemma SameSums(l: Lobby, ids: seq<RoomId>)
    requires forall i :: 0 <= i < |ids| ==> ids[i] in l.rooms
    ensures (set row | row in RowsOf(l, ids) :: RowSum(row)) == (set id | id in ids :: RowSum(l.rooms[id].row))
  {
    var rows := RowsOf(l, ids);
    forall id | id in ids
      ensures RowSum(l.rooms[id].row) in (set row | row in rows :: RowSum(row))
    {
      var i :| 0 <= i < |ids| && ids[i] == id;
      assert rows[i] in rows;
    }
    forall row | row in rows
      ensures RowSum(row) in (set id | id in ids :: RowSum(l.rooms[id].row))
    {
      var i :| 0 <= i < |rows| && rows[i] == row;
      assert ids[i] in ids;
    }
  }

  lemma ReplyTable(l: Lobby, hideStarted: bool, ver: byte, args: seq<Bytes>, cmds: CommandSet, ids: seq<RoomId>)
    requires LobbyInv(l) && |args| >= 3 && Replies(l, hideStarted, ver, args, cmds, ids)
    ensures forall i :: 0 <= i < |ids| ==> ids[i] in l.rooms
    ensures |cmds[1].args| >= 2
    ensures cmds[1].args[1] == Itoa(|RowsOf(l, ids)|) && cmds[1].args[2..] == Flat(RowsOf(l, ids))
    ensures RowWidths(RowsOf(l, ids))
  {
    RowArgsAreFlat(l, ids);
  }

  /** The rooms whose rows the reply must carry. */
  function Sent(l: Lobby, hideStarted: bool, ver: byte, args: seq<Bytes>): (s: set<RoomId>)
    requires Linked(l) && |args| >= 3
    ensures s <= l.rooms.Keys
  {
    NewRooms(l, hideStarted, EqualFold(TrimNul(args[0]), TableName(ver)), ToSet(Unpack(args[2])))
  }

  /** What the client makes of the reply alone is what one who knew the rooms would,
      exactly when all rows sent have one layout. */
  lemma ViewIs(
    l: Lobby, hideStarted: bool, ver: byte, args: seq<Bytes>, cmds: CommandSet, ids: seq<RoomId>, held: set<uint32>)
    requires LobbyInv(l) && |args| >= 3 && Replies(l, hideStarted, ver, args, cmds, ids)
    ensures ClientView(held, cmds) ==
      if OneLayout(l, Sent(l, hideStarted, ver, args)) then Some(AfterPoll(l, held, cmds[0].args[1], ids)) else None
  {
    ReplyTable(l, hideStarted, ver, args, cmds, ids);
    TableReadIff(cmds[1].args, RowsOf(l, ids));
    LayoutOfRows(l, ids, Sent(l, hideStarted, ver, args));
    SameSums(l, ids);
  }

  /** When the index answers right, any reply to a poll of the current table leaves the
      client with exactly the visible tags; a table of mixed layouts it cannot read. */
  lemma ReplyConvergesIff(
    l: Lobby, hideStarted: bool, ver: byte, args: seq<Bytes>, cmds: CommandSet, ids: seq<RoomId>)
    requires LobbyInv(l) && IndexAnswers(l, hideStarted) && |args| >= 3
    requires Replies(l, hideStarted, ver, args, cmds, ids) && EqualFold(TrimNul(args[0]), TableName(ver))
    ensures ClientView(ToSet(Unpack(args[2])), cmds) ==
      if OneLayout(l, Sent(l, hideStarted, ver, args)) then Some(VisibleSums(l, hideStarted)) else None
  {
    ViewIs(l, hideStarted, ver, args, cmds, ids, ToSet(Unpack(args[2])));
    ReplyConverges(l, hideStarted, ver, args, cmds, ids);
  }

  /** After any orderly run the client reads the visible tags out of the reply to any poll,
      if the rows sent have one layout, and is sent nothing exactly when it had them. */
  lemma PollAfterRun(
    steps: seq<Step>, hideStarted: bool, ver: byte, args: seq<Bytes>, cmds: CommandSet, ids: seq<RoomId>)
    requires IdsSuffice(steps) && |args| >= 3
    requires forall i :: 0 <= i < |steps| ==> Orderly(Run(steps[..i]), steps[i])
    requires Replies(Run(steps).lobby, hideStarted, ver, args, cmds, ids) && EqualFold(TrimNul(args[0]), TableName(ver))
    ensures var l, held := Run(steps).lobby, ToSet(Unpack(args[2]));
      && ClientView(held, cmds) ==
           (if OneLayout(l, Sent(l, hideStarted, ver, args)) then Some(VisibleSums(l, hideStarted)) else None)
      && (cmds == QuietReply(TrimNul(args[0])) <==> held == VisibleSums(l, hideStarted))
  {
    RunKeepsInv(steps);
    OrderlyRunsStayExact(steps);
    var l := Run(steps).lobby;
    ExactAnswers(l, hideStarted);
    ReplyConvergesIff(l, hideStarted, ver, args, cmds, ids);
    ReplyQuietIff(l, hideStarted, ver, args, cmds, ids);
  }

  // ---- A state with both layouts ----

  lemma NewRoomShown(s: Server, reg: RegRequest, guest: Bytes) returns (s': Server)
    requires LobbyInv(s.lobby) && PlayerOf(s, 1) == 2 && NickOf(s, 1) == guest && RegAccepted(2, guest, reg)
    requires 2 in s.lobby.players && 2 !in s.lobby.byHost && s.lobby.lastRoom == 1
    ensures s' == Next(s, RegStep(1, reg))
    ensures s'.lobby.live == s.lobby.live + {2}
    ensures s'.lobby.rooms == s.lobby.rooms[2 := NewRoom(2, 2, ParamsOf(reg, guest))]
  {
    s' := Next(s, RegStep(1, reg));
  }

  /** Two players enter and create a room each, one under a protocol version whose rows have
      ten fields and one under a version whose rows have nine: a client that holds nothing
      cannot read the reply to its poll. */
  lemma MixedRun(nick: Bytes, reg: RegRequest, guest: Bytes, reg2: RegRequest) returns (steps: seq<Step>)
    requires RegAccepted(1, nick, reg) && RegAccepted(2, guest, reg2)
    requires ParamsOf(reg, nick).isAC != ParamsOf(reg2, guest).isAC
    ensures steps == [EnterStep(0, nick), RegStep(0, reg)] + [EnterStep(1, guest)] + [RegStep(1, reg2)]
    ensures IdsSuffice(steps)
    ensures forall hideStarted: bool, ver: byte, args: seq<Bytes>, cmds: CommandSet, ids: seq<RoomId> ::
      && |args| >= 3 && Unpack(args[2]) == [] && EqualFold(TrimNul(args[0]), TableName(ver))
      && Replies(Run(steps).lobby, hideStarted, ver, args, cmds, ids)
      ==> ClientView({}, cmds) == None
  {
    var host := HostRun(nick, reg);
    var s3 := GuestEnters(Run(host), guest);
    RunSnoc(host, EnterStep(1, guest));
    RunKeepsInv(host + [EnterStep(1, guest)]);
    var s4 := NewRoomShown(s3, reg2, guest);
    RunSnoc(host + [EnterStep(1, guest)], RegStep(1, reg2));
    steps := host + [EnterStep(1, guest)] + [RegStep(1, reg2)];
    RunKeepsInv(steps);
    NobodyReads(Run(steps).lobby, 1, 2);
  }

  lemma NobodyReads(l: Lobby, x: RoomId, y: RoomId)
    requires LobbyInv(l) && x in l.live && y in l.live && !l.rooms[x].started && !l.rooms[y].started
    requires |l.rooms[x].row| != |l.rooms[y].row|
    ensures forall hideStarted: bool, ver: byte, args: seq<Bytes>, cmds: CommandSet, ids: seq<RoomId> ::
      && |args| >= 3 && Unpack(args[2]) == [] && EqualFold(TrimNul(args[0]), TableName(ver))
      && Replies(l, hideStarted, ver, args, cmds, ids)
      ==> ClientView({}, cmds) == None
  {
    forall hideStarted: bool, ver: byte, args: seq<Bytes>, cmds: CommandSet, ids: seq<RoomId> |
      && |args| >= 3 && Unpack(args[2]) == [] && EqualFold(TrimNul(args[0]), TableName(ver))
      && Replies(l, hideStarted, ver, args, cmds, ids)
      ensures ClientView({}, cmds) == None
    {
      ViewIs(l, hideStarted, ver, args, cmds, ids, {});
      assert x in Sent(l, hideStarted, ver, args) && y in Sent(l, hideStarted, ver, args);
    }
  }

  // ---- What an up-to-date client is told of a join ----

  predicate LiesAt(fields: seq<Bytes>, row: Row, i: nat)
  {
    i + |row| <= |fields| && fields[i..i + |row|] == row
  }

  /** The row lies somewhere among the fields of the table. */
  ghost predicate Carries(args: seq<Bytes>, row: Row)
    requires |args| >= 2
  {
    exists i :: LiesAt(args[2..], row, i)
  }

  lemma {:induction false} FlatCarries(rows: seq<Row>, k: nat) returns (i: nat)
    requires k < |rows|
    ensures LiesAt(Flat(rows), rows[k], i)
  {
    if k == 0 {
      i := 0;
    } else {
      var j := FlatCarries(rows[1..], k - 1);
      i := |rows[0]| + j;
      LiesFurther(rows[0], Flat(rows[1..]), rows[k], j);
    }
  }

  lemma LiesFurther(head: Row, fields: seq<Bytes>, row: Row, i: nat)
    requires LiesAt(fields, row, i)
    ensures LiesAt(head + fields, row, |head| + i)
  {
    assert (head + fields)[|head| + i..|head| + i + |row|] == fields[i..i + |row|];
  }

  lemma RowCarried(
    l: Lobby, hideStarted: bool, ver: byte, args: seq<Bytes>, cmds: CommandSet, ids: seq<RoomId>, id: RoomId)
    requires LobbyInv(l) && |args| >= 3 && Replies(l, hideStarted, ver, args, cmds, ids) && id in ids
    ensures id in l.rooms && |cmds| == 2 && |cmds[1].args| >= 2 && Carries(cmds[1].args, l.rooms[id].row)
  {
    ReplyTable(l, hideStarted, ver, args, cmds, ids);
    var k :| 0 <= k < |ids| && ids[k] == id;
    var i := FlatCarries(RowsOf(l, ids), k);
    assert LiesAt(cmds[1].args[2..], l.rooms[id].row, i);
  }

  lemma JoinedTags(l: Lobby, id: RoomId, p: PlayerId)
    requires LobbyInv(l) && id in l.live && !l.rooms[id].started && p in l.players && p !in l.byHost
    ensures var l' := LobbyModel.Join(l, id, p);
      && id in l'.live && !l'.rooms[id].started
      && l.rooms[id].ctlSum !in l'.bySum && l'.rooms[id].ctlSum != l.rooms[id].ctlSum
  {
    JoinChangesTag(l, id, p);
  }

  lemma OldTagDeleted(
    l: Lobby, l': Lobby, hideStarted: bool, id: RoomId, ver: byte, args: seq<Bytes>, cmds: CommandSet, ids: seq<RoomId>)
    requires Linked(l) && Linked(l') && |args| >= 3 && ToSet(Unpack(args[2])) == VisibleSums(l, hideStarted)
    requires Shown(l, hideStarted, id) && l.rooms[id].ctlSum !in l'.bySum
    requires Replies(l', hideStarted, ver, args, cmds, ids)
    ensures l.rooms[id].ctlSum in Unpack(cmds[0].args[1])
  {
    var dtbl := Deletions(l', hideStarted, Unpack(args[2]));
    DeletionsAre(l', hideStarted, Unpack(args[2]));
    assert l.rooms[id].ctlSum in ToSet(Unpack(args[2]));
    UnpackPack(dtbl, []);
    assert Pack(dtbl) + [] == Pack(dtbl);
  }

  lemma NewRowSentIff(
    l: Lobby, hideStarted: bool, id: RoomId, ver: byte, args: seq<Bytes>, cmds: CommandSet, ids: seq<RoomId>)
    requires LobbyInv(l) && |args| >= 3 && Shown(l, hideStarted, id)
    requires Replies(l, hideStarted, ver, args, cmds, ids) && EqualFold(TrimNul(args[0]), TableName(ver))
    ensures |cmds| == 2 && |cmds[1].args| >= 2
    ensures id in ids <==> l.rooms[id].ctlSum !in ToSet(Unpack(args[2]))
    ensures id in ids ==> Carries(cmds[1].args, l.rooms[id].row)
  {
    assert id in ids <==> id in Sent(l, hideStarted, ver, args);
    if id in ids { RowCarried(l, hideStarted, ver, args, cmds, ids, id); }
  }

  /** In any state a join deletes the room's old tag at every client that was up to date,
      and sends its new row exactly when no other visible room has the new tag. */
  lemma JoinIsAnnouncedIff(
    l: Lobby, hideStarted: bool, id: RoomId, p: PlayerId, ver: byte, args: seq<Bytes>, cmds: CommandSet,
    ids: seq<RoomId>)
    requires LobbyInv(l) && id in l.live && Admits(l.rooms[id], l.rooms[id].password)
    requires p in l.players && p !in l.byHost
    requires |args| >= 3 && ToSet(Unpack(args[2])) == VisibleSums(l, hideStarted)
    requires Replies(LobbyModel.Join(l, id, p), hideStarted, ver, args, cmds, ids)
    requires EqualFold(TrimNul(args[0]), TableName(ver))
    ensures |cmds| == 2 && |cmds[1].args| >= 2
    ensures var r, r' := l.rooms[id], JoinRoom(l.rooms[id], p);
      && r.ctlSum in Unpack(cmds[0].args[1])
      && (id in ids <==> !exists x :: x != id && Shown(l, hideStarted, x) && l.rooms[x].ctlSum == r'.ctlSum)
      && (id in ids ==> Carries(cmds[1].args, r'.row))
  {
    var l' := LobbyModel.Join(l, id, p);
    JoinedTags(l, id, p);
    JoinKeepsInv(l, id, p);
    OldTagDeleted(l, l', hideStarted, id, ver, args, cmds, ids);
    NewRowSentIff(l', hideStarted, id, ver, args, cmds, ids);
    VisibleElsewhere(l, hideStarted, id, l'.rooms[id].ctlSum);
  }

  lemma VisibleElsewhere(l: Lobby, hideStarted: bool, id: RoomId, sum: uint32)
    requires Linked(l) && id in l.rooms && l.rooms[id].ctlSum != sum
    ensures sum in VisibleSums(l, hideStarted)
      <==> exists x :: x != id && Shown(l, hideStarted, x) && l.rooms[x].ctlSum == sum
  {
    if x :| x != id && Shown(l, hideStarted, x) && l.rooms[x].ctlSum == sum {
      assert x in l.live;
    }
  }
}
