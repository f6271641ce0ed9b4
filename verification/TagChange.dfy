/** The control sum as a version tag: in every reachable state a row change is visible. */
module TagChange {
  import opened Machine
  import opened ControlSum
  import opened Decimal
  import opened LobbyModel
  import opened LobbyInvariants

  lemma NotCongruent(x: int, y: int)
    requires (x - y) % MOD != 0
    ensures x % MOD != y % MOD
  {
    if x % MOD == y % MOD {
      ModUnique(x - y, MOD, x / MOD - y / MOD, 0);
    }
  }

  lemma ColumnMoves(row: Row, row': Row, i: nat, n: nat, max: int)
    requires i < |row|
    requires row[i] == PlayersColumn(n, max) && row' == row[i := PlayersColumn(n + 1, max)]
    ensures RowByteSum(row') - RowByteSum(row) == Bump(n)
  {
    ReplaceColumn(row, i, PlayersColumn(n + 1, max));
    ColumnByteSum(n, max);
    ColumnByteSum(n + 1, max);
  }

  /** Moving the players column from n to n + 1, or back, changes the row's sum. */
  lemma ColumnBump(row: Row, row': Row, i: nat, n: nat, max: int)
    requires i < |row| && n < U32
    requires row[i] == PlayersColumn(n, max) && row' == row[i := PlayersColumn(n + 1, max)]
    ensures RowSum(row) != RowSum(row')
  {
    ColumnMoves(row, row', i, n, max);
    BumpOfCount(n);
    NotCongruent(RowByteSum(row'), RowByteSum(row));
    DifferentByteSums(row', row);
  }

  lemma BumpOfCount(n: nat)
    requires n < U32
    ensures Bump(n) % MOD != 0
  {
    TenDigits();
    BumpVisible(n, 10);
  }

  lemma TenDigits()
    ensures U32 < Pow10(10)
  {
    assert Pow10(2) == 100;
    assert Pow10(4) == 10000;
    assert Pow10(6) == 1000000;
    assert Pow10(8) == 100000000;
  }

  lemma ColumnByteSum(n: nat, max: int)
    ensures ByteSum(PlayersColumn(n, max)) == ByteSum(Digits(n)) + ByteSum([47] + Itoa(max))
  {
    ByteSumConcat(Digits(n), [47] + Itoa(max));
    assert PlayersColumn(n, max) == Digits(n) + ([47] + Itoa(max));
  }

  // ---- Counts are bounded by the number of ids handed out ----

  lemma {:induction false} BoundedSet(s: set<PlayerId>, last: nat)
    requires forall p :: p in s ==> 0 < p <= last
    ensures |s| <= last
  {
    if last == 0 {
      if p :| p in s { assert false; }
      assert s == {};
    } else {
      BoundedSet(s - {last}, last - 1);
    }
  }

  lemma CountBound(l: Lobby, id: RoomId, p: PlayerId)
    requires LobbyInv(l) && id in l.rooms && p in l.players
    ensures 0 <= l.rooms[id].playersCount < U32
    ensures p in l.byHost && l.byHost[p] == id ==> l.rooms[id].playersCount > 0
    ensures p !in l.byHost ==> l.rooms[id].playersCount + 1 < U32
  {
    var m := Members(l.byHost, id);
    BoundedSet(m, l.lastPlayer);
    BoundedSet(m + {p}, l.lastPlayer);
    if p in l.byHost && l.byHost[p] == id { assert p in m; }
    if p !in l.byHost { assert |m + {p}| == |m| + 1; }
  }

  // ---- The three row changes ----

  /** Setting a waiting room's players column one up or one down changes its tag. */
  lemma CountChangesTag(r: RoomRec, count: int)
    requires RowOk(r) && !r.started && 0 <= r.playersCount < U32 && 0 <= count < U32
    requires count == r.playersCount + 1 || count == r.playersCount - 1
    ensures RowSum(SetPlayersColumn(r.row, count, r.maxPlayers)) != r.ctlSum
  {
    var i := |r.row| - 4;
    var row := SetPlayersColumn(r.row, count, r.maxPlayers);
    if count == r.playersCount + 1 {
      ColumnBump(r.row, row, i, r.playersCount, r.maxPlayers);
    } else {
      assert row[i := r.row[i]] == r.row;
      ColumnBump(row, r.row, i, count, r.maxPlayers);
    }
  }

  lemma JoinChangesTag(l: Lobby, id: RoomId, p: PlayerId)
    requires LobbyInv(l) && id in l.rooms && !l.rooms[id].started && p in l.players && p !in l.byHost
    ensures Join(l, id, p).rooms[id].ctlSum != l.rooms[id].ctlSum
  {
    CountBound(l, id, p);
    CountChangesTag(l.rooms[id], l.rooms[id].playersCount + 1);
  }

  /** A leave changes the tag exactly when the room has not started. */
  lemma LeaveChangesTag(l: Lobby, p: PlayerId)
    requires LobbyInv(l) && p in l.byHost
    ensures var id := l.byHost[p];
      Leave(l, p).rooms[id].ctlSum != l.rooms[id].ctlSum <==> !l.rooms[id].started
  {
    CountBound(l, l.byHost[p], p);
    LeaveRoomTag(l.rooms[l.byHost[p]], p);
  }

  lemma LeaveRoomTag(r: RoomRec, p: PlayerId)
    requires RowOk(r) && 0 < r.playersCount < U32
    ensures LeaveRoom(r, p).ctlSum != r.ctlSum <==> !r.started
  {
    if !r.started { CountChangesTag(r, r.playersCount - 1); }
  }

  lemma MarkByteSum()
    ensures ByteSum(STARTED_MARK) == 328 && ByteSum([]) == 0 && ByteSum([35]) == 35
  {
    SnocSum([], 0x7F);
    SnocSum([0x7F], 48);
    SnocSum([0x7F, 48], 48);
    SnocSum([0x7F, 48, 48], 49);
    SnocSum([0x7F, 48, 48, 49], 56);
    assert [0x7F] == [] + [0x7F] && [0x7F, 48] == [0x7F] + [48] && [0x7F, 48, 48] == [0x7F, 48] + [48];
    assert [0x7F, 48, 48, 49] == [0x7F, 48, 48] + [49] && STARTED_MARK == [0x7F, 48, 48, 49] + [56];
  }

  lemma FirstByte(col: Bytes, x: byte)
    requires |col| > 0
    ensures ByteSum(col[0 := x]) == ByteSum(col) - col[0] + x
  {
    ByteSumConcat([col[0]], col[1..]);
    ByteSumConcat([x], col[1..]);
    assert col == [col[0]] + col[1..] && col[0 := x] == [x] + col[1..];
    SnocSum([], x);
    SnocSum([], col[0]);
    assert [] + [x] == [x] && [] + [col[0]] == [col[0]];
  }

  /** The first start moves the byte sum by 329, or by 294 when the lock mark goes. */
  lemma StartedByteSum(row: Row, count: int, max: int)
    requires RowShape(row, false, count, max)
    ensures RowByteSum(StartedRow(row)) - RowByteSum(row) in {329, 294}
  {
    var n := |row|;
    var marked := row[1 := STARTED_MARK];
    ReplaceColumn(row, 1, STARTED_MARK);
    ReplaceColumn(marked, n - 1, marked[n - 1][0 := 49]);
    FirstByte(row[n - 1], 49);
    MarkByteSum();
  }

  lemma StartedRowDiffers(row: Row, count: int, max: int)
    requires RowShape(row, false, count, max)
    ensures RowSum(StartedRow(row)) != RowSum(row)
  {
    StartedByteSum(row, count, max);
    NotCongruent(RowByteSum(StartedRow(row)), RowByteSum(row));
    DifferentByteSums(StartedRow(row), row);
  }

  lemma StartedRowSame(row: Row, count: int, max: int)
    requires RowShape(row, true, count, max)
    ensures StartedRow(row) == row
  {
    var n := |row|;
    assert row[n - 1][0 := 49] == row[n - 1];
  }

  /** A start changes the tag exactly when it is the room's first. */
  lemma StartChangesTag(l: Lobby, id: RoomId)
    requires LobbyInv(l) && id in l.rooms
    ensures MarkStarted(l, id).rooms[id].ctlSum != l.rooms[id].ctlSum <==> !l.rooms[id].started
  {
    var r := l.rooms[id];
    if r.started {
      StartedRowSame(r.row, r.playersCount, r.maxPlayers);
    } else {
      StartedRowDiffers(r.row, r.playersCount, r.maxPlayers);
    }
  }
}
