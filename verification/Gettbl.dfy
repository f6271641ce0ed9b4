/** GETTBL: a client sends the tags it holds and receives deletions plus new rows. */
module Gettbl {
  import opened Machine
  import opened ControlSum
  import opened Decimal
  import opened CommandText
  import opened LobbyModel
  import opened LobbyInvariants
  import opened SumIndex

  // ---- Packed tags ----

  function Unpack(b: Bytes): seq<uint32>
  {
    if |b| < 4 then []
    else
      Widths();
      FromLEBound(b[..4]);
      [FromLE(b[..4])] + Unpack(b[4..])
  }

  function Pack(v: seq<uint32>): (b: Bytes)
    ensures |b| == 4 * |v|
  {
    if v == [] then [] else ToLE(v[0], 4) + Pack(v[1..])
  }

  /** Unpacking undoes packing; up to three stray bytes at the end are ignored. */
  lemma {:induction false} UnpackPack(v: seq<uint32>, tail: Bytes)
    requires |tail| < 4
    ensures Unpack(Pack(v) + tail) == v
  {
    if v != [] {
      PackHead(v, tail);
      UnpackHead(v[0], Pack(v[1..]) + tail);
      UnpackPack(v[1..], tail);
    }
  }

  lemma PackHead(v: seq<uint32>, tail: Bytes)
    requires v != []
    ensures Pack(v) + tail == ToLE(v[0], 4) + (Pack(v[1..]) + tail)
  {
  }

  lemma UnpackHead(x: uint32, rest: Bytes)
    ensures Unpack(ToLE(x, 4) + rest) == [x] + Unpack(rest)
  {
    WordRead(x);
    UnpackSplit(ToLE(x, 4), rest);
  }

  lemma WordRead(x: uint32)
    ensures FromLE(ToLE(x, 4)) == x
  {
    Widths();
    FromToLE(x, 4);
  }

  lemma UnpackSplit(word: Bytes, rest: Bytes)
    requires |word| == 4 && FromLE(word) < U32
    ensures Unpack(word + rest) == [FromLE(word)] + Unpack(rest)
  {
    assert (word + rest)[..4] == word && (word + rest)[4..] == rest;
  }

  /** Packing restores all complete groups of four bytes. */
  lemma {:induction false} PackUnpack(b: Bytes)
    ensures Pack(Unpack(b)) == b[..|b| - |b| % 4]
  {
    if |b| >= 4 {
      PackUnpack(b[4..]);
      ToFromLE(b[..4]);
      assert b[..4] + b[4..][..|b| - 4 - |b| % 4] == b[..|b| - |b| % 4];
    }
  }

  lemma UnpackAt(b: Bytes, i: nat, out: seq<uint32>)
    requires i + 4 <= |b|
    ensures FromLE(b[i..i + 4]) < U32
    ensures (out + [FromLE(b[i..i + 4])]) + Unpack(b[i + 4..]) == out + Unpack(b[i..])
  {
    Widths();
    FromLEBound(b[i..i + 4]);
    assert b[i..][..4] == b[i..i + 4] && b[i..][4..] == b[i + 4..];
  }

  method UnpackU32LE(b: Bytes) returns (out: seq<uint32>)
    ensures out == Unpack(b)
  {
    out := [];
    var i := 0;
    while i + 4 <= |b|
      invariant 0 <= i <= |b|
      invariant out + Unpack(b[i..]) == Unpack(b)
    {
      UnpackAt(b, i, out);
      out := out + [FromLE(b[i..i + 4])];
      i := i + 4;
    }
  }

  lemma {:induction false} PackSnoc(v: seq<uint32>, x: uint32)
    ensures Pack(v + [x]) == Pack(v) + ToLE(x, 4)
  {
    if v == [] {
      assert v + [x] == [x];
    } else {
      assert (v + [x])[1..] == v[1..] + [x];
      PackSnoc(v[1..], x);
    }
  }

  method PackU32LE(v: seq<uint32>) returns (b: Bytes)
    ensures b == Pack(v)
  {
    b := [];
    for i := 0 to |v|
      invariant b == Pack(v[..i])
    {
      assert v[..i + 1] == v[..i] + [v[i]];
      PackSnoc(v[..i], v[i]);
      b := b + ToLE(v[i], 4);
    }
    assert v[..|v|] == v;
  }

  // ---- The table name ----

  /** strings.Trim(s, "\x00") */
  function TrimNul(s: Bytes): Bytes
  {
    if s != [] && s[0] == 0 then TrimNul(s[1..])
    else if s != [] && s[|s| - 1] == 0 then TrimNul(s[..|s| - 1])
    else s
  }

  function Lower(b: byte): byte { if 65 <= b <= 90 then b + 32 else b }

  /** strings.EqualFold against an ASCII pattern without 'k': besides ASCII case, only the
      long s (UTF-8 C5 BF) folds onto a pattern letter. */
  predicate EqualFold(s: Bytes, pattern: Bytes)
    decreases |pattern|
  {
    if pattern == [] then s == []
    else if s != [] && Lower(s[0]) == Lower(pattern[0]) then EqualFold(s[1..], pattern[1..])
    else |s| >= 2 && s[0] == 0xC5 && s[1] == 0xBF && Lower(pattern[0]) == 115 && EqualFold(s[2..], pattern[1..])
  }

  /** "ROOMS_V" followed by the protocol version */
  function TableName(ver: byte): Bytes { [82, 79, 79, 77, 83, 95, 86] + Itoa(ver) }

  // ---- One poll ----

  predicate Shown(l: Lobby, hideStarted: bool, id: RoomId)
    requires Linked(l)
  {
    id in l.live && !(hideStarted && l.rooms[id].started)
  }

  predicate Dropped(l: Lobby, hideStarted: bool, sum: uint32)
    requires Linked(l)
  {
    sum !in l.bySum || (hideStarted && l.rooms[l.bySum[sum]].started)
  }

  function Deletions(l: Lobby, hideStarted: bool, requested: seq<uint32>): seq<uint32>
    requires Linked(l)
  {
    if requested == [] then []
    else
      var n := |requested| - 1;
      Deletions(l, hideStarted, requested[..n]) + (if Dropped(l, hideStarted, requested[n]) then [requested[n]] else [])
  }

  function ToSet<T(==)>(s: seq<T>): set<T> { set x | x in s }

  /** The rooms whose rows a poll must send. */
  function NewRooms(l: Lobby, hideStarted: bool, matches: bool, held: set<uint32>): set<RoomId>
    requires Linked(l)
  {
    set id | id in l.live && Shown(l, hideStarted, id) && matches && l.rooms[id].ctlSum !in held
  }

  function RowArgs(l: Lobby, ids: seq<RoomId>): seq<Bytes>
    requires forall i :: 0 <= i < |ids| ==> ids[i] in l.rooms
  {
    if ids == [] then [] else RowArgs(l, ids[..|ids| - 1]) + l.rooms[ids[|ids| - 1]].row
  }

  /** ids lists the set without repetition, in any order. */
  ghost predicate Enumerates(ids: seq<RoomId>, s: set<RoomId>)
  {
    && (forall i :: 0 <= i < |ids| ==> ids[i] in s)
    && (forall id :: id in s ==> id in ids)
    && (forall i, j :: 0 <= i < j < |ids| ==> ids[i] != ids[j])
  }

  const LW_DTBL: Bytes := [76, 87, 95, 100, 116, 98, 108]
  const LW_TBL: Bytes := [76, 87, 95, 116, 98, 108]

  /** The reply carries the packed deletions, in request order, and the rows of the rooms
      `ids`, in the arbitrary order in which the by-id map is walked. */
  ghost predicate Replies(l: Lobby, hideStarted: bool, ver: byte, args: seq<Bytes>, cmds: CommandSet, ids: seq<RoomId>)
    requires Linked(l) && |args| >= 3
  {
    var name := TrimNul(args[0]);
    var requested := Unpack(args[2]);
    && Enumerates(ids, NewRooms(l, hideStarted, EqualFold(name, TableName(ver)), ToSet(requested)))
    && cmds == [
         Command(LW_DTBL, [name + [0], Pack(Deletions(l, hideStarted, requested))]),
         Command(LW_TBL, [name + [0], Itoa(|ids|)] + RowArgs(l, ids))]
  }

  /** The deletion loop. */
  method CollectDeletions(l: Lobby, hideStarted: bool, requested: seq<uint32>) returns (dtbl: seq<uint32>)
    requires Linked(l)
    ensures dtbl == Deletions(l, hideStarted, requested)
  {
    dtbl := [];
    for i := 0 to |requested|
      invariant dtbl == Deletions(l, hideStarted, requested[..i])
    {
      assert requested[..i + 1][..i] == requested[..i];
      if Dropped(l, hideStarted, requested[i]) {
        dtbl := dtbl + [requested[i]];
      }
    }
    assert requested[..|requested|] == requested;
  }

  /** The walk over the by-id map. */
  method CollectRows(l: Lobby, hideStarted: bool, matches: bool, held: set<uint32>)
    returns (count: nat, rows: seq<Bytes>, ghost ids: seq<RoomId>)
    requires Linked(l)
    ensures Enumerates(ids, NewRooms(l, hideStarted, matches, held))
    ensures count == |ids| && rows == RowArgs(l, ids)
  {
    count, rows, ids := 0, [], [];
    var todo := l.live;
    ghost var wanted := NewRooms(l, hideStarted, matches, held);
    while todo != {}
      invariant todo <= l.live
      invariant Enumerates(ids, wanted - todo)
      invariant count == |ids| && rows == RowArgs(l, ids)
      decreases todo
    {
      var id :| id in todo;
      todo := todo - {id};
      if Shown(l, hideStarted, id) && matches && l.rooms[id].ctlSum !in held {
        assert (ids + [id])[..|ids|] == ids;
        count, rows, ids := count + 1, rows + l.rooms[id].row, ids + [id];
      }
    }
    assert wanted - todo == wanted;
  }

  /** GETTBL.Handle; None is the insufficient-arguments error. */
  method Handle(l: Lobby, hideStarted: bool, ver: byte, args: seq<Bytes>)
    returns (reply: Option<CommandSet>, ghost ids: seq<RoomId>)
    requires Linked(l)
    ensures |args| < 3 <==> reply.None?
    ensures reply.Some? ==> Replies(l, hideStarted, ver, args, reply.value, ids)
  {
    ids := [];
    if |args| < 3 {
      return None, [];
    }
    var name := TrimNul(args[0]);
    var requested := UnpackU32LE(args[2]);
    var dtbl := CollectDeletions(l, hideStarted, requested);
    var count, rows, listed := CollectRows(l, hideStarted, EqualFold(name, TableName(ver)), (set x | x in requested));
    ids := listed;
    assert (set x | x in requested) == ToSet(requested);
    var bin := PackU32LE(dtbl);
    reply := Some([Command(LW_DTBL, [name + [0], bin]), Command(LW_TBL, [name + [0], Itoa(count)] + rows)]);
  }

  // ---- Convergence ----

  /** The tags of the rooms a client is entitled to see. */
  function VisibleSums(l: Lobby, hideStarted: bool): set<uint32>
    requires Linked(l)
  {
    set id | id in l.live && Shown(l, hideStarted, id) :: l.rooms[id].ctlSum
  }

  /** What the client holds after a poll: the deletions go, each new row is filed under
      the control sum of its text. */
  function AfterPoll(l: Lobby, held: set<uint32>, dtbl: Bytes, ids: seq<RoomId>): set<uint32>
    requires Linked(l) && forall i :: 0 <= i < |ids| ==> ids[i] in l.rooms
  {
    (held - ToSet(Unpack(dtbl))) + (set id | id in ids :: RowSum(l.rooms[id].row))
  }

  /** The index answers "held and visible" correctly for every tag. */
  ghost predicate IndexAnswers(l: Lobby, hideStarted: bool)
    requires Linked(l)
  {
    forall sum: uint32 :: !Dropped(l, hideStarted, sum) <==> sum in VisibleSums(l, hideStarted)
  }

  lemma {:induction false} DeletionsAre(l: Lobby, hideStarted: bool, requested: seq<uint32>)
    requires Linked(l)
    ensures forall x :: x in Deletions(l, hideStarted, requested) <==> x in requested && Dropped(l, hideStarted, x)
  {
    if requested != [] {
      var n := |requested| - 1;
      DeletionsAre(l, hideStarted, requested[..n]);
      assert requested == requested[..n] + [requested[n]];
    }
  }

  /** The tags of the rows sent are the visible ones not held. */
  lemma SentTags(l: Lobby, hideStarted: bool, held: set<uint32>, ids: seq<RoomId>, sum: uint32)
    requires LobbyInv(l) && Enumerates(ids, NewRooms(l, hideStarted, true, held))
    ensures (exists id :: id in ids && RowSum(l.rooms[id].row) == sum) <==>
      sum !in held && sum in VisibleSums(l, hideStarted)
  {
    if sum !in held && sum in VisibleSums(l, hideStarted) {
      var id :| id in l.live && Shown(l, hideStarted, id) && l.rooms[id].ctlSum == sum;
      assert id in NewRooms(l, hideStarted, true, held);
      assert id in ids && RowSum(l.rooms[id].row) == sum;
    }
    if id :| id in ids && RowSum(l.rooms[id].row) == sum {
      assert id in NewRooms(l, hideStarted, true, held) && l.rooms[id].ctlSum == sum;
    }
  }

  /** The client's view after any well-formed poll, in terms of what it held. */
  lemma PollResult(l: Lobby, hideStarted: bool, requested: seq<uint32>, ids: seq<RoomId>, sum: uint32)
    requires LobbyInv(l) && Enumerates(ids, NewRooms(l, hideStarted, true, ToSet(requested)))
    ensures sum in AfterPoll(l, ToSet(requested), Pack(Deletions(l, hideStarted, requested)), ids) <==>
      (if sum in requested then !Dropped(l, hideStarted, sum) else sum in VisibleSums(l, hideStarted))
  {
    var dtbl := Deletions(l, hideStarted, requested);
    DeletionsAre(l, hideStarted, requested);
    UnpackPack(dtbl, []);
    assert Pack(dtbl) + [] == Pack(dtbl);
    SentTags(l, hideStarted, ToSet(requested), ids, sum);
  }

  /** One poll brings the client to exactly the visible tags when the index answers right. */
  lemma PollConverges(l: Lobby, hideStarted: bool, requested: seq<uint32>, ids: seq<RoomId>)
    requires LobbyInv(l) && IndexAnswers(l, hideStarted)
    requires Enumerates(ids, NewRooms(l, hideStarted, true, ToSet(requested)))
    ensures AfterPoll(l, ToSet(requested), Pack(Deletions(l, hideStarted, requested)), ids)
      == VisibleSums(l, hideStarted)
  {
    forall sum: uint32
      ensures sum in AfterPoll(l, ToSet(requested), Pack(Deletions(l, hideStarted, requested)), ids)
        <==> sum in VisibleSums(l, hideStarted)
    {
      PollResult(l, hideStarted, requested, ids, sum);
    }
  }

  /** If it does not, some client stays wrong: one that holds just the mis-answered tag. */
  lemma PollStaysWrong(l: Lobby, hideStarted: bool, sum: uint32, ids: seq<RoomId>)
    requires LobbyInv(l) && (!Dropped(l, hideStarted, sum) <==> sum !in VisibleSums(l, hideStarted))
    requires Enumerates(ids, NewRooms(l, hideStarted, true, ToSet([sum])))
    ensures AfterPoll(l, ToSet([sum]), Pack(Deletions(l, hideStarted, [sum])), ids) != VisibleSums(l, hideStarted)
  {
    PollResult(l, hideStarted, [sum], ids, sum);
  }

  /** Every poll by every client converges exactly when the index answers right. */
  lemma ConvergenceIff(l: Lobby, hideStarted: bool)
    requires LobbyInv(l)
    ensures IndexAnswers(l, hideStarted) <==>
      forall requested: seq<uint32>, ids: seq<RoomId> |
        Enumerates(ids, NewRooms(l, hideStarted, true, ToSet(requested))) ::
        AfterPoll(l, ToSet(requested), Pack(Deletions(l, hideStarted, requested)), ids) == VisibleSums(l, hideStarted)
  {
    if IndexAnswers(l, hideStarted) {
      forall requested: seq<uint32>, ids: seq<RoomId> |
        Enumerates(ids, NewRooms(l, hideStarted, true, ToSet(requested)))
        ensures AfterPoll(l, ToSet(requested), Pack(Deletions(l, hideStarted, requested)), ids)
          == VisibleSums(l, hideStarted)
      {
        PollConverges(l, hideStarted, requested, ids);
      }
    } else {
      var sum: uint32 :| !(!Dropped(l, hideStarted, sum) <==> sum in VisibleSums(l, hideStarted));
      var ids := Listing(NewRooms(l, hideStarted, true, ToSet([sum])));
      PollStaysWrong(l, hideStarted, sum, ids);
    }
  }

  /** Every finite set can be listed. */
  lemma {:induction false} Listing(s: set<RoomId>) returns (ids: seq<RoomId>)
    ensures Enumerates(ids, s)
  {
    if s == {} {
      ids := [];
    } else {
      var x :| x in s;
      var rest := Listing(s - {x});
      ids := rest + [x];
    }
  }

  lemma ExactAnswers(l: Lobby, hideStarted: bool)
    requires SumExact(l)
    ensures IndexAnswers(l, hideStarted)
  {
    forall sum: uint32
      ensures !Dropped(l, hideStarted, sum) <==> sum in VisibleSums(l, hideStarted)
    {
      if !Dropped(l, hideStarted, sum) {
        assert Shown(l, hideStarted, l.bySum[sum]);
      }
      if id :| id in l.live && Shown(l, hideStarted, id) && l.rooms[id].ctlSum == sum {
        assert l.bySum[sum] == id;
      }
    }
  }

  lemma FirstIn<T>(s: seq<T>)
    requires s != []
    ensures s[0] in s
  {
  }

  /** A client that holds exactly the visible tags is sent nothing. */
  lemma UpToDateIsQuiet(l: Lobby, hideStarted: bool, requested: seq<uint32>, ids: seq<RoomId>)
    requires LobbyInv(l) && IndexAnswers(l, hideStarted) && ToSet(requested) == VisibleSums(l, hideStarted)
    requires Enumerates(ids, NewRooms(l, hideStarted, true, ToSet(requested)))
    ensures Deletions(l, hideStarted, requested) == [] && ids == []
  {
    var dtbl := Deletions(l, hideStarted, requested);
    DeletionsAre(l, hideStarted, requested);
    forall x | x in requested ensures !Dropped(l, hideStarted, x) { assert x in ToSet(requested); }
    if dtbl != [] { FirstIn(dtbl); }
    if ids != [] { FirstIn(ids); }
  }

  // ---- The same on whole replies ----

  /** The reply that carries no deletion and no row. */
  function QuietReply(name: Bytes): CommandSet
  {
    [Command(LW_DTBL, [name + [0], []]), Command(LW_TBL, [name + [0], Itoa(0)])]
  }

  /** The reply to any poll of the current table, applied, leaves exactly the visible tags. */
  lemma ReplyConverges(l: Lobby, hideStarted: bool, ver: byte, args: seq<Bytes>, cmds: CommandSet, ids: seq<RoomId>)
    requires LobbyInv(l) && IndexAnswers(l, hideStarted) && |args| >= 3
    requires Replies(l, hideStarted, ver, args, cmds, ids) && EqualFold(TrimNul(args[0]), TableName(ver))
    ensures AfterPoll(l, ToSet(Unpack(args[2])), cmds[0].args[1], ids) == VisibleSums(l, hideStarted)
  {
    PollConverges(l, hideStarted, Unpack(args[2]), ids);
  }

  lemma {:induction false} RowsTakeRoom(l: Lobby, ids: seq<RoomId>)
    requires LobbyInv(l) && forall i :: 0 <= i < |ids| ==> ids[i] in l.rooms
    ensures |RowArgs(l, ids)| >= 9 * |ids|
  {
    if ids != [] { RowsTakeRoom(l, ids[..|ids| - 1]); }
  }

  /** A reply is the quiet one only when it deletes nothing and sends nothing. */
  lemma QuietIsEmpty(l: Lobby, hideStarted: bool, ver: byte, args: seq<Bytes>, cmds: CommandSet, ids: seq<RoomId>)
    requires LobbyInv(l) && |args| >= 3 && Replies(l, hideStarted, ver, args, cmds, ids)
    ensures cmds == QuietReply(TrimNul(args[0])) <==> Deletions(l, hideStarted, Unpack(args[2])) == [] && ids == []
  {
    var name, dtbl := TrimNul(args[0]), Deletions(l, hideStarted, Unpack(args[2]));
    RowsTakeRoom(l, ids);
    if cmds == QuietReply(name) {
      assert cmds[0].args[1] == Pack(dtbl) && |cmds[1].args| == 2 + |RowArgs(l, ids)|;
    }
    if dtbl == [] && ids == [] {
      assert [name + [0], Itoa(0)] + RowArgs(l, ids) == [name + [0], Itoa(0)];
    }
  }

  /** A client is sent nothing exactly when it holds exactly the visible tags. */
  lemma ReplyQuietIff(l: Lobby, hideStarted: bool, ver: byte, args: seq<Bytes>, cmds: CommandSet, ids: seq<RoomId>)
    requires LobbyInv(l) && IndexAnswers(l, hideStarted) && |args| >= 3
    requires Replies(l, hideStarted, ver, args, cmds, ids) && EqualFold(TrimNul(args[0]), TableName(ver))
    ensures cmds == QuietReply(TrimNul(args[0])) <==> ToSet(Unpack(args[2])) == VisibleSums(l, hideStarted)
  {
    var held := ToSet(Unpack(args[2]));
    QuietIsEmpty(l, hideStarted, ver, args, cmds, ids);
    if held == VisibleSums(l, hideStarted) {
      UpToDateIsQuiet(l, hideStarted, Unpack(args[2]), ids);
    }
    if cmds == QuietReply(TrimNul(args[0])) {
      ReplyConverges(l, hideStarted, ver, args, cmds, ids);
      assert AfterPoll(l, held, [], []) == held;
    }
  }
}
