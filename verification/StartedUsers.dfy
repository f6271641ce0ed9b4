/** The tail of the `start` command: a count and 4-tuples (player, nation, team, colour),
    applied to the room by one loop and posted to the account service by another. */
module StartedUsers {
  import opened Machine
  import opened LobbyModel
  import opened Domain

  /** IntArg: the integer in an argument, if there is one. */
  type IntArg = Bytes -> Option<int>

  datatype Entry = Entry(id: PlayerId, nation: int, theam: int, color: int)

  /** One tuple; the player id is reduced to 32 bits. */
  function ParseTuple(list: seq<Bytes>, intArg: IntArg): Option<Entry>
    requires |list| >= 4
  {
    match (intArg(list[0]), intArg(list[1]), intArg(list[2]), intArg(list[3]))
    case (Some(pid), Some(nation), Some(theam), Some(color)) => Some(Entry(Wrap32(pid), nation, theam, color))
    case _ => None
  }

  /** The readable tuples in order; a trailing partial tuple is ignored. */
  function Entries(list: seq<Bytes>, intArg: IntArg): seq<Entry>
  {
    if |list| < 4 then []
    else
      var e := ParseTuple(list, intArg);
      (if e.Some? then [e.value] else []) + Entries(list[4..], intArg)
  }

  function Take<T>(s: seq<T>, n: nat): (r: seq<T>)
    ensures |r| <= n
  {
    if n < |s| then s[..n] else s
  }

  /** The entries whose player is in the room. */
  function Present(entries: seq<Entry>, members: set<PlayerId>): seq<Entry>
  {
    if entries == [] then []
    else (if entries[0].id in members then [entries[0]] else []) + Present(entries[1..], members)
  }

  function CountOf(args: seq<Bytes>, intArg: IntArg): int
  {
    if |args| < 3 then 0 else match intArg(args[2]) case Some(n) => n case None => 0
  }

  /** The count is the third argument. */
  lemma CountIs(args: seq<Bytes>, intArg: IntArg)
    ensures CountOf(args, intArg) > 0 <==> |args| >= 3 && intArg(args[2]).Some? && intArg(args[2]).value > 0
    ensures CountOf(args, intArg) > 0 ==> CountOf(args, intArg) == intArg(args[2]).value
  {
  }

  /** What BuildStartAccountPayload posts, or None when the arguments are malformed. */
  function Posted(args: seq<Bytes>, intArg: IntArg): Option<seq<Entry>>
  {
    var count := CountOf(args, intArg);
    if count <= 0 then None else Some(Take(Entries(args[3..], intArg), count))
  }

  /** What ApplyStartedUsers applies. */
  function Applicable(args: seq<Bytes>, intArg: IntArg, members: set<PlayerId>): seq<Entry>
  {
    var count := CountOf(args, intArg);
    if count <= 0 then [] else Take(Present(Entries(args[3..], intArg), members), count)
  }

  // ---- The posted members are a prefix of the started users ----

  lemma {:induction false} PresentPrefix(entries: seq<Entry>, n: nat, members: set<PlayerId>)
    requires n <= |entries|
    ensures Present(entries[..n], members) <= Present(entries, members)
    ensures |Present(entries[..n], members)| <= n
  {
    if n > 0 {
      assert entries[..n][1..] == entries[1..][..n - 1];
      PresentPrefix(entries[1..], n - 1, members);
    }
  }

  lemma {:induction false} PresentAre(entries: seq<Entry>, members: set<PlayerId>)
    ensures forall i :: 0 <= i < |Present(entries, members)| ==>
      Present(entries, members)[i].id in members && Present(entries, members)[i] in entries
  {
    if entries != [] { PresentAre(entries[1..], members); }
  }

  /** For any arguments: the posted players that belong to the room are, in order, a prefix
      of the started users, who are at most `count` and all members. */
  lemma PostedMembersArePrefix(args: seq<Bytes>, intArg: IntArg, members: set<PlayerId>)
    requires Posted(args, intArg).Some?
    ensures Present(Posted(args, intArg).value, members) <= Applicable(args, intArg, members)
    ensures |Posted(args, intArg).value| <= CountOf(args, intArg)
    ensures |Applicable(args, intArg, members)| <= CountOf(args, intArg)
    ensures forall i :: 0 <= i < |Applicable(args, intArg, members)| ==>
      Applicable(args, intArg, members)[i].id in members
  {
    var entries, count := Entries(args[3..], intArg), CountOf(args, intArg);
    var n := if count < |entries| then count else |entries|;
    assert Take(entries, count) == entries[..n];
    PresentPrefix(entries, n, members);
    PresentAre(entries, members);
  }

  /** A posted list shorter than the count leaves nothing out: then the two agree. */
  lemma PostedAllAgree(args: seq<Bytes>, intArg: IntArg, members: set<PlayerId>)
    requires Posted(args, intArg).Some? && |Posted(args, intArg).value| < CountOf(args, intArg)
    ensures Applicable(args, intArg, members) == Present(Posted(args, intArg).value, members)
  {
    var entries := Entries(args[3..], intArg);
    PresentPrefix(entries, |entries|, members);
    assert entries[..|entries|] == entries;
  }

  // ---- Which argument is what ----

  /** The k-th tuple of a list: all four of its arguments hold an integer. */
  predicate Readable(list: seq<Bytes>, intArg: IntArg, k: nat)
  {
    && 4 * k + 4 <= |list|
    && intArg(list[4 * k]).Some? && intArg(list[4 * k + 1]).Some?
    && intArg(list[4 * k + 2]).Some? && intArg(list[4 * k + 3]).Some?
  }

  /** The player the k-th tuple names. */
  function IdAt(list: seq<Bytes>, intArg: IntArg, k: nat): PlayerId
    requires Readable(list, intArg, k)
  {
    Wrap32(intArg(list[4 * k]).value)
  }

  /** Nation, team and colour of the k-th tuple. */
  function MarksAt(list: seq<Bytes>, intArg: IntArg, k: nat): (int, int, int)
    requires Readable(list, intArg, k)
  {
    (intArg(list[4 * k + 1]).value, intArg(list[4 * k + 2]).value, intArg(list[4 * k + 3]).value)
  }

  predicate Fits(list: seq<Bytes>, intArg: IntArg, members: set<PlayerId>, k: nat)
  {
    Readable(list, intArg, k) && IdAt(list, intArg, k) in members
  }

  /** How many of the tuples before the k-th are readable and name a member. */
  function Earlier(list: seq<Bytes>, intArg: IntArg, members: set<PlayerId>, k: nat): (n: nat)
  {
    if k == 0 then 0
    else Earlier(list, intArg, members, k - 1) + (if Fits(list, intArg, members, k - 1) then 1 else 0)
  }

  /** The tuples begin behind the first three arguments. */
  function Tuples(args: seq<Bytes>): seq<Bytes> { if |args| < 3 then [] else args[3..] }

  /** The k-th tuple is among the first `count` such tuples. */
  predicate Applied(args: seq<Bytes>, intArg: IntArg, members: set<PlayerId>, k: nat)
  {
    && Fits(Tuples(args), intArg, members, k)
    && Earlier(Tuples(args), intArg, members, k) < CountOf(args, intArg)
  }

  predicate IsNth(args: seq<Bytes>, intArg: IntArg, members: set<PlayerId>, n: nat, k: nat)
  {
    Applied(args, intArg, members, k) && Earlier(Tuples(args), intArg, members, k) == n
  }

  lemma RestFits(list: seq<Bytes>, rest: seq<Bytes>, intArg: IntArg, members: set<PlayerId>, k: nat)
    requires |list| >= 4 && rest == list[4..]
    ensures Readable(rest, intArg, k) <==> Readable(list, intArg, k + 1)
    ensures Readable(list, intArg, k + 1) ==>
      && IdAt(rest, intArg, k) == IdAt(list, intArg, k + 1)
      && MarksAt(rest, intArg, k) == MarksAt(list, intArg, k + 1)
    ensures Fits(rest, intArg, members, k) <==> Fits(list, intArg, members, k + 1)
  {
    if 4 * k + 4 <= |rest| {
      assert rest[4 * k] == list[4 * (k + 1)] && rest[4 * k + 1] == list[4 * (k + 1) + 1];
      assert rest[4 * k + 2] == list[4 * (k + 1) + 2] && rest[4 * k + 3] == list[4 * (k + 1) + 3];
    }
  }

  lemma {:induction false} EarlierRest(
    list: seq<Bytes>, rest: seq<Bytes>, intArg: IntArg, members: set<PlayerId>, k: nat)
    requires |list| >= 4 && rest == list[4..]
    ensures Earlier(list, intArg, members, k + 1) ==
      (if Fits(list, intArg, members, 0) then 1 else 0) + Earlier(rest, intArg, members, k)
  {
    if k > 0 {
      EarlierRest(list, rest, intArg, members, k - 1);
      RestFits(list, rest, intArg, members, k - 1);
    }
  }

  /** The entry the k-th tuple stands for. */
  ghost predicate IsEntry(e: Entry, list: seq<Bytes>, intArg: IntArg, k: nat)
    requires Readable(list, intArg, k)
  {
    e.id == IdAt(list, intArg, k) && (e.nation, e.theam, e.color) == MarksAt(list, intArg, k)
  }

  ghost predicate Found(found: seq<Entry>, n: nat, list: seq<Bytes>, intArg: IntArg, k: nat)
    requires Readable(list, intArg, k)
  {
    n < |found| && IsEntry(found[n], list, intArg, k)
  }

  lemma FirstTuple(list: seq<Bytes>, intArg: IntArg)
    requires |list| >= 4
    ensures Readable(list, intArg, 0) <==> ParseTuple(list, intArg).Some?
    ensures Readable(list, intArg, 0) ==> IsEntry(ParseTuple(list, intArg).value, list, intArg, 0)
  {
  }

  /** The entries of a list are that of its first tuple, if it fits, and those of the rest. */
  lemma EntriesHead(
    list: seq<Bytes>, rest: seq<Bytes>, intArg: IntArg, members: set<PlayerId>, found: seq<Entry>, more: seq<Entry>)
    requires |list| >= 4 && rest == list[4..]
    requires found == Present(Entries(list, intArg), members) && more == Present(Entries(rest, intArg), members)
    ensures if Fits(list, intArg, members, 0)
      then |found| == |more| + 1 && IsEntry(found[0], list, intArg, 0) && found[1..] == more
      else found == more
  {
    EntriesAt(list, 0, intArg, members);
    FirstTuple(list, intArg);
    assert list[0..] == list;
  }

  /** The k-th tuple is found behind the earlier ones. */
  lemma {:induction false} EntryOf(
    list: seq<Bytes>, intArg: IntArg, members: set<PlayerId>, k: nat, found: seq<Entry>)
    requires Fits(list, intArg, members, k) && found == Present(Entries(list, intArg), members)
    ensures Found(found, Earlier(list, intArg, members, k), list, intArg, k)
  {
    var rest := list[4..];
    var more := Present(Entries(rest, intArg), members);
    EntriesHead(list, rest, intArg, members, found, more);
    if k > 0 {
      RestFits(list, rest, intArg, members, k - 1);
      EarlierRest(list, rest, intArg, members, k - 1);
      EntryOf(rest, intArg, members, k - 1, more);
    }
  }

  /** And every entry is that of some tuple. */
  lemma {:induction false} TupleOf(
    list: seq<Bytes>, intArg: IntArg, members: set<PlayerId>, n: nat, found: seq<Entry>) returns (k: nat)
    requires found == Present(Entries(list, intArg), members) && n < |found|
    ensures Fits(list, intArg, members, k) && Earlier(list, intArg, members, k) == n
    decreases |list|
  {
    assert |list| >= 4;
    var rest := list[4..];
    var more := Present(Entries(rest, intArg), members);
    EntriesHead(list, rest, intArg, members, found, more);
    var first := Fits(list, intArg, members, 0);
    if first && n == 0 {
      k := 0;
    } else {
      var j := TupleOf(rest, intArg, members, if first then n - 1 else n, more);
      RestFits(list, rest, intArg, members, j);
      EarlierRest(list, rest, intArg, members, j);
      k := j + 1;
    }
  }

  lemma {:induction false} EarlierMonotone(
    list: seq<Bytes>, intArg: IntArg, members: set<PlayerId>, j: nat, k: nat)
    requires j <= k
    ensures Earlier(list, intArg, members, j) <= Earlier(list, intArg, members, k)
  {
    if j < k { EarlierMonotone(list, intArg, members, j, k - 1); }
  }

  lemma AppliedEntry(args: seq<Bytes>, intArg: IntArg, members: set<PlayerId>, k: nat)
    requires Applied(args, intArg, members, k)
    ensures Found(Applicable(args, intArg, members), Earlier(Tuples(args), intArg, members, k), Tuples(args), intArg, k)
  {
    EntryOf(Tuples(args), intArg, members, k, Present(Entries(Tuples(args), intArg), members));
  }

  lemma AppliedTuple(args: seq<Bytes>, intArg: IntArg, members: set<PlayerId>, n: nat) returns (k: nat)
    requires n < |Applicable(args, intArg, members)|
    ensures IsNth(args, intArg, members, n, k)
    ensures IsEntry(Applicable(args, intArg, members)[n], Tuples(args), intArg, k)
  {
    var found := Present(Entries(Tuples(args), intArg), members);
    k := TupleOf(Tuples(args), intArg, members, n, found);
    EntryOf(Tuples(args), intArg, members, k, found);
  }

  // ---- The loops ----

  lemma TakeMore<T>(done: seq<T>, x: T, rest: seq<T>, n: nat)
    requires |done| < n
    ensures done + Take([x] + rest, n - |done|) == (done + [x]) + Take(rest, n - |done| - 1)
  {
    var m := n - |done|;
    if m < |[x] + rest| { assert ([x] + rest)[..m] == [x] + rest[..m - 1]; }
  }

  const EVERYBODY: set<PlayerId> := set id: PlayerId | true

  lemma {:induction false} AllPresent(entries: seq<Entry>)
    ensures Present(entries, EVERYBODY) == entries
  {
    if entries != [] {
      AllPresent(entries[1..]);
      assert entries == [entries[0]] + entries[1..];
    }
  }

  /** The n-th posted player is that of some tuple. */
  ghost predicate FromTuple(posted: seq<Entry>, args: seq<Bytes>, intArg: IntArg, n: nat)
    requires n < |posted|
  {
    exists k: nat :: IsNth(args, intArg, EVERYBODY, n, k) && posted[n].id == IdAt(Tuples(args), intArg, k)
  }

  ghost predicate PostedAt(posted: seq<Entry>, args: seq<Bytes>, intArg: IntArg, k: nat)
    requires Readable(Tuples(args), intArg, k)
  {
    Found(posted, Earlier(Tuples(args), intArg, EVERYBODY, k), Tuples(args), intArg, k)
  }

  /** The players posted are those of the first `count` readable tuples, each with the
      integers of its own arguments. */
  ghost predicate PostedByPosition(posted: seq<Entry>, args: seq<Bytes>, intArg: IntArg)
  {
    && (forall k: nat :: Applied(args, intArg, EVERYBODY, k) ==> PostedAt(posted, args, intArg, k))
    && (forall n: nat :: n < |posted| ==> FromTuple(posted, args, intArg, n))
  }

  lemma PostedIsApplicable(args: seq<Bytes>, intArg: IntArg)
    requires Posted(args, intArg).Some?
    ensures Posted(args, intArg).value == Applicable(args, intArg, EVERYBODY)
  {
    AllPresent(Entries(args[3..], intArg));
  }

  lemma ApplicableByPosition(args: seq<Bytes>, intArg: IntArg, posted: seq<Entry>)
    requires posted == Applicable(args, intArg, EVERYBODY)
    ensures PostedByPosition(posted, args, intArg)
  {
    forall k: nat | Applied(args, intArg, EVERYBODY, k)
      ensures PostedAt(posted, args, intArg, k)
    {
      AppliedEntry(args, intArg, EVERYBODY, k);
    }
    forall n: nat | n < |posted|
      ensures FromTuple(posted, args, intArg, n)
    {
      var k := AppliedTuple(args, intArg, EVERYBODY, n);
    }
  }

  lemma PostedPositions(args: seq<Bytes>, intArg: IntArg)
    requires Posted(args, intArg).Some?
    ensures PostedByPosition(Posted(args, intArg).value, args, intArg)
  {
    PostedIsApplicable(args, intArg);
    ApplicableByPosition(args, intArg, Posted(args, intArg).value);
  }

  lemma ReadStep(list: seq<Bytes>, i: nat, intArg: IntArg, players: seq<Entry>, count: nat)
    requires i + 4 <= |list| && |players| < count
    ensures var e, rest := ParseTuple(list[i..], intArg), Entries(list[i + 4..], intArg);
      players + Take(Entries(list[i..], intArg), count - |players|) ==
        if e.Some? then (players + [e.value]) + Take(rest, count - |players| - 1)
        else players + Take(rest, count - |players|)
  {
    var e, rest := ParseTuple(list[i..], intArg), Entries(list[i + 4..], intArg);
    assert list[i..][4..] == list[i + 4..];
    if e.Some? {
      TakeMore(players, e.value, rest, count);
    } else {
      assert [] + rest == rest;
    }
  }

  method ReadPlayers(list: seq<Bytes>, intArg: IntArg, count: nat) returns (players: seq<Entry>)
    ensures players == Take(Entries(list, intArg), count)
  {
    players := [];
    var i := 0;
    while i + 3 < |list| && |players| < count
      invariant 0 <= i <= |list| && |players| <= count
      invariant players + Take(Entries(list[i..], intArg), count - |players|) == Take(Entries(list, intArg), count)
      decreases |list| - i
    {
      var e := ParseTuple(list[i..], intArg);
      ReadStep(list, i, intArg, players, count);
      if e.Some? {
        players := players + [e.value];
      }
      i := i + 4;
    }
    assert Take(Entries(list[i..], intArg), count - |players|) == [];
    assert players + [] == players;
  }

  /** The player loop of BuildStartAccountPayload. */
  method BuildPlayers(args: seq<Bytes>, intArg: IntArg) returns (r: Option<seq<Entry>>)
    ensures r == Posted(args, intArg)
    ensures r.Some? <==> |args| >= 3 && intArg(args[2]).Some? && intArg(args[2]).value > 0
    ensures r.Some? ==> PostedByPosition(r.value, args, intArg)
  {
    if |args| < 3 {
      return None;
    }
    var parsed := intArg(args[2]);
    if parsed.None? || parsed.value <= 0 {
      return None;
    }
    var players := ReadPlayers(args[3..], intArg, parsed.value);
    PostedPositions(args, intArg);
    r := Some(players);
  }

  /** Nation, team and colour a player ends up with: those of the last entry naming him. */
  function LastWord(entries: seq<Entry>, id: PlayerId, before: (uint32, uint32, uint32)): (uint32, uint32, uint32)
  {
    if entries == [] then before
    else
      var e := entries[|entries| - 1];
      if e.id == id then (Wrap32(e.nation), Wrap32(e.theam), Wrap32(e.color))
      else LastWord(entries[..|entries| - 1], id, before)
  }

  ghost function Marks(p: Player): (uint32, uint32, uint32)
    reads p
  {
    (p.nation, p.theam, p.color)
  }

  /** The ids whose Players entry is not nil. */
  ghost function Registered(room: Room): set<PlayerId>
    reads room
  {
    set id | id in room.players && room.players[id] != null
  }

  /** The room's started users and marks after the entries `done` were applied. */
  ghost predicate UsersAre(room: Room, done: seq<Entry>)
    reads room
  {
    && |room.startedUsers| == |done|
    && forall k :: 0 <= k < |done| ==> done[k].id in room.players && room.startedUsers[k] == room.players[done[k].id]
  }

  lemma LastWordSnoc(done: seq<Entry>, e: Entry, id: PlayerId, before: (uint32, uint32, uint32))
    ensures LastWord(done + [e], id, before) ==
      if e.id == id then (Wrap32(e.nation), Wrap32(e.theam), Wrap32(e.color)) else LastWord(done, id, before)
  {
    assert (done + [e])[..|done|] == done;
  }

  type MarkMap = map<PlayerId, (uint32, uint32, uint32)>

  ghost function MarksOf(room: Room): MarkMap
    reads room, room.players.Values
  {
    map id | id in Registered(room) :: Marks(room.players[id])
  }

  ghost predicate MarksAre(room: Room, done: seq<Entry>, before: MarkMap)
    reads room, room.players.Values
  {
    forall id :: id in Registered(room) ==>
      id in before && Marks(room.players[id]) == LastWord(done, id, before[id])
  }

  function Marks32(marks: (int, int, int)): (uint32, uint32, uint32)
  {
    (Wrap32(marks.0), Wrap32(marks.1), Wrap32(marks.2))
  }

  lemma {:induction false} LastWordIs(entries: seq<Entry>, id: PlayerId, before: (uint32, uint32, uint32), n: nat)
    requires n < |entries| && entries[n].id == id
    requires forall m :: n < m < |entries| ==> entries[m].id != id
    ensures var e := entries[n]; LastWord(entries, id, before) == Marks32((e.nation, e.theam, e.color))
  {
    if n < |entries| - 1 { LastWordIs(entries[..|entries| - 1], id, before, n); }
  }

  lemma {:induction false} NoWord(entries: seq<Entry>, id: PlayerId, before: (uint32, uint32, uint32))
    requires forall m :: 0 <= m < |entries| ==> entries[m].id != id
    ensures LastWord(entries, id, before) == before
  {
    if entries != [] { NoWord(entries[..|entries| - 1], id, before); }
  }

  /** The k-th tuple is the last applied one that names the player. */
  ghost predicate LastNaming(args: seq<Bytes>, intArg: IntArg, members: set<PlayerId>, id: PlayerId, k: nat)
  {
    && Applied(args, intArg, members, k) && IdAt(Tuples(args), intArg, k) == id
    && forall j: nat :: j > k && Applied(args, intArg, members, j) ==> IdAt(Tuples(args), intArg, j) != id
  }

  ghost predicate Unnamed(args: seq<Bytes>, intArg: IntArg, members: set<PlayerId>, id: PlayerId)
  {
    forall k: nat :: Applied(args, intArg, members, k) ==> IdAt(Tuples(args), intArg, k) != id
  }

  lemma LastNamingWord(
    args: seq<Bytes>, intArg: IntArg, members: set<PlayerId>, id: PlayerId, k: nat, before: (uint32, uint32, uint32))
    requires LastNaming(args, intArg, members, id, k)
    ensures LastWord(Applicable(args, intArg, members), id, before) == Marks32(MarksAt(Tuples(args), intArg, k))
  {
    var done, n := Applicable(args, intArg, members), Earlier(Tuples(args), intArg, members, k);
    AppliedEntry(args, intArg, members, k);
    forall m | n < m < |done|
      ensures done[m].id != id
    {
      var j := AppliedTuple(args, intArg, members, m);
      if j <= k { EarlierMonotone(Tuples(args), intArg, members, j, k); }
    }
    LastWordIs(done, id, before, n);
  }

  lemma UnnamedWord(
    args: seq<Bytes>, intArg: IntArg, members: set<PlayerId>, id: PlayerId, before: (uint32, uint32, uint32))
    requires Unnamed(args, intArg, members, id)
    ensures LastWord(Applicable(args, intArg, members), id, before) == before
  {
    var done := Applicable(args, intArg, members);
    forall m | 0 <= m < |done|
      ensures done[m].id != id
    {
      var k := AppliedTuple(args, intArg, members, m);
    }
    NoWord(done, id, before);
  }

  /** Nation, team and colour are the second, third and fourth integer of the k-th tuple, to
      32 bits. */
  ghost predicate MarkedWith(p: Player, list: seq<Bytes>, intArg: IntArg, k: nat)
    requires Readable(list, intArg, k)
    reads p
  {
    && p.nation == intArg(list[4 * k + 1]).value % U32
    && p.theam == intArg(list[4 * k + 2]).value % U32
    && p.color == intArg(list[4 * k + 3]).value % U32
  }

  /** Every player of the room has the 32-bit nation, team and colour of the last applied
      tuple that names him, or is as before if none does. */
  ghost predicate MarkedByPosition(room: Room, args: seq<Bytes>, intArg: IntArg, before: MarkMap)
    reads room, room.players.Values
  {
    var members := Registered(room);
    forall id :: id in members ==>
      && id in before
      && (Unnamed(args, intArg, members, id) ==> Marks(room.players[id]) == before[id])
      && forall k :: LastNaming(args, intArg, members, id, k) ==> MarkedWith(room.players[id], Tuples(args), intArg, k)
  }

  /** The player of the k-th tuple stands behind those of the earlier ones. */
  ghost predicate Listed(room: Room, args: seq<Bytes>, intArg: IntArg, k: nat)
    requires Readable(Tuples(args), intArg, k)
    reads room
  {
    var n, id := Earlier(Tuples(args), intArg, Registered(room), k), IdAt(Tuples(args), intArg, k);
    n < |room.startedUsers| && id in room.players && room.startedUsers[n] == room.players[id]
  }

  ghost predicate ListedFrom(room: Room, args: seq<Bytes>, intArg: IntArg, n: nat)
    requires n < |room.startedUsers|
    reads room
  {
    exists k: nat ::
      IsNth(args, intArg, Registered(room), n, k) && room.startedUsers[n].id == IdAt(Tuples(args), intArg, k)
  }

  /** The started users are the players of the applied tuples, in order. */
  ghost predicate ListedByPosition(room: Room, args: seq<Bytes>, intArg: IntArg)
    reads room
  {
    && (forall k: nat :: Applied(args, intArg, Registered(room), k) ==> Listed(room, args, intArg, k))
    && (forall n: nat :: n < |room.startedUsers| ==> ListedFrom(room, args, intArg, n))
  }

  lemma MarksByPosition(room: Room, args: seq<Bytes>, intArg: IntArg, before: MarkMap)
    requires MarksAre(room, Applicable(args, intArg, Registered(room)), before)
    ensures MarkedByPosition(room, args, intArg, before)
  {
    var members := Registered(room);
    forall id | id in members
      ensures Unnamed(args, intArg, members, id) ==> Marks(room.players[id]) == before[id]
      ensures forall k :: LastNaming(args, intArg, members, id, k) ==>
        MarkedWith(room.players[id], Tuples(args), intArg, k)
    {
      if Unnamed(args, intArg, members, id) { UnnamedWord(args, intArg, members, id, before[id]); }
      forall k | LastNaming(args, intArg, members, id, k)
        ensures MarkedWith(room.players[id], Tuples(args), intArg, k)
      {
        LastNamingWord(args, intArg, members, id, k, before[id]);
      }
    }
  }

  lemma UserOfTuple(room: Room, args: seq<Bytes>, intArg: IntArg, k: nat)
    requires UsersAre(room, Applicable(args, intArg, Registered(room))) && Applied(args, intArg, Registered(room), k)
    ensures Listed(room, args, intArg, k)
  {
    AppliedEntry(args, intArg, Registered(room), k);
  }

  lemma TupleOfUser(room: Room, args: seq<Bytes>, intArg: IntArg, n: nat) returns (k: nat)
    requires room.KeyedById() && UsersAre(room, Applicable(args, intArg, Registered(room)))
    requires n < |room.startedUsers|
    ensures IsNth(args, intArg, Registered(room), n, k) && room.startedUsers[n].id == IdAt(Tuples(args), intArg, k)
  {
    k := AppliedTuple(args, intArg, Registered(room), n);
    UserOfTuple(room, args, intArg, k);
  }

  lemma UsersByPosition(room: Room, args: seq<Bytes>, intArg: IntArg)
    requires room.KeyedById() && UsersAre(room, Applicable(args, intArg, Registered(room)))
    ensures ListedByPosition(room, args, intArg)
  {
    forall k: nat | Applied(args, intArg, Registered(room), k)
      ensures Listed(room, args, intArg, k)
    {
      UserOfTuple(room, args, intArg, k);
    }
    forall n: nat | n < |room.startedUsers|
      ensures ListedFrom(room, args, intArg, n)
    {
      var k := TupleOfUser(room, args, intArg, n);
    }
  }

  /** One tuple of the loop: mark the player and append him. */
  method ApplyEntry(room: Room, e: Entry, ghost done: seq<Entry>, ghost before: MarkMap)
    requires room.KeyedById() && e.id in room.players && room.players[e.id] != null
    requires UsersAre(room, done) && MarksAre(room, done, before)
    modifies room`startedUsers, room.players.Values`nation, room.players.Values`theam, room.players.Values`color
    ensures UsersAre(room, done + [e]) && MarksAre(room, done + [e], before)
  {
    var pl := room.players[e.id];
    pl.nation, pl.theam, pl.color := Wrap32(e.nation), Wrap32(e.theam), Wrap32(e.color);
    room.startedUsers := room.startedUsers + [pl];
    forall id | id in Registered(room)
      ensures id in before && Marks(room.players[id]) == LastWord(done + [e], id, before[id])
    {
      LastWordSnoc(done, e, id, before[id]);
    }
  }

  /** ApplyStartedUsers: without a positive count nothing changes; otherwise the started
      users are rebuilt from the applicable entries, and every player of the room carries
      the marks of the last entry naming him. */
  method ApplyStartedUsers(room: Room, args: seq<Bytes>, intArg: IntArg)
    requires room.KeyedById()
    modifies room`startedUsers, room.players.Values`nation, room.players.Values`theam, room.players.Values`color
    ensures !(|args| >= 3 && intArg(args[2]).Some? && intArg(args[2]).value > 0) ==>
      room.startedUsers == old(room.startedUsers)
    ensures CountOf(args, intArg) > 0 ==> UsersAre(room, Applicable(args, intArg, Registered(room)))
    ensures MarksAre(room, Applicable(args, intArg, Registered(room)), old(MarksOf(room)))
    ensures CountOf(args, intArg) > 0 ==> ListedByPosition(room, args, intArg)
    ensures MarkedByPosition(room, args, intArg, old(MarksOf(room)))
  {
    ghost var before := MarksOf(room);
    if |args| < 3 {
      MarksByPosition(room, args, intArg, before);
      return;
    }
    var parsed := intArg(args[2]);
    if parsed.None? || parsed.value <= 0 {
      MarksByPosition(room, args, intArg, before);
      return;
    }
    room.startedUsers := [];
    ApplyTuples(room, args[3..], intArg, parsed.value, before);
    UsersByPosition(room, args, intArg);
    MarksByPosition(room, args, intArg, before);
  }

  lemma ApplyStep(
    list: seq<Bytes>, i: nat, intArg: IntArg, members: set<PlayerId>, done: seq<Entry>, count: nat)
    requires i + 4 <= |list| && |done| < count
    ensures var e, rest := ParseTuple(list[i..], intArg), Present(Entries(list[i + 4..], intArg), members);
      done + Take(Present(Entries(list[i..], intArg), members), count - |done|) ==
        if e.Some? && e.value.id in members then (done + [e.value]) + Take(rest, count - |done| - 1)
        else done + Take(rest, count - |done|)
  {
    var e, rest := ParseTuple(list[i..], intArg), Present(Entries(list[i + 4..], intArg), members);
    EntriesAt(list, i, intArg, members);
    if e.Some? && e.value.id in members { TakeMore(done, e.value, rest, count); }
  }

  method ApplyTuples(room: Room, list: seq<Bytes>, intArg: IntArg, count: nat, ghost before: MarkMap)
    requires room.KeyedById() && room.startedUsers == [] && before == MarksOf(room)
    modifies room`startedUsers, room.players.Values`nation, room.players.Values`theam, room.players.Values`color
    ensures var done := Take(Present(Entries(list, intArg), Registered(room)), count);
      UsersAre(room, done) && MarksAre(room, done, before)
  {
    ghost var members := Registered(room);
    ghost var goal := Take(Present(Entries(list, intArg), members), count);
    ghost var done: seq<Entry> := [];
    var i := 0;
    assert list[0..] == list && [] + goal == goal;
    while i + 3 < |list| && |room.startedUsers| < count
      invariant 0 <= i <= |list| && |done| <= count && members == Registered(room)
      invariant UsersAre(room, done) && MarksAre(room, done, before)
      invariant done + Take(Present(Entries(list[i..], intArg), members), count - |done|) == goal
      decreases |list| - i
    {
      var e := ParseTuple(list[i..], intArg);
      ApplyStep(list, i, intArg, members, done, count);
      if e.Some? && e.value.id in room.players && room.players[e.value.id] != null {
        ApplyEntry(room, e.value, done, before);
        done := done + [e.value];
      }
      i := i + 4;
    }
    assert Take(Present(Entries(list[i..], intArg), members), count - |done|) == [] && done + [] == done;
  }

  /** How the remaining applicable entries shrink over one tuple. */
  lemma EntriesAt(list: seq<Bytes>, i: nat, intArg: IntArg, members: set<PlayerId>)
    requires i + 4 <= |list|
    ensures var e := ParseTuple(list[i..], intArg); var rest := Present(Entries(list[i + 4..], intArg), members);
      Present(Entries(list[i..], intArg), members)
      == if e.Some? && e.value.id in members then [e.value] + rest else rest
  {
    assert list[i..][4..] == list[i + 4..];
    var e, rest := ParseTuple(list[i..], intArg), Entries(list[i + 4..], intArg);
    assert [] + rest == rest && [] + Present(rest, members) == Present(rest, members);
    if e.Some? { PresentCons(e.value, Entries(list[i + 4..], intArg), members); }
  }

  lemma PresentCons(e: Entry, rest: seq<Entry>, members: set<PlayerId>)
    ensures Present([e] + rest, members) == (if e.id in members then [e] else []) + Present(rest, members)
  {
    assert ([e] + rest)[1..] == rest;
  }
}
