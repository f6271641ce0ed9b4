/** Which first arguments of GETTBL name the current table. */
module TableNames {
  import opened Machine
  import opened Decimal
  import opened CommandText
  import opened CommandBinary
  import opened LobbyModel
  import opened OrderlyRuns
  import opened Gettbl
  import opened TableRows

  // ---- Trimming ----

  predicate NoOuterNul(m: Bytes) { m != [] ==> m[0] != 0 && m[|m| - 1] != 0 }

  lemma ZerosShift(n: nat)
    requires n > 0
    ensures Zeros(n) == [0] + Zeros(n - 1) && Zeros(n) == Zeros(n - 1) + [0]
  {
  }

  /** The name is what lies between the NUL bytes at either end. */
  lemma {:induction false} TrimNulIs(s: Bytes) returns (a: nat, b: nat)
    ensures s == Zeros(a) + TrimNul(s) + Zeros(b) && NoOuterNul(TrimNul(s))
    decreases |s|
  {
    if s != [] && s[0] == 0 {
      a, b := TrimNulIs(s[1..]);
      ZerosShift(a + 1);
      assert s == [0] + s[1..];
      a := a + 1;
    } else if s != [] && s[|s| - 1] == 0 {
      var n := |s| - 1;
      a, b := TrimNulIs(s[..n]);
      ZerosShift(b + 1);
      assert s == s[..n] + [0];
      b := b + 1;
    } else {
      a, b := 0, 0;
    }
  }

  /** And any text without NUL at its ends is the name when NULs surround it. */
  lemma {:induction false} TrimNulOf(a: nat, m: Bytes, b: nat)
    requires NoOuterNul(m)
    ensures TrimNul(Zeros(a) + m + Zeros(b)) == m
    decreases a + b
  {
    var s := Zeros(a) + m + Zeros(b);
    if a > 0 {
      ZerosShift(a);
      assert s[1..] == Zeros(a - 1) + m + Zeros(b);
      TrimNulOf(a - 1, m, b);
    } else if b > 0 {
      if m == [] {
        assert s == Zeros(b);
        AllZeros(b);
      } else {
        ZerosShift(b);
        var n := |s| - 1;
        assert s[0] == m[0] && s[n] == 0;
        assert s[..n] == Zeros(0) + m + Zeros(b - 1);
        TrimNulOf(0, m, b - 1);
      }
    } else {
      assert s == m;
    }
  }

  lemma {:induction false} AllZeros(n: nat)
    ensures TrimNul(Zeros(n)) == []
  {
    if n > 0 {
      assert Zeros(n)[1..] == Zeros(n - 1);
      AllZeros(n - 1);
    }
  }

  // ---- Letter case ----

  /** The same byte, or the same ASCII letter in the other case. */
  predicate SameLetter(x: byte, y: byte)
  {
    x == y || (65 <= x <= 90 && y == x + 32) || (65 <= y <= 90 && x == y + 32)
  }

  predicate SameText(s: Bytes, t: Bytes)
  {
    |s| == |t| && forall i :: 0 <= i < |s| ==> SameLetter(s[i], t[i])
  }

  lemma SameLetterIff(x: byte, y: byte)
    ensures SameLetter(x, y) <==> Lower(x) == Lower(y)
  {
  }

  /** The long s (U+017F, written C5 BF) read as an s. */
  function ShortS(s: Bytes): (t: Bytes)
    ensures |t| <= |s|
  {
    if s == [] then []
    else if |s| >= 2 && s[0] == 0xC5 && s[1] == 0xBF then ['s' as int] + ShortS(s[2..])
    else [s[0]] + ShortS(s[1..])
  }

  predicate Ascii(t: Bytes) { forall i :: 0 <= i < |t| ==> t[i] < 128 }

  lemma SameTextCons(x: byte, s: Bytes, pattern: Bytes)
    requires pattern != []
    ensures SameText([x] + s, pattern) <==> SameLetter(x, pattern[0]) && SameText(s, pattern[1..])
  {
    var t := [x] + s;
    if SameLetter(x, pattern[0]) && SameText(s, pattern[1..]) {
      forall i | 0 <= i < |t|
        ensures SameLetter(t[i], pattern[i])
      {
        if i > 0 { assert SameLetter(s[i - 1], pattern[1..][i - 1]); }
      }
    }
    if SameText(t, pattern) {
      forall i | 0 <= i < |s|
        ensures SameLetter(s[i], pattern[1..][i])
      {
        assert SameLetter(t[i + 1], pattern[i + 1]);
      }
    }
  }

  /** Names are compared letter by letter, a long s counting as an s. */
  lemma {:induction false} FoldIff(s: Bytes, pattern: Bytes)
    requires Ascii(pattern)
    ensures EqualFold(s, pattern) <==> SameText(ShortS(s), pattern)
    decreases |pattern|
  {
    if pattern != [] && s != [] {
      if |s| >= 2 && s[0] == 0xC5 && s[1] == 0xBF {
        SameLetterIff('s' as int, pattern[0]);
        SameTextCons('s' as int, ShortS(s[2..]), pattern);
        FoldIff(s[2..], pattern[1..]);
      } else {
        SameLetterIff(s[0], pattern[0]);
        SameTextCons(s[0], ShortS(s[1..]), pattern);
        FoldIff(s[1..], pattern[1..]);
      }
    }
  }

  lemma {:induction false} ShortSEnds(m: Bytes)
    requires m != []
    ensures ShortS(m) != []
    ensures m[0] == 0 ==> ShortS(m)[0] == 0
    ensures m[|m| - 1] == 0 ==> ShortS(m)[|ShortS(m)| - 1] == 0
  {
    var rest := if |m| >= 2 && m[0] == 0xC5 && m[1] == 0xBF then m[2..] else m[1..];
    if rest != [] { ShortSEnds(rest); }
  }

  lemma {:induction false} NoLongS(m: Bytes)
    requires 0xC5 !in m
    ensures ShortS(m) == m
  {
    if m != [] {
      NoLongS(m[1..]);
      assert m == [m[0]] + m[1..];
    }
  }

  // ---- The table of a version ----

  const ROOMS: Bytes := [82, 79, 79, 77, 83, 95, 86]

  lemma TableNameIs(ver: byte)
    ensures TableName(ver) == ROOMS + TableName(ver)[7..] && Spell(ROOMS) == "ROOMS_V"
    ensures ParseNat(TableName(ver)[7..]) == ver
    ensures forall i :: 7 <= i < |TableName(ver)| ==> IsDigit(TableName(ver)[i])
    ensures NoOuterNul(TableName(ver)) && Ascii(TableName(ver))
  {
    var t, d := TableName(ver), Digits(ver);
    assert t == ROOMS + d && t[7..] == d;
    ParseDigits(ver);
    DigitsShape(ver);
    forall i | 7 <= i < |t|
      ensures IsDigit(t[i])
    {
      assert t[i] == d[i - 7];
    }
  }

  /** A text as sent: the name in any letter case, an s long or short, with any NULs
      around it. */
  ghost predicate Names(arg: Bytes, text: Bytes)
  {
    exists a: nat, m: Bytes, b: nat :: SameText(ShortS(m), text) && arg == Zeros(a) + m + Zeros(b)
  }

  lemma SameEnds(m: Bytes, text: Bytes)
    requires SameText(ShortS(m), text) && NoOuterNul(text)
    ensures NoOuterNul(m)
  {
    if m != [] {
      ShortSEnds(m);
      var t := ShortS(m);
      assert SameLetter(t[0], text[0]) && SameLetter(t[|t| - 1], text[|t| - 1]);
    }
  }

  /** The names accepted at a version are "ROOMS_V" and the version, in any letter case, an s
      long or short, with any NULs around, and no others. */
  lemma AcceptedIff(ver: byte, arg: Bytes)
    ensures EqualFold(TrimNul(arg), TableName(ver)) <==> Names(arg, TableName(ver))
  {
    TableNameIs(ver);
    if Names(arg, TableName(ver)) {
      var a: nat, m: Bytes, b: nat :| SameText(ShortS(m), TableName(ver)) && arg == Zeros(a) + m + Zeros(b);
      SameEnds(m, TableName(ver));
      TrimNulOf(a, m, b);
      FoldIff(m, TableName(ver));
    }
    if EqualFold(TrimNul(arg), TableName(ver)) {
      var a, b := TrimNulIs(arg);
      FoldIff(TrimNul(arg), TableName(ver));
    }
  }

  lemma {:induction false} DigitsFold(s: Bytes, d: Bytes)
    requires EqualFold(s, d) && forall i :: 0 <= i < |d| ==> IsDigit(d[i])
    ensures s == d
  {
    if d != [] {
      DigitsFold(s[1..], d[1..]);
      assert s == [s[0]] + s[1..] && d == [d[0]] + d[1..];
    }
  }

  /** Behind a common beginning the rest of the name decides. */
  lemma {:induction false} FoldSuffix(s: Bytes, head: Bytes, d: Bytes, e: Bytes) returns (rest: Bytes)
    requires EqualFold(s, head + d) && EqualFold(s, head + e)
    ensures EqualFold(rest, d) && EqualFold(rest, e)
    decreases |head|
  {
    if head == [] {
      assert head + d == d && head + e == e;
      rest := s;
    } else {
      assert (head + d)[1..] == head[1..] + d && (head + e)[1..] == head[1..] + e;
      assert (head + d)[0] == head[0] && (head + e)[0] == head[0];
      rest := FoldSuffix(if Lower(s[0]) == Lower(head[0]) then s[1..] else s[2..], head[1..], d, e);
    }
  }

  /** No argument whatever is accepted as the table of two versions. */
  lemma OneVersion(arg: Bytes, ver: byte, other: byte)
    requires EqualFold(TrimNul(arg), TableName(ver)) && EqualFold(TrimNul(arg), TableName(other))
    ensures ver == other
  {
    TableNameIs(ver);
    TableNameIs(other);
    var d, e := TableName(ver)[7..], TableName(other)[7..];
    var rest := FoldSuffix(TrimNul(arg), ROOMS, d, e);
    DigitsFold(rest, d);
    DigitsFold(rest, e);
  }

  /** The usual request at version 2. */
  lemma UsualName(arg: Bytes)
    requires Spell(arg) == "ROOMS_V2\0"
    ensures EqualFold(TrimNul(arg), TableName(2))
  {
    assert forall i :: 0 <= i < 9 ==> arg[i] == Spell(arg)[i] as int;
    assert arg == ROOMS + [50, 0];
    TableNameIs(2);
    assert Digits(2) == [50];
    var m := TableName(2);
    assert m == ROOMS + [50];
    assert Zeros(1) == [0] && Zeros(0) == [];
    assert arg == Zeros(0) + m + Zeros(1);
    NoLongS(m);
    assert SameText(ShortS(m), m);
    AcceptedIff(2, arg);
  }

  // ---- Polls by name ----

  /** After any orderly run, whoever asks for the table by its name is brought up to date. */
  lemma PollByName(
    steps: seq<Step>, hideStarted: bool, ver: byte, args: seq<Bytes>, cmds: CommandSet, ids: seq<RoomId>)
    requires IdsSuffice(steps) && |args| >= 3
    requires forall i :: 0 <= i < |steps| ==> Orderly(Run(steps[..i]), steps[i])
    requires Names(args[0], TableName(ver)) && Replies(Run(steps).lobby, hideStarted, ver, args, cmds, ids)
    ensures var l, held := Run(steps).lobby, ToSet(Unpack(args[2]));
      && ClientView(held, cmds) ==
           (if OneLayout(l, Sent(l, hideStarted, ver, args)) then Some(VisibleSums(l, hideStarted)) else None)
      && (cmds == QuietReply(TrimNul(args[0])) <==> held == VisibleSums(l, hideStarted))
  {
    AcceptedIff(ver, args[0]);
    PollAfterRun(steps, hideStarted, ver, args, cmds, ids);
  }

  /** Whoever asks under another version's name is sent no row. */
  lemma OtherNameSendsNoRow(
    l: Lobby, hideStarted: bool, ver: byte, other: byte, args: seq<Bytes>, cmds: CommandSet, ids: seq<RoomId>)
    requires Linked(l) && |args| >= 3 && ver != other && Names(args[0], TableName(other))
    requires Replies(l, hideStarted, ver, args, cmds, ids)
    ensures ids == [] && cmds[1].args == [TrimNul(args[0]) + [0], Itoa(0)]
  {
    AcceptedIff(other, args[0]);
    if EqualFold(TrimNul(args[0]), TableName(ver)) { OneVersion(args[0], ver, other); }
    if ids != [] { FirstIn(ids); }
    assert [TrimNul(args[0]) + [0], Itoa(0)] + RowArgs(l, []) == [TrimNul(args[0]) + [0], Itoa(0)];
  }

  // ---- What a reply holds, in full ----

  /** The commands are called LW_dtbl and LW_tbl. Tags are deleted in the order in which they
      were sent, if they lead to no room or to a started one that is hidden; rows are sent of
      the listed rooms whose tags were not, started ones only if they are not hidden. */
  lemma ReplyIs(
    l: Lobby, hideStarted: bool, ver: byte, args: seq<Bytes>, cmds: CommandSet, ids: seq<RoomId>)
    requires Linked(l) && |args| >= 3 && Replies(l, hideStarted, ver, args, cmds, ids)
    ensures |cmds| == 2 && Spell(cmds[0].name) == "LW_dtbl" && Spell(cmds[1].name) == "LW_tbl"
    ensures cmds[0].args == [TrimNul(args[0]) + [0], Pack(Deletions(l, hideStarted, Unpack(args[2])))]
    ensures |cmds[1].args| >= 2 && cmds[1].args[0] == TrimNul(args[0]) + [0] && ParseNat(cmds[1].args[1]) == |ids|
    ensures cmds[1].args[2..] == RowArgs(l, ids)
    ensures forall id :: id in ids <==>
      && id in l.live && !(hideStarted && l.rooms[id].started)
      && EqualFold(TrimNul(args[0]), TableName(ver)) && l.rooms[id].ctlSum !in Unpack(args[2])
  {
    ParseDigits(|ids|);
    assert Spell(LW_DTBL) == "LW_dtbl" && Spell(LW_TBL) == "LW_tbl";
  }

  /** Deletions are decided tag by tag and keep the order. */
  lemma {:induction false} DeletionsConcat(l: Lobby, hideStarted: bool, a: seq<uint32>, b: seq<uint32>)
    requires Linked(l)
    ensures Deletions(l, hideStarted, a + b) == Deletions(l, hideStarted, a) + Deletions(l, hideStarted, b)
  {
    if b == [] {
      assert a + b == a;
    } else {
      var n := |b| - 1;
      DeletionsConcat(l, hideStarted, a, b[..n]);
      assert (a + b)[..|a| + n] == a + b[..n] && (a + b)[|a| + n] == b[n];
    }
  }

  lemma DeletionOne(l: Lobby, hideStarted: bool, tag: uint32)
    requires Linked(l)
    ensures Deletions(l, hideStarted, [tag]) ==
      if tag in l.bySum && !(hideStarted && l.rooms[l.bySum[tag]].started) then [] else [tag]
  {
    assert [tag][..0] == [];
  }
}
