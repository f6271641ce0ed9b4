/** Exactly which inputs decode to a given command set: its encoding, whatever follows it,
    and the encoding cut short inside the last argument, where the bytes missing are zero. */
module CommandInputs {
  import opened Machine
  import opened CommandText
  import opened CommandBinary

  /** b is `full` without some zero bytes at its end, fewer than `last`. */
  predicate Short(b: Bytes, full: Bytes, last: nat)
  {
    |b| < |full| < |b| + last && b + Zeros(|full| - |b|) == full
  }

  lemma ShortBehind(head: Bytes, b: Bytes, full: Bytes, last: nat)
    requires Short(b, full, last)
    ensures Short(head + b, head + full, last)
  {
    var m := |full| - |b|;
    assert (head + b) + Zeros(m) == head + full;
  }

  /** A cut inside the tail leaves the head whole, and something behind it. */
  lemma ShortSplit(head: Bytes, b: Bytes, full: Bytes, last: nat) returns (rest: Bytes)
    requires Short(b, head + full, last) && last <= |full|
    ensures b == head + rest && rest != [] && Short(rest, full, last)
  {
    var m := |head + full| - |b|;
    rest := full[..|full| - m];
    var all := head + full;
    assert b == all[..|b|] && Zeros(m) == all[|b|..] by {
      assert (b + Zeros(m))[..|b|] == b && (b + Zeros(m))[|b|..] == Zeros(m);
    }
    assert all[..|b|] == head + rest;
    assert all[|b|..] == full[|full| - m..];
    assert rest + Zeros(m) == full;
  }

  // ---- One argument ----

  function PutArg(arg: Bytes): (b: Bytes)
    ensures |b| == 4 + |arg|
  {
    ToLE(|arg|, 4) + arg
  }

  ghost predicate ArgInput(b: Bytes, arg: Bytes, rest: Bytes)
  {
    && |arg| < U32
    && ((b == PutArg(arg) + rest && arg + rest != []) || (rest == [] && Short(b, PutArg(arg), |arg|)))
  }

  lemma ArgReadOnly(b: Bytes)
    requires GetArg(b).Some?
    ensures ArgInput(b, GetArg(b).value.0, GetArg(b).value.1)
  {
    var len, r := FromLE(b[..4]), b[4..];
    var (arg, rest) := GetArg(b).value;
    Widths();
    FromLEBound(b[..4]);
    ToFromLE(b[..4]);
    assert b == ToLE(len, 4) + r;
    if |r| < len {
      assert b + Zeros(len - |r|) == PutArg(arg);
    } else {
      assert b == PutArg(arg) + rest;
    }
  }

  lemma ShortArgRead(b: Bytes, arg: Bytes)
    requires |arg| < U32 && Short(b, PutArg(arg), |arg|)
    ensures GetArg(b) == Some((arg, []))
  {
    var r := ShortSplit(ToLE(|arg|, 4), b, arg, |arg|);
    Widths();
    LengthField(|arg|, 4, r);
  }

  // ---- Arguments ----

  function LastLen(args: seq<Bytes>): nat { if args == [] then 0 else |args[|args| - 1]| }

  ghost predicate ArgsInput(b: Bytes, args: seq<Bytes>, rest: Bytes)
  {
    && (forall i :: 0 <= i < |args| ==> |args[i]| < U32)
    && ((b == PutArgs(args) + rest && !(EndsEmpty(args) && rest == []))
        || (rest == [] && Short(b, PutArgs(args), LastLen(args))))
  }

  lemma {:induction false} LastLenFits(args: seq<Bytes>)
    ensures LastLen(args) <= |PutArgs(args)|
  {
    if |args| > 1 { LastLenFits(args[1..]); }
  }

  lemma PutArgsHead(args: seq<Bytes>)
    requires args != []
    ensures PutArgs(args) == PutArg(args[0]) + PutArgs(args[1..])
    ensures |args| > 1 ==> LastLen(args) == LastLen(args[1..]) && EndsEmpty(args) == EndsEmpty(args[1..])
  {
  }

  lemma NoArg(argc: nat)
    requires GetArgs([], argc).Some?
    ensures argc == 0
  {
  }

  lemma ArgsInputCons(b: Bytes, arg: Bytes, rest: Bytes, args: seq<Bytes>, last: Bytes)
    requires ArgInput(b, arg, rest) && ArgsInput(rest, args, last) && (rest == [] ==> args == [])
    ensures ArgsInput(b, [arg] + args, last)
  {
    var all := [arg] + args;
    assert all[1..] == args;
    PutArgsHead(all);
    if b == PutArg(arg) + rest && arg + rest != [] {
      if rest == PutArgs(args) + last && !(EndsEmpty(args) && last == []) {
        assert b == PutArgs(all) + last;
      } else {
        ShortBehind(PutArg(arg), rest, PutArgs(args), LastLen(args));
      }
    } else {
      assert PutArgs(all) == PutArg(arg);
    }
  }

  lemma {:induction false} ArgsReadOnly(b: Bytes, argc: nat)
    requires GetArgs(b, argc).Some?
    ensures ArgsInput(b, GetArgs(b, argc).value.0, GetArgs(b, argc).value.1)
    decreases argc
  {
    if argc == 0 {
      assert b == PutArgs([]) + b;
    } else {
      var (arg, rest) := GetArg(b).value;
      var (args, last) := GetArgs(rest, argc - 1).value;
      ArgReadOnly(b);
      ArgsReadOnly(rest, argc - 1);
      if rest == [] { NoArg(argc - 1); }
      ArgsInputCons(b, arg, rest, args, last);
    }
  }

  lemma {:induction false} ShortArgsRead(b: Bytes, args: seq<Bytes>)
    requires (forall i :: 0 <= i < |args| ==> |args[i]| < U32) && Short(b, PutArgs(args), LastLen(args))
    ensures GetArgs(b, |args|) == Some((args, []))
  {
    PutArgsHead(args);
    if |args| == 1 {
      assert PutArgs(args) == PutArg(args[0]);
      ShortArgRead(b, args[0]);
      assert GetArgs([], 0) == Some(([], []));
      assert [args[0]] + [] == args;
    } else {
      LastLenFits(args[1..]);
      var rest := ShortSplit(PutArg(args[0]), b, PutArgs(args[1..]), LastLen(args));
      ArgRead(args[0], rest);
      ShortArgsRead(rest, args[1..]);
      assert [args[0]] + args[1..] == args;
    }
  }

  // ---- One command ----

  function CommandHead(c: Command): (b: Bytes)
    requires NameFits(c)
    ensures |b| == |c.name| + 3
  {
    [|c.name|] + c.name + ToLE(|c.args|, 2)
  }

  ghost predicate CommandInput(b: Bytes, c: Command, rest: Bytes)
  {
    && NameFits(c) && ArgsEncodable(c.args)
    && ((b == PutCommand(c) + rest && !(EndsEmpty(c.args) && rest == []))
        || (rest == [] && Short(b, PutCommand(c), LastLen(c.args))))
  }

  lemma NameReadOnly(b: Bytes)
    requires GetName(b).Some? && GetName(b).value.1 != []
    ensures var (name, rest) := GetName(b).value; |name| <= 255 && b == [|name|] + name + rest
  {
    var (name, rest) := GetName(b).value;
    assert |name| == b[0];
    assert b[1..] == name + rest;
  }

  lemma HeadReadOnly(b: Bytes) returns (c: Command, rest: Bytes)
    requires GetCommand(b).Some?
    ensures c == GetCommand(b).value.0 && NameFits(c) && b == CommandHead(c) + rest
    ensures GetArgs(rest, |c.args|) == Some((c.args, GetCommand(b).value.1)) && |c.args| < U16
  {
    var (name, r) := GetName(b).value;
    NameReadOnly(b);
    c := GetCommand(b).value.0;
    rest := r[2..];
    Widths();
    FromLEBound(r[..2]);
    ToFromLE(r[..2]);
    ArgsShape(rest, FromLE(r[..2]));
    assert r == ToLE(|c.args|, 2) + rest;
  }

  lemma CommandInputFrom(b: Bytes, c: Command, r: Bytes, rest: Bytes)
    requires NameFits(c) && |c.args| < U16 && b == CommandHead(c) + r && ArgsInput(r, c.args, rest)
    ensures CommandInput(b, c, rest)
  {
    assert PutCommand(c) == CommandHead(c) + PutArgs(c.args);
    if r == PutArgs(c.args) + rest && !(EndsEmpty(c.args) && rest == []) {
      assert b == PutCommand(c) + rest;
    } else {
      ShortBehind(CommandHead(c), r, PutArgs(c.args), LastLen(c.args));
    }
  }

  lemma CommandReadOnly(b: Bytes)
    requires GetCommand(b).Some?
    ensures CommandInput(b, GetCommand(b).value.0, GetCommand(b).value.1)
  {
    var c, r := HeadReadOnly(b);
    ArgsReadOnly(r, |c.args|);
    CommandInputFrom(b, c, r, GetCommand(b).value.1);
  }

  lemma HeadRead(c: Command, rest: Bytes)
    requires NameFits(c) && |c.args| < U16 && GetArgs(rest, |c.args|).Some?
    ensures GetCommand(CommandHead(c) + rest) ==
      Some((Command(c.name, GetArgs(rest, |c.args|).value.0), GetArgs(rest, |c.args|).value.1))
  {
    var argc := ToLE(|c.args|, 2);
    assert CommandHead(c) + rest == [|c.name|] + c.name + (argc + rest);
    NameRead(c.name, argc + rest);
    Widths();
    LengthField(|c.args|, 2, rest);
  }

  lemma ShortCommandRead(b: Bytes, c: Command)
    requires NameFits(c) && ArgsEncodable(c.args) && Short(b, PutCommand(c), LastLen(c.args))
    ensures GetCommand(b) == Some((c, []))
  {
    assert PutCommand(c) == CommandHead(c) + PutArgs(c.args);
    LastLenFits(c.args);
    var rest := ShortSplit(CommandHead(c), b, PutArgs(c.args), LastLen(c.args));
    ShortArgsRead(rest, c.args);
    HeadRead(c, rest);
  }

  // ---- Command sets ----

  /** The length of the very last argument, 0 if the last command has none. */
  function TailLen(cs: CommandSet): nat { if cs == [] then 0 else LastLen(cs[|cs| - 1].args) }

  ghost predicate CommandsInput(b: Bytes, cs: CommandSet, rest: Bytes)
  {
    && FieldsFit(cs)
    && ((b == PutCommands(cs) + rest && !(DanglingEmpty(cs) && rest == []))
        || (rest == [] && Short(b, PutCommands(cs), TailLen(cs))))
  }

  lemma {:induction false} TailLenFits(cs: CommandSet)
    requires NamesFit(cs)
    ensures TailLen(cs) <= |PutCommands(cs)|
  {
    if cs != [] {
      LastLenFits(cs[0].args);
      TailLenFits(cs[1..]);
    }
  }

  lemma PutCommandsCons(c: Command, cs: CommandSet)
    requires NameFits(c) && NamesFit(cs)
    ensures NamesFit([c] + cs) && PutCommands([c] + cs) == PutCommand(c) + PutCommands(cs)
    ensures cs != [] ==> TailLen([c] + cs) == TailLen(cs) && DanglingEmpty([c] + cs) == DanglingEmpty(cs)
    ensures cs == [] ==> TailLen([c] + cs) == LastLen(c.args) && DanglingEmpty([c] + cs) == EndsEmpty(c.args)
  {
    assert ([c] + cs)[1..] == cs;
  }

  lemma NoCommand(count: nat)
    requires GetCommands([], count).Some?
    ensures count == 0
  {
  }

  lemma CommandsInputCons(b: Bytes, c: Command, rest: Bytes, cs: CommandSet, last: Bytes)
    requires CommandInput(b, c, rest) && CommandsInput(rest, cs, last) && (rest == [] ==> cs == [])
    ensures CommandsInput(b, [c] + cs, last)
  {
    PutCommandsCons(c, cs);
    if b == PutCommand(c) + rest && !(EndsEmpty(c.args) && rest == []) {
      if rest == PutCommands(cs) + last && !(DanglingEmpty(cs) && last == []) {
        assert b == PutCommands([c] + cs) + last;
      } else {
        ShortBehind(PutCommand(c), rest, PutCommands(cs), TailLen(cs));
      }
    } else {
      assert PutCommands([c] + cs) == PutCommand(c);
    }
  }

  lemma {:induction false} CommandsReadOnly(b: Bytes, count: nat)
    requires GetCommands(b, count).Some?
    ensures CommandsInput(b, GetCommands(b, count).value.0, GetCommands(b, count).value.1)
    decreases count
  {
    if count == 0 {
      assert b == PutCommands([]) + b;
    } else {
      var (c, rest) := GetCommand(b).value;
      var (cs, last) := GetCommands(rest, count - 1).value;
      CommandReadOnly(b);
      CommandsReadOnly(rest, count - 1);
      if rest == [] { NoCommand(count - 1); }
      CommandsInputCons(b, c, rest, cs, last);
    }
  }

  lemma ShortTail(b: Bytes, c: Command, cs: CommandSet) returns (rest: Bytes)
    requires NameFits(c) && NamesFit(cs) && NamesFit([c] + cs) && cs != []
    requires Short(b, PutCommands([c] + cs), TailLen([c] + cs))
    ensures b == PutCommand(c) + rest && rest != [] && Short(rest, PutCommands(cs), TailLen(cs))
  {
    PutCommandsCons(c, cs);
    TailLenFits(cs);
    rest := ShortSplit(PutCommand(c), b, PutCommands(cs), TailLen(cs));
  }

  lemma ShortLastRead(b: Bytes, c: Command)
    requires NameFits(c) && ArgsEncodable(c.args) && Short(b, PutCommand(c), LastLen(c.args))
    ensures GetCommands(b, 1) == Some(([c], []))
  {
    ShortCommandRead(b, c);
    FirstCommand(b, Some((c, [])), 0);
    assert [c] + [] == [c];
  }

  lemma {:induction false} ShortConsRead(b: Bytes, c: Command, cs: CommandSet)
    requires NameFits(c) && ArgsEncodable(c.args) && FieldsFit(cs) && NamesFit([c] + cs)
    requires Short(b, PutCommands([c] + cs), TailLen([c] + cs))
    ensures GetCommands(b, |cs| + 1) == Some(([c] + cs, []))
    decreases |cs|
  {
    if cs == [] {
      PutCommandsCons(c, cs);
      ShortLastRead(b, c);
    } else {
      var rest := ShortTail(b, c, cs);
      assert [cs[0]] + cs[1..] == cs;
      ShortConsRead(rest, cs[0], cs[1..]);
      CommandBefore(c, rest, cs, []);
    }
  }

  /** The inputs that decode to cs are its encoding followed by anything, except for one
      that ends on an empty argument and is followed by nothing, and the encoding cut inside
      its last argument, after the first byte of it, with only zero bytes missing. */
  lemma DecodesIff(b: Bytes, cs: CommandSet)
    ensures Decode(b) == Some(cs) <==>
      && Encodable(cs) && Encode(cs).Some?
      && ((Encode(cs).value <= b && !(DanglingEmpty(cs) && b == Encode(cs).value))
          || Short(b, Encode(cs).value, TailLen(cs)))
  {
    if Decode(b) == Some(cs) { DecodesOnly(b, cs); }
    if Encodable(cs) && Encode(cs).Some? {
      var full := Encode(cs).value;
      if full <= b && !(DanglingEmpty(cs) && b == full) {
        EncodedReads(cs, b[|full|..]);
        assert full + b[|full|..] == b;
      }
      if Short(b, full, TailLen(cs)) { ShortDecodes(b, cs); }
    }
  }

  lemma DecodesOnly(b: Bytes, cs: CommandSet)
    requires Decode(b) == Some(cs)
    ensures Encodable(cs) && Encode(cs).Some?
    ensures (Encode(cs).value <= b && !(DanglingEmpty(cs) && b == Encode(cs).value))
      || Short(b, Encode(cs).value, TailLen(cs))
  {
    DecodedIsEncodable(b);
    var count, body := b[..2], b[2..];
    var rest := GetCommands(body, FromLE(count)).value.1;
    CommandsShape(body, FromLE(count));
    CommandsReadOnly(body, FromLE(count));
    ToFromLE(count);
    assert b == ToLE(|cs|, 2) + body;
    BehindCount(b, cs, body, rest);
  }

  lemma FollowedBy(head: Bytes, full: Bytes, rest: Bytes)
    ensures head + full <= head + (full + rest)
    ensures head + (full + rest) == head + full ==> rest == []
  {
    assert head + (full + rest) == (head + full) + rest;
  }

  lemma BehindCount(b: Bytes, cs: CommandSet, body: Bytes, rest: Bytes)
    requires Encodable(cs) && Encode(cs).Some? && b == ToLE(|cs|, 2) + body && CommandsInput(body, cs, rest)
    ensures (Encode(cs).value <= b && !(DanglingEmpty(cs) && b == Encode(cs).value))
      || Short(b, Encode(cs).value, TailLen(cs))
  {
    if body == PutCommands(cs) + rest && !(DanglingEmpty(cs) && rest == []) {
      FollowedBy(ToLE(|cs|, 2), PutCommands(cs), rest);
    } else {
      ShortBehind(ToLE(|cs|, 2), body, PutCommands(cs), TailLen(cs));
    }
  }

  lemma ShortDecodes(b: Bytes, cs: CommandSet)
    requires Encodable(cs) && Encode(cs).Some? && Short(b, Encode(cs).value, TailLen(cs))
    ensures Decode(b) == Some(cs)
  {
    TailLenFits(cs);
    var body := ShortSplit(ToLE(|cs|, 2), b, PutCommands(cs), TailLen(cs));
    assert [cs[0]] + cs[1..] == cs;
    ShortConsRead(body, cs[0], cs[1..]);
    CountRead(|cs|, body);
  }
}
