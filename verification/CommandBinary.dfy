/** The binary form of command sets, read back with the semantics of bytes.Reader. */
module CommandBinary {
  import opened Machine
  import opened CommandText

  // ---- Writing: lengths are truncated to their field widths ----

  function PutArgs(args: seq<Bytes>): Bytes
  {
    if args == [] then [] else ToLE(|args[0]|, 4) + args[0] + PutArgs(args[1..])
  }

  predicate NameFits(c: Command) { |c.name| <= 255 }

  function PutCommand(c: Command): Bytes
    requires NameFits(c)
  {
    [|c.name|] + c.name + ToLE(|c.args|, 2) + PutArgs(c.args)
  }

  predicate NamesFit(cs: CommandSet) { forall i :: 0 <= i < |cs| ==> NameFits(cs[i]) }

  function PutCommands(cs: CommandSet): Bytes
    requires NamesFit(cs)
  {
    if cs == [] then [] else PutCommand(cs[0]) + PutCommands(cs[1..])
  }

  /** Only an over-long name makes encoding fail. */
  function Encode(cs: CommandSet): Option<Bytes>
  {
    if NamesFit(cs) then Some(ToLE(|cs|, 2) + PutCommands(cs)) else None
  }

  // ---- Reading ----

  /** binary.Read: all n bytes or an error. */
  function ReadFull(b: Bytes, n: nat): Option<(Bytes, Bytes)>
  {
    if |b| < n then None else Some((b[..n], b[n..]))
  }

  function Zeros(n: nat): (z: Bytes)
    ensures |z| == n
  {
    seq(n, _ => 0)
  }

  /** bytes.Reader.Read into an n-byte buffer: an exhausted reader is an error even for
      n = 0; a short read leaves the rest of the buffer zero. */
  function ReadSome(b: Bytes, n: nat): Option<(Bytes, Bytes)>
  {
    if b == [] then None
    else if |b| < n then Some((b + Zeros(n - |b|), []))
    else Some((b[..n], b[n..]))
  }

  function GetArg(b: Bytes): (r: Option<(Bytes, Bytes)>)
  {
    match ReadFull(b, 4)
    case None => None
    case Some((len, rest)) => ReadSome(rest, FromLE(len))
  }

  function GetArgs(b: Bytes, argc: nat): (r: Option<(seq<Bytes>, Bytes)>)
    decreases argc
  {
    if argc == 0 then Some(([], b))
    else match GetArg(b)
      case None => None
      case Some((arg, rest)) =>
        match GetArgs(rest, argc - 1)
        case None => None
        case Some((args, rest')) => Some(([arg] + args, rest'))
  }

  function GetName(b: Bytes): Option<(Bytes, Bytes)>
  {
    if b == [] then None else ReadSome(b[1..], b[0])
  }

  function GetCommand(b: Bytes): Option<(Command, Bytes)>
  {
    match GetName(b)
    case None => None
    case Some((name, rest)) =>
      match ReadFull(rest, 2)
      case None => None
      case Some((argc, rest')) =>
        match GetArgs(rest', FromLE(argc))
        case None => None
        case Some((args, rest'')) => Some((Command(name, args), rest''))
  }

  function GetCommands(b: Bytes, count: nat): Option<(CommandSet, Bytes)>
    decreases count
  {
    if count == 0 then Some(([], b))
    else match GetCommand(b)
      case None => None
      case Some((c, rest)) =>
        match GetCommands(rest, count - 1)
        case None => None
        case Some((cs, rest')) => Some(([c] + cs, rest'))
  }

  /** UnmarshalBinary: trailing bytes are ignored. */
  function Decode(b: Bytes): Option<CommandSet>
  {
    match ReadFull(b, 2)
    case None => None
    case Some((count, rest)) =>
      match GetCommands(rest, FromLE(count))
      case None => None
      case Some((cs, _)) => Some(cs)
  }

  // ---- The loops of the source ----

  lemma {:induction false} PutArgsSnoc(args: seq<Bytes>, arg: Bytes)
    ensures PutArgs(args + [arg]) == PutArgs(args) + ToLE(|arg|, 4) + arg
  {
    if args == [] {
      assert args + [arg] == [arg];
    } else {
      assert (args + [arg])[1..] == args[1..] + [arg];
      PutArgsSnoc(args[1..], arg);
    }
  }

  lemma {:induction false} PutCommandsSnoc(cs: CommandSet, c: Command)
    requires NamesFit(cs + [c])
    ensures NamesFit(cs) && NameFits(c)
    ensures PutCommands(cs + [c]) == PutCommands(cs) + PutCommand(c)
  {
    assert (cs + [c])[|cs|] == c;
    assert NamesFit(cs) by {
      forall i | 0 <= i < |cs| ensures NameFits(cs[i]) { assert cs[i] == (cs + [c])[i]; }
    }
    if cs == [] {
      assert cs + [c] == [c];
    } else {
      assert (cs + [c])[1..] == cs[1..] + [c];
      PutCommandsSnoc(cs[1..], c);
    }
  }

  lemma NextArg(args: seq<Bytes>, j: nat, head: Bytes)
    requires j < |args|
    ensures head + PutArgs(args[..j + 1]) == head + PutArgs(args[..j]) + ToLE(|args[j]|, 4) + args[j]
  {
    assert args[..j + 1] == args[..j] + [args[j]];
    PutArgsSnoc(args[..j], args[j]);
  }

  lemma CommandBytes(c: Command, buf: Bytes)
    requires NameFits(c)
    ensures buf + [|c.name|] + c.name + ToLE(|c.args|, 2) + PutArgs(c.args[..|c.args|]) == buf + PutCommand(c)
  {
    assert c.args[..|c.args|] == c.args;
  }

  method WriteCommand(buf: Bytes, c: Command) returns (out: Bytes)
    requires NameFits(c)
    ensures out == buf + PutCommand(c)
  {
    out := buf + [|c.name|] + c.name + ToLE(|c.args|, 2);
    var head := out;
    for j := 0 to |c.args|
      invariant out == head + PutArgs(c.args[..j])
    {
      NextArg(c.args, j, head);
      out := out + ToLE(|c.args[j]|, 4) + c.args[j];
    }
    CommandBytes(c, buf);
  }

  lemma NextCommand(cs: CommandSet, i: nat, head: Bytes)
    requires i < |cs| && NamesFit(cs[..i]) && NameFits(cs[i])
    ensures NamesFit(cs[..i + 1])
    ensures head + PutCommands(cs[..i + 1]) == head + PutCommands(cs[..i]) + PutCommand(cs[i])
  {
    assert cs[..i + 1] == cs[..i] + [cs[i]];
    PutCommandsSnoc(cs[..i], cs[i]);
  }

  /** CommandSet.MarshalBinary */
  method MarshalBinary(cs: CommandSet) returns (r: Option<Bytes>)
    ensures r == Encode(cs)
  {
    var buf := ToLE(|cs|, 2);
    for i := 0 to |cs|
      invariant NamesFit(cs[..i]) && buf == ToLE(|cs|, 2) + PutCommands(cs[..i])
    {
      if |cs[i].name| > 255 {
        return None;
      }
      NextCommand(cs, i, ToLE(|cs|, 2));
      buf := WriteCommand(buf, cs[i]);
    }
    assert cs[..|cs|] == cs;
    r := Some(buf);
  }

  /** What remains to be read, seen from the start of the loop. */
  function WithArgs(done: seq<Bytes>, r: Option<(seq<Bytes>, Bytes)>): Option<(seq<Bytes>, Bytes)>
  {
    match r case None => None case Some((args, rest)) => Some((done + args, rest))
  }

  lemma NoArgsYet(r: Option<(seq<Bytes>, Bytes)>)
    ensures WithArgs([], r) == r
  {
    if r.Some? { assert [] + r.value.0 == r.value.0; }
  }

  lemma OneMoreArg(done: seq<Bytes>, b: Bytes, argc: nat)
    requires argc > 0 && GetArg(b).Some?
    ensures WithArgs(done, GetArgs(b, argc)) ==
      WithArgs(done + [GetArg(b).value.0], GetArgs(GetArg(b).value.1, argc - 1))
  {
    var arg, more := GetArg(b).value.0, GetArgs(GetArg(b).value.1, argc - 1);
    if more.Some? { assert done + ([arg] + more.value.0) == (done + [arg]) + more.value.0; }
  }

  method ReadArgs(b: Bytes, argc: nat) returns (r: Option<(seq<Bytes>, Bytes)>)
    ensures r == GetArgs(b, argc)
  {
    var rest, args := b, [];
    ghost var all := GetArgs(b, argc);
    NoArgsYet(all);
    for j := 0 to argc
      invariant all == WithArgs(args, GetArgs(rest, argc - j))
    {
      var arg := GetArg(rest);
      if arg.None? {
        return None;
      }
      OneMoreArg(args, rest, argc - j);
      args, rest := args + [arg.value.0], arg.value.1;
    }
    assert args + [] == args;
    r := Some((args, rest));
  }

  function WithCommands(done: CommandSet, r: Option<(CommandSet, Bytes)>): Option<(CommandSet, Bytes)>
  {
    match r case None => None case Some((cs, rest)) => Some((done + cs, rest))
  }

  lemma NoCommandsYet(r: Option<(CommandSet, Bytes)>)
    ensures WithCommands([], r) == r
  {
    if r.Some? { assert [] + r.value.0 == r.value.0; }
  }

  lemma OneMoreCommand(done: CommandSet, b: Bytes, count: nat)
    requires count > 0 && GetCommand(b).Some?
    ensures WithCommands(done, GetCommands(b, count)) ==
      WithCommands(done + [GetCommand(b).value.0], GetCommands(GetCommand(b).value.1, count - 1))
  {
    var c, more := GetCommand(b).value.0, GetCommands(GetCommand(b).value.1, count - 1);
    if more.Some? { assert done + ([c] + more.value.0) == (done + [c]) + more.value.0; }
  }

  /** CommandSet.UnmarshalBinary */
  method UnmarshalBinary(b: Bytes) returns (r: Option<CommandSet>)
    ensures r == Decode(b)
  {
    var head := ReadFull(b, 2);
    if head.None? {
      return None;
    }
    var count := FromLE(head.value.0);
    var rest, out := head.value.1, [];
    ghost var all := GetCommands(rest, count);
    NoCommandsYet(all);
    for i := 0 to count
      invariant all == WithCommands(out, GetCommands(rest, count - i))
    {
      var name := GetName(rest);
      if name.None? {
        return None;
      }
      var argc := ReadFull(name.value.1, 2);
      if argc.None? {
        return None;
      }
      var args := ReadArgs(argc.value.1, FromLE(argc.value.0));
      if args.None? {
        return None;
      }
      var c := Command(name.value.0, args.value.0);
      assert GetCommand(rest) == Some((c, args.value.1));
      OneMoreCommand(out, rest, count - i);
      out, rest := out + [c], args.value.1;
    }
    assert out + [] == out;
    r := Some(out);
  }

  // ---- Round trip ----

  /** Every length fits its field. */
  predicate ArgsEncodable(args: seq<Bytes>)
  {
    |args| < U16 && forall i :: 0 <= i < |args| ==> |args[i]| < U32
  }

  predicate FieldsFit(cs: CommandSet)
  {
    forall i :: 0 <= i < |cs| ==> NameFits(cs[i]) && ArgsEncodable(cs[i].args)
  }

  predicate Encodable(cs: CommandSet) { |cs| < U16 && FieldsFit(cs) }

  predicate EndsEmpty(args: seq<Bytes>) { args != [] && args[|args| - 1] == [] }

  /** The very last thing written is an empty argument. */
  predicate DanglingEmpty(cs: CommandSet) { cs != [] && EndsEmpty(cs[|cs| - 1].args) }

  lemma LengthField(n: nat, width: nat, rest: Bytes)
    requires n < Pow256(width)
    ensures ReadFull(ToLE(n, width) + rest, width) == Some((ToLE(n, width), rest))
    ensures FromLE(ToLE(n, width)) == n
  {
    FromToLE(n, width);
    assert (ToLE(n, width) + rest)[..width] == ToLE(n, width);
    assert (ToLE(n, width) + rest)[width..] == rest;
    ModUnique(n, Pow256(width), 0, n);
  }

  lemma ArgRead(arg: Bytes, rest: Bytes)
    requires |arg| < U32
    ensures GetArg(ToLE(|arg|, 4) + arg + rest) == if arg + rest == [] then None else Some((arg, rest))
  {
    Widths();
    LengthField(|arg|, 4, arg + rest);
    assert ToLE(|arg|, 4) + arg + rest == ToLE(|arg|, 4) + (arg + rest);
    ReadExactly(arg, rest);
  }

  lemma ReadExactly(arg: Bytes, rest: Bytes)
    ensures ReadSome(arg + rest, |arg|) == if arg + rest == [] then None else Some((arg, rest))
  {
    assert (arg + rest)[..|arg|] == arg && (arg + rest)[|arg|..] == rest;
  }

  lemma {:induction false} ArgsRead(args: seq<Bytes>, tail: Bytes)
    requires forall i :: 0 <= i < |args| ==> |args[i]| < U32
    ensures GetArgs(PutArgs(args) + tail, |args|) ==
      if EndsEmpty(args) && tail == [] then None else Some((args, tail))
  {
    if args == [] {
      assert PutArgs(args) + tail == tail;
    } else {
      var rest := PutArgs(args[1..]) + tail;
      assert PutArgs(args) + tail == ToLE(|args[0]|, 4) + args[0] + rest;
      ArgRead(args[0], rest);
      ArgsRead(args[1..], tail);
      assert [args[0]] + args[1..] == args;
    }
  }

  lemma NameRead(name: Bytes, rest: Bytes)
    requires |name| <= 255 && rest != []
    ensures GetName([|name|] + name + rest) == Some((name, rest))
  {
    var b := [|name|] + name + rest;
    assert b[1..] == name + rest;
    assert (name + rest)[..|name|] == name && (name + rest)[|name|..] == rest;
  }

  lemma CommandRead(c: Command, tail: Bytes)
    requires NameFits(c) && ArgsEncodable(c.args)
    ensures GetCommand(PutCommand(c) + tail) ==
      if EndsEmpty(c.args) && tail == [] then None else Some((c, tail))
  {
    var argc := ToLE(|c.args|, 2);
    var rest := PutArgs(c.args) + tail;
    assert PutCommand(c) + tail == [|c.name|] + c.name + (argc + rest);
    NameRead(c.name, argc + rest);
    Widths();
    LengthField(|c.args|, 2, rest);
    ArgsRead(c.args, tail);
  }

  lemma FirstCommand(b: Bytes, first: Option<(Command, Bytes)>, n: nat)
    requires GetCommand(b) == first
    ensures GetCommands(b, n + 1) ==
      if first == None then None else WithCommands([first.value.0], GetCommands(first.value.1, n))
  {
  }

  /** Reading a command, and behind it the others. */
  lemma CommandBefore(c: Command, rest: Bytes, cs: CommandSet, tail: Bytes)
    requires NameFits(c) && ArgsEncodable(c.args) && rest != []
    requires GetCommands(rest, |cs|) == Some((cs, tail))
    ensures GetCommands(PutCommand(c) + rest, |cs| + 1) == Some(([c] + cs, tail))
  {
    CommandRead(c, rest);
    FirstCommand(PutCommand(c) + rest, Some((c, rest)), |cs|);
  }

  lemma PutCommandsHead(cs: CommandSet, tail: Bytes)
    requires NamesFit(cs) && cs != []
    ensures PutCommands(cs) + tail == PutCommand(cs[0]) + (PutCommands(cs[1..]) + tail)
    ensures |cs| > 1 ==> PutCommands(cs[1..]) != []
  {
  }

  lemma {:induction false} CommandsRead(cs: CommandSet, tail: Bytes)
    requires FieldsFit(cs)
    ensures NamesFit(cs)
    ensures GetCommands(PutCommands(cs) + tail, |cs|) ==
      if DanglingEmpty(cs) && tail == [] then None else Some((cs, tail))
  {
    if cs == [] {
      assert PutCommands(cs) + tail == tail;
    } else {
      var rest := PutCommands(cs[1..]) + tail;
      CommandsRead(cs[1..], tail);
      PutCommandsHead(cs, tail);
      HeadThenRest(cs[0], rest, cs[1..], cs, tail);
    }
  }

  lemma HeadThenRest(c: Command, rest: Bytes, cs: CommandSet, all: CommandSet, tail: Bytes)
    requires all != [] && c == all[0] && cs == all[1..]
    requires NameFits(c) && ArgsEncodable(c.args) && (cs == [] ==> rest == tail) && (cs != [] ==> rest != [])
    requires GetCommands(rest, |cs|) == if DanglingEmpty(cs) && tail == [] then None else Some((cs, tail))
    ensures GetCommands(PutCommand(c) + rest, |all|) ==
      if DanglingEmpty(all) && tail == [] then None else Some((all, tail))
  {
    assert [c] + cs == all;
    var first := if EndsEmpty(c.args) && rest == [] then None else Some((c, rest));
    CommandRead(c, rest);
    FirstCommand(PutCommand(c) + rest, first, |cs|);
  }

  lemma CountRead(n: nat, body: Bytes)
    requires n < U16
    ensures Decode(ToLE(n, 2) + body) ==
      match GetCommands(body, n) case None => None case Some((cs, _)) => Some(cs)
  {
    Widths();
    LengthField(n, 2, body);
  }

  lemma EncodedReads(cs: CommandSet, tail: Bytes)
    requires Encodable(cs)
    ensures NamesFit(cs)
    ensures Decode(Encode(cs).value + tail) == if DanglingEmpty(cs) && tail == [] then None else Some(cs)
  {
    CommandsRead(cs, tail);
    var body := PutCommands(cs) + tail;
    CountRead(|cs|, body);
    EncodeWithTail(cs, tail, body);
  }

  lemma EncodeWithTail(cs: CommandSet, tail: Bytes, body: Bytes)
    requires NamesFit(cs) && body == PutCommands(cs) + tail
    ensures Encode(cs).value + tail == ToLE(|cs|, 2) + body
  {
  }

  // ---- Whatever decodes is encodable ----

  lemma FieldBound(b: Bytes, n: nat)
    requires ReadFull(b, n).Some?
    ensures FromLE(ReadFull(b, n).value.0) < Pow256(n)
  {
    FromLEBound(b[..n]);
  }

  lemma {:induction false} ArgsShape(b: Bytes, argc: nat)
    requires GetArgs(b, argc).Some?
    ensures var args := GetArgs(b, argc).value.0;
      |args| == argc && forall i :: 0 <= i < |args| ==> |args[i]| < U32
    decreases argc
  {
    if argc > 0 {
      Widths();
      FieldBound(b, 4);
      ArgsShape(GetArg(b).value.1, argc - 1);
    }
  }

  lemma CommandShape(b: Bytes)
    requires GetCommand(b).Some?
    ensures var c := GetCommand(b).value.0; NameFits(c) && ArgsEncodable(c.args)
  {
    var rest := GetName(b).value.1;
    Widths();
    FieldBound(rest, 2);
    ArgsShape(ReadFull(rest, 2).value.1, FromLE(ReadFull(rest, 2).value.0));
  }

  lemma {:induction false} CommandsShape(b: Bytes, count: nat)
    requires GetCommands(b, count).Some?
    ensures var cs := GetCommands(b, count).value.0;
      |cs| == count && FieldsFit(cs)
    decreases count
  {
    if count > 0 {
      CommandShape(b);
      CommandsShape(GetCommand(b).value.1, count - 1);
    }
  }

  lemma DecodedIsEncodable(b: Bytes)
    requires Decode(b).Some?
    ensures Encodable(Decode(b).value)
  {
    Widths();
    FieldBound(b, 2);
    CommandsShape(ReadFull(b, 2).value.1, FromLE(ReadFull(b, 2).value.0));
  }

  /** Decoding inverts encoding, whatever bytes follow, exactly when every length fits its
      field and the text does not end on an empty argument. */
  lemma BinaryRoundTripIff(cs: CommandSet, tail: Bytes)
    ensures (Encode(cs).Some? && Decode(Encode(cs).value + tail) == Some(cs))
      <==> Encodable(cs) && !(DanglingEmpty(cs) && tail == [])
  {
    if Encodable(cs) {
      EncodedReads(cs, tail);
    } else if Encode(cs).Some? && Decode(Encode(cs).value + tail).Some? {
      DecodedIsEncodable(Encode(cs).value + tail);
    }
  }
}
