/** The text form of command sets: commands separated by '|', a name and escaped
    arguments separated by '&', the whole prefixed with "GW|". */
module CommandText {
  import opened Machine

  datatype Command = Command(name: Bytes, args: seq<Bytes>)
  type CommandSet = seq<Command>

  const AMP: byte := 38
  const BAR: byte := 124
  const BACKSLASH: byte := 92
  const PREFIX: Bytes := [71, 87, 124]

  // ---- strings.Split and strings.Join on a one-byte separator ----

  function Split(s: Bytes, sep: byte): (parts: seq<Bytes>)
    ensures |parts| > 0
  {
    if s == [] then [[]]
    else
      var rest := Split(s[1..], sep);
      if s[0] == sep then [[]] + rest else [[s[0]] + rest[0]] + rest[1..]
  }

  function Join(parts: seq<Bytes>, sep: byte): Bytes
  {
    if parts == [] then []
    else if |parts| == 1 then parts[0]
    else parts[0] + [sep] + Join(parts[1..], sep)
  }

  lemma {:induction false} SplitNoSep(s: Bytes, sep: byte)
    requires sep !in s
    ensures Split(s, sep) == [s]
  {
    if s != [] {
      SplitNoSep(s[1..], sep);
      assert s == [s[0]] + s[1..];
    }
  }

  lemma {:induction false} SplitFirst(a: Bytes, s: Bytes, sep: byte)
    requires sep !in a
    ensures Split(a + [sep] + s, sep) == [a] + Split(s, sep)
  {
    var t := a + [sep] + s;
    if a == [] {
      assert t[1..] == s;
    } else {
      assert t[1..] == a[1..] + [sep] + s;
      SplitFirst(a[1..], s, sep);
      assert a == [a[0]] + a[1..];
    }
  }

  /** Splitting undoes joining whenever no part holds the separator. */
  lemma {:induction false} SplitJoin(parts: seq<Bytes>, sep: byte)
    requires parts != [] && forall i :: 0 <= i < |parts| ==> sep !in parts[i]
    ensures Split(Join(parts, sep), sep) == parts
  {
    if |parts| == 1 {
      SplitNoSep(parts[0], sep);
    } else {
      SplitFirst(parts[0], Join(parts[1..], sep), sep);
      SplitJoin(parts[1..], sep);
    }
  }

  /** The parts hold bytes of the text and never the separator. */
  lemma {:induction false} SplitParts(s: Bytes, sep: byte)
    ensures forall i :: 0 <= i < |Split(s, sep)| ==> forall x :: x in Split(s, sep)[i] ==> x in s && x != sep
  {
    if s != [] { SplitParts(s[1..], sep); }
  }

  lemma {:induction false} JoinBytes(parts: seq<Bytes>, sep: byte, x: byte)
    requires x in Join(parts, sep)
    ensures x == sep || exists i :: 0 <= i < |parts| && x in parts[i]
  {
    if |parts| > 1 && x !in parts[0] && x != sep {
      JoinBytes(parts[1..], sep, x);
      var i :| 0 <= i < |parts[1..]| && x in parts[1..][i];
      assert x in parts[i + 1];
    }
  }

  // ---- Argument escaping ----

  /** The replacer acts byte by byte: backslash, '&', '|' and NUL become "\hh". */
  function EncodeByte(x: byte): Bytes
  {
    if x == BACKSLASH then [BACKSLASH, 53, 67]
    else if x == AMP then [BACKSLASH, 50, 54]
    else if x == BAR then [BACKSLASH, 55, 67]
    else if x == 0 then [BACKSLASH, 48, 48]
    else [x]
  }

  function EncodeArg(arg: Bytes): Bytes
  {
    if arg == [] then [] else EncodeByte(arg[0]) + EncodeArg(arg[1..])
  }

  predicate IsHex(x: byte) { 48 <= x <= 57 || 65 <= x <= 70 || 97 <= x <= 102 }

  function HexValue(x: byte): (v: nat)
    requires IsHex(x)
    ensures v < 16
  {
    if x <= 57 then x - 48 else if x <= 70 then x - 55 else x - 87
  }

  predicate Escape(s: Bytes) { |s| > 2 && s[0] == BACKSLASH && IsHex(s[1]) && IsHex(s[2]) }

  function DecodeArg(s: Bytes): Bytes
  {
    if s == [] then []
    else if Escape(s) then [16 * HexValue(s[1]) + HexValue(s[2])] + DecodeArg(s[3..])
    else [s[0]] + DecodeArg(s[1..])
  }

  predicate EscapeAt(arg: Bytes, i: nat)
  {
    i + 2 < |arg| && arg[i] == BACKSLASH && IsHex(arg[i + 1]) && IsHex(arg[i + 2])
  }

  /** The byte written at i and the position after it. */
  function TakeAt(arg: Bytes, i: nat): (byte, nat)
    requires i < |arg|
  {
    if EscapeAt(arg, i) then (16 * HexValue(arg[i + 1]) + HexValue(arg[i + 2]), i + 3) else (arg[i], i + 1)
  }

  lemma DecodeAt(arg: Bytes, i: nat, out: Bytes)
    requires i < |arg|
    ensures var (x, j) := TakeAt(arg, i);
      j <= |arg| && (out + [x]) + DecodeArg(arg[j..]) == out + DecodeArg(arg[i..])
  {
    var (x, j) := TakeAt(arg, i);
    assert arg[i..][j - i..] == arg[j..];
    assert DecodeArg(arg[i..]) == [x] + DecodeArg(arg[j..]);
  }

  /** decodeArg: a builder loop over the text. */
  method DecodeArgLoop(arg: Bytes) returns (out: Bytes)
    ensures out == DecodeArg(arg)
  {
    out := [];
    var i := 0;
    while i < |arg|
      invariant 0 <= i <= |arg|
      invariant out + DecodeArg(arg[i..]) == DecodeArg(arg)
    {
      DecodeAt(arg, i, out);
      var (x, j) := TakeAt(arg, i);
      out, i := out + [x], j;
    }
  }

  /** Decoding undoes encoding for arbitrary argument bytes. */
  lemma {:induction false} ArgRoundTrip(arg: Bytes)
    ensures DecodeArg(EncodeArg(arg)) == arg
  {
    if arg != [] {
      ArgRoundTrip(arg[1..]);
      var rest := EncodeArg(arg[1..]);
      var s := EncodeByte(arg[0]) + rest;
      if |EncodeByte(arg[0])| == 3 {
        assert s[3..] == rest;
      } else {
        assert s[1..] == rest;
      }
    }
  }

  lemma {:induction false} EncodedBytes(arg: Bytes)
    ensures AMP !in EncodeArg(arg) && BAR !in EncodeArg(arg)
  {
    if arg != [] { EncodedBytes(arg[1..]); }
  }

  // ---- Commands ----

  function EncodeArgs(args: seq<Bytes>): seq<Bytes>
  {
    seq(|args|, i requires 0 <= i < |args| => EncodeArg(args[i]))
  }

  function DecodeArgs(parts: seq<Bytes>): seq<Bytes>
  {
    seq(|parts|, i requires 0 <= i < |parts| => DecodeArg(parts[i]))
  }

  function PrintCommand(c: Command): Bytes { Join([c.name] + EncodeArgs(c.args), AMP) }

  function ParseCommand(s: Bytes): Command
  {
    var parts := Split(s, AMP);
    Command(parts[0], DecodeArgs(parts[1..]))
  }

  function PrintCommands(cs: CommandSet): seq<Bytes>
  {
    seq(|cs|, i requires 0 <= i < |cs| => PrintCommand(cs[i]))
  }

  function PrintSet(cs: CommandSet): Bytes { PREFIX + Join(PrintCommands(cs), BAR) }

  function TrimPrefix(s: Bytes): Bytes { if PREFIX <= s then s[3..] else s }

  function ParseSet(s: Bytes): CommandSet
  {
    var parts := Split(TrimPrefix(s), BAR);
    seq(|parts|, i requires 0 <= i < |parts| => ParseCommand(parts[i]))
  }

  /** Command.String: the name and each encoded argument are appended in turn. */
  method PrintCommandLoop(c: Command) returns (out: Bytes)
    ensures out == PrintCommand(c)
  {
    var args := [c.name];
    for i := 0 to |c.args|
      invariant args == [c.name] + EncodeArgs(c.args)[..i]
    {
      args := args + [EncodeArg(c.args[i])];
    }
    assert EncodeArgs(c.args)[..|c.args|] == EncodeArgs(c.args);
    out := Join(args, AMP);
  }

  /** CommandFromString */
  method ParseCommandLoop(s: Bytes) returns (c: Command)
    ensures c == ParseCommand(s)
  {
    var parts := Split(s, AMP);
    var args := [];
    for i := 1 to |parts|
      invariant args == DecodeArgs(parts[1..])[..i - 1]
    {
      var arg := DecodeArgLoop(parts[i]);
      args := args + [arg];
    }
    c := Command(parts[0], args);
  }

  /** CommandSetFromString */
  method ParseSetLoop(s: Bytes) returns (out: CommandSet)
    ensures out == ParseSet(s)
  {
    var parts := Split(TrimPrefix(s), BAR);
    out := [];
    for i := 0 to |parts|
      invariant out == ParseSet(s)[..i]
    {
      var c := ParseCommandLoop(parts[i]);
      out := out + [c];
    }
  }

  /** CommandSet.String */
  method PrintSetLoop(cs: CommandSet) returns (out: Bytes)
    ensures out == PrintSet(cs)
  {
    var parts := [];
    for i := 0 to |cs|
      invariant parts == PrintCommands(cs)[..i]
    {
      var p := PrintCommandLoop(cs[i]);
      parts := parts + [p];
    }
    assert PrintCommands(cs)[..|cs|] == PrintCommands(cs);
    out := PREFIX + Join(parts, BAR);
  }

  // ---- Round trip ----

  predicate Printable(cs: CommandSet)
  {
    cs != [] && forall i :: 0 <= i < |cs| ==> AMP !in cs[i].name && BAR !in cs[i].name
  }

  lemma CommandRoundTrip(c: Command)
    requires AMP !in c.name
    ensures ParseCommand(PrintCommand(c)) == c
  {
    var parts := [c.name] + EncodeArgs(c.args);
    forall i | 0 <= i < |parts|
      ensures AMP !in parts[i]
    {
      if i > 0 { EncodedBytes(c.args[i - 1]); }
    }
    SplitJoin(parts, AMP);
    assert parts[1..] == EncodeArgs(c.args);
    forall i | 0 <= i < |c.args|
      ensures DecodeArgs(parts[1..])[i] == c.args[i]
    {
      ArgRoundTrip(c.args[i]);
    }
  }

  lemma PrintedBytes(c: Command)
    requires BAR !in c.name
    ensures BAR !in PrintCommand(c)
  {
    var parts := [c.name] + EncodeArgs(c.args);
    forall i | 0 <= i < |parts|
      ensures BAR !in parts[i]
    {
      PartClean(c, i);
    }
    if BAR in PrintCommand(c) { JoinBytes(parts, AMP, BAR); }
  }

  lemma PartClean(c: Command, i: nat)
    requires BAR !in c.name && i <= |c.args|
    ensures BAR !in ([c.name] + EncodeArgs(c.args))[i]
  {
    if i > 0 { EncodedBytes(c.args[i - 1]); }
  }

  lemma SetRoundTrip(cs: CommandSet)
    requires Printable(cs)
    ensures ParseSet(PrintSet(cs)) == cs
  {
    var parts := PrintCommands(cs);
    assert PrintSet(cs)[3..] == Join(parts, BAR);
    forall i | 0 <= i < |cs|
      ensures BAR !in parts[i] && ParseCommand(parts[i]) == cs[i]
    {
      PrintedBytes(cs[i]);
      CommandRoundTrip(cs[i]);
    }
    SplitJoin(parts, BAR);
  }

  /** Whatever is parsed is non-empty and has printable names. */
  lemma ParsedIsPrintable(s: Bytes)
    ensures Printable(ParseSet(s))
  {
    var text := TrimPrefix(s);
    var parts := Split(text, BAR);
    SplitParts(text, BAR);
    forall i | 0 <= i < |parts|
      ensures AMP !in ParseSet(s)[i].name && BAR !in ParseSet(s)[i].name
    {
      SplitParts(parts[i], AMP);
      assert ParseSet(s)[i].name == Split(parts[i], AMP)[0];
    }
  }

  /** The text form round-trips exactly for the non-empty sets without '&' or '|' in names. */
  lemma TextRoundTripIff(cs: CommandSet)
    ensures ParseSet(PrintSet(cs)) == cs <==> Printable(cs)
  {
    ParsedIsPrintable(PrintSet(cs));
    if Printable(cs) { SetRoundTrip(cs); }
  }

  /** Printing and parsing again changes nothing that was parsed once. */
  lemma ReparseStable(s: Bytes)
    ensures ParseSet(PrintSet(ParseSet(s))) == ParseSet(s)
  {
    ParsedIsPrintable(s);
    SetRoundTrip(ParseSet(s));
  }
}
