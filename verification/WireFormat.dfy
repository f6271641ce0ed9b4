/** The wire formats byte by byte: which bytes separate, escape, count and measure what. */
module WireFormat {
  import opened Machine
  import opened CommandText
  import opened CommandBinary
  import opened Framing
  import Gettbl
  import OpenParams

  // ---- Little-endian numbers ----

  lemma DivDiv(n: nat, p: nat)
    requires p > 0
    ensures (n / 256) / p == n / (256 * p)
  {
    var q, r := (n / 256) / p, (n / 256) % p;
    assert n / 256 == p * q + r;
    assert n == 256 * (n / 256) + n % 256;
    assert 256 * (p * q) == (256 * p) * q;
    ModUnique(n, 256 * p, q, 256 * r + n % 256);
  }

  /** Byte i of a number is the coefficient of 256^i. */
  lemma {:induction false} ByteOfNumber(n: nat, width: nat, i: nat)
    requires i < width
    ensures ToLE(n, width)[i] == n / Pow256(i) % 256
  {
    if i > 0 {
      ByteOfNumber(n / 256, width - 1, i - 1);
      DivDiv(n, Pow256(i - 1));
    }
  }

  lemma {:induction false} SumOfBytes(a: Bytes, x: byte)
    ensures FromLE(a + [x]) == FromLE(a) + Pow256(|a|) * x
  {
    if a == [] {
      assert a + [x] == [x] && [x][1..] == [];
    } else {
      assert (a + [x])[1..] == a[1..] + [x];
      SumOfBytes(a[1..], x);
      assert 256 * (Pow256(|a| - 1) * x) == Pow256(|a|) * x;
    }
  }

  /** Packed tags: four bytes each, in order. */
  lemma {:induction false} PackedAt(v: seq<uint32>, i: nat)
    requires i < |v|
    ensures Gettbl.Pack(v)[4 * i..4 * i + 4] == ToLE(v[i], 4)
  {
    var rest := Gettbl.Pack(v[1..]);
    if i > 0 {
      PackedAt(v[1..], i - 1);
      assert (ToLE(v[0], 4) + rest)[4 * i..4 * i + 4] == rest[4 * (i - 1)..4 * (i - 1) + 4];
    }
  }

  // ---- The text form ----

  lemma Separators()
    ensures Spell([AMP]) == "&" && Spell([BAR]) == "|" && Spell([BACKSLASH]) == "\\" && Spell(PREFIX) == "GW|"
  {
  }

  /** The value of a hexadecimal digit of either case. */
  predicate HexDigit(x: byte, v: nat)
  {
    if '0' as int <= x <= '9' as int then v == x - '0' as int
    else if 'A' as int <= x <= 'F' as int then v == x - 'A' as int + 10
    else 'a' as int <= x <= 'f' as int && v == x - 'a' as int + 10
  }

  /** Upper-case digits, as escapes are written with. */
  predicate UpperHex(x: byte) { '0' as int <= x <= '9' as int || 'A' as int <= x <= 'F' as int }

  /** Backslash, '&', '|' and NUL are written as a backslash and the two upper-case hexadecimal
      digits of their code; every other byte is written as it is. */
  lemma EscapeOf(x: byte)
    ensures var e := EncodeByte(x);
      if Spell([x]) in {"\\", "&", "|", "\0"}
      then |e| == 3 && Spell([e[0]]) == "\\" && UpperHex(e[1]) && UpperHex(e[2])
        && exists h: nat, w: nat :: HexDigit(e[1], h) && HexDigit(e[2], w) && x == 16 * h + w
      else e == [x]
  {
    Separators();
    SpellOne(x, 92, "\\");
    SpellOne(x, 38, "&");
    SpellOne(x, 124, "|");
    SpellOne(x, 0, "\0");
    var e := EncodeByte(x);
    if |e| == 3 {
      assert HexDigit(e[1], x / 16) && HexDigit(e[2], x % 16);
    }
  }

  lemma SpellOne(x: byte, y: byte, s: string)
    requires |s| == 1 && s[0] as int == y
    ensures Spell([x]) == s <==> x == y
  {
    assert Spell([x])[0] == x as char;
  }

  lemma {:induction false} EncodeConcat(a: Bytes, b: Bytes)
    ensures EncodeArg(a + b) == EncodeArg(a) + EncodeArg(b)
  {
    if a == [] {
      assert a + b == b;
    } else {
      assert (a + b)[1..] == a[1..] + b;
      EncodeConcat(a[1..], b);
    }
  }

  lemma EncodeOne(x: byte)
    ensures EncodeArg([x]) == EncodeByte(x)
  {
    assert [x][1..] == [];
  }

  predicate HexChar(x: byte) { UpperHex(x) || 'a' as int <= x <= 'f' as int }

  /** A backslash and two hexadecimal digits of either case are read as one byte; anything
      else, an incomplete escape included, is read as it stands. */
  lemma DecodeStep(s: Bytes)
    requires s != []
    ensures var escape := Spell([s[0]]) == "\\" && |s| >= 3 && HexChar(s[1]) && HexChar(s[2]);
      && |DecodeArg(s)| > 0
      && (escape ==> DecodeArg(s)[1..] == DecodeArg(s[3..]))
      && (!escape ==> DecodeArg(s) == [s[0]] + DecodeArg(s[1..]))
    ensures Spell([s[0]]) == "\\" && |s| >= 3 ==> forall h: nat, w: nat ::
      HexDigit(s[1], h) && HexDigit(s[2], w) ==> DecodeArg(s)[0] == 16 * h + w
  {
    SpellOne(s[0], 92, "\\");
  }

  /** Text with or without the prefix reads the same. */
  lemma PrefixOptional(s: Bytes)
    requires !(PREFIX <= s)
    ensures ParseSet(PREFIX + s) == ParseSet(s)
  {
    assert (PREFIX + s)[3..] == s;
  }

  lemma {:induction false} JoinSnoc(parts: seq<Bytes>, p: Bytes, sep: byte)
    requires parts != []
    ensures Join(parts + [p], sep) == Join(parts, sep) + [sep] + p
  {
    var all := parts + [p];
    assert all[1..] == parts[1..] + [p];
    if |parts| > 1 { JoinSnoc(parts[1..], p, sep); }
  }

  /** A command is its name, and each argument escaped behind a '&'. */
  lemma PrintedCommand(name: Bytes, args: seq<Bytes>, arg: Bytes)
    ensures PrintCommand(Command(name, [])) == name
    ensures PrintCommand(Command(name, args + [arg])) == PrintCommand(Command(name, args)) + [AMP] + EncodeArg(arg)
  {
    assert [name] + EncodeArgs([]) == [name];
    assert [name] + EncodeArgs(args + [arg]) == ([name] + EncodeArgs(args)) + [EncodeArg(arg)];
    JoinSnoc([name] + EncodeArgs(args), EncodeArg(arg), AMP);
  }

  /** A set is "GW|", the first command, and each further one behind a '|'. */
  lemma PrintedSet(cs: CommandSet, c: Command)
    ensures PrintSet([c]) == PREFIX + PrintCommand(c)
    ensures cs != [] ==> PrintSet(cs + [c]) == PrintSet(cs) + [BAR] + PrintCommand(c)
  {
    assert PrintCommands([c]) == [PrintCommand(c)];
    assert PrintCommands(cs + [c]) == PrintCommands(cs) + [PrintCommand(c)];
    if cs != [] { JoinSnoc(PrintCommands(cs), PrintCommand(c), BAR); }
  }

  // ---- The binary form ----

  /** A command is the length of its name in one byte, the name, the number of arguments in
      two, and the arguments, each behind its length in four. */
  lemma CommandLayout(c: Command)
    requires NameFits(c)
    ensures var b, n := PutCommand(c), |c.name|;
      && |b| >= n + 3 && b[0] == n && b[1..n + 1] == c.name
      && FromLE(b[n + 1..n + 3]) == |c.args| % U16 && b[n + 3..] == PutArgs(c.args)
  {
    var argc := ToLE(|c.args|, 2);
    Widths();
    FromToLE(|c.args|, 2);
    HeadSlices([|c.name|], c.name, argc, PutArgs(c.args));
  }

  lemma HeadSlices(a: Bytes, b: Bytes, c: Bytes, d: Bytes)
    ensures var all := a + b + c + d; var i, j, k := |a|, |a| + |b|, |a| + |b| + |c|;
      all[..i] == a && all[i..j] == b && all[j..k] == c && all[k..] == d
  {
    var i, j, k := |a|, |a| + |b|, |a| + |b| + |c|;
    var ab := a + b;
    var abc := ab + c;
    assert ab[..i] == a && ab[i..j] == b;
    assert abc[..i] == a && abc[i..j] == b && abc[j..k] == c;
  }

  /** A set is the number of commands in two bytes and the commands in order. */
  lemma SetLayout(cs: CommandSet, c: Command)
    requires NamesFit(cs + [c])
    ensures NamesFit(cs) && NameFits(c)
    ensures Encode(cs + [c]).Some? && FromLE(Encode(cs + [c]).value[..2]) == (|cs| + 1) % U16
    ensures Encode(cs + [c]).value[2..] == Encode(cs).value[2..] + PutCommand(c)
  {
    PutCommandsSnoc(cs, c);
    Widths();
    FromToLE(|cs| + 1, 2);
    assert Encode(cs + [c]).value[..2] == ToLE(|cs| + 1, 2);
    assert Encode(cs).value[2..] == PutCommands(cs);
    assert Encode(cs + [c]).value[2..] == PutCommands(cs + [c]);
  }

  /** The frame header: number, language, version, frame size, payload length. */
  lemma HeaderBytes(s: Stream, size: nat, len: nat)
    ensures var h := Header(s, size, len);
      && h[0] == s.num % 256 && h[1] == s.num / 256 && h[2] == s.lang && h[3] == s.ver
      && (forall i :: 0 <= i < 4 ==> h[4 + i] == size / Pow256(i) % 256)
      && (forall i :: 0 <= i < 4 ==> h[8 + i] == len / Pow256(i) % 256)
  {
    ByteOfNumber(s.num, 2, 0);
    ByteOfNumber(s.num, 2, 1);
    assert Pow256(0) == 1 && Pow256(1) == 256;
    var h := Header(s, size, len);
    forall i | 0 <= i < 4
      ensures h[4 + i] == size / Pow256(i) % 256 && h[8 + i] == len / Pow256(i) % 256
    {
      ByteOfNumber(size, 4, i);
      ByteOfNumber(len, 4, i);
    }
  }

  // ---- Reading frames that are not well-formed ----

  /** A frame announced above the cap is refused at its header; nothing behind it is read. */
  lemma OverCapRefused(z: Zlib, input: Bytes, maxSize: uint32)
    requires |input| >= 12 && 0 < maxSize < FromLE(input[4..8])
    ensures ReadFrame(z, input, maxSize) == (Failed, input[12..])
  {
  }

  /** An input that ends inside a frame, header or body, is used up. */
  lemma ShortInputFails(z: Zlib, input: Bytes, maxSize: uint32)
    requires |input| < 12 || (12 <= FromLE(input[4..8]) && |input| < FromLE(input[4..8])
                              && (maxSize == 0 || FromLE(input[4..8]) <= maxSize))
    ensures ReadFrame(z, input, maxSize) == (Failed, [])
  {
  }

  lemma PrefixSlice(s: Bytes, n: nat, i: nat, j: nat)
    requires i <= j <= n <= |s|
    ensures s[..n][i..j] == s[i..j]
  {
  }

  /** The stream a read yields, exactly: the frame is whole and within the cap, its body
      inflates to as many bytes as the header says, and these decode. */
  lemma GotIff(z: Zlib, input: Bytes, maxSize: uint32, s: Stream)
    ensures ReadFrame(z, input, maxSize).0 == Got(s) <==>
      && 12 <= |input| && 12 <= FromLE(input[4..8]) <= |input|
      && (maxSize == 0 || FromLE(input[4..8]) <= maxSize)
      && s.num == FromLE(input[..2]) && s.lang == input[2] && s.ver == input[3]
      && exists bin: Bytes ::
           && z.inflate(input[12..FromLE(input[4..8])]) == Some(bin)
           && |bin| % U32 == FromLE(input[8..12]) && Decode(bin) == Some(s.cmds)
  {
    if 12 <= |input| && 12 <= FromLE(input[4..8]) <= |input| {
      var size := FromLE(input[4..8]);
      PrefixSlice(input, size, 0, 2);
      PrefixSlice(input, size, 4, 8);
      PrefixSlice(input, size, 8, 12);
      PrefixSlice(input, size, 12, size);
      assert input[..size][..2] == input[..size][0..2] && input[..2] == input[0..2];
    }
  }

  // ---- Open parameters ----

  /** Keys consist of letters, digits and the underscore. */
  lemma KeyAlphabet(b: byte)
    ensures OpenParams.IsKeyByte(b) <==>
      'A' as int <= b <= 'Z' as int || 'a' as int <= b <= 'z' as int || '0' as int <= b <= '9' as int || b == '_' as int
    ensures Spell([OpenParams.EQ]) == "=" && Spell([OpenParams.CARET]) == "^"
  {
  }

  /** Text without '=' or with nothing before the first one adds nothing. */
  lemma NothingParsed(out: OpenParams.Params, text: Bytes)
    requires OpenParams.EQ !in text || text[0] == OpenParams.EQ
    ensures OpenParams.ParseInto(out, text) == out
  {
    if OpenParams.EQ in text { OpenParams.IndexOfIs(text, OpenParams.EQ, 0); }
  }
}
