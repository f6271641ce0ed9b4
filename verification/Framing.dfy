/** Stream frames: a 12-byte header (number, language, version, frame size, payload
    length) followed by the compressed command set. */
module Framing {
  import opened Machine
  import opened CommandText
  import opened CommandBinary

  const HEADER := 12

  datatype Stream = Stream(num: uint16, lang: byte, ver: byte, cmds: CommandSet)

  /** zlib as a pair of functions; `inflate` yields None on corrupt input. */
  datatype Zlib = Zlib(deflate: Bytes -> Bytes, inflate: Bytes -> Option<Bytes>)

  ghost predicate Lawful(z: Zlib) { forall x :: z.inflate(z.deflate(x)) == Some(x) }

  function Header(s: Stream, size: nat, payloadLen: nat): (h: Bytes)
    ensures |h| == HEADER
  {
    ToLE(s.num, 2) + [s.lang, s.ver] + ToLE(size, 4) + ToLE(payloadLen, 4)
  }

  /** Stream.MarshalBinary: both lengths are truncated to 32 bits. */
  function Frame(z: Zlib, s: Stream): Option<Bytes>
  {
    match Encode(s.cmds)
    case None => None
    case Some(bin) =>
      var packed := z.deflate(bin);
      Some(Header(s, |packed| + HEADER, |bin|) + packed)
  }

  /** Stream.UnmarshalBinary */
  function Unframe(z: Zlib, b: Bytes): Option<Stream>
  {
    if |b| < HEADER then None
    else
      var size := FromLE(b[4..8]);
      if size < HEADER || |b| < size then None
      else match z.inflate(b[HEADER..size])
        case None => None
        case Some(bin) =>
          if |bin| % U32 != FromLE(b[8..12]) then None
          else match Decode(bin)
            case None => None
            case Some(cs) =>
              Widths();
              FromLEBound(b[..2]);
              Some(Stream(FromLE(b[..2]), b[2], b[3], cs))
  }

  /** What one ReadFrom does to its input. A size field below 12 makes the source slice
      past the end of its buffer, which is a run-time panic. */
  datatype ReadResult = Got(stream: Stream) | Failed | Panicked

  /** The result and the unread input. */
  function ReadFrame(z: Zlib, input: Bytes, maxSize: uint32): (ReadResult, Bytes)
  {
    if |input| < HEADER then (Failed, [])
    else
      var size := FromLE(input[4..8]);
      var rest := input[HEADER..];
      if maxSize > 0 && size > maxSize then (Failed, rest)
      else if size < HEADER then (Panicked, rest)
      else if |input| < size then (Failed, [])
      else match Unframe(z, input[..size])
        case None => (Failed, input[size..])
        case Some(s) => (Got(s), input[size..])
  }

  /** An io.Reader over bytes that are already there. */
  class Source {
    var rest: Bytes

    constructor (input: Bytes)
      ensures rest == input
    {
      rest := input;
    }

    /** io.ReadFull: a short input is consumed and reported. */
    method ReadFull(n: nat) returns (r: Option<Bytes>)
      modifies this
      ensures if n <= |old(rest)| then r == Some(old(rest)[..n]) && rest == old(rest)[n..]
              else r == None && rest == []
    {
      if n <= |rest| {
        r := Some(rest[..n]);
        rest := rest[n..];
      } else {
        r := None;
        rest := [];
      }
    }
  }

  method ReadFrom(z: Zlib, src: Source, maxSize: uint32) returns (r: ReadResult)
    modifies src
    ensures (r, src.rest) == ReadFrame(z, old(src.rest), maxSize)
  {
    ghost var input := src.rest;
    var head := src.ReadFull(HEADER);
    if head.None? {
      return Failed;
    }
    assert head.value[4..8] == input[4..8];
    var size := FromLE(head.value[4..8]);
    if maxSize > 0 && size > maxSize {
      return Failed;
    }
    if size < HEADER {
      return Panicked;
    }
    var body := src.ReadFull(size - HEADER);
    if body.None? {
      return Failed;
    }
    assert head.value + body.value == input[..size];
    assert src.rest == input[size..];
    var s := Unframe(z, head.value + body.value);
    r := if s.Some? then Got(s.value) else Failed;
  }

  // ---- Frames are self-delimiting ----

  /** The frame's 32-bit size field is not truncated and passes the reader's cap. */
  predicate SizeFits(z: Zlib, s: Stream, maxSize: uint32)
    requires Encode(s.cmds).Some?
  {
    var size := |z.deflate(Encode(s.cmds).value)| + HEADER;
    size < U32 && (maxSize == 0 || size <= maxSize)
  }

  predicate Sendable(z: Zlib, s: Stream, maxSize: uint32)
  {
    Encodable(s.cmds) && Encode(s.cmds).Some? && SizeFits(z, s, maxSize)
  }

  lemma HeaderFields(s: Stream, size: nat, len: nat, rest: Bytes)
    requires size < U32
    ensures var b := Header(s, size, len) + rest;
      && FromLE(b[..2]) == s.num && b[2] == s.lang && b[3] == s.ver
      && FromLE(b[4..8]) == size && FromLE(b[8..12]) == len % U32
      && b[HEADER..] == rest
  {
    var b := Header(s, size, len) + rest;
    Widths();
    FromToLE(s.num, 2);
    FromToLE(size, 4);
    FromToLE(len, 4);
    assert b[..2] == ToLE(s.num, 2);
    assert b[4..8] == ToLE(size, 4);
    assert b[8..12] == ToLE(len, 4);
  }

  lemma UnframeFrame(z: Zlib, s: Stream, maxSize: uint32)
    requires Lawful(z) && Sendable(z, s, maxSize)
    ensures Frame(z, s).Some?
    ensures Unframe(z, Frame(z, s).value) == if DanglingEmpty(s.cmds) then None else Some(s)
  {
    var bin := Encode(s.cmds).value;
    var packed := z.deflate(bin);
    HeaderFields(s, |packed| + HEADER, |bin|, packed);
    EncodedReads(s.cmds, []);
    assert bin + [] == bin;
    var b := Frame(z, s).value;
    assert b[HEADER..|packed| + HEADER] == packed;
  }

  /** Reading one frame consumes exactly its bytes and returns the stream exactly when the
      stream does not end on an empty argument. */
  lemma ReadFrameIff(z: Zlib, s: Stream, rest: Bytes, maxSize: uint32)
    requires Lawful(z) && Sendable(z, s, maxSize)
    ensures Frame(z, s).Some?
    ensures ReadFrame(z, Frame(z, s).value + rest, maxSize)
      == (if DanglingEmpty(s.cmds) then Failed else Got(s), rest)
  {
    var f := Frame(z, s).value;
    var bin := Encode(s.cmds).value;
    var packed := z.deflate(bin);
    HeaderFields(s, |packed| + HEADER, |bin|, packed + rest);
    assert f + rest == Header(s, |packed| + HEADER, |bin|) + (packed + rest);
    assert (f + rest)[..|f|] == f && (f + rest)[|f|..] == rest;
    UnframeFrame(z, s, maxSize);
  }

  /** n successive reads on one input. */
  function ReadMany(z: Zlib, input: Bytes, maxSize: uint32, n: nat): (seq<ReadResult>, Bytes)
    decreases n
  {
    if n == 0 then ([], input)
    else
      var (r, rest) := ReadFrame(z, input, maxSize);
      var (more, last) := ReadMany(z, rest, maxSize, n - 1);
      ([r] + more, last)
  }

  /** A piece of input that one read consumes exactly, whatever follows it. */
  ghost predicate Delimited(z: Zlib, piece: Bytes, r: ReadResult, maxSize: uint32)
  {
    forall rest :: ReadFrame(z, piece + rest, maxSize) == (r, rest)
  }

  function Concat(pieces: seq<Bytes>): Bytes
  {
    if pieces == [] then [] else pieces[0] + Concat(pieces[1..])
  }

  lemma FirstRead(z: Zlib, input: Bytes, maxSize: uint32, n: nat, r: ReadResult, rest: Bytes)
    requires ReadFrame(z, input, maxSize) == (r, rest)
    ensures ReadMany(z, input, maxSize, n + 1) ==
      ([r] + ReadMany(z, rest, maxSize, n).0, ReadMany(z, rest, maxSize, n).1)
  {
  }

  lemma {:induction false} PiecesRead(z: Zlib, pieces: seq<Bytes>, rs: seq<ReadResult>, rest: Bytes, maxSize: uint32)
    requires |pieces| == |rs| && forall i :: 0 <= i < |rs| ==> Delimited(z, pieces[i], rs[i], maxSize)
    ensures ReadMany(z, Concat(pieces) + rest, maxSize, |rs|) == (rs, rest)
  {
    if rs == [] {
      assert Concat(pieces) + rest == rest;
    } else {
      PiecesRead(z, pieces[1..], rs[1..], rest, maxSize);
      var tail := Concat(pieces[1..]) + rest;
      assert Concat(pieces) + rest == pieces[0] + tail;
      assert Delimited(z, pieces[0], rs[0], maxSize);
      FirstRead(z, pieces[0] + tail, maxSize, |rs| - 1, rs[0], tail);
      assert [rs[0]] + rs[1..] == rs;
    }
  }

  // ---- Reads that do not return ----

  /** A complete header whose size field is below the header's own length and passes the cap. */
  predicate ShortSize(input: Bytes, maxSize: uint32)
  {
    |input| >= HEADER && FromLE(input[4..8]) < HEADER && (maxSize == 0 || FromLE(input[4..8]) <= maxSize)
  }

  /** A read panics exactly on such a header; every other input gives a stream or an error. */
  lemma PanicsIff(z: Zlib, input: Bytes, maxSize: uint32)
    ensures ReadFrame(z, input, maxSize).0.Panicked? <==> ShortSize(input, maxSize)
  {
  }

  lemma {:induction false} ZerosAreZero(n: nat)
    ensures FromLE(seq(n, _ => 0)) == 0
  {
    if n > 0 {
      assert seq(n, _ => 0)[1..] == seq(n - 1, _ => 0);
      ZerosAreZero(n - 1);
    }
  }

  /** The smallest such input: twelve zero bytes, under any size cap. */
  lemma ZeroHeaderPanics(z: Zlib, rest: Bytes, maxSize: uint32)
    ensures ReadFrame(z, seq(HEADER, _ => 0) + rest, maxSize) == (Panicked, rest)
  {
    var input := seq(HEADER, _ => 0) + rest;
    assert input[4..8] == seq(4, _ => 0) && input[HEADER..] == rest;
    ZerosAreZero(4);
  }

  /** In a sequence of reads the k-th one panics exactly when what the earlier ones left
      begins with such a header. */
  lemma {:induction false} ReadsPanicIff(z: Zlib, input: Bytes, maxSize: uint32, n: nat, k: nat)
    requires k < n
    ensures |ReadMany(z, input, maxSize, n).0| == n
    ensures ReadMany(z, input, maxSize, n).0[k].Panicked? <==> ShortSize(ReadMany(z, input, maxSize, k).1, maxSize)
    decreases n
  {
    var (r, rest) := ReadFrame(z, input, maxSize);
    PanicsIff(z, input, maxSize);
    FirstRead(z, input, maxSize, n - 1, r, rest);
    if n > 1 { ReadsPanicIff(z, rest, maxSize, n - 1, if k > 0 then k - 1 else 0); }
    if k > 0 { FirstRead(z, input, maxSize, k - 1, r, rest); }
  }

  function Frames(z: Zlib, ss: seq<Stream>): seq<Bytes>
    requires forall i :: 0 <= i < |ss| ==> Frame(z, ss[i]).Some?
  {
    seq(|ss|, i requires 0 <= i < |ss| => Frame(z, ss[i]).value)
  }

  function Outcome(s: Stream): ReadResult { if DanglingEmpty(s.cmds) then Failed else Got(s) }

  function Outcomes(ss: seq<Stream>): seq<ReadResult>
  {
    seq(|ss|, i requires 0 <= i < |ss| => Outcome(ss[i]))
  }

  lemma FrameDelimited(z: Zlib, s: Stream, maxSize: uint32)
    requires Lawful(z) && Sendable(z, s, maxSize)
    ensures Frame(z, s).Some? && Delimited(z, Frame(z, s).value, Outcome(s), maxSize)
  {
    UnframeFrame(z, s, maxSize);
    forall rest
      ensures ReadFrame(z, Frame(z, s).value + rest, maxSize) == (Outcome(s), rest)
    {
      ReadFrameIff(z, s, rest, maxSize);
    }
  }

  /** Back-to-back frames are read in order, one per read; a stream that ends on an empty
      argument is lost without disturbing its neighbours. */
  lemma FramesReadInOrder(z: Zlib, ss: seq<Stream>, rest: Bytes, maxSize: uint32)
    requires Lawful(z) && forall i :: 0 <= i < |ss| ==> Sendable(z, ss[i], maxSize)
    ensures forall i :: 0 <= i < |ss| ==> Frame(z, ss[i]).Some?
    ensures ReadMany(z, Concat(Frames(z, ss)) + rest, maxSize, |ss|) == (Outcomes(ss), rest)
  {
    forall i | 0 <= i < |ss|
      ensures Frame(z, ss[i]).Some? && Delimited(z, Frame(z, ss[i]).value, Outcome(ss[i]), maxSize)
    {
      FrameDelimited(z, ss[i], maxSize);
    }
    PiecesRead(z, Frames(z, ss), Outcomes(ss), rest, maxSize);
  }

  /** After any number of well-formed frames the next read panics exactly when a short size
      field follows them. */
  lemma FramesThenPanicIff(z: Zlib, ss: seq<Stream>, rest: Bytes, maxSize: uint32)
    requires Lawful(z) && forall i :: 0 <= i < |ss| ==> Sendable(z, ss[i], maxSize)
    ensures forall i :: 0 <= i < |ss| ==> Frame(z, ss[i]).Some?
    ensures var got := ReadMany(z, Concat(Frames(z, ss)) + rest, maxSize, |ss| + 1).0;
      |got| == |ss| + 1 && (got[|ss|].Panicked? <==> ShortSize(rest, maxSize))
  {
    FramesReadInOrder(z, ss, rest, maxSize);
    ReadsPanicIff(z, Concat(Frames(z, ss)) + rest, maxSize, |ss| + 1, |ss|);
  }
}
