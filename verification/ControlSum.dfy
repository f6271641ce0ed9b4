/** The room-row control sum: Adler-32 (section 8.2 of RFC 1950) of the concatenated
    columns, computed with the modulo deferred to the end of each 5552-byte chunk. */
module ControlSum {
  import opened Machine

  const MOD := 0xFFF1
  const CHUNK := 5552

  type Row = seq<Bytes>

  /** strings.Join(row, "") */
  function Flatten(row: Row): Bytes
  {
    if row == [] then [] else row[0] + Flatten(row[1..])
  }

  /** RFC 1950: s1 is 1 plus the sum of the bytes, s2 the sum of the s1 values,
      each reduced modulo 65521 at every byte. */
  function S1(s: Bytes): (r: nat)
    ensures r < MOD
  {
    if s == [] then 1 else (S1(s[..|s| - 1]) + s[|s| - 1]) % MOD
  }

  function S2(s: Bytes): (r: nat)
    ensures r < MOD
  {
    if s == [] then 0 else (S2(s[..|s| - 1]) + S1(s)) % MOD
  }

  function Adler32(s: Bytes): (r: uint32)
  {
    S2(s) * 65536 + S1(s)
  }

  function RowSum(row: Row): uint32 { Adler32(Flatten(row)) }

  /** The largest values v1 and v2 can reach n bytes into a chunk. */
  function Peak1(n: nat): nat { MOD - 1 + 255 * n }

  function Peak2(n: nat): nat
  {
    if n == 0 then MOD - 1 else Peak2(n - 1) + Peak1(n)
  }

  lemma {:induction false} Peak2Closed(n: nat)
    ensures Peak2(n) == (MOD - 1) * (n + 1) + 255 * (n * (n + 1)) / 2
  {
    if n > 0 {
      Peak2Closed(n - 1);
      var t := (n - 1) * n;
      assert n * (n + 1) == t + 2 * n;
      assert (255 * (t + 2 * n)) / 2 == (255 * t) / 2 + 255 * n;
    }
  }

  lemma PeakAtLimit()
    ensures Peak2(CHUNK) < U32 <= Peak2(CHUNK + 1)
  {
    Peak2Closed(CHUNK);
    Peak2Closed(CHUNK + 1);
  }

  /** A full chunk cannot overflow 32 bits; 5552 is the largest chunk with that property. */
  lemma {:induction false} ChunkFits(n: nat)
    ensures n <= CHUNK <==> Peak2(n) < U32
  {
    PeakAtLimit();
    if n <= CHUNK { Peak2Monotone(n, CHUNK); } else { Peak2Monotone(CHUNK + 1, n); }
  }

  lemma {:induction false} Peak2Monotone(n: nat, m: nat)
    requires n <= m
    ensures Peak2(n) <= Peak2(m)
    decreases m - n
  {
    if n < m { Peak2Monotone(n, m - 1); }
  }

  /** The accumulators after a chunk, without any reduction. */
  function Run1(v1: nat, s: Bytes): nat
  {
    if s == [] then v1 else Run1(v1, s[..|s| - 1]) + s[|s| - 1]
  }

  function Run2(v1: nat, v2: nat, s: Bytes): nat
  {
    if s == [] then v2 else Run2(v1, v2, s[..|s| - 1]) + Run1(v1, s)
  }

  lemma {:induction false} RunBounded(v1: nat, v2: nat, s: Bytes)
    requires v1 < MOD && v2 < MOD
    ensures Run1(v1, s) <= Peak1(|s|) && Run2(v1, v2, s) <= Peak2(|s|)
  {
    if s != [] { RunBounded(v1, v2, s[..|s| - 1]); }
  }

  function Full(n: nat): (s: Bytes)
    ensures |s| == n
  {
    if n == 0 then [] else Full(n - 1) + [255]
  }

  /** The peaks are reached, by bytes of 255 from the largest reduced accumulators. */
  lemma {:induction false} PeakReached(n: nat)
    ensures Run1(MOD - 1, Full(n)) == Peak1(n) && Run2(MOD - 1, MOD - 1, Full(n)) == Peak2(n)
  {
    if n > 0 {
      assert Full(n)[..n - 1] == Full(n - 1);
      PeakReached(n - 1);
    }
  }

  lemma {:induction false} Peak1BelowPeak2(n: nat)
    ensures Peak1(n) <= Peak2(n)
  {
  }

  ghost predicate FitsFrom(v1: nat, v2: nat, s: Bytes)
  {
    Run1(v1, s) < U32 && Run2(v1, v2, s) < U32
  }

  /** Chunks of n bytes stay within 32 bits, whatever the bytes and the reduced accumulators
      before them, exactly when n is at most 5552. */
  lemma ChunkNeverOverflowsIff(n: nat)
    ensures (forall s: Bytes, v1: nat, v2: nat :: |s| == n && v1 < MOD && v2 < MOD ==> FitsFrom(v1, v2, s))
      <==> n <= CHUNK
  {
    ChunkFits(n);
    Peak1BelowPeak2(n);
    forall s: Bytes, v1: nat, v2: nat | n <= CHUNK && |s| == n && v1 < MOD && v2 < MOD
      ensures FitsFrom(v1, v2, s)
    {
      RunBounded(v1, v2, s);
    }
    PeakReached(n);
    assert n > CHUNK ==> !FitsFrom(MOD - 1, MOD - 1, Full(n));
  }

  /** The deferred modulo agrees with the per-byte one. */
  lemma ModStep(v1: nat, v2: nat, a: nat, b: nat, x: byte)
    requires v1 % MOD == a && v2 % MOD == b
    ensures (v1 + x) % MOD == (a + x) % MOD
    ensures (v2 + (v1 + x)) % MOD == (b + (a + x) % MOD) % MOD
  {
    var k, l := v1 / MOD, v2 / MOD;
    assert v1 == MOD * k + a && v2 == MOD * l + b;
    var j := (a + x) / MOD;
    assert a + x == MOD * j + (a + x) % MOD;
    ModUnique(v1 + x, MOD, k + j, (a + x) % MOD);
    var c := b + (a + x) % MOD;
    assert c == MOD * (c / MOD) + c % MOD;
    ModUnique(v2 + (v1 + x), MOD, l + k + j + c / MOD, c % MOD);
  }

  /** The state of the accumulators j bytes into a chunk that began at i. */
  ghost predicate InChunk(s: Bytes, i: nat, j: nat, v1: nat, v2: nat)
  {
    && i <= j <= |s|
    && v1 <= Peak1(j - i) && v2 <= Peak2(j - i)
    && v1 % MOD == S1(s[..j]) && v2 % MOD == S2(s[..j])
  }

  lemma ChunkStep(s: Bytes, i: nat, j: nat, v1: nat, v2: nat)
    requires InChunk(s, i, j, v1, v2)
    requires j < |s| && j + 1 - i <= CHUNK
    ensures InChunk(s, i, j + 1, v1 + s[j], v2 + v1 + s[j])
    ensures v1 + s[j] < U32 && v2 + v1 + s[j] < U32
  {
    ChunkFits(j + 1 - i);
    ModStep(v1, v2, S1(s[..j]), S2(s[..j]), s[j]);
    assert s[..j + 1][..j] == s[..j];
  }

  lemma ChunkStart(s: Bytes, i: nat, v1: nat, v2: nat)
    requires i <= |s| && v1 == S1(s[..i]) && v2 == S2(s[..i])
    ensures InChunk(s, i, i, v1, v2)
  {
    assert v1 < MOD && v2 < MOD;
  }

  lemma ChunkEnd(s: Bytes, i: nat, j: nat, v1: nat, v2: nat)
    requires InChunk(s, i, j, v1, v2)
    ensures v1 % MOD == S1(s[..j]) && v2 % MOD == S2(s[..j])
  {
  }

  /** controlSum / RoomControlSum. The accumulators are 32-bit: every addition below is
      proved to stay in range, and the two halves of the result do not overlap. */
  method Compute(row: Row) returns (sum: uint32)
    ensures sum == RowSum(row)
  {
    var s := Flatten(row);
    var v1: uint32, v2: uint32 := 1, 0;
    var i := 0;
    while i < |s|
      invariant 0 <= i <= |s|
      invariant v1 == S1(s[..i]) && v2 == S2(s[..i])
    {
      var end := if i + CHUNK > |s| then |s| else i + CHUNK;
      var j := i;
      ChunkStart(s, i, v1, v2);
      while j < end
        invariant i <= j <= end
        invariant InChunk(s, i, j, v1, v2)
      {
        ChunkStep(s, i, j, v1, v2);
        v1 := v1 + s[j];
        v2 := v2 + v1;
        j := j + 1;
      }
      ChunkEnd(s, i, j, v1, v2);
      v1 := v1 % MOD;
      v2 := v2 % MOD;
      i := end;
    }
    assert s[..|s|] == s;
    sum := v2 * 65536 + v1;
  }

  // ---- The byte sum is visible in the low half of the tag ----

  function ByteSum(s: Bytes): nat
  {
    if s == [] then 0 else ByteSum(s[..|s| - 1]) + s[|s| - 1]
  }

  function RowByteSum(row: Row): nat
  {
    if row == [] then 0 else ByteSum(row[0]) + RowByteSum(row[1..])
  }

  lemma {:induction false} ByteSumConcat(a: Bytes, b: Bytes)
    ensures ByteSum(a + b) == ByteSum(a) + ByteSum(b)
  {
    if b == [] {
      assert a + b == a;
    } else {
      assert (a + b)[..|a + b| - 1] == a + b[..|b| - 1];
      ByteSumConcat(a, b[..|b| - 1]);
    }
  }

  lemma {:induction false} FlattenByteSum(row: Row)
    ensures ByteSum(Flatten(row)) == RowByteSum(row)
  {
    if row != [] {
      ByteSumConcat(row[0], Flatten(row[1..]));
      FlattenByteSum(row[1..]);
    }
  }

  lemma {:induction false} S1IsByteSum(s: Bytes)
    ensures S1(s) == (1 + ByteSum(s)) % MOD
  {
    if s != [] {
      S1IsByteSum(s[..|s| - 1]);
      ModStep(1 + ByteSum(s[..|s| - 1]), 0, S1(s[..|s| - 1]), 0, s[|s| - 1]);
    }
  }

  /** Rows whose byte sums differ modulo 65521 have different tags. */
  lemma DifferentByteSums(a: Row, b: Row)
    requires RowByteSum(a) % MOD != RowByteSum(b) % MOD
    ensures RowSum(a) != RowSum(b)
  {
    FlattenByteSum(a);
    FlattenByteSum(b);
    S1IsByteSum(Flatten(a));
    S1IsByteSum(Flatten(b));
    AdlerLow(Flatten(a));
    AdlerLow(Flatten(b));
    if RowSum(a) == RowSum(b) {
      ShiftCongruent(RowByteSum(a), RowByteSum(b));
    }
  }

  lemma AdlerLow(s: Bytes)
    ensures Adler32(s) % 65536 == S1(s)
  {
  }

  lemma ShiftCongruent(x: nat, y: nat)
    requires (1 + x) % MOD == (1 + y) % MOD
    ensures x % MOD == y % MOD
  {
    var k, l := (1 + x) / MOD, (1 + y) / MOD;
    assert x - y == MOD * (k - l);
    ModUnique(x, MOD, y / MOD + k - l, y % MOD);
  }

  /** Replacing one column moves the row's byte sum by the column's difference. */
  lemma {:induction false} ReplaceColumn(row: Row, i: nat, col: Bytes)
    requires i < |row|
    ensures RowByteSum(row[i := col]) == RowByteSum(row) - ByteSum(row[i]) + ByteSum(col)
  {
    var row' := row[i := col];
    if i > 0 {
      assert row'[1..] == row[1..][i - 1 := col];
      ReplaceColumn(row[1..], i - 1, col);
    } else {
      assert row'[1..] == row[1..];
    }
  }
}
