/** The room tag in closed form: where each column lies in the text that is summed, and
    what the two halves of the sum are. */
module AdlerLaws {
  import opened Machine
  import opened ControlSum

  // ---- The text: the columns end to end, in order ----

  /** The length of the first i columns together. */
  function Offset(row: Row, i: nat): (n: nat)
    requires i <= |row|
  {
    if i == 0 then 0 else Offset(row, i - 1) + |row[i - 1]|
  }

  lemma {:induction false} OffsetTail(row: Row, i: nat)
    requires 0 < i <= |row|
    ensures Offset(row, i) == |row[0]| + Offset(row[1..], i - 1)
  {
    if i > 1 { OffsetTail(row, i - 1); }
  }

  lemma {:induction false} FlattenLength(row: Row)
    ensures |Flatten(row)| == Offset(row, |row|)
  {
    if row != [] {
      FlattenLength(row[1..]);
      OffsetTail(row, |row|);
    }
  }

  lemma SliceBehind(a: Bytes, b: Bytes, i: nat, n: nat)
    requires i + n <= |b|
    ensures (a + b)[|a| + i..|a| + i + n] == b[i..i + n]
  {
  }

  /** Column i lies behind the columns before it. */
  lemma {:induction false} FlattenAt(row: Row, i: nat)
    requires i < |row|
    ensures Offset(row, i) + |row[i]| <= |Flatten(row)|
    ensures Flatten(row)[Offset(row, i)..Offset(row, i) + |row[i]|] == row[i]
  {
    if i > 0 {
      FlattenAt(row[1..], i - 1);
      OffsetTail(row, i);
      SliceBehind(row[0], Flatten(row[1..]), Offset(row[1..], i - 1), |row[i]|);
    }
  }

  // ---- The sum ----

  /** The sum of (|s| - i) * s[i]. */
  function Weighted(s: Bytes): nat
  {
    if s == [] then 0 else |s| * s[0] + Weighted(s[1..])
  }

  lemma ByteSumHead(s: Bytes)
    requires s != []
    ensures ByteSum(s) == s[0] + ByteSum(s[1..])
  {
    ByteSumConcat([s[0]], s[1..]);
    assert [s[0]] + s[1..] == s;
    assert ByteSum([s[0]]) == s[0] by { assert [s[0]][..0] == []; }
  }

  lemma {:induction false} WeightedSnoc(s: Bytes, x: byte)
    ensures Weighted(s + [x]) == Weighted(s) + ByteSum(s) + x
  {
    if s == [] {
      assert s + [x] == [x];
    } else {
      WeightedSnoc(s[1..], x);
      ByteSumHead(s);
      assert (s + [x])[1..] == s[1..] + [x];
      assert (|s| + 1) * s[0] == |s| * s[0] + s[0];
    }
  }

  lemma AddMods(a: nat, b: nat)
    ensures (a % MOD + b % MOD) % MOD == (a + b) % MOD
  {
    var c := a % MOD + b % MOD;
    assert a + b == MOD * (a / MOD + b / MOD + c / MOD) + c % MOD;
    ModUnique(a + b, MOD, a / MOD + b / MOD + c / MOD, c % MOD);
  }

  lemma {:induction false} S2IsWeighted(s: Bytes)
    ensures S2(s) == (|s| + Weighted(s)) % MOD
  {
    if s != [] {
      var before, x := s[..|s| - 1], s[|s| - 1];
      S2IsWeighted(before);
      S1IsByteSum(s);
      assert s == before + [x];
      WeightedSnoc(before, x);
      AddMods(|before| + Weighted(before), 1 + ByteSum(s));
    }
  }

  /** The high half weighs every byte by its distance from the end, the low half does not. */
  lemma AdlerIs(s: Bytes)
    ensures Adler32(s) / 65536 == (|s| + Weighted(s)) % MOD
    ensures Adler32(s) % 65536 == (1 + ByteSum(s)) % MOD
  {
    S1IsByteSum(s);
    S2IsWeighted(s);
  }

  lemma SumsOfAbc()
    ensures ByteSum([97, 98, 99]) == 294 && Weighted([97, 98, 99]) == 586
  {
    assert [97, 98, 99][1..] == [98, 99] && [98, 99][1..] == [99];
    ByteSumHead([97, 98, 99]);
    ByteSumHead([98, 99]);
    ByteSumHead([99]);
    assert Weighted([99]) == 99;
    assert Weighted([98, 99]) == 295;
  }

  lemma FlattenTwo(a: Bytes, b: Bytes)
    ensures Flatten([a, b]) == a + b
  {
    assert [a, b][1..] == [b] && [b][1..] == [];
    assert Flatten([b]) == b + Flatten([]);
  }

  lemma FromSums(s: Bytes)
    requires |s| == 3 && ByteSum(s) == 294 && Weighted(s) == 586
    ensures Adler32(s) == 0x024d0127
  {
    AdlerIs(s);
  }

  /** The sum of "abc", cut into the columns "a" and "bc", is 0x024d0127. */
  lemma AdlerOfAbc()
    ensures RowSum([[97], [98, 99]]) == 0x024d0127
  {
    var a: Bytes, b: Bytes := [97], [98, 99];
    FlattenTwo(a, b);
    SumsOfAbc();
    assert a + b == [97, 98, 99];
    FromSums(a + b);
  }
}
