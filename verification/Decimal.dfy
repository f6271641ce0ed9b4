/** fmt.Sprintf("%d") and "%X", and how the byte sum of a decimal numeral moves when
    the number is incremented. */
module Decimal {
  import opened Machine
  import opened ControlSum

  function Digits(n: nat): (d: Bytes)
    ensures |d| > 0
  {
    if n < 10 then [48 + n] else Digits(n / 10) + [48 + n % 10]
  }

  /** "%d" */
  function Itoa(n: int): (d: Bytes)
    ensures |d| > 0
  {
    if n < 0 then [45] + Digits(-n) else Digits(n)
  }

  /** "%X" */
  function HexUpper(n: nat): (d: Bytes)
    ensures |d| > 0
  {
    var low := if n % 16 < 10 then 48 + n % 16 else 55 + n % 16;
    if n < 16 then [low] else HexUpper(n / 16) + [low]
  }

  function Pow10(k: nat): nat { if k == 0 then 1 else 10 * Pow10(k - 1) }

  /** How far the byte sum moves from n's numeral to the next one. */
  function Bump(n: nat): int { ByteSum(Digits(n + 1)) - ByteSum(Digits(n)) }

  lemma SnocSum(a: Bytes, x: byte)
    ensures ByteSum(a + [x]) == ByteSum(a) + x
  {
    assert (a + [x])[..|a|] == a;
  }

  lemma OneDigit(n: nat)
    requires n < 10
    ensures ByteSum(Digits(n)) == 48 + n
  {
    SnocSum([], 48 + n);
    assert Digits(n) == [] + [48 + n];
  }

  lemma ManyDigits(n: nat)
    requires n >= 10
    ensures ByteSum(Digits(n)) == ByteSum(Digits(n / 10)) + 48 + n % 10
  {
    SnocSum(Digits(n / 10), 48 + n % 10);
  }

  lemma BumpNoCarry(n: nat)
    requires n % 10 < 9
    ensures Bump(n) == 1
  {
    if n < 9 {
      OneDigit(n);
      OneDigit(n + 1);
    } else {
      assert (n + 1) / 10 == n / 10 && (n + 1) % 10 == n % 10 + 1;
      ManyDigits(n);
      ManyDigits(n + 1);
    }
  }

  lemma BumpNine()
    ensures Bump(9) == 40
  {
    OneDigit(9);
    OneDigit(1);
    ManyDigits(10);
  }

  lemma BumpCarry(n: nat)
    requires n % 10 == 9 && n > 9
    ensures Bump(n) == Bump(n / 10) - 9
  {
    assert (n + 1) / 10 == n / 10 + 1 && (n + 1) % 10 == 0;
    ManyDigits(n);
    ManyDigits(n + 1);
  }

  /** A carry takes 9 off for every trailing nine and adds 49 when the numeral grows;
      the result is 1 or 4 modulo 9, never 0. */
  lemma {:induction false} BumpShape(n: nat, digits: nat)
    requires n < Pow10(digits)
    ensures Bump(n) % 9 == 1 || Bump(n) % 9 == 4
    ensures -9 * digits <= Bump(n) <= 40
  {
    if n % 10 < 9 {
      BumpNoCarry(n);
    } else if n == 9 {
      BumpNine();
    } else {
      BumpCarry(n);
      TenfoldBound(n, digits);
      BumpShape(n / 10, digits - 1);
      NineLess(Bump(n / 10));
    }
  }

  lemma TenfoldBound(n: nat, digits: nat)
    requires 9 < n < Pow10(digits)
    ensures digits > 0 && n / 10 < Pow10(digits - 1)
  {
  }

  lemma NineLess(x: int)
    ensures (x - 9) % 9 == x % 9
  {
  }

  /** Up to 7280 digits (a Go int has at most 19) the move is never a multiple of 65521. */
  lemma BumpVisible(n: nat, digits: nat)
    requires n < Pow10(digits) && digits <= 7280
    ensures Bump(n) % MOD != 0
  {
    BumpShape(n, digits);
    if Bump(n) < 0 { ModUnique(Bump(n), MOD, -1, Bump(n) + MOD); }
  }

  // ---- Reading numerals back ----

  /** The number a decimal numeral stands for. */
  function ParseNat(d: Bytes): nat
  {
    if d == [] then 0
    else
      var low := d[|d| - 1];
      10 * ParseNat(d[..|d| - 1]) + (if low < 48 then 0 else low - 48)
  }

  lemma {:induction false} ParseDigits(n: nat)
    ensures ParseNat(Digits(n)) == n
  {
    if n < 10 {
      assert Digits(n)[..0] == [];
    } else {
      ParseDigits(n / 10);
      assert Digits(n)[..|Digits(n)| - 1] == Digits(n / 10);
    }
  }

  predicate IsDigit(x: byte) { '0' as int <= x <= '9' as int }

  /** Numerals consist of the digits 0-9 and have no leading zero. */
  lemma {:induction false} DigitsShape(n: nat)
    ensures forall i :: 0 <= i < |Digits(n)| ==> IsDigit(Digits(n)[i])
    ensures n > 0 ==> Digits(n)[0] != '0' as int
    ensures n < 10 ==> |Digits(n)| == 1
  {
    if n >= 10 {
      DigitsShape(n / 10);
      var d := Digits(n);
      forall i | 0 <= i < |d|
        ensures IsDigit(d[i])
      {
        if i < |d| - 1 { assert d[i] == Digits(n / 10)[i]; }
      }
    }
  }

  /** "%d" of a negative number is a minus sign and the numeral of its negation. */
  lemma ItoaReads(n: int)
    ensures if n >= 0 then ParseNat(Itoa(n)) == n
      else Itoa(n)[0] == '-' as int && ParseNat(Itoa(n)[1..]) == -n
  {
    ParseDigits(if n < 0 then -n else n);
  }

  predicate IsUpperHex(x: byte) { IsDigit(x) || 'A' as int <= x <= 'F' as int }

  /** The number an upper-case hexadecimal numeral stands for. */
  function ParseHex(d: Bytes): nat
  {
    if d == [] then 0
    else
      var low := d[|d| - 1];
      16 * ParseHex(d[..|d| - 1]) + (if low < 48 then 0 else if low < 65 then low - 48 else low - 55)
  }

  lemma {:induction false} HexReads(n: nat)
    ensures ParseHex(HexUpper(n)) == n
  {
    var d := HexUpper(n);
    if n < 16 {
      assert d[..0] == [];
    } else {
      HexReads(n / 16);
      assert d[..|d| - 1] == HexUpper(n / 16);
    }
  }

  lemma {:induction false} HexShape(n: nat)
    ensures forall i :: 0 <= i < |HexUpper(n)| ==> IsUpperHex(HexUpper(n)[i])
    ensures n > 0 ==> HexUpper(n)[0] != '0' as int
    ensures n < 16 ==> |HexUpper(n)| == 1
  {
    if n >= 16 {
      HexShape(n / 16);
      var d := HexUpper(n);
      forall i | 0 <= i < |d|
        ensures IsUpperHex(d[i])
      {
        if i < |d| - 1 { assert d[i] == HexUpper(n / 16)[i]; }
      }
    }
  }
}
