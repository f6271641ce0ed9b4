/** Machine-level vocabulary shared by the whole model: bytes, 32-bit unsigned
    integers, Go strings as byte sequences, and fixed-width little-endian numbers. */
module Machine {
  const U16 := 0x1_0000
  const U32 := 0x1_0000_0000

  type byte = x: int | 0 <= x < 256
  type uint16 = x: int | 0 <= x < U16
  type uint32 = x: int | 0 <= x < U32

  /** A Go string or byte slice. */
  type Bytes = seq<byte>

  datatype Option<+T> = None | Some(value: T)

  /** Go's uint32 arithmetic: reduce an integer to 32 bits. */
  function Wrap32(x: int): (r: uint32)
    ensures 0 <= x < U32 ==> r == x
  {
    x % U32
  }

  /** binary.LittleEndian over `width` bytes: the low `width` bytes of n. */
  function ToLE(n: nat, width: nat): (b: Bytes)
    ensures |b| == width
  {
    if width == 0 then [] else [n % 256] + ToLE(n / 256, width - 1)
  }

  function FromLE(b: Bytes): nat
  {
    if b == [] then 0 else b[0] + 256 * FromLE(b[1..])
  }

  function Pow256(k: nat): (p: nat)
    ensures p > 0
  {
    if k == 0 then 1 else 256 * Pow256(k - 1)
  }

  /** Reading back a number truncates it to the width written. */
  lemma {:induction false} FromToLE(n: nat, width: nat)
    ensures FromLE(ToLE(n, width)) == n % Pow256(width)
  {
    if width > 0 {
      FromToLE(n / 256, width - 1);
      assert ToLE(n, width)[1..] == ToLE(n / 256, width - 1);
      ModSplit(n, Pow256(width - 1));
    }
  }

  lemma ModSplit(n: nat, p: nat)
    requires p > 0
    ensures n % 256 + 256 * ((n / 256) % p) == n % (256 * p)
  {
    var q, r := n / 256, n % 256;
    var q1, r1 := q / p, q % p;
    assert q == q1 * p + r1;
    assert n == 256 * q + r;
    assert n == (256 * p) * q1 + (256 * r1 + r) by {
      assert 256 * (q1 * p) == (256 * p) * q1;
    }
    assert 0 <= 256 * r1 + r < 256 * p;
    ModUnique(n, 256 * p, q1, 256 * r1 + r);
  }

  lemma AtLeastOnce(m: int, k: int)
    requires m > 0 && k >= 1
    ensures m * k >= m
  {
    assert m * (k - 1) >= 0;
  }

  lemma ModUnique(n: int, m: int, q: int, r: int)
    requires m > 0 && 0 <= r < m && n == m * q + r
    ensures n % m == r && n / m == q
  {
    var q', r' := n / m, n % m;
    assert n == m * q' + r';
    Distribute(m, q, q');
    Distribute(m, q', q);
    if q > q' {
      AtLeastOnce(m, q - q');
    } else if q < q' {
      AtLeastOnce(m, q' - q);
    }
  }

  lemma Distribute(m: int, a: int, b: int)
    ensures m * (a - b) == m * a - m * b
  {
  }

  lemma {:induction false} FromLEBound(b: Bytes)
    ensures FromLE(b) < Pow256(|b|)
  {
    if b != [] { FromLEBound(b[1..]); }
  }

  lemma Widths()
    ensures Pow256(0) == 1 && Pow256(1) == 256 && Pow256(2) == U16 && Pow256(4) == U32
  {
    assert Pow256(2) == 256 * Pow256(1);
    assert Pow256(3) == 256 * Pow256(2);
    assert Pow256(4) == 256 * Pow256(3);
  }

  /** Writing back a number that was read gives the same bytes. */
  lemma {:induction false} ToFromLE(b: Bytes)
    ensures ToLE(FromLE(b), |b|) == b
  {
    if b != [] {
      ToFromLE(b[1..]);
      var rest := FromLE(b[1..]);
      assert (b[0] + 256 * rest) / 256 == rest && (b[0] + 256 * rest) % 256 == b[0];
      assert b == [b[0]] + b[1..];
    }
  }

  /** The text that bytes spell, one character a byte. */
  function Spell(b: Bytes): (s: string)
    ensures |s| == |b|
  {
    seq(|b|, i requires 0 <= i < |b| => b[i] as char)
  }
}
