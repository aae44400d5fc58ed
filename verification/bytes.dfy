/**
 Bytes and the fixed-width unsigned integers of the C interface, and the
 little-endian decoding that a cast of raw memory to a Mach-O structure
 performs on the architectures the loader runs on.
 */
module Bytes {

  type Byte = x: int | 0 <= x < 0x100
  type uint32 = x: int | 0 <= x < 0x1_0000_0000
  type uint64 = x: int | 0 <= x < 0x1_0000_0000_0000_0000

  const MaxUint32: int := 0xFFFF_FFFF

  /** 256 to the power n: one more than the largest value n bytes can hold. */
  function Pow256(n: nat): (p: nat)
    ensures p >= 1
  {
    if n == 0 then 1 else 0x100 * Pow256(n - 1)
  }

  lemma {:induction false} Pow256Widths()
    ensures Pow256(4) == 0x1_0000_0000
    ensures Pow256(8) == 0x1_0000_0000_0000_0000
  {
    assert Pow256(2) == 0x1_0000;
    assert Pow256(4) == 0x1_0000 * Pow256(2);
    assert Pow256(6) == 0x1_0000 * Pow256(4);
    assert Pow256(8) == 0x1_0000 * Pow256(6);
  }

  /** The unsigned value of bs read least significant byte first. */
  function FromLE(bs: seq<Byte>): (v: nat)
    ensures v < Pow256(|bs|)
  {
    if bs == [] then 0 else bs[0] + 0x100 * FromLE(bs[1..])
  }

  /** The n-byte little-endian encoding of x, truncated to n bytes. */
  function ToLE(x: nat, n: nat): (bs: seq<Byte>)
    ensures |bs| == n
  {
    if n == 0 then [] else [x % 0x100] + ToLE(x / 0x100, n - 1)
  }

  lemma {:induction false} ModUnique(x: int, m: int, q: int, r: int)
    requires m > 0 && 0 <= r < m && x == q * m + r
    ensures x % m == r
  {
    var q', r' := x / m, x % m;
    assert (q - q') * m == r' - r;
    if q > q' {
      MulAtLeast(q - q', m);
    } else if q < q' {
      MulAtLeast(q' - q, m);
    }
  }

  lemma {:induction false} MulAtLeast(a: int, m: int)
    requires a >= 1 && m > 0
    ensures a * m >= m
  {
    assert a * m == m + (a - 1) * m;
  }

  /** Splitting off the low byte of x commutes with reducing x modulo 256 * p. */
  lemma {:induction false} ModSplitLowByte(x: nat, p: nat)
    requires p > 0
    ensures x % (0x100 * p) == 0x100 * ((x / 0x100) % p) + x % 0x100
  {
    var q, r := x / 0x100, x % 0x100;
    var a, b := q / p, q % p;
    assert q == a * p + b;
    assert 0x100 * q == a * (0x100 * p) + 0x100 * b;
    assert 0x100 * b + r < 0x100 * p;
    ModUnique(x, 0x100 * p, a, 0x100 * b + r);
  }

  /** Decoding an encoding gives back the value, reduced to the width. */
  lemma {:induction false} FromLEToLE(x: nat, n: nat)
    ensures FromLE(ToLE(x, n)) == x % Pow256(n)
  {
    if n > 0 {
      var bs := ToLE(x, n);
      assert bs[1..] == ToLE(x / 0x100, n - 1);
      FromLEToLE(x / 0x100, n - 1);
      ModSplitLowByte(x, Pow256(n - 1));
    }
  }

  /** Encoding a decoded byte string gives back the bytes. */
  lemma {:induction false} ToLEFromLE(bs: seq<Byte>)
    ensures ToLE(FromLE(bs), |bs|) == bs
  {
    if bs != [] {
      var v := FromLE(bs);
      assert v % 0x100 == bs[0] && v / 0x100 == FromLE(bs[1..]);
      ToLEFromLE(bs[1..]);
    }
  }
}
