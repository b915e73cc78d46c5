/**
  Bytes and fixed-width machine integers.

  Go's `int` and `int64` are 64-bit two's-complement words and `int32` a
  32-bit one. The header that `common/common.go` puts in front of every
  message is two such words; this module gives them an explicit
  little-endian layout and the two's-complement wrap-around that Go's
  arithmetic and conversions perform.
*/
module Bytes {

  type byte = b: int | 0 <= b < 256

  /** The values of Go's `int64` (and of `int` on a 64-bit platform). */
  type Int64 = x: int | -0x8000_0000_0000_0000 <= x < 0x8000_0000_0000_0000

  /** The values of Go's `int32`. */
  type Int32 = x: int | -0x8000_0000 <= x < 0x8000_0000

  const MaxInt64: int := 0x7FFF_FFFF_FFFF_FFFF

  function Pow256(k: nat): (r: nat)
    ensures r >= 1
    ensures k > 0 ==> r % 2 == 0
  {
    if k == 0 then 1 else 256 * Pow256(k - 1)
  }

  /** True when x fits in a signed word of k bytes. */
  predicate FitsSigned(x: int, k: nat)
  {
    0 < k && -(Pow256(k) / 2) <= x < Pow256(k) / 2
  }

  lemma Int64Fits(x: Int64)
    ensures FitsSigned(x, 8)
  {
    assert Pow256(8) == 0x1_0000_0000_0000_0000;
  }

  lemma Int32Fits(x: Int32)
    ensures FitsSigned(x, 4)
  {
    assert Pow256(4) == 0x1_0000_0000;
  }

  /** The k least significant bytes of n, least significant first. */
  function ToLittleEndian(n: nat, k: nat): (r: seq<byte>)
    requires n < Pow256(k)
    ensures |r| == k
  {
    if k == 0 then []
    else
      assert n / 256 < Pow256(k - 1);
      [(n % 256) as byte] + ToLittleEndian(n / 256, k - 1)
  }

  /** The unsigned value of a little-endian byte string. */
  function FromLittleEndian(b: seq<byte>): (n: nat)
    ensures n < Pow256(|b|)
  {
    if b == [] then 0 else b[0] + 256 * FromLittleEndian(b[1..])
  }

  lemma {:induction false} FromToLittleEndian(n: nat, k: nat)
    requires n < Pow256(k)
    ensures FromLittleEndian(ToLittleEndian(n, k)) == n
  {
    if k > 0 {
      var r := ToLittleEndian(n, k);
      assert r[1..] == ToLittleEndian(n / 256, k - 1);
      FromToLittleEndian(n / 256, k - 1);
    }
  }

  lemma {:induction false} ToFromLittleEndian(b: seq<byte>)
    ensures ToLittleEndian(FromLittleEndian(b), |b|) == b
  {
    if b != [] {
      var n := FromLittleEndian(b);
      assert n % 256 == b[0] && n / 256 == FromLittleEndian(b[1..]);
      ToFromLittleEndian(b[1..]);
    }
  }

  /** Two's-complement little-endian encoding of x in k bytes. */
  function EncodeSigned(x: int, k: nat): (r: seq<byte>)
    requires FitsSigned(x, k)
    ensures |r| == k
  {
    ToLittleEndian(if x < 0 then x + Pow256(k) else x, k)
  }

  /** Two's-complement reading of a little-endian byte string. */
  function DecodeSigned(b: seq<byte>): (x: int)
    requires |b| > 0
    ensures FitsSigned(x, |b|)
  {
    var n := FromLittleEndian(b);
    if n < Pow256(|b|) / 2 then n else n - Pow256(|b|)
  }

  lemma SignedRoundTrip(x: int, k: nat)
    requires FitsSigned(x, k)
    ensures DecodeSigned(EncodeSigned(x, k)) == x
  {
    FromToLittleEndian(if x < 0 then x + Pow256(k) else x, k);
  }

  lemma SignedInverse(b: seq<byte>)
    requires |b| > 0
    ensures EncodeSigned(DecodeSigned(b), |b|) == b
  {
    ToFromLittleEndian(b);
  }

  /** The last byte of a little-endian string is its most significant one. */
  lemma {:induction false} TopByte(b: seq<byte>)
    requires |b| > 0
    ensures FromLittleEndian(b) == FromLittleEndian(b[..|b| - 1]) + Pow256(|b| - 1) * b[|b| - 1]
  {
    if |b| > 1 {
      var t, init := b[1..], b[..|b| - 1];
      TopByte(t);
      assert t[..|t| - 1] == init[1..] && init[0] == b[0];
      var lo, p := FromLittleEndian(init[1..]), Pow256(|t| - 1);
      assert FromLittleEndian(t) == lo + p * b[|b| - 1];
      assert FromLittleEndian(init) == b[0] + 256 * lo;
      assert Pow256(|b| - 1) == 256 * p;
      ShiftDigit(b[0], lo, p, b[|b| - 1]);
    } else {
      assert b[..0] == [] && b[1..] == [];
    }
  }

  lemma ShiftDigit(x: int, lo: int, p: int, c: int)
    ensures x + 256 * (lo + p * c) == (x + 256 * lo) + (256 * p) * c
  {
  }

  /** With `low` below `p`, the number `low + p * c` reaches `128 * p` exactly when the digit c does 128. */
  lemma TopDigitHalf(low: int, p: int, c: int)
    requires 0 <= low < p && 0 <= c
    ensures low + p * c >= 128 * p <==> c >= 128
  {
    if c >= 128 {
      var d := c - 128;
      assert p * c == p * 128 + p * d;
    } else {
      var d := 127 - c;
      assert p * 127 == p * c + p * d;
    }
  }

  /** A two's-complement reading is negative exactly when the top bit of its last byte is set. */
  lemma SignBit(b: seq<byte>)
    requires |b| > 0
    ensures DecodeSigned(b) < 0 <==> b[|b| - 1] >= 128
  {
    var p := Pow256(|b| - 1);
    TopByte(b);
    assert Pow256(|b|) == 256 * p;
    TopDigitHalf(FromLittleEndian(b[..|b| - 1]), p, b[|b| - 1]);
  }

  /** The result of Go's int64 arithmetic: x wrapped into a 64-bit word. */
  function Wrap64(x: int): (r: Int64)
    ensures r % 0x1_0000_0000_0000_0000 == x % 0x1_0000_0000_0000_0000
    ensures -0x8000_0000_0000_0000 <= x <= MaxInt64 ==> r == x
  {
    var m := x % 0x1_0000_0000_0000_0000;
    if m < 0x8000_0000_0000_0000 then m else m - 0x1_0000_0000_0000_0000
  }

  /** Go's `int32(x)` conversion: x wrapped into a 32-bit word. */
  function Wrap32(x: int): (r: Int32)
    ensures r % 0x1_0000_0000 == x % 0x1_0000_0000
    ensures -0x8000_0000 <= x < 0x8000_0000 ==> r == x
  {
    var m := x % 0x1_0000_0000;
    if m < 0x8000_0000 then m else m - 0x1_0000_0000
  }
}
