/**
  Two's-complement 32-bit `int` arithmetic, as the C++ `int` accumulator of
  `std::inner_product` performs it, and the fold that `inner_product` computes.
  Every `+` and `*` on `int` is modelled as wrapping modulo 2^32.
 */
module Wrapping {

  const TWO_31: int := 0x8000_0000
  const TWO_32: int := 0x1_0000_0000

  /** The values of a C++ `int`. */
  type Int32 = x: int | -0x8000_0000 <= x < 0x8000_0000

  /** Reduces an unbounded integer to the `int` it wraps around to. */
  function Wrap32(x: int): (r: Int32)
    ensures (x - r) % TWO_32 == 0
    ensures -TWO_31 <= x < TWO_31 ==> r == x
  {
    (x + TWO_31) % TWO_32 - TWO_31
  }

  /** `a + b` on `int`. */
  function Add32(a: Int32, b: Int32): Int32
  {
    Wrap32(a + b)
  }

  /** `a * b` on `int`. */
  function Mul32(a: Int32, b: Int32): Int32
  {
    Wrap32(a * b)
  }

  /** Two integers congruent modulo 2^32 wrap to the same `int`. */
  lemma WrapCongruent(x: int, y: int)
    requires (x - y) % TWO_32 == 0
    ensures Wrap32(x) == Wrap32(y)
  {
    var q := (x - y) / TWO_32;
    assert x - y == q * TWO_32;
    var e := (y + TWO_31) / TWO_32;
    var m := (y + TWO_31) % TWO_32;
    assert y + TWO_31 == e * TWO_32 + m;
    assert x + TWO_31 == (e + q) * TWO_32 + m;
    ModUnique(x + TWO_31, e + q, m);
  }

  /** Euclidean remainder is determined by any quotient/remainder split. */
  lemma ModUnique(z: int, e: int, m: int)
    requires 0 <= m < TWO_32
    requires z == e * TWO_32 + m
    ensures z % TWO_32 == m
  {
  }

  /** Wrapping the operands of an addition first does not change the wrapped sum. */
  lemma WrapAdd(x: int, y: int)
    ensures Wrap32(Wrap32(x) + Wrap32(y)) == Wrap32(x + y)
  {
    var u := x - Wrap32(x);
    var v := y - Wrap32(y);
    assert u == (u / TWO_32) * TWO_32;
    assert v == (v / TWO_32) * TWO_32;
    assert (x + y) - (Wrap32(x) + Wrap32(y)) == (u / TWO_32 + v / TWO_32) * TWO_32;
    WrapCongruent(x + y, Wrap32(x) + Wrap32(y));
  }

  /** The unbounded inner product of `a` with the first `|a|` entries of `b`. */
  function Dot(a: seq<int>, b: seq<int>): int
    requires |a| <= |b|
  {
    if |a| == 0 then 0 else Dot(a[..|a| - 1], b) + a[|a| - 1] * b[|a| - 1]
  }

  /** The unbounded sum of a sequence. */
  function Sum(s: seq<int>): int
  {
    if |s| == 0 then 0 else Sum(s[..|s| - 1]) + s[|s| - 1]
  }

  /**
    `std::inner_product(a.begin(), a.end(), b.begin(), 0)` with an `int`
    accumulator: starting from 0, left to right, `acc = acc + a[i] * b[i]`,
    each operation wrapping. The result is the true inner product, wrapped.
   */
  function InnerProduct32(a: seq<Int32>, b: seq<Int32>): (r: Int32)
    requires |a| <= |b|
    ensures r == Wrap32(Dot(a, b))
  {
    if |a| == 0 then 0
    else
      var n := |a| - 1;
      var acc := InnerProduct32(a[..n], b);
      WrapAdd(Dot(a[..n], b), (a[n] as int) * (b[n] as int));
      Add32(acc, Mul32(a[n], b[n]))
  }

  /** A sequence of `n` copies of `p`. */
  function Repeat(p: int, n: nat): (s: seq<int>)
    ensures |s| == n
  {
    seq(n, _ => p)
  }

  /** The inner product of `n` copies of `p` with `b` is `p` times the sum of `b`'s first `n` entries. */
  lemma {:induction false} DotRepeat(p: int, b: seq<int>, n: nat)
    requires n <= |b|
    ensures Dot(Repeat(p, n), b) == p * Sum(b[..n])
  {
    if n > 0 {
      DotRepeat(p, b, n - 1);
      assert Repeat(p, n)[..n - 1] == Repeat(p, n - 1);
      assert b[..n][..n - 1] == b[..n - 1];
      assert p * Sum(b[..n]) == p * Sum(b[..n - 1]) + p * b[n - 1];
    }
  }
}
