/*
 * Integer helpers of the tracer (auxiliary.h.cs).
 *
 * The source is C#: `int` is 32 bits wide and wraps around in unchecked
 * arithmetic, and `/` and `%` truncate toward zero. Dafny's integers are
 * unbounded and its `/` and `%` are Euclidean, so both are spelled out here
 * (Wrap32, CsDiv, CsRem) and the helpers are stated against Dafny's own
 * operators.
 */
module Auxiliary {

  const MinInt32: int := -0x8000_0000
  const MaxInt32: int := 0x7FFF_FFFF

  predicate IsInt32(x: int) { MinInt32 <= x <= MaxInt32 }

  /** Two's-complement truncation of an integer to 32 bits (C#'s unchecked int arithmetic). */
  function Wrap32(x: int): (r: int)
    ensures IsInt32(r)
    ensures (r - x) % 0x1_0000_0000 == 0
    ensures IsInt32(x) ==> r == x
  {
    (x - MinInt32) % 0x1_0000_0000 + MinInt32
  }

  const MinInt64: int := -0x8000_0000_0000_0000
  const MaxInt64: int := 0x7FFF_FFFF_FFFF_FFFF

  predicate IsInt64(x: int) { MinInt64 <= x <= MaxInt64 }

  /** Two's-complement truncation of an integer to 64 bits (C#'s unchecked long arithmetic). */
  function Wrap64(x: int): (r: int)
    ensures IsInt64(r)
    ensures (r - x) % 0x1_0000_0000_0000_0000 == 0
    ensures IsInt64(x) ==> r == x
  {
    (x - MinInt64) % 0x1_0000_0000_0000_0000 + MinInt64
  }

  /**
   * `a + b` on two `int`s: the exact sum, less or plus 2^32 when it leaves
   * the 32-bit range (for two `int` operands it leaves it by less than 2^32).
   */
  function Add32(a: int, b: int): (r: int)
    ensures IsInt32(a) && IsInt32(b) ==> IsInt32(r)
    ensures IsInt32(a + b) ==> r == a + b
  {
    var s := a + b;
    if s > MaxInt32 then s - 0x1_0000_0000 else if s < MinInt32 then s + 0x1_0000_0000 else s
  }

  /** Add32 is the two's-complement sum. */
  lemma Add32Wraps(a: int, b: int)
    requires IsInt32(a) && IsInt32(b)
    ensures Add32(a, b) == Wrap32(a + b)
  {
  }

  /** `a + b` on two `long`s, in the same way. */
  function Add64(a: int, b: int): (r: int)
    ensures IsInt64(a) && IsInt64(b) ==> IsInt64(r)
    ensures IsInt64(a + b) ==> r == a + b
  {
    var s := a + b;
    if s > MaxInt64 then s - 0x1_0000_0000_0000_0000 else if s < MinInt64 then s + 0x1_0000_0000_0000_0000 else s
  }

  /** Add64 is the two's-complement sum. */
  lemma Add64Wraps(a: int, b: int)
    requires IsInt64(a) && IsInt64(b)
    ensures Add64(a, b) == Wrap64(a + b)
  {
  }

  /** C#'s `a / n`: the quotient truncated toward zero. */
  function CsDiv(a: int, n: int): int
    requires n != 0
  {
    if a >= 0 && n > 0 then a / n
    else if a >= 0 then -(a / -n)
    else if n > 0 then -((-a) / n)
    else (-a) / (-n)
  }

  /** C#'s `a % n`: the remainder of the truncating division, with the sign of `a`. */
  function CsRem(a: int, n: int): int
    requires n != 0
  {
    a - CsDiv(a, n) * n
  }

  /** For a non-negative dividend and a positive divisor C#'s and Dafny's division agree. */
  lemma CsDivNonNeg(a: int, n: int)
    requires a >= 0 && n > 0
    ensures CsDiv(a, n) == a / n && CsRem(a, n) == a % n
  {
  }

  /** Euclidean division is determined by quotient and remainder. */
  lemma DivUnique(a: int, n: int, q: int, r: int)
    requires n > 0 && 0 <= r < n && a == q * n + r
    ensures a / n == q && a % n == r
  {
    var k := a / n - q;
    assert k * n == r - a % n;
    ZeroMultiple(k, n, r - a % n);
  }

  lemma ZeroMultiple(k: int, n: int, d: int)
    requires n > 0 && -n < d < n && k * n == d
    ensures k == 0
  {
    assert k >= 1 ==> k * n >= n;
    assert k <= -1 ==> k * n <= -n;
  }

  /**
   * `mod(a, n)`: the remainder of `a` modulo `n` in [0, n), also for negative `a`
   * (auxiliary.h.cs: the short-cut `a >= n ? a % n` and the negative branch
   * `n-1-(-1-a)%n`).
   */
  function Mod(a: int, n: int): (r: int)
    requires n > 0
    ensures 0 <= r < n
    ensures r == a % n
  {
    // both `%` below have non-negative operands, where C# and Dafny agree (CsDivNonNeg)
    if a >= n then a % n
    else if a >= 0 then DivUnique(a, n, 0, a); a
    else ModNegative(a, n); n - 1 - (-1 - a) % n
  }

  lemma ModNegative(a: int, n: int)
    requires n > 0 && a < 0
    ensures a % n == n - 1 - (-1 - a) % n
    ensures a / n == -1 - (-1 - a) / n
  {
    var q, r := (-1 - a) / n, (-1 - a) % n;
    assert -1 - a == q * n + r;
    DivUnique(a, n, -1 - q, n - 1 - r);
  }

  /**
   * `floordiv(a, n)`: the source computes it for any non-zero `n`; for `n > 0`
   * it is the largest integer q with q * n <= a, also for negative `a`.
   */
  function FloorDiv(a: int, n: int): (r: int)
    requires n != 0
    ensures n > 0 ==> r == a / n
    ensures n > 0 ==> r * n <= a < r * n + n
  {
    if a >= 0 then
      CsDiv(a, n)
    else
      if n > 0 then ModNegative(a, n); -1 - CsDiv(-1 - a, n)
      else -1 - CsDiv(-1 - a, n)
  }

  /** `sign(x)`: one of -1, 0, 1, zero exactly for zero and agreeing with `x` in sign. */
  function Sign(x: int): (r: int)
    ensures -1 <= r <= 1
    ensures r == 0 <==> x == 0
    ensures (x > 0 ==> r > 0) && (x < 0 ==> r < 0)
  {
    if x > 0 then 1 else if x < 0 then -1 else 0
  }

  /**
   * `abs(a)` on 32-bit ints: `-a` wraps for the least int, so the result is
   * non-negative exactly when `a` is not `int.MinValue`.
   */
  function Abs(a: int): (r: int)
    requires IsInt32(a)
    ensures a != MinInt32 ==> r >= 0 && (r == a || r == -a)
    ensures a == MinInt32 ==> r == MinInt32
  {
    if a > 0 then a else Wrap32(-a)
  }

  /** `min(a, b)`: one of the two arguments, below both. */
  function Min(a: int, b: int): (r: int)
    ensures r == a || r == b
    ensures r <= a && r <= b
  {
    if a < b then a else b
  }

  /** `max(a, b)`: one of the two arguments, above both. */
  function Max(a: int, b: int): (r: int)
    ensures r == a || r == b
    ensures r >= a && r >= b
  {
    if a > b then a else b
  }

  /** `sq(a)` on 32-bit ints: the square whenever it fits, wrapped otherwise. */
  function Sq(a: int): (r: int)
    ensures IsInt32(r)
    ensures IsInt32(a * a) ==> r == a * a && r >= 0
  {
    Wrap32(a * a)
  }

  /** `cu(a)` on 32-bit ints: `(a*a)*a` with each product wrapped; the cube whenever it fits. */
  function Cu(a: int): (r: int)
    ensures IsInt32(r)
    ensures IsInt32(a * a * a) ==> r == a * a * a
  {
    CubeFits(a);
    Wrap32(Wrap32(a * a) * a)
  }

  lemma CubeFits(a: int)
    ensures IsInt32(a * a * a) ==> IsInt32(a * a)
  {
    if a != 0 {
      var s := a * a;
      assert s > 0;
      if a > 0 {
        assert s * a >= s;
      } else {
        assert s * a <= -s;
      }
    }
  }
}
