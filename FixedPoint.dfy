/**
 * Integer and fixed-point primitives used by the lens-correction filter:
 * the Q-format constants of its arithmetic, the C conversions it relies on
 * (arithmetic right shift, truncating casts, narrowing stores), the
 * `av_clip_uintp2` clip and the `AV_CEIL_RSHIFT` macro, with the small
 * multiplication facts the bounds proofs need.
 */
module FixedPoint {

  // Q24: a radius multiplier of 1.0, and the rounding constants around it
  const Q24: int := 0x100_0000            // 1 << 24
  const HALF24: int := 0x80_0000          // 1 << 23
  const MAX24: int := 0xFF_FFFF           // (1 << 24) - 1

  // constants of the correction-table arithmetic
  const TWO27: int := 0x800_0000          // 1 << 27
  const TWO28: int := 0x1000_0000         // 1 << 28
  const TWO30: int := 0x4000_0000         // 1 << 30
  const TWO31: int := 0x8000_0000         // 1LL << 31
  const TWO32: int := 0x1_0000_0000       // 1LL << 32
  const TWO52: int := 0x10_0000_0000_0000 // 1LL << 52
  const TWO62: int := 0x4000_0000_0000_0000 // 4LL << 60

  // constants of the bilinear blend
  const TWO47: int := 0x8000_0000_0000    // 1ULL << 47
  const TWO48: int := 0x1_0000_0000_0000  // 48-bit fraction of a product of two Q24 weights

  // C integer ranges
  const INT_MIN: int := -0x8000_0000
  const INT_MAX: int := 0x7FFF_FFFF
  const TWO63: int := 0x8000_0000_0000_0000
  const TWO64: int := 0x1_0000_0000_0000_0000

  predicate InInt32(x: int) { INT_MIN <= x <= INT_MAX }
  predicate InInt64(x: int) { -TWO63 <= x < TWO63 }

  function Pow2(n: nat): (r: nat)
    ensures r >= 1
  {
    if n == 0 then 1 else 2 * Pow2(n - 1)
  }

  lemma {:induction false} Pow2Add(a: nat, b: nat)
    ensures Pow2(a + b) == Pow2(a) * Pow2(b)
  {
    if a > 0 {
      Pow2Add(a - 1, b);
      assert Pow2(a + b) == 2 * Pow2(a - 1 + b);
    }
  }

  lemma {:induction false} Pow2Monotone(a: nat, b: nat)
    requires a <= b
    ensures Pow2(a) <= Pow2(b)
  {
    if a < b {
      Pow2Monotone(a, b - 1);
    }
  }

  lemma Pow2Values()
    ensures Pow2(8) == 0x100 && Pow2(16) == 0x1_0000
  {
    assert Pow2(4) == 16;
    Pow2Add(4, 4);
    Pow2Add(8, 8);
  }

  lemma Pow2AtMost16(n: nat)
    requires n <= 16
    ensures Pow2(n) <= Pow2(16) == 0x1_0000
  {
    Pow2Monotone(n, 16);
    Pow2Values();
  }

  /**
   * `av_clip_uintp2_c(a, p)`: a negative `a` becomes 0, one with a bit set at
   * or above bit `p` becomes `2^p - 1`, anything else is returned as it is.
   */
  function ClipUintP2(a: int, p: nat): (r: int)
    ensures 0 <= r < Pow2(p)
    ensures 0 <= a < Pow2(p) ==> r == a
    ensures a < 0 ==> r == 0
    ensures a >= Pow2(p) ==> r == Pow2(p) - 1
  {
    if a < 0 then 0 else if a >= Pow2(p) then Pow2(p) - 1 else a
  }

  /**
   * Storing an `int` into a `uint8_t` / `uint16_t` sample: C keeps the value
   * modulo `2^bits`.
   */
  function Store(v: int, bits: nat): (r: int)
    ensures 0 <= r < Pow2(bits)
    ensures 0 <= v < Pow2(bits) ==> r == v
  {
    ModOfSmall(v, Pow2(bits));
    v % Pow2(bits)
  }

  lemma ModOfSmall(v: int, d: int)
    requires 0 < d
    ensures 0 <= v < d ==> v % d == v
  {
    if 0 <= v < d {
      var q := v / d;
      assert v == d * q + v % d;
      if q >= 1 { MulLe(1, q, d); }
      if q <= -1 { MulLe(q, -1, d); }
    }
  }

  /**
   * `AV_CEIL_RSHIFT(a, b)` in its non-constant form `-((-a) >> b)`; C's `>>`
   * on a negative value is an arithmetic shift, a floor division by `2^b`.
   * The result is the ceiling of `a / 2^b`.
   */
  function CeilRshift(a: int, b: nat): (r: int)
    ensures (r - 1) * Pow2(b) < a <= r * Pow2(b)
    ensures a > 0 ==> 1 <= r <= a
  {
    CeilDivBounds(a, Pow2(b));
    -((-a) / Pow2(b))
  }

  /** `-((-a) / d)` is the ceiling of `a / d`. */
  lemma CeilDivBounds(a: int, d: int)
    requires 0 < d
    ensures var r := -((-a) / d);
      (r - 1) * d < a <= r * d && (a > 0 ==> 1 <= r <= a)
  {
    var r := -((-a) / d);
    assert a == r * d - (-a) % d;
    if a > 0 {
      if r < 1 {
        MulLe(r, 0, d);
      }
      MulLe(1, d, r - 1);
    }
  }

  /** A C cast from `double` to `int`: truncation toward zero. */
  function TruncToInt(x: real): (r: int)
    ensures x >= 0.0 ==> r as real <= x < r as real + 1.0
    ensures x < 0.0 ==> r as real - 1.0 < x <= r as real
  {
    if x >= 0.0 then x.Floor else -((-x).Floor)
  }

  // ---- multiplication facts for the bound proofs ----

  lemma MulNonnegative(a: int, b: int)
    requires 0 <= a && 0 <= b
    ensures 0 <= a * b
  {
  }

  lemma MulLe(a: int, b: int, c: int)
    requires a <= b && 0 <= c
    ensures a * c <= b * c
  {
    MulNonnegative(b - a, c);
    assert (b - a) * c == b * c - a * c;
  }

  lemma MulAbsLe(a: int, bound1: int, b: int, bound2: int)
    requires -bound1 <= a <= bound1 && -bound2 <= b <= bound2
    ensures -(bound1 * bound2) <= a * b <= bound1 * bound2
  {
    if a >= 0 && b >= 0 {
      MulLe(a, bound1, b);
      MulLe(b, bound2, bound1);
    } else if a >= 0 {
      MulLe(a, bound1, -b);
      MulLe(-b, bound2, bound1);
    } else if b >= 0 {
      MulLe(-a, bound1, b);
      MulLe(b, bound2, bound1);
    } else {
      MulLe(-a, bound1, -b);
      MulLe(-b, bound2, bound1);
    }
  }

  lemma SquareLe(a: int, b: int)
    requires -b <= a <= b
    ensures 0 <= a * a <= b * b
  {
    MulAbsLe(a, b, a, b);
    if a < 0 { MulNonnegative(-a, -a); } else { MulNonnegative(a, a); }
  }
}
