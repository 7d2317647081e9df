/**
 * The correction table of one plane: for every pixel a Q24 radius
 * multiplier computed from its squared distance to the pixel centre
 * `(xc, yc)` and the Q24 coefficients `k1`, `k2`. The table of a `w x h`
 * plane has `w * h` entries, entry `(row, col)` at `row * w + col`.
 */
module Correction {
  import opened FixedPoint
  import opened Layout

  /** Plane sizes for which the C `int` expression `w * w + h * h` does not overflow. */
  predicate PlaneSizeOk(w: int, h: int)
  {
    0 < w && 0 < h && w * w + h * h <= INT_MAX
  }

  /** The pixel centre is a fraction in [0, 1] of the plane size, truncated. */
  predicate CenterOk(w: int, h: int, xc: int, yc: int)
  {
    0 <= xc <= w && 0 <= yc <= h
  }

  /** A coefficient in [-1, 1] scaled by 2^24 and truncated. */
  predicate CoefficientOk(k: int)
  {
    -Q24 <= k <= Q24
  }

  predicate TableArgsOk(w: int, h: int, xc: int, yc: int, k1: int, k2: int)
  {
    PlaneSizeOk(w, h) && CenterOk(w, h, xc, yc) && CoefficientOk(k1) && CoefficientOk(k2)
  }

  /** `r2inv = (4LL << 60) / (w * w + h * h)`, the floor of 2^62 over the squared plane diagonal. */
  function R2Inv(w: int, h: int): (r: int)
    requires PlaneSizeOk(w, h)
    ensures 0 < r
    ensures r * (w * w + h * h) <= TWO62 < (r + 1) * (w * w + h * h)
  {
    var d := w * w + h * h;
    var q := TWO62 / d;
    assert d * q + TWO62 % d == TWO62;
    assert q > 0 by {
      if q <= 0 { MulLe(q, 0, d); }
    }
    q
  }

  /**
   * `r2 = (s * r2inv + 2^31) >> 32`: the squared radius `s` normalised to Q30,
   * `s * r2inv / 2^32` rounded to the nearest integer, halves up.
   */
  function NormRadius2(s: int, r2inv: int): (r: int)
    ensures r * TWO32 - TWO31 <= s * r2inv < r * TWO32 + TWO31
  {
    var n := s * r2inv + TWO31;
    assert TWO32 * (n / TWO32) + n % TWO32 == n;
    n / TWO32
  }

  /** `r4 = (r2 * r2 + 2^27) >> 28`: `r2 * r2 / 2^28` rounded to the nearest integer, halves up. */
  function NormRadius4(r2: int): (r: int)
    ensures r * TWO28 - TWO27 <= r2 * r2 < r * TWO28 + TWO27
  {
    var n := r2 * r2 + TWO27;
    assert TWO28 * (n / TWO28) + n % TWO28 == n;
    n / TWO28
  }

  /**
   * `(r2 * k1 + r4 * k2 + 2^27 + 2^52) >> 28`: 1.0 (`2^52 >> 28 == 2^24`)
   * plus the polynomial `r2 * k1 + r4 * k2` in Q24, rounded to the nearest
   * integer, halves up.
   */
  function Multiplier(r2: int, r4: int, k1: int, k2: int): (m: int)
    ensures (m - Q24) * TWO28 - TWO27 <= r2 * k1 + r4 * k2 < (m - Q24) * TWO28 + TWO27
  {
    var n := r2 * k1 + r4 * k2 + TWO27 + TWO52;
    assert TWO28 * (n / TWO28) + n % TWO28 == n;
    n / TWO28
  }

  /**
   * The radius multiplier of pixel `(row, col)`, from the squared distance
   * `dx^2 + dy^2` to the centre. With the option domains (centre inside the
   * plane, coefficients in [-1, 1]) every intermediate fits `int64_t` and
   * the result fits the `int` it is stored in, so no truncation happens.
   */
  function RadiusMult(w: int, h: int, xc: int, yc: int, k1: int, k2: int, row: int, col: int): (m: int)
    requires TableArgsOk(w, h, xc, yc, k1, k2)
    requires 0 <= row < h && 0 <= col < w
    ensures InInt32(m)
  {
    var offX, offY := col - xc, row - yc;
    var r2 := NormRadius2(offX * offX + offY * offY, R2Inv(w, h));
    RadiusMultInRange(w, h, xc, yc, k1, k2, row, col);
    Multiplier(r2, NormRadius4(r2), k1, k2)
  }

  /** The squared offset of a pixel from a centre inside the plane is at most the squared diagonal. */
  lemma SquaredOffsetBound(w: int, h: int, xc: int, yc: int, row: int, col: int)
    requires PlaneSizeOk(w, h) && CenterOk(w, h, xc, yc)
    requires 0 <= row < h && 0 <= col < w
    ensures 0 <= (col - xc) * (col - xc) + (row - yc) * (row - yc) <= w * w + h * h
  {
    SquareLe(col - xc, w);
    SquareLe(row - yc, h);
  }

  lemma NormRadius2Bound(s: int, w: int, h: int)
    requires PlaneSizeOk(w, h) && 0 <= s <= w * w + h * h
    ensures 0 <= s * R2Inv(w, h) <= TWO62
    ensures 0 <= NormRadius2(s, R2Inv(w, h)) <= TWO30
  {
    var inv := R2Inv(w, h);
    MulLe(s, w * w + h * h, inv);
    MulNonnegative(s, inv);
  }

  lemma NormRadius4Bound(r2: int)
    requires 0 <= r2 <= TWO30
    ensures 0 <= r2 * r2 <= TWO30 * TWO30
    ensures 0 <= NormRadius4(r2) <= TWO32
  {
    SquareLe(r2, TWO30);
  }

  lemma MultiplierBound(r2: int, r4: int, k1: int, k2: int)
    requires 0 <= r2 <= TWO30 && 0 <= r4 <= TWO32
    requires CoefficientOk(k1) && CoefficientOk(k2)
    ensures -(TWO30 * Q24) <= r2 * k1 <= TWO30 * Q24
    ensures -(TWO32 * Q24) <= r4 * k2 <= TWO32 * Q24
    ensures InInt64(r2 * k1 + r4 * k2 + TWO27 + TWO52)
    ensures InInt32(Multiplier(r2, r4, k1, k2))
  {
    MulAbsLe(r2, TWO30, k1, Q24);
    MulAbsLe(r4, TWO32, k2, Q24);
  }

  /**
   * The intermediate values of `RadiusMult` stay inside their C types: every
   * product and sum of the table formula fits `int64_t`, and the result `int`.
   */
  lemma RadiusMultInRange(w: int, h: int, xc: int, yc: int, k1: int, k2: int, row: int, col: int)
    requires TableArgsOk(w, h, xc, yc, k1, k2)
    requires 0 <= row < h && 0 <= col < w
    ensures var s := (col - xc) * (col - xc) + (row - yc) * (row - yc);
      var r2 := NormRadius2(s, R2Inv(w, h));
      && 0 <= s <= INT_MAX
      && 0 <= s * R2Inv(w, h) <= TWO62
      && InInt64(s * R2Inv(w, h) + TWO31)
      && 0 <= r2 <= TWO30
      && InInt64(r2 * r2 + TWO27)
      && 0 <= NormRadius4(r2) <= TWO32
      && InInt64(r2 * k1) && InInt64(NormRadius4(r2) * k2)
      && InInt64(r2 * k1 + NormRadius4(r2) * k2 + TWO27 + TWO52)
      && InInt32(Multiplier(r2, NormRadius4(r2), k1, k2))
  {
    SquaredOffsetBound(w, h, xc, yc, row, col);
    var s := (col - xc) * (col - xc) + (row - yc) * (row - yc);
    NormRadius2Bound(s, w, h);
    var r2 := NormRadius2(s, R2Inv(w, h));
    NormRadius4Bound(r2);
    MultiplierBound(r2, NormRadius4(r2), k1, k2);
  }

  /** `t` is the correction table of a `w x h` plane. */
  ghost predicate IsCorrectionTable(t: seq<int>, w: int, h: int, xc: int, yc: int, k1: int, k2: int)
    requires TableArgsOk(w, h, xc, yc, k1, k2)
  {
    && |t| == w * h
    && forall row, col :: 0 <= row < h && 0 <= col < w ==>
         (IdxBound(row, col, h, w); t[Idx(row, col, w)] == RadiusMult(w, h, xc, yc, k1, k2, row, col))
  }

  /** With `k1 = k2 = 0` every multiplier is exactly 1.0: (2^27 + 2^52) >> 28 == 2^24. */
  lemma ZeroCoefficientsGiveUnit(w: int, h: int, xc: int, yc: int, row: int, col: int)
    requires TableArgsOk(w, h, xc, yc, 0, 0)
    requires 0 <= row < h && 0 <= col < w
    ensures RadiusMult(w, h, xc, yc, 0, 0, row, col) == Q24
  {
  }

  /** The table built with `k1 = k2 = 0` holds `1 << 24` everywhere. */
  lemma ZeroCoefficientsTable(t: seq<int>, w: int, h: int, xc: int, yc: int)
    requires TableArgsOk(w, h, xc, yc, 0, 0)
    requires IsCorrectionTable(t, w, h, xc, yc, 0, 0)
    ensures forall k :: 0 <= k < |t| ==> t[k] == Q24
  {
    forall k | 0 <= k < |t|
      ensures t[k] == Q24
    {
      IdxOf(k, w);
      RowBelow(k / w, k % w, h, w);
      ZeroCoefficientsGiveUnit(w, h, xc, yc, k / w, k % w);
    }
  }

  /** Two tables built from the same arguments are identical. */
  lemma TableDeterministic(t1: seq<int>, t2: seq<int>, w: int, h: int, xc: int, yc: int, k1: int, k2: int)
    requires TableArgsOk(w, h, xc, yc, k1, k2)
    requires IsCorrectionTable(t1, w, h, xc, yc, k1, k2)
    requires IsCorrectionTable(t2, w, h, xc, yc, k1, k2)
    ensures t1 == t2
  {
    forall k | 0 <= k < |t1|
      ensures t1[k] == t2[k]
    {
      IdxOf(k, w);
      RowBelow(k / w, k % w, h, w);
      IdxBound(k / w, k % w, h, w);
    }
  }

  /**
   * The multiplier depends on the offsets only through their squares, so
   * pixels mirrored through the centre pixel get equal multipliers.
   */
  lemma RadiusMultReflection(w: int, h: int, xc: int, yc: int, k1: int, k2: int,
                             row: int, col: int, row2: int, col2: int)
    requires TableArgsOk(w, h, xc, yc, k1, k2)
    requires 0 <= row < h && 0 <= col < w && 0 <= row2 < h && 0 <= col2 < w
    requires col + col2 == 2 * xc && row + row2 == 2 * yc
    ensures RadiusMult(w, h, xc, yc, k1, k2, row, col) == RadiusMult(w, h, xc, yc, k1, k2, row2, col2)
  {
    var inv := R2Inv(w, h);
    var s := (col - xc) * (col - xc) + (row - yc) * (row - yc);
    var s2 := (col2 - xc) * (col2 - xc) + (row2 - yc) * (row2 - yc);
    assert s2 == s by {
      assert (col2 - xc) * (col2 - xc) == (col - xc) * (col - xc) by {
        assert col2 - xc == -(col - xc);
      }
      assert (row2 - yc) * (row2 - yc) == (row - yc) * (row - yc) by {
        assert row2 - yc == -(row - yc);
      }
    }
    assert RadiusMult(w, h, xc, yc, k1, k2, row, col) == Multiplier(NormRadius2(s, inv), NormRadius4(NormRadius2(s, inv)), k1, k2);
    assert RadiusMult(w, h, xc, yc, k1, k2, row2, col2) == Multiplier(NormRadius2(s2, inv), NormRadius4(NormRadius2(s2, inv)), k1, k2);
  }

  /**
   * When the centre is the middle pixel of an odd-sized plane
   * (`2 * xc == w - 1`, `2 * yc == h - 1`), the table is point-symmetric:
   * `T[x, y] == T[w-1-x, h-1-y]`.
   */
  lemma CentredTableSymmetric(t: seq<int>, w: int, h: int, xc: int, yc: int, k1: int, k2: int,
                              row: int, col: int)
    requires TableArgsOk(w, h, xc, yc, k1, k2)
    requires IsCorrectionTable(t, w, h, xc, yc, k1, k2)
    requires 2 * xc == w - 1 && 2 * yc == h - 1
    requires 0 <= row < h && 0 <= col < w
    ensures 0 <= Idx(row, col, w) < |t| && 0 <= Idx(h - 1 - row, w - 1 - col, w) < |t|
    ensures t[Idx(row, col, w)] == t[Idx(h - 1 - row, w - 1 - col, w)]
  {
    IdxBound(row, col, h, w);
    IdxBound(h - 1 - row, w - 1 - col, h, w);
    RadiusMultReflection(w, h, xc, yc, k1, k2, row, col, h - 1 - row, w - 1 - col);
  }

  /**
   * Without the odd-size condition the point symmetry fails: a 2x1 plane has
   * its centre `cx = 0.5` on column 1, not between the two pixels, so with
   * `k1 = 1.0` the two mirrored pixels get different multipliers.
   */
  lemma EvenSizeNotSymmetric()
    ensures TableArgsOk(2, 1, 1, 0, Q24, 0)
    ensures RadiusMult(2, 1, 1, 0, Q24, 0, 0, 1) == Q24
    ensures RadiusMult(2, 1, 1, 0, Q24, 0, 0, 0) > Q24
  {
    var inv := R2Inv(2, 1);
    assert inv >= TWO32;
    var r2 := NormRadius2(1, inv);
    assert r2 >= 8;
    MulLe(8, r2, Q24);
  }

  /** The first `j` rows and the first `i` entries of row `j` of `t` hold their multipliers. */
  ghost predicate FilledUpTo(t: seq<int>, w: int, h: int, xc: int, yc: int, k1: int, k2: int, j: int, i: int)
    requires TableArgsOk(w, h, xc, yc, k1, k2)
    requires |t| == w * h
  {
    forall row, col :: 0 <= row < h && 0 <= col < w && (row < j || (row == j && col < i)) ==>
      (IdxBound(row, col, h, w); t[Idx(row, col, w)] == RadiusMult(w, h, xc, yc, k1, k2, row, col))
  }

  lemma FilledStep(t: seq<int>, w: int, h: int, xc: int, yc: int, k1: int, k2: int, j: int, i: int)
    requires TableArgsOk(w, h, xc, yc, k1, k2)
    requires |t| == w * h && 0 <= j < h && 0 <= i < w
    requires FilledUpTo(t, w, h, xc, yc, k1, k2, j, i)
    ensures 0 <= Idx(j, i, w) < |t|
    ensures FilledUpTo(t[Idx(j, i, w) := RadiusMult(w, h, xc, yc, k1, k2, j, i)], w, h, xc, yc, k1, k2, j, i + 1)
  {
    IdxBound(j, i, h, w);
    var t' := t[Idx(j, i, w) := RadiusMult(w, h, xc, yc, k1, k2, j, i)];
    forall row, col | 0 <= row < h && 0 <= col < w && (row < j || (row == j && col < i + 1))
      ensures 0 <= Idx(row, col, w) < |t'| && t'[Idx(row, col, w)] == RadiusMult(w, h, xc, yc, k1, k2, row, col)
    {
      IdxBound(row, col, h, w);
      if Idx(row, col, w) == Idx(j, i, w) {
        IdxInjective(row, col, j, i, w);
      }
    }
  }

  /**
   * The table builder of `filter_frame`: fills `t` row by row (`j`) and
   * column by column (`i`), storing each multiplier at `j * w + i`.
   */
  method FillCorrection(t: array<int>, w: int, h: int, xc: int, yc: int, k1: int, k2: int)
    requires TableArgsOk(w, h, xc, yc, k1, k2)
    requires t.Length == w * h
    modifies t
    ensures IsCorrectionTable(t[..], w, h, xc, yc, k1, k2)
  {
    var r2inv := TWO62 / (w * w + h * h);
    assert r2inv == R2Inv(w, h);
    var j := 0;
    while j < h
      invariant 0 <= j <= h
      invariant FilledUpTo(t[..], w, h, xc, yc, k1, k2, j, 0)
    {
      var offY := j - yc;
      var offY2 := offY * offY;
      var i := 0;
      while i < w
        invariant 0 <= i <= w
        invariant FilledUpTo(t[..], w, h, xc, yc, k1, k2, j, i)
      {
        var offX := i - xc;
        var r2 := ((offX * offX + offY2) * r2inv + TWO31) / TWO32;
        var r4 := (r2 * r2 + TWO27) / TWO28;
        // the value is the `int` radius_mult: it is in range, so no truncation
        var radiusMult := (r2 * k1 + r4 * k2 + TWO27 + TWO52) / TWO28;
        assert r2 == NormRadius2(offX * offX + offY * offY, R2Inv(w, h));
        assert r4 == NormRadius4(r2) && radiusMult == Multiplier(r2, r4, k1, k2);
        assert radiusMult == RadiusMult(w, h, xc, yc, k1, k2, j, i);
        IdxBound(j, i, h, w);
        FilledStep(t[..], w, h, xc, yc, k1, k2, j, i);
        t[Idx(j, i, w)] := radiusMult;
        i := i + 1;
      }
      j := j + 1;
    }
  }
}
