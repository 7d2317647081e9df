/**
 * The slice kernels of the filter: for every output pixel of a row slice,
 * the pixel's correction-table multiplier maps its offset from the centre
 * to a source position, and the output sample is the nearest source sample
 * (`NEAREST`) or a bilinear blend of four (`BILINEAR`), or the fill colour
 * when the source position is outside the plane.
 *
 * Planes are flat buffers of samples with a line size counted in samples;
 * the 8-bit and the 16-bit instance of each macro are one method here, told
 * apart by the storage width of the kernel (`KernelBits`). Arithmetic is on
 * unbounded integers; the lemmas at the end show that, with `int32_t` table
 * entries and samples of at most 16 bits, no intermediate leaves the C type
 * it is computed in, so the values agree with the C ones.
 */
module Resample {
  import opened FixedPoint
  import opened Layout
  import opened Correction
  import opened Slices

  /** The four slice functions `config_props` chooses from. */
  datatype SliceKernel = Filter8 | Filter16 | Filter8Bilinear | Filter16Bilinear

  /** Storage width of a kernel's samples: `uint8_t` or `uint16_t`. */
  function KernelBits(k: SliceKernel): nat
  {
    if k == Filter8 || k == Filter8Bilinear then 8 else 16
  }

  predicate IsBilinear(k: SliceKernel)
  {
    k == Filter8Bilinear || k == Filter16Bilinear
  }

  /** What `filter_frame` hands every slice of one plane (`ThreadData`, without the frame pointers). */
  datatype ThreadData = ThreadData(w: int, h: int, depth: int, fillColor: int,
                                   xcenter: int, ycenter: int,
                                   inLinesize: int, outLinesize: int)

  predicate ThreadDataOk(td: ThreadData)
  {
    && PlaneSizeOk(td.w, td.h)
    && CenterOk(td.w, td.h, td.xcenter, td.ycenter)
    && 8 <= td.depth <= 16
    && td.w <= td.inLinesize
    && td.w <= td.outLinesize
  }

  /** The table covers the plane and the input buffer holds `h` lines. */
  predicate SourcesOk(td: ThreadData, table: seq<int>, src: seq<int>)
  {
    ThreadDataOk(td) && td.w * td.h <= |table| && td.h * td.inLinesize <= |src|
  }

  /**
   * `center + ((radius_mult * off + (1 << 23)) >> 24)`: the source
   * coordinate, the centre plus the Q24 product `rm * off` rounded to the
   * nearest integer, halves up.
   */
  function MapCoord(center: int, off: int, rm: int): (c: int)
    ensures (c - center) * Q24 - HALF24 <= rm * off < (c - center) * Q24 + HALF24
  {
    var n := rm * off + HALF24;
    assert Q24 * (n / Q24) + n % Q24 == n;
    center + n / Q24
  }

  /**
   * `NEAREST`'s test `x >= 0 && x < w && y >= 0 && y < h`: a position that
   * passes it is a sample inside the `h` lines of a plane buffer, whatever
   * its line size (at least `w`).
   */
  predicate InPlane(x: int, y: int, w: int, h: int): (b: bool)
    ensures b ==> forall s :: w <= s ==> 0 <= Idx(y, x, s) < h * s
  {
    if x >= 0 && x < w && y >= 0 && y < h then
      IdxBoundEveryStride(y, x, h, w);
      true
    else
      false
  }

  /** `BILINEAR`'s test `x >= 0 && x <= w - 1 && y >= 0 && y <= h - 1`, the same test as `NEAREST`'s. */
  predicate InPlaneInclusive(x: int, y: int, w: int, h: int): (b: bool)
    ensures b <==> InPlane(x, y, w, h)
  {
    x >= 0 && x <= w - 1 && y >= 0 && y <= h - 1
  }

  /** `td->correction[j + i*w]` for output row `i`, column `j`. */
  function TableEntry(td: ThreadData, table: seq<int>, src: seq<int>, row: int, col: int): int
    requires SourcesOk(td, table, src) && 0 <= row < td.h && 0 <= col < td.w
  {
    IdxBound(row, col, td.h, td.w);
    table[Idx(row, col, td.w)]
  }

  function SourceX(td: ThreadData, table: seq<int>, src: seq<int>, row: int, col: int): int
    requires SourcesOk(td, table, src) && 0 <= row < td.h && 0 <= col < td.w
  {
    MapCoord(td.xcenter, col - td.xcenter, TableEntry(td, table, src, row, col))
  }

  function SourceY(td: ThreadData, table: seq<int>, src: seq<int>, row: int, col: int): int
    requires SourcesOk(td, table, src) && 0 <= row < td.h && 0 <= col < td.w
  {
    MapCoord(td.ycenter, row - td.ycenter, TableEntry(td, table, src, row, col))
  }

  /** The source position of output pixel `(row, col)` lies inside the plane. */
  predicate SourceValid(td: ThreadData, table: seq<int>, src: seq<int>, row: int, col: int)
    requires SourcesOk(td, table, src) && 0 <= row < td.h && 0 <= col < td.w
  {
    InPlane(SourceX(td, table, src, row, col), SourceY(td, table, src, row, col), td.w, td.h)
  }

  /**
   * The value `NEAREST` writes at output pixel `(row, col)`: a sample read
   * inside the input plane at the mapped position when that is valid, the fill
   * colour otherwise.
   */
  function NearestValue(td: ThreadData, table: seq<int>, src: seq<int>, row: int, col: int): (v: int)
    requires SourcesOk(td, table, src) && 0 <= row < td.h && 0 <= col < td.w
    ensures !SourceValid(td, table, src, row, col) ==> v == td.fillColor
    ensures SourceValid(td, table, src, row, col) ==>
              var x, y := SourceX(td, table, src, row, col), SourceY(td, table, src, row, col);
              0 <= Idx(y, x, td.inLinesize) < td.h * td.inLinesize && v == src[Idx(y, x, td.inLinesize)]
  {
    var x, y := SourceX(td, table, src, row, col), SourceY(td, table, src, row, col);
    if InPlane(x, y, td.w, td.h) then
      IdxBound(y, x, td.h, td.inLinesize);
      src[Idx(y, x, td.inLinesize)]
    else
      td.fillColor
  }

  /**
   * The Q24 weight of the right (lower) neighbour, `du` (`dv`): the low 24
   * bits of the rounded product for a non-negative offset, `max` minus those
   * of the mirrored product for a negative one. `& max` is `% 2^24`, also
   * after the C conversion of the signed product to `uint64_t`.
   */
  function Frac(off: int, rm: int): (d: int)
    ensures 0 <= d <= MAX24
  {
    if off >= 0 then (rm * off + HALF24) % Q24 else MAX24 - (rm * -off + HALF24) % Q24
  }

  /** `FFMIN(x + 1, n - 1)`: the next column (row), clamped to the last one. */
  function Neighbour(x: int, n: int): (r: int)
    requires 0 <= x < n
    ensures x <= r < n && r <= x + 1
    ensures r == x <==> x == n - 1
  {
    if x + 1 > n - 1 then n - 1 else x + 1
  }

  /**
   * The accumulated `sum` of `BILINEAR`: four samples weighted by products of
   * Q24 weights. Four equal samples blend to that sample in Q48 (`max * max`
   * times it), whatever the weights.
   */
  function Blend(du: int, dv: int, p0: int, p1: int, p2: int, p3: int): (s: int)
    ensures p0 == p1 == p2 == p3 ==> s == MAX24 * MAX24 * p0
  {
    var s := (MAX24 - du) * (MAX24 - dv) * p0
             + du * (MAX24 - dv) * p1
             + (MAX24 - du) * dv * p2
             + du * dv * p3;
    assert p0 == p1 == p2 == p3 ==> s == MAX24 * MAX24 * p0 by {
      if p0 == p1 == p2 == p3 {
        WeightsSum(du, dv);
        assert s == ((MAX24 - du) * (MAX24 - dv) + du * (MAX24 - dv) + (MAX24 - du) * dv + du * dv) * p0;
      }
    }
    s
  }

  /**
   * `sum` of `BILINEAR` at output pixel `(row, col)`, whose source position is
   * inside the plane. With 16-bit input samples it and its rounding addition
   * fit the `uint64_t` accumulator.
   */
  function BilinearSum(td: ThreadData, table: seq<int>, src: seq<int>, row: int, col: int): (sum: int)
    requires SourcesOk(td, table, src) && 0 <= row < td.h && 0 <= col < td.w
    requires SourceValid(td, table, src, row, col)
    ensures (forall i :: 0 <= i < |src| ==> 0 <= src[i] < 0x1_0000) ==> 0 <= sum + TWO47 < TWO64
  {
    var rm := TableEntry(td, table, src, row, col);
    var x, y := SourceX(td, table, src, row, col), SourceY(td, table, src, row, col);
    var nx, ny := Neighbour(x, td.w), Neighbour(y, td.h);
    var du, dv := Frac(col - td.xcenter, rm), Frac(row - td.ycenter, rm);
    var s := td.inLinesize;
    IdxBound(y, x, td.h, s);
    IdxBound(y, nx, td.h, s);
    IdxBound(ny, x, td.h, s);
    IdxBound(ny, nx, td.h, s);
    var p0, p1, p2, p3 := src[Idx(y, x, s)], src[Idx(y, nx, s)], src[Idx(ny, x, s)], src[Idx(ny, nx, s)];
    assert (forall i :: 0 <= i < |src| ==> 0 <= src[i] < 0x1_0000) ==> 0 <= Blend(du, dv, p0, p1, p2, p3) + TWO47 < TWO64 by {
      if forall i :: 0 <= i < |src| ==> 0 <= src[i] < 0x1_0000 {
        BlendFitsUint64(du, dv, p0, p1, p2, p3);
      }
    }
    Blend(du, dv, p0, p1, p2, p3)
  }

  /**
   * The value `BILINEAR` writes at output pixel `(row, col)`: a `depth`-bit
   * sample when the source position is valid, the fill colour otherwise.
   */
  function BilinearValue(td: ThreadData, table: seq<int>, src: seq<int>, row: int, col: int): (v: int)
    requires SourcesOk(td, table, src) && 0 <= row < td.h && 0 <= col < td.w
    ensures SourceValid(td, table, src, row, col) ==> 0 <= v < Pow2(td.depth)
    ensures !SourceValid(td, table, src, row, col) ==> v == td.fillColor
  {
    var x, y := SourceX(td, table, src, row, col), SourceY(td, table, src, row, col);
    if InPlaneInclusive(x, y, td.w, td.h) then
      ClipUintP2((BilinearSum(td, table, src, row, col) + TWO47) / TWO48, td.depth)
    else
      td.fillColor
  }

  /** The sample kernel `k` stores at output pixel `(row, col)`. */
  function Sample(k: SliceKernel, td: ThreadData, table: seq<int>, src: seq<int>, row: int, col: int): (v: int)
    requires SourcesOk(td, table, src) && 0 <= row < td.h && 0 <= col < td.w
    ensures 0 <= v < Pow2(KernelBits(k))
  {
    Store(if IsBilinear(k) then BilinearValue(td, table, src, row, col)
          else NearestValue(td, table, src, row, col), KernelBits(k))
  }

  /**
   * `after` is `before` with the samples of rows `[lo, i)` and the first
   * `j` samples of row `i` resampled: every other position of the buffer,
   * viewed as lines of `outLinesize` samples, keeps its value.
   */
  ghost predicate Resampled(after: seq<int>, before: seq<int>, k: SliceKernel, td: ThreadData,
                            table: seq<int>, src: seq<int>, lo: int, i: int, j: int)
    requires SourcesOk(td, table, src)
    requires 0 <= lo && 0 <= i <= td.h && 0 <= j <= td.w && (i < td.h || j == 0)
  {
    && |after| == |before|
    && forall r, c :: 0 <= r && 0 <= c < td.outLinesize && 0 <= Idx(r, c, td.outLinesize) < |before| ==>
         after[Idx(r, c, td.outLinesize)] ==
           if (lo <= r < i && c < td.w) || (r == i && c < j) then Sample(k, td, table, src, r, c)
           else before[Idx(r, c, td.outLinesize)]
  }

  /** Rows `[lo, hi)` of `after` are resampled, every other sample is as in `before`. */
  ghost predicate RowsResampled(after: seq<int>, before: seq<int>, k: SliceKernel, td: ThreadData,
                                table: seq<int>, src: seq<int>, lo: int, hi: int)
    requires SourcesOk(td, table, src) && 0 <= lo && 0 <= hi <= td.h
  {
    Resampled(after, before, k, td, table, src, lo, hi, 0)
  }

  lemma ResampledStep(a: seq<int>, before: seq<int>, k: SliceKernel, td: ThreadData,
                      table: seq<int>, src: seq<int>, lo: int, i: int, j: int)
    requires SourcesOk(td, table, src)
    requires 0 <= lo <= i < td.h && 0 <= j < td.w
    requires Resampled(a, before, k, td, table, src, lo, i, j)
    requires 0 <= Idx(i, j, td.outLinesize) < |a|
    ensures Resampled(a[Idx(i, j, td.outLinesize) := Sample(k, td, table, src, i, j)], before,
                      k, td, table, src, lo, i, j + 1)
  {
    var os := td.outLinesize;
    var a' := a[Idx(i, j, os) := Sample(k, td, table, src, i, j)];
    forall r, c | 0 <= r && 0 <= c < os && 0 <= Idx(r, c, os) < |before|
      ensures a'[Idx(r, c, os)] ==
                if (lo <= r < i && c < td.w) || (r == i && c < j + 1) then Sample(k, td, table, src, r, c)
                else before[Idx(r, c, os)]
    {
      if Idx(r, c, os) == Idx(i, j, os) {
        IdxInjective(r, c, i, j, os);
      }
    }
  }

  lemma ResampledNextRow(a: seq<int>, before: seq<int>, k: SliceKernel, td: ThreadData,
                         table: seq<int>, src: seq<int>, lo: int, i: int)
    requires SourcesOk(td, table, src)
    requires 0 <= lo <= i < td.h
    requires Resampled(a, before, k, td, table, src, lo, i, td.w)
    ensures Resampled(a, before, k, td, table, src, lo, i + 1, 0)
  {
  }

  /** Resampling `[lo, m)` and then `[m, hi)` resamples `[lo, hi)`. */
  lemma RowsCompose(before: seq<int>, mid: seq<int>, after: seq<int>, k: SliceKernel, td: ThreadData,
                    table: seq<int>, src: seq<int>, lo: int, m: int, hi: int)
    requires SourcesOk(td, table, src) && 0 <= lo <= m <= hi <= td.h
    requires RowsResampled(mid, before, k, td, table, src, lo, m)
    requires RowsResampled(after, mid, k, td, table, src, m, hi)
    ensures RowsResampled(after, before, k, td, table, src, lo, hi)
  {
  }

  /** The body of `NEAREST`'s pixel loop: the source sample at `(x, y)`, or the fill colour when outside. */
  method NearestPixel(td: ThreadData, table: seq<int>, src: seq<int>, row: int, col: int,
                      x: int, y: int) returns (v: int)
    requires SourcesOk(td, table, src) && 0 <= row < td.h && 0 <= col < td.w
    requires x == SourceX(td, table, src, row, col) && y == SourceY(td, table, src, row, col)
    ensures v == NearestValue(td, table, src, row, col)
  {
    var isValid := x >= 0 && x < td.w && y >= 0 && y < td.h;
    if isValid {
      IdxBound(y, x, td.h, td.inLinesize);
      v := src[Idx(y, x, td.inLinesize)];
    } else {
      v := td.fillColor;
    }
  }

  /**
   * The `NEAREST` slice function: output rows `[start, end)` of slice `job`,
   * columns `0 .. w-1`, each sample copied from the nearest source position
   * or the fill colour.
   */
  method NearestSlice(k: SliceKernel, td: ThreadData, table: seq<int>, src: seq<int>, dst: array<int>,
                      job: int, nbJobs: int)
    requires !IsBilinear(k)
    requires SourcesOk(td, table, src)
    requires td.h * td.outLinesize <= dst.Length
    requires 0 <= job < nbJobs
    modifies dst
    ensures RowsResampled(dst[..], old(dst[..]), k, td, table, src,
                          SliceStart(td.h, job, nbJobs), SliceEnd(td.h, job, nbJobs))
  {
    var w, h := td.w, td.h;
    var start := (h * job) / nbJobs;
    var end := (h * (job + 1)) / nbJobs;
    SliceBounds(h, job, nbJobs);
    var i := start;
    while i < end
      invariant start <= i <= end
      invariant Resampled(dst[..], old(dst[..]), k, td, table, src, start, i, 0)
    {
      var offY := i - td.ycenter;
      var j := 0;
      while j < w
        invariant 0 <= j <= w
        invariant Resampled(dst[..], old(dst[..]), k, td, table, src, start, i, j)
      {
        var offX := j - td.xcenter;
        IdxBound(i, j, h, w);
        var radiusMult := table[Idx(i, j, w)];
        var x := td.xcenter + (radiusMult * offX + HALF24) / Q24;
        var y := td.ycenter + (radiusMult * offY + HALF24) / Q24;
        var v := NearestPixel(td, table, src, i, j, x, y);
        assert Store(v, KernelBits(k)) == Sample(k, td, table, src, i, j);
        IdxBound(i, j, h, td.outLinesize);
        ResampledStep(dst[..], old(dst[..]), k, td, table, src, start, i, j);
        dst[Idx(i, j, td.outLinesize)] := Store(v, KernelBits(k));
        j := j + 1;
      }
      ResampledNextRow(dst[..], old(dst[..]), k, td, table, src, start, i);
      i := i + 1;
    }
  }

  /** The four `sum +=` steps of `BILINEAR`: the blend of the four neighbours. */
  method Accumulate(du: int, dv: int, p0: int, p1: int, p2: int, p3: int) returns (sum: int)
    ensures sum == Blend(du, dv, p0, p1, p2, p3)
  {
    sum := 0;
    sum := sum + (MAX24 - du) * (MAX24 - dv) * p0;
    sum := sum + du * (MAX24 - dv) * p1;
    sum := sum + (MAX24 - du) * dv * p2;
    sum := sum + du * dv * p3;
  }

  /**
   * The body of `BILINEAR`'s inner loop for output pixel `(row, col)`, given
   * its table entry and source position.
   */
  method BilinearPixel(td: ThreadData, table: seq<int>, src: seq<int>, row: int, col: int,
                       radiusMult: int, x: int, y: int) returns (v: int)
    requires SourcesOk(td, table, src) && 0 <= row < td.h && 0 <= col < td.w
    requires radiusMult == TableEntry(td, table, src, row, col)
    requires x == SourceX(td, table, src, row, col) && y == SourceY(td, table, src, row, col)
    ensures v == BilinearValue(td, table, src, row, col)
  {
    var w, h := td.w, td.h;
    var offX, offY := col - td.xcenter, row - td.ycenter;
    var isValid := x >= 0 && x <= w - 1 && y >= 0 && y <= h - 1;
    if isValid {
      var nx := if x + 1 > w - 1 then w - 1 else x + 1;
      var ny := if y + 1 > h - 1 then h - 1 else y + 1;
      var du := if offX >= 0 then (radiusMult * offX + HALF24) % Q24
                else MAX24 - (radiusMult * -offX + HALF24) % Q24;
      var dv := if offY >= 0 then (radiusMult * offY + HALF24) % Q24
                else MAX24 - (radiusMult * -offY + HALF24) % Q24;
      assert du == Frac(offX, radiusMult) && dv == Frac(offY, radiusMult);
      var s := td.inLinesize;
      IdxBound(y, x, h, s);
      IdxBound(y, nx, h, s);
      IdxBound(ny, x, h, s);
      IdxBound(ny, nx, h, s);
      var p0, p1, p2, p3 := src[Idx(y, x, s)], src[Idx(y, nx, s)], src[Idx(ny, x, s)], src[Idx(ny, nx, s)];
      var sum := Accumulate(du, dv, p0, p1, p2, p3);
      assert sum == BilinearSum(td, table, src, row, col);
      v := ClipUintP2((sum + TWO47) / TWO48, td.depth);
    } else {
      v := td.fillColor;
    }
  }

  /**
   * The `BILINEAR` slice function: as `NearestSlice`, but a valid source
   * position blends the sample there with its right, lower and lower-right
   * neighbours (clamped to the plane), rounds with `>> 48` and clips to
   * `depth` bits.
   */
  method BilinearSlice(k: SliceKernel, td: ThreadData, table: seq<int>, src: seq<int>, dst: array<int>,
                       job: int, nbJobs: int)
    requires IsBilinear(k)
    requires SourcesOk(td, table, src)
    requires td.h * td.outLinesize <= dst.Length
    requires 0 <= job < nbJobs
    modifies dst
    ensures RowsResampled(dst[..], old(dst[..]), k, td, table, src,
                          SliceStart(td.h, job, nbJobs), SliceEnd(td.h, job, nbJobs))
  {
    var w, h := td.w, td.h;
    var start := (h * job) / nbJobs;
    var end := (h * (job + 1)) / nbJobs;
    SliceBounds(h, job, nbJobs);
    var i := start;
    while i < end
      invariant start <= i <= end
      invariant Resampled(dst[..], old(dst[..]), k, td, table, src, start, i, 0)
    {
      var offY := i - td.ycenter;
      var j := 0;
      while j < w
        invariant 0 <= j <= w
        invariant Resampled(dst[..], old(dst[..]), k, td, table, src, start, i, j)
      {
        var offX := j - td.xcenter;
        IdxBound(i, j, h, w);
        var radiusMult := table[Idx(i, j, w)];
        var x := td.xcenter + (radiusMult * offX + HALF24) / Q24;
        var y := td.ycenter + (radiusMult * offY + HALF24) / Q24;
        var v := BilinearPixel(td, table, src, i, j, radiusMult, x, y);
        assert Store(v, KernelBits(k)) == Sample(k, td, table, src, i, j);
        IdxBound(i, j, h, td.outLinesize);
        ResampledStep(dst[..], old(dst[..]), k, td, table, src, start, i, j);
        dst[Idx(i, j, td.outLinesize)] := Store(v, KernelBits(k));
        j := j + 1;
      }
      ResampledNextRow(dst[..], old(dst[..]), k, td, table, src, start, i);
      i := i + 1;
    }
  }

  /**
   * `ctx->internal->execute(ctx, filter_slice, &td, NULL, nb_jobs)`, run as
   * a sequential loop over the jobs: afterwards every row of the plane is
   * resampled.
   */
  method Execute(k: SliceKernel, td: ThreadData, table: seq<int>, src: seq<int>, dst: array<int>,
                 nbJobs: int)
    requires SourcesOk(td, table, src)
    requires td.h * td.outLinesize <= dst.Length
    requires 0 < nbJobs
    modifies dst
    ensures RowsResampled(dst[..], old(dst[..]), k, td, table, src, 0, td.h)
  {
    SlicesSpanPlane(td.h, nbJobs);
    var job := 0;
    while job < nbJobs
      invariant 0 <= job <= nbJobs
      invariant RowsResampled(dst[..], old(dst[..]), k, td, table, src, 0, SliceStart(td.h, job, nbJobs))
    {
      ghost var mid := dst[..];
      if IsBilinear(k) {
        BilinearSlice(k, td, table, src, dst, job, nbJobs);
      } else {
        NearestSlice(k, td, table, src, dst, job, nbJobs);
      }
      SliceBounds(td.h, job, nbJobs);
      RowsCompose(old(dst[..]), mid, dst[..], k, td, table, src,
                  0, SliceStart(td.h, job, nbJobs), SliceEnd(td.h, job, nbJobs));
      job := job + 1;
    }
    assert SliceStart(td.h, nbJobs, nbJobs) == td.h by {
      SlicesSpanPlane(td.h, nbJobs);
    }
  }

  // ---- properties of the kernels ----

  /** A multiplier of exactly 1.0 maps every offset onto itself. */
  lemma MapCoordUnit(center: int, off: int)
    ensures MapCoord(center, off, Q24) == center + off
  {
    assert Q24 * off + HALF24 == off * Q24 + HALF24;
  }

  /** Where the table holds 1.0, `NEAREST` copies the input sample at the same position. */
  lemma NearestUnitMultiplier(td: ThreadData, table: seq<int>, src: seq<int>, row: int, col: int)
    requires SourcesOk(td, table, src) && 0 <= row < td.h && 0 <= col < td.w
    requires TableEntry(td, table, src, row, col) == Q24
    ensures SourceValid(td, table, src, row, col)
    ensures 0 <= Idx(row, col, td.inLinesize) < |src|
    ensures NearestValue(td, table, src, row, col) == src[Idx(row, col, td.inLinesize)]
  {
    MapCoordUnit(td.xcenter, col - td.xcenter);
    MapCoordUnit(td.ycenter, row - td.ycenter);
    IdxBound(row, col, td.h, td.inLinesize);
  }

  /**
   * With `k1 = k2 = 0` the correction table is all 1.0, and a plane resampled
   * with the nearest-neighbour kernel is a copy of the input plane.
   */
  lemma NearestIdentityAtZeroCoefficients(after: seq<int>, before: seq<int>, k: SliceKernel, td: ThreadData,
                                          table: seq<int>, src: seq<int>)
    requires SourcesOk(td, table, src) && !IsBilinear(k)
    requires td.h * td.outLinesize <= |before|
    requires IsCorrectionTable(table, td.w, td.h, td.xcenter, td.ycenter, 0, 0)
    requires forall i :: 0 <= i < |src| ==> 0 <= src[i] < Pow2(KernelBits(k))
    requires RowsResampled(after, before, k, td, table, src, 0, td.h)
    ensures forall row, col :: 0 <= row < td.h && 0 <= col < td.w ==>
              0 <= Idx(row, col, td.outLinesize) < |after| && 0 <= Idx(row, col, td.inLinesize) < |src| &&
              after[Idx(row, col, td.outLinesize)] == src[Idx(row, col, td.inLinesize)]
  {
    forall row, col | 0 <= row < td.h && 0 <= col < td.w
      ensures 0 <= Idx(row, col, td.outLinesize) < |after| && 0 <= Idx(row, col, td.inLinesize) < |src|
      ensures after[Idx(row, col, td.outLinesize)] == src[Idx(row, col, td.inLinesize)]
    {
      IdxBound(row, col, td.h, td.outLinesize);
      IdxBound(row, col, td.h, td.w);
      ZeroCoefficientsGiveUnit(td.w, td.h, td.xcenter, td.ycenter, row, col);
      NearestUnitMultiplier(td, table, src, row, col);
    }
  }

  /** A pixel whose source position is outside the plane gets the fill colour, whatever the kernel. */
  lemma OutsideIsFill(td: ThreadData, table: seq<int>, src: seq<int>, row: int, col: int)
    requires SourcesOk(td, table, src) && 0 <= row < td.h && 0 <= col < td.w
    requires !SourceValid(td, table, src, row, col)
    ensures NearestValue(td, table, src, row, col) == td.fillColor
    ensures BilinearValue(td, table, src, row, col) == td.fillColor
  {
  }

  /** The four bilinear weights add up to `max * max`, the Q48 unit the blend is divided back by. */
  lemma WeightsSum(du: int, dv: int)
    ensures (MAX24 - du) * (MAX24 - dv) + du * (MAX24 - dv) + (MAX24 - du) * dv + du * dv == MAX24 * MAX24
  {
  }

  /** Samples at most `top` blend to at most `max * max * top`. */
  lemma BlendBound(du: int, dv: int, p0: int, p1: int, p2: int, p3: int, top: int)
    requires 0 <= du <= MAX24 && 0 <= dv <= MAX24
    requires 0 <= p0 <= top && 0 <= p1 <= top && 0 <= p2 <= top && 0 <= p3 <= top
    ensures 0 <= Blend(du, dv, p0, p1, p2, p3) <= MAX24 * MAX24 * top
  {
    var w0, w1, w2, w3 := (MAX24 - du) * (MAX24 - dv), du * (MAX24 - dv), (MAX24 - du) * dv, du * dv;
    MulNonnegative(MAX24 - du, MAX24 - dv);
    MulNonnegative(du, MAX24 - dv);
    MulNonnegative(MAX24 - du, dv);
    MulNonnegative(du, dv);
    WeightsSum(du, dv);
    WeightedBound(w0, w1, w2, w3, p0, p1, p2, p3, top);
    assert Blend(du, dv, p0, p1, p2, p3) == w0 * p0 + w1 * p1 + w2 * p2 + w3 * p3;
  }

  lemma WeightedBound(w0: int, w1: int, w2: int, w3: int, p0: int, p1: int, p2: int, p3: int, top: int)
    requires 0 <= w0 && 0 <= w1 && 0 <= w2 && 0 <= w3
    requires 0 <= p0 <= top && 0 <= p1 <= top && 0 <= p2 <= top && 0 <= p3 <= top
    ensures 0 <= w0 * p0 + w1 * p1 + w2 * p2 + w3 * p3 <= (w0 + w1 + w2 + w3) * top
  {
    MulNonnegative(w0, p0);
    MulNonnegative(w1, p1);
    MulNonnegative(w2, p2);
    MulNonnegative(w3, p3);
    MulLe(p0, top, w0);
    MulLe(p1, top, w1);
    MulLe(p2, top, w2);
    MulLe(p3, top, w3);
    assert w0 * top + w1 * top + w2 * top + w3 * top == (w0 + w1 + w2 + w3) * top;
  }

  /**
   * With 16-bit samples the `uint64_t` accumulator of `BILINEAR` neither
   * wraps nor does its rounding addition of `1 << 47`.
   */
  lemma BlendFitsUint64(du: int, dv: int, p0: int, p1: int, p2: int, p3: int)
    requires 0 <= du <= MAX24 && 0 <= dv <= MAX24
    requires 0 <= p0 < 0x1_0000 && 0 <= p1 < 0x1_0000 && 0 <= p2 < 0x1_0000 && 0 <= p3 < 0x1_0000
    ensures 0 <= Blend(du, dv, p0, p1, p2, p3) + TWO47 < TWO64
  {
    BlendBound(du, dv, p0, p1, p2, p3, 0xFFFF);
  }

  /** A blend of `depth`-bit samples, rounded back from Q48, is again a `depth`-bit sample. */
  lemma RoundedBlendInRange(du: int, dv: int, p0: int, p1: int, p2: int, p3: int, depth: nat)
    requires 0 <= du <= MAX24 && 0 <= dv <= MAX24
    requires 0 <= p0 < Pow2(depth) && 0 <= p1 < Pow2(depth) && 0 <= p2 < Pow2(depth) && 0 <= p3 < Pow2(depth)
    ensures 0 <= (Blend(du, dv, p0, p1, p2, p3) + TWO47) / TWO48 < Pow2(depth)
  {
    var top := Pow2(depth) - 1;
    BlendBound(du, dv, p0, p1, p2, p3, top);
    MulLe(MAX24 * MAX24, TWO48, top);
    assert TWO48 * top + TWO47 < TWO48 * Pow2(depth);
  }

  /**
   * When the input samples fit the plane's bit depth, the clip in `BILINEAR`
   * never acts: the output is the rounded blend.
   */
  lemma BilinearUnclipped(td: ThreadData, table: seq<int>, src: seq<int>, row: int, col: int)
    requires SourcesOk(td, table, src) && 0 <= row < td.h && 0 <= col < td.w
    requires SourceValid(td, table, src, row, col)
    requires forall i :: 0 <= i < |src| ==> 0 <= src[i] < Pow2(td.depth)
    ensures 0 <= (BilinearSum(td, table, src, row, col) + TWO47) / TWO48 < Pow2(td.depth)
    ensures BilinearValue(td, table, src, row, col) == (BilinearSum(td, table, src, row, col) + TWO47) / TWO48
  {
    var rm := TableEntry(td, table, src, row, col);
    var x, y := SourceX(td, table, src, row, col), SourceY(td, table, src, row, col);
    var nx, ny := Neighbour(x, td.w), Neighbour(y, td.h);
    var s := td.inLinesize;
    IdxBound(y, x, td.h, s);
    IdxBound(y, nx, td.h, s);
    IdxBound(ny, x, td.h, s);
    IdxBound(ny, nx, td.h, s);
    RoundedBlendInRange(Frac(col - td.xcenter, rm), Frac(row - td.ycenter, rm),
                        src[Idx(y, x, s)], src[Idx(y, nx, s)], src[Idx(ny, x, s)], src[Idx(ny, nx, s)], td.depth);
  }

  /** With both weights zero the blend, rounded back, is the top-left sample exactly. */
  lemma ZeroWeightsSelectFirst(p0: int, p1: int, p2: int, p3: int)
    requires 0 <= p0 < 0x1_0000
    ensures (Blend(0, 0, p0, p1, p2, p3) + TWO47) / TWO48 == p0
  {
    assert Blend(0, 0, p0, p1, p2, p3) + TWO47 == TWO48 * p0 + (TWO47 - (2 * Q24 - 1) * p0);
  }

  /**
   * Where the rounded source position carries no fraction (`du = dv = 0`),
   * the bilinear kernel gives what the nearest-neighbour kernel gives.
   */
  lemma BilinearMatchesNearest(td: ThreadData, table: seq<int>, src: seq<int>, row: int, col: int)
    requires SourcesOk(td, table, src) && 0 <= row < td.h && 0 <= col < td.w
    requires Frac(col - td.xcenter, TableEntry(td, table, src, row, col)) == 0
    requires Frac(row - td.ycenter, TableEntry(td, table, src, row, col)) == 0
    requires forall i :: 0 <= i < |src| ==> 0 <= src[i] < Pow2(td.depth)
    ensures BilinearValue(td, table, src, row, col) == NearestValue(td, table, src, row, col)
  {
    if SourceValid(td, table, src, row, col) {
      var x, y := SourceX(td, table, src, row, col), SourceY(td, table, src, row, col);
      var nx, ny := Neighbour(x, td.w), Neighbour(y, td.h);
      var s := td.inLinesize;
      IdxBound(y, x, td.h, s);
      IdxBound(y, nx, td.h, s);
      IdxBound(ny, x, td.h, s);
      IdxBound(ny, nx, td.h, s);
      Pow2AtMost16(td.depth);
      ZeroWeightsSelectFirst(src[Idx(y, x, s)], src[Idx(y, nx, s)], src[Idx(ny, x, s)], src[Idx(ny, nx, s)]);
      BilinearUnclipped(td, table, src, row, col);
    }
  }

  /**
   * At a multiplier of exactly 1.0 the bilinear weights are one half (a
   * non-negative offset) or one half less one unit (a negative offset), not
   * zero: the rounding constant `1 << 23` lands in the fraction bits.
   */
  lemma UnitMultiplierHalfWeight(off: int)
    ensures Frac(off, Q24) == if off >= 0 then HALF24 else HALF24 - 1
  {
    if off >= 0 {
      assert Q24 * off + HALF24 == off * Q24 + HALF24;
    } else {
      assert Q24 * -off + HALF24 == (-off) * Q24 + HALF24;
    }
  }

  /**
   * A two-pixel row, zero coefficients and the default centre: the table is
   * all 1.0 and `NEAREST` reproduces the input, yet `BILINEAR` writes 127
   * where the input holds 0: it blends each pixel half-way with its right
   * neighbour.
   */
  lemma BilinearNotIdentityAtZeroCoefficients()
    ensures var td := ThreadData(2, 1, 8, 0, 1, 0, 2, 2);
      var table := [Q24, Q24];
      var src := [0, 255];
      && SourcesOk(td, table, src)
      && IsCorrectionTable(table, 2, 1, 1, 0, 0, 0)
      && NearestValue(td, table, src, 0, 0) == 0
      && BilinearValue(td, table, src, 0, 0) == 127
  {
    var td := ThreadData(2, 1, 8, 0, 1, 0, 2, 2);
    var table := [Q24, Q24];
    var src := [0, 255];
    ZeroCoefficientsGiveUnit(2, 1, 1, 0, 0, 0);
    ZeroCoefficientsGiveUnit(2, 1, 1, 0, 0, 1);
    MapCoordUnit(1, -1);
    MapCoordUnit(0, 0);
    UnitMultiplierHalfWeight(-1);
    UnitMultiplierHalfWeight(0);
    Pow2Values();
    assert BilinearSum(td, table, src, 0, 0) == Blend(HALF24 - 1, HALF24, 0, 255, 0, 255);
  }

  /**
   * With an `int32_t` table entry and an offset inside a plane whose
   * `w * w` fits an `int`, the `int64_t` product and the resulting
   * coordinate fit their C types.
   */
  lemma MapCoordFits(center: int, off: int, rm: int, w: int)
    requires InInt32(rm) && 0 < w && w * w <= INT_MAX
    requires 0 <= center <= w && 0 <= center + off < w
    ensures InInt64(rm * off + HALF24) && InInt64(rm * -off + HALF24)
    ensures InInt32(MapCoord(center, off, rm))
  {
    if w > 46340 {
      MulLe(46341, w, w);
      MulLe(46341, w, 46341);
    }
    MulAbsLe(rm, TWO31, off, 46340);
    assert -(TWO31 * 46340) <= rm * -off <= TWO31 * 46340 by {
      assert rm * -off == -(rm * off);
    }
  }
}
