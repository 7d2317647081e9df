/**
 * The filter instance: its options, the format facts `config_props` stores,
 * the four cached correction tables, and the three entry points that act on
 * them: `config_props` (kernel dispatch and fill colour), `filter_frame`
 * (per-plane geometry, table build on first use, resampling) and `uninit`.
 * Frame planes are arrays of samples with a line size counted in samples.
 */
module Lenscorrection {
  import opened FixedPoint
  import opened Layout
  import opened Correction
  import opened Slices
  import opened Resample

  datatype Option<T> = None | Some(value: T)

  /** The facts `config_props` takes from the input link's pixel format. */
  datatype PixelFormat = PixelFormat(depth: int, log2ChromaW: int, log2ChromaH: int,
                                     nbPlanes: int, isRgb: bool, rgbaMap: seq<int>)

  /**
   * A format the filter accepts: 8 to 16 bits per sample, one to four
   * planes, and for RGB formats an `rgba_map` that puts each of R, G, B, A
   * in a different component slot.
   */
  predicate FormatOk(f: PixelFormat)
  {
    && 8 <= f.depth <= 16
    && 0 <= f.log2ChromaW && 0 <= f.log2ChromaH
    && 1 <= f.nbPlanes <= 4
    && |f.rgbaMap| == 4
    && (f.isRgb ==>
          (forall k :: 0 <= k < 4 ==> 0 <= f.rgbaMap[k] < 4) &&
          (forall k, l :: 0 <= k < l < 4 ==> f.rgbaMap[k] != f.rgbaMap[l]))
  }

  /** An output frame: one sample buffer and one line size per plane. */
  datatype Frame = Frame(data: seq<array<int>>, linesize: seq<int>)

  /** An input frame, which the filter only reads: the samples and the line size of each plane. */
  datatype Picture = Picture(planes: seq<seq<int>>, linesize: seq<int>)

  datatype Status = Ok | ENoMem

  // ---- config_props ----

  /**
   * The slice function `config_props` installs: the 8-bit kernels for depths
   * up to 8, the 16-bit ones above, bilinear exactly when `interpolation` is
   * non-zero.
   */
  function SelectKernel(depth: int, interpolation: int): (k: SliceKernel)
    ensures KernelBits(k) == (if depth <= 8 then 8 else 16)
    ensures IsBilinear(k) <==> interpolation != 0
  {
    if interpolation != 0 then (if depth <= 8 then Filter8Bilinear else Filter16Bilinear)
    else if depth <= 8 then Filter8 else Filter16
  }

  /** The kernel chosen for a depth of 8 to 16 bits stores samples wide enough for that depth. */
  lemma SelectedKernelHoldsDepth(depth: int, interpolation: int)
    requires 8 <= depth <= 16
    ensures depth <= KernelBits(SelectKernel(depth, interpolation))
    ensures Pow2(depth) <= Pow2(KernelBits(SelectKernel(depth, interpolation)))
  {
    Pow2Monotone(depth, KernelBits(SelectKernel(depth, interpolation)));
  }

  /**
   * The RGB branch of `config_props`: `fill_color[rgba_map[k]] = fill_rgba[k] * factor`
   * for `k = 0, 1, 2, 3` in turn, over the previous `fill_color`.
   */
  function RgbFill(prev: seq<int>, rgba: seq<int>, rgbaMap: seq<int>, factor: int): (fc: seq<int>)
    requires |prev| == 4 && |rgba| == 4 && |rgbaMap| == 4
    requires forall k :: 0 <= k < 4 ==> 0 <= rgbaMap[k] < 4
    requires forall k, l :: 0 <= k < l < 4 ==> rgbaMap[k] != rgbaMap[l]
    ensures |fc| == 4
    ensures forall k :: 0 <= k < 4 ==> fc[rgbaMap[k]] == rgba[k] * factor
  {
    prev[rgbaMap[0] := rgba[0] * factor][rgbaMap[1] := rgba[1] * factor]
        [rgbaMap[2] := rgba[2] * factor][rgbaMap[3] := rgba[3] * factor]
  }

  /** Every slot is overwritten: the RGB fill colour does not depend on the previous one. */
  lemma RgbFillOverwritesAll(p1: seq<int>, p2: seq<int>, rgba: seq<int>, rgbaMap: seq<int>, factor: int)
    requires |p1| == 4 && |p2| == 4 && |rgba| == 4 && |rgbaMap| == 4
    requires forall k :: 0 <= k < 4 ==> 0 <= rgbaMap[k] < 4
    requires forall k, l :: 0 <= k < l < 4 ==> rgbaMap[k] != rgbaMap[l]
    ensures RgbFill(p1, rgba, rgbaMap, factor) == RgbFill(p2, rgba, rgbaMap, factor)
  {
    var f1, f2 := RgbFill(p1, rgba, rgbaMap, factor), RgbFill(p2, rgba, rgbaMap, factor);
    forall c | 0 <= c < 4
      ensures f1[c] == f2[c]
    {
      // four distinct slots among four: `c` is one of them
      if c != rgbaMap[0] && c != rgbaMap[1] && c != rgbaMap[2] {
        assert c == rgbaMap[3];
      }
    }
  }

  /**
   * The YUV branch: the BT.709 luma and chroma of the fill colour (supplied
   * as `yuv`, 8-bit values) and its alpha, each scaled by `factor`.
   */
  function YuvFill(rgba: seq<int>, yuv: seq<int>, factor: int): (fc: seq<int>)
    requires |rgba| == 4 && |yuv| == 3
    ensures |fc| == 4
    ensures forall c :: 0 <= c < 3 ==> fc[c] == yuv[c] * factor
    ensures fc[3] == rgba[3] * factor
  {
    [yuv[0] * factor, yuv[1] * factor, yuv[2] * factor, rgba[3] * factor]
  }

  /** With 8-bit BT.709 components and alpha the scaled YUV fill colour is a valid `depth`-bit sample in every slot. */
  lemma YuvFillFitsDepth(rgba: seq<int>, yuv: seq<int>, depth: int, factor: int)
    requires |rgba| == 4 && |yuv| == 3 && 8 <= depth
    requires factor == Pow2(depth - 8)
    requires forall c :: 0 <= c < 3 ==> 0 <= yuv[c] < 0x100
    requires 0 <= rgba[3] < 0x100
    ensures forall c :: 0 <= c < 4 ==> 0 <= YuvFill(rgba, yuv, factor)[c] < Pow2(depth)
  {
    forall c | 0 <= c < 4
      ensures 0 <= YuvFill(rgba, yuv, factor)[c] < Pow2(depth)
    {
      ScaledComponentFits(if c < 3 then yuv[c] else rgba[3], depth);
    }
  }

  /** `factor = 1 << (depth - 8)` carries an 8-bit component to a `depth`-bit sample. */
  lemma ScaledComponentFits(v: int, depth: int)
    requires 8 <= depth && 0 <= v < 0x100
    ensures 0 <= v * Pow2(depth - 8) < Pow2(depth)
  {
    Pow2Add(8, depth - 8);
    Pow2Values();
    MulLe(v, 0xFF, Pow2(depth - 8));
  }

  /** With 8-bit components the scaled RGB fill colour is a valid `depth`-bit sample in every slot. */
  lemma RgbFillFitsDepth(prev: seq<int>, rgba: seq<int>, rgbaMap: seq<int>, depth: int, factor: int)
    requires |prev| == 4 && |rgba| == 4 && |rgbaMap| == 4 && 8 <= depth
    requires factor == Pow2(depth - 8)
    requires forall k :: 0 <= k < 4 ==> 0 <= rgbaMap[k] < 4
    requires forall k, l :: 0 <= k < l < 4 ==> rgbaMap[k] != rgbaMap[l]
    requires forall k :: 0 <= k < 4 ==> 0 <= rgba[k] < 0x100
    ensures forall c :: 0 <= c < 4 ==> 0 <= RgbFill(prev, rgba, rgbaMap, factor)[c] < Pow2(depth)
  {
    var fc := RgbFill(prev, rgba, rgbaMap, factor);
    forall c | 0 <= c < 4
      ensures 0 <= fc[c] < Pow2(depth)
    {
      var k := if c == rgbaMap[0] then 0 else if c == rgbaMap[1] then 1 else if c == rgbaMap[2] then 2 else 3;
      assert c == rgbaMap[k];
      ScaledComponentFits(rgba[k], depth);
    }
  }

  // ---- per-plane geometry of filter_frame ----

  /** Only the chroma planes 1 and 2 are subsampled. */
  function PlaneSub(plane: int, sub: int): (s: int)
    ensures s == 0 || s == sub
    ensures s == sub <==> (plane == 1 || plane == 2 || sub == 0)
  {
    if plane == 1 || plane == 2 then sub else 0
  }

  /**
   * `AV_CEIL_RSHIFT(size, sub)` for the plane's subsampling: the frame size
   * divided by the plane's subsampling factor, rounded up, at least one.
   */
  function PlaneSize(size: int, sub: int, plane: int): (n: int)
    requires 0 < size && 0 <= sub
    ensures 1 <= n <= size
    ensures (n - 1) * Pow2(PlaneSub(plane, sub)) < size <= n * Pow2(PlaneSub(plane, sub))
  {
    CeilRshift(size, PlaneSub(plane, sub))
  }

  /**
   * Luma and alpha planes have the frame's size; a chroma plane of
   * subsampling `sub` has `ceil(size / 2^sub)` samples.
   */
  lemma PlaneSizeIsCeiling(size: int, sub: int, plane: int)
    requires 0 < size && 0 <= sub
    ensures plane != 1 && plane != 2 ==> PlaneSize(size, sub, plane) == size
    ensures plane == 1 || plane == 2 ==>
              (PlaneSize(size, sub, plane) - 1) * Pow2(sub) < size <= PlaneSize(size, sub, plane) * Pow2(sub)
  {
    if plane != 1 && plane != 2 {
      assert Pow2(0) == 1;
    }
  }

  /** `int xcenter = rect->cx * w`: a centre option in [0, 1] lands on a column in [0, w]. */
  function PixelCenter(c: real, n: int): (r: int)
    requires 0.0 <= c <= 1.0 && 0 <= n
    ensures 0 <= r <= n
    ensures r as real <= c * n as real < r as real + 1.0
  {
    var x := c * n as real;
    RealScaleLe(c, n as real);
    var r := TruncToInt(x);
    assert r as real <= x <= n as real;
    r
  }

  lemma RealScaleLe(c: real, x: real)
    requires 0.0 <= c <= 1.0 && 0.0 <= x
    ensures 0.0 <= c * x <= x
  {
    assert x - c * x == (1.0 - c) * x;
  }

  /** `int k1 = rect->k1 * (1 << 24)`: a coefficient in [-1, 1] becomes a Q24 value in [-2^24, 2^24]. */
  function FixedCoefficient(k: real): (r: int)
    requires -1.0 <= k <= 1.0
    ensures CoefficientOk(r)
    ensures k >= 0.0 ==> r as real <= k * 16777216.0 < r as real + 1.0
    ensures k < 0.0 ==> r as real - 1.0 < k * 16777216.0 <= r as real
  {
    TruncToInt(k * 16777216.0)
  }

  /** A plane no larger than the frame keeps `w * w + h * h` within `int`. */
  lemma SubPlaneSizeOk(width: int, height: int, w: int, h: int)
    requires PlaneSizeOk(width, height)
    requires 0 < w <= width && 0 < h <= height
    ensures PlaneSizeOk(w, h)
  {
    SquareLe(w, width);
    SquareLe(h, height);
  }

  /** The filter: what `LenscorrectionCtx` holds. */
  class Lenscorrection {
    var width: int
    var height: int
    var hsub: int
    var vsub: int
    var depth: int
    var nbPlanes: int
    // the options, fixed once the filter is initialised
    const cx: real
    const cy: real
    const k1: real
    const k2: real
    const interpolation: int
    const fillRgba: seq<int>
    var fillColor: seq<int>
    /**
     * `int32_t *correction[4]`: one cached table per plane, `None` while the
     * pointer is null. A built table is never written again, so a slot holds
     * its contents.
     */
    const correction: array<Option<seq<int>>>
    var filterSlice: Option<SliceKernel>

    /** The option values lie in the ranges the option table declares, and the arrays have four slots. */
    ghost predicate Valid()
      reads this
    {
      && 0.0 <= cx <= 1.0 && 0.0 <= cy <= 1.0
      && -1.0 <= k1 <= 1.0 && -1.0 <= k2 <= 1.0
      && 0 <= interpolation <= 64
      && |fillRgba| == 4 && (forall k :: 0 <= k < 4 ==> 0 <= fillRgba[k] < 0x100)
      && |fillColor| == 4
      && correction.Length == 4
    }

    /** `config_props` has run on a format the filter accepts. */
    ghost predicate Configured()
      reads this
    {
      && Valid()
      && filterSlice == Some(SelectKernel(depth, interpolation))
      && 8 <= depth <= 16
      && 0 < width && 0 < height
      && 0 <= hsub && 0 <= vsub
      && 1 <= nbPlanes <= 4
    }

    /** A fresh instance with its option values and no tables; the other fields are zero, as in the zeroed private context. */
    constructor (cx: real, cy: real, k1: real, k2: real, interpolation: int, fillRgba: seq<int>)
      requires 0.0 <= cx <= 1.0 && 0.0 <= cy <= 1.0
      requires -1.0 <= k1 <= 1.0 && -1.0 <= k2 <= 1.0
      requires 0 <= interpolation <= 64
      requires |fillRgba| == 4 && forall k :: 0 <= k < 4 ==> 0 <= fillRgba[k] < 0x100
      ensures Valid()
      ensures this.cx == cx && this.cy == cy && this.k1 == k1 && this.k2 == k2
      ensures this.interpolation == interpolation && this.fillRgba == fillRgba
      ensures fresh(correction) && correction[..] == [None, None, None, None]
      ensures fillColor == [0, 0, 0, 0] && filterSlice == None
    {
      width, height, hsub, vsub, depth, nbPlanes := 0, 0, 0, 0, 0, 0;
      this.cx, this.cy, this.k1, this.k2 := cx, cy, k1, k2;
      this.interpolation := interpolation;
      this.fillRgba := fillRgba;
      fillColor := [0, 0, 0, 0];
      correction := new Option<seq<int>>[4](_ => None);
      filterSlice := None;
    }

    /**
     * `config_props`: stores the format's depth, subsampling and plane count
     * and the link size, installs the slice function and computes the fill
     * colour of every component at the format's depth. `yuv` is the BT.709
     * conversion of the fill colour, used for non-RGB formats. Returns the
     * output size, which is the input size.
     */
    method ConfigProps(fmt: PixelFormat, inW: int, inH: int, yuv: seq<int>) returns (outW: int, outH: int)
      requires Valid() && FormatOk(fmt)
      requires 0 < inW && 0 < inH
      requires |yuv| == 3
      modifies this
      ensures Configured()
      ensures outW == inW && outH == inH
      ensures width == inW && height == inH
      ensures depth == fmt.depth && hsub == fmt.log2ChromaW && vsub == fmt.log2ChromaH
      ensures nbPlanes == fmt.nbPlanes
      ensures filterSlice == Some(SelectKernel(fmt.depth, interpolation))
      ensures fillColor == if fmt.isRgb then RgbFill(old(fillColor), fillRgba, fmt.rgbaMap, Pow2(fmt.depth - 8))
                           else YuvFill(fillRgba, yuv, Pow2(fmt.depth - 8))
    {
      var factor := Pow2(fmt.depth - 8);
      var slice := if fmt.depth <= 8 then Filter8 else Filter16;
      if interpolation != 0 {
        slice := if fmt.depth <= 8 then Filter8Bilinear else Filter16Bilinear;
      }
      var fc := if fmt.isRgb then RgbFill(fillColor, fillRgba, fmt.rgbaMap, factor)
                else YuvFill(fillRgba, yuv, factor);
      depth, hsub, vsub := fmt.depth, fmt.log2ChromaW, fmt.log2ChromaH;
      width, height := inW, inH;
      nbPlanes := fmt.nbPlanes;
      filterSlice := Some(slice);
      fillColor := fc;
      outW, outH := width, height;
    }

    /** The `ThreadData` `filter_frame` builds for plane `p` of the given frames. */
    ghost function PlaneData(p: int, input: Picture, output: Frame): ThreadData
      reads this
      requires Configured() && 0 <= p < 4
      requires p < |input.linesize| && p < |output.linesize|
    {
      PlaneThreadData(width, height, hsub, vsub, depth, fillColor[p], cx, cy, p,
                      input.linesize[p], output.linesize[p])
    }

    /** The `ThreadData` of each of the `nbPlanes` planes. */
    ghost function Geometry(input: Picture, output: Frame): (g: seq<ThreadData>)
      reads this
      requires Configured()
      requires nbPlanes <= |input.linesize| && nbPlanes <= |output.linesize|
    {
      seq(nbPlanes, p requires Configured() && 0 <= p < nbPlanes
                      requires p < |input.linesize| && p < |output.linesize|
                      reads this => PlaneData(p, input, output))
    }

    /**
     * Each of the first `nbPlanes` planes of `pic` holds a plane of its size,
     * line size at least its width, and samples of the kernel's `uint8_t` or
     * `uint16_t` type.
     */
    ghost predicate PicturePlanesOk(pic: Picture)
      reads this
      requires Configured()
    {
      && nbPlanes <= |pic.planes| && nbPlanes <= |pic.linesize|
      && forall p :: 0 <= p < nbPlanes ==>
           PlaneSize(width, hsub, p) <= pic.linesize[p] &&
           PlaneSize(height, vsub, p) * pic.linesize[p] <= |pic.planes[p]| &&
           forall i :: 0 <= i < |pic.planes[p]| ==>
             0 <= pic.planes[p][i] < Pow2(KernelBits(SelectKernel(depth, interpolation)))
    }

    /** Each of the first `nbPlanes` buffers of `f` holds a plane of its size, line size at least its width. */
    ghost predicate FramePlanesOk(f: Frame)
      reads this
      requires Configured()
    {
      && nbPlanes <= |f.data| && nbPlanes <= |f.linesize|
      && forall p :: 0 <= p < nbPlanes ==>
           PlaneSize(width, hsub, p) <= f.linesize[p] &&
           PlaneSize(height, vsub, p) * f.linesize[p] <= f.data[p].Length
    }

    /**
     * The per-plane set-up of `filter_frame`: the plane's size (the chroma
     * planes 1 and 2 subsampled, rounding up), its centre, the fixed-point
     * coefficients and the line sizes.
     */
    method PlaneGeometry(plane: int, input: Picture, out: Frame) returns (td: ThreadData, k1i: int, k2i: int)
      requires Configured() && PlaneSizeOk(width, height)
      requires 0 <= plane < nbPlanes
      requires PicturePlanesOk(input) && FramePlanesOk(out)
      ensures td == PlaneData(plane, input, out)
      ensures k1i == FixedCoefficient(k1) && k2i == FixedCoefficient(k2)
      ensures TableArgsOk(td.w, td.h, td.xcenter, td.ycenter, k1i, k2i)
      ensures td.w == PlaneSize(width, hsub, plane) && td.h == PlaneSize(height, vsub, plane)
      ensures ThreadDataOk(td) && td.h * td.inLinesize <= |input.planes[plane]|
      ensures td.h * td.outLinesize <= out.data[plane].Length
    {
      var hs := if plane == 1 || plane == 2 then hsub else 0;
      var vs := if plane == 1 || plane == 2 then vsub else 0;
      var w := CeilRshift(width, hs);
      var h := CeilRshift(height, vs);
      PlaneSizeIsCeiling(width, hsub, plane);
      PlaneSizeIsCeiling(height, vsub, plane);
      var xcenter := PixelCenter(cx, w);
      var ycenter := PixelCenter(cy, h);
      k1i := FixedCoefficient(k1);
      k2i := FixedCoefficient(k2);
      SubPlaneSizeOk(width, height, w, h);
      td := ThreadData(w, h, depth, fillColor[plane], xcenter, ycenter,
                       input.linesize[plane], out.linesize[plane]);
      assert w == PlaneSize(width, hsub, plane) && h == PlaneSize(height, vsub, plane);
      assert td == PlaneThreadData(width, height, hsub, vsub, depth, fillColor[plane], cx, cy, plane,
                                   input.linesize[plane], out.linesize[plane]);
    }

    /**
     * The table step of `filter_frame` for one plane: an empty slot gets a
     * new table built for the plane `td` describes, unless the allocation
     * fails (`canAlloc` false), which leaves the slot empty and returns
     * false; a filled slot is kept as it is.
     */
    method BuildTable(plane: int, td: ThreadData, k1i: int, k2i: int, canAlloc: bool) returns (ok: bool)
      requires Valid() && 0 <= plane < 4
      requires TableArgsOk(td.w, td.h, td.xcenter, td.ycenter, k1i, k2i)
      requires correction[plane].Some? ==> td.w * td.h <= |correction[plane].value|
      modifies correction
      ensures ok <==> old(correction[plane]).Some? || canAlloc
      ensures !ok ==> correction[..] == old(correction[..])
      ensures ok ==> correction[..] == old(correction[..])[plane := correction[plane]]
      ensures ok ==> correction[plane].Some? && td.w * td.h <= |correction[plane].value|
      ensures old(correction[plane]).Some? ==> correction[plane] == old(correction[plane])
      ensures ok && old(correction[plane]).None? ==> BuiltFor(correction[plane].value, td, k1i, k2i)
    {
      ok := true;
      if correction[plane].None? {
        if !canAlloc {
          return false;
        }
        var t := new int[td.w * td.h];
        FillCorrection(t, td.w, td.h, td.xcenter, td.ycenter, k1i, k2i);
        correction[plane] := Some(t[..]);
      }
    }

    /**
     * One iteration of `filter_frame`'s plane loop: the plane's geometry, its
     * table (built into a new array when the slot is empty and `canAlloc`
     * says the allocation succeeds) and the resampling of the plane. Returns
     * false on the allocation failure, having changed nothing.
     */
    method FilterPlane(plane: int, input: Picture, out: Frame, nbThreads: int, canAlloc: bool) returns (ok: bool)
      requires Configured() && PlaneSizeOk(width, height)
      requires 0 <= plane < nbPlanes && 0 < nbThreads
      requires PicturePlanesOk(input) && FramePlanesOk(out)
      requires forall q :: 0 <= q < nbPlanes && q != plane ==> out.data[q] != out.data[plane]
      requires correction[plane].Some? ==>
                 PlaneSize(width, hsub, plane) * PlaneSize(height, vsub, plane) <= |correction[plane].value|
      modifies correction, out.data[plane]
      ensures ok <==> old(correction[plane]).Some? || canAlloc
      ensures !ok ==> correction[..] == old(correction[..]) &&
                      Contents(out.data, nbPlanes) == old(Contents(out.data, nbPlanes))
      ensures ok ==> correction[..] == old(correction[..])[plane := correction[plane]]
      ensures ok ==> Contents(out.data, nbPlanes) == old(Contents(out.data, nbPlanes))[plane := out.data[plane][..]]
      ensures old(correction[plane]).Some? ==> correction[plane] == old(correction[plane])
      ensures ok && old(correction[plane]).None? ==>
                correction[plane].Some? &&
                BuiltFor(correction[plane].value, PlaneData(plane, input, out), FixedCoefficient(k1), FixedCoefficient(k2))
      ensures ok ==>
                correction[plane].Some? &&
                PlaneDone(filterSlice.value, PlaneData(plane, input, out), correction[plane].value,
                          input.planes[plane], out.data[plane][..], old(out.data[plane][..]))
    {
      var td, k1i, k2i := PlaneGeometry(plane, input, out);
      ok := BuildTable(plane, td, k1i, k2i, canAlloc);
      if ok {
        Execute(filterSlice.value, td, correction[plane].value, input.planes[plane], out.data[plane],
                NbJobs(td.h, nbThreads));
      }
    }

    /**
     * One pass of `filter_frame`'s plane loop, stated as the progress it
     * makes: with the first `plane` planes done, it does plane `plane` too,
     * or, when the table allocation fails, leaves everything as it was.
     */
    method FilterStep(plane: int, input: Picture, out: Frame, nbThreads: int, tableAlloc: seq<bool>,
                      ghost slots0: seq<Option<seq<int>>>, ghost dsts0: seq<seq<int>>) returns (ok: bool)
      requires Configured() && PlaneSizeOk(width, height)
      requires 0 <= plane < nbPlanes && 0 < nbThreads
      requires PicturePlanesOk(input) && FramePlanesOk(out)
      requires forall p, q :: 0 <= p < q < nbPlanes ==> out.data[p] != out.data[q]
      requires |slots0| == 4 && |tableAlloc| == 4
      requires forall p :: 0 <= p < plane ==> slots0[p].Some? || tableAlloc[p]
      requires forall p :: 0 <= p < nbPlanes && slots0[p].Some? ==>
                 PlaneSize(width, hsub, p) * PlaneSize(height, vsub, p) <= |slots0[p].value|
      requires PlanesDone(filterSlice.value, Geometry(input, out), FixedCoefficient(k1), FixedCoefficient(k2),
                          input.planes, slots0, correction[..], dsts0, Contents(out.data, nbPlanes), plane)
      modifies correction, out.data[plane]
      ensures ok ==> forall p :: 0 <= p < plane + 1 ==> slots0[p].Some? || tableAlloc[p]
      ensures !ok ==> slots0[plane].None? && !tableAlloc[plane]
      ensures PlanesDone(filterSlice.value, Geometry(input, out), FixedCoefficient(k1), FixedCoefficient(k2),
                         input.planes, slots0, correction[..], dsts0, Contents(out.data, nbPlanes),
                         if ok then plane + 1 else plane)
    {
      ghost var slots, dsts := correction[..], Contents(out.data, nbPlanes);
      ok := FilterPlane(plane, input, out, nbThreads, tableAlloc[plane]);
      if ok {
        PlanesDoneStep(filterSlice.value, Geometry(input, out), FixedCoefficient(k1), FixedCoefficient(k2),
                       input.planes, slots0, slots, dsts0, dsts, plane, correction[plane], out.data[plane][..]);
      }
    }

    /**
     * `filter_frame`. `output` is the frame `ff_get_video_buffer` returns,
     * `None` when it fails; `tableAlloc[p]` says whether allocating the table
     * of plane `p` succeeds. For each plane in turn, the table is built if
     * its slot is empty (a cached table is used as it is, whatever geometry
     * it was built for) and the plane is resampled through it. A failed
     * allocation ends the call with `ENoMem`, the earlier planes done.
     */
    method FilterFrame(input: Picture, output: Option<Frame>, nbThreads: int, tableAlloc: seq<bool>)
      returns (st: Status)
      requires Configured() && PlaneSizeOk(width, height)
      requires 0 < nbThreads && |tableAlloc| == 4
      requires PicturePlanesOk(input)
      requires output.Some? ==> FramePlanesOk(output.value)
      requires output.Some? ==> forall p, q :: 0 <= p < q < nbPlanes ==>
                 output.value.data[p] != output.value.data[q]
      requires forall p :: 0 <= p < nbPlanes && correction[p].Some? ==>
                 PlaneSize(width, hsub, p) * PlaneSize(height, vsub, p) <= |correction[p].value|
      modifies correction, if output.Some? && nbPlanes <= |output.value.data| then output.value.data[..nbPlanes] else []
      ensures output.None? ==> st == ENoMem && unchanged(correction)
      ensures output.Some? ==>
                var done := FirstFailure(old(correction[..]), tableAlloc, nbPlanes);
                && (st == Ok <==> done == nbPlanes)
                && PlanesDone(filterSlice.value, Geometry(input, output.value),
                              FixedCoefficient(k1), FixedCoefficient(k2), input.planes,
                              old(correction[..]), correction[..],
                              old(Contents(output.value.data, nbPlanes)), Contents(output.value.data, nbPlanes), done)
    {
      if output.None? {
        return ENoMem;
      }
      var out := output.value;
      ghost var slots0, dsts0 := correction[..], Contents(out.data, nbPlanes);
      var plane := 0;
      st := Ok;
      while plane < nbPlanes && st == Ok
        invariant 0 <= plane <= nbPlanes
        invariant forall p :: 0 <= p < plane ==> slots0[p].Some? || tableAlloc[p]
        invariant st != Ok ==> st == ENoMem && plane < nbPlanes && slots0[plane].None? && !tableAlloc[plane]
        invariant PlanesDone(filterSlice.value, Geometry(input, out), FixedCoefficient(k1), FixedCoefficient(k2),
                             input.planes, slots0, correction[..], dsts0, Contents(out.data, nbPlanes), plane)
        decreases nbPlanes - plane, if st == Ok then 1 else 0
      {
        var ok := FilterStep(plane, input, out, nbThreads, tableAlloc, slots0, dsts0);
        if ok {
          plane := plane + 1;
        } else {
          st := ENoMem;
        }
      }
      FirstFailureIs(slots0, tableAlloc, nbPlanes, plane);
    }

    /** `uninit`: frees the four table slots and leaves them empty. */
    method Uninit()
      requires Valid()
      modifies correction
      ensures correction[..] == [None, None, None, None]
    {
      var i := 0;
      while i < correction.Length
        invariant 0 <= i <= correction.Length
        invariant forall p :: 0 <= p < i ==> correction[p].None?
      {
        correction[i] := None;
        i := i + 1;
      }
    }
  }

  /** The `ThreadData` of plane `p`: its size, the centre scaled to it, and the frames' line sizes. */
  function PlaneThreadData(width: int, height: int, hsub: int, vsub: int, depth: int, fill: int,
                           cx: real, cy: real, p: int, inLinesize: int, outLinesize: int): (td: ThreadData)
    requires 0 < width && 0 < height && 0 <= hsub && 0 <= vsub
    requires 0.0 <= cx <= 1.0 && 0.0 <= cy <= 1.0
    ensures 0 < td.w <= width && 0 < td.h <= height
    ensures CenterOk(td.w, td.h, td.xcenter, td.ycenter)
  {
    PlaneSizeIsCeiling(width, hsub, p);
    PlaneSizeIsCeiling(height, vsub, p);
    var w, h := PlaneSize(width, hsub, p), PlaneSize(height, vsub, p);
    ThreadData(w, h, depth, fill, PixelCenter(cx, w), PixelCenter(cy, h), inLinesize, outLinesize)
  }

  /** What the first `n` buffers of `data` hold. */
  ghost function Contents(data: seq<array<int>>, n: int): seq<seq<int>>
    requires 0 <= n <= |data|
    reads data
  {
    seq(n, p requires 0 <= p < n <= |data| reads data => data[p][..])
  }

  /**
   * The outcome of `filter_frame` after its first `done` planes, as values:
   * `slots0`/`slots` are the table slots before and after, `dsts0`/`dsts`
   * the output planes before and after, `tds` the planes' geometry. Each
   * plane below `done` holds its source resampled through its slot's table,
   * a slot that was empty now holds the table built for its plane, and
   * nothing else has changed.
   */
  ghost predicate PlanesDone(k: SliceKernel, tds: seq<ThreadData>, k1: int, k2: int, srcs: seq<seq<int>>,
                             slots0: seq<Option<seq<int>>>, slots: seq<Option<seq<int>>>,
                             dsts0: seq<seq<int>>, dsts: seq<seq<int>>, done: int)
  {
    && 0 <= done <= |tds| <= |srcs|
    && |tds| <= |slots0| == |slots|
    && |dsts0| == |dsts| == |tds|
    && (forall p :: 0 <= p < done ==>
          && slots[p].Some?
          && PlaneDone(k, tds[p], slots[p].value, srcs[p], dsts[p], dsts0[p])
          && (slots0[p].None? ==> BuiltFor(slots[p].value, tds[p], k1, k2)))
    && (forall p :: 0 <= p < |slots| && (slots0[p].Some? || done <= p) ==> slots[p] == slots0[p])
    && (forall p :: done <= p < |dsts| ==> dsts[p] == dsts0[p])
  }

  /** One more plane done: its slot now holds `s` and its output `d`. */
  lemma PlanesDoneStep(k: SliceKernel, tds: seq<ThreadData>, k1: int, k2: int, srcs: seq<seq<int>>,
                       slots0: seq<Option<seq<int>>>, slots: seq<Option<seq<int>>>,
                       dsts0: seq<seq<int>>, dsts: seq<seq<int>>, done: int,
                       s: Option<seq<int>>, d: seq<int>)
    requires PlanesDone(k, tds, k1, k2, srcs, slots0, slots, dsts0, dsts, done) && done < |tds|
    requires s.Some? && (slots0[done].Some? ==> s == slots0[done])
    requires PlaneDone(k, tds[done], s.value, srcs[done], d, dsts[done])
    requires slots0[done].None? ==> BuiltFor(s.value, tds[done], k1, k2)
    ensures PlanesDone(k, tds, k1, k2, srcs, slots0, slots[done := s], dsts0, dsts[done := d], done + 1)
  {
  }

  /** `t` is the correction table of the plane `td` describes, for coefficients `k1`, `k2`. */
  ghost predicate BuiltFor(t: seq<int>, td: ThreadData, k1: int, k2: int)
  {
    && TableArgsOk(td.w, td.h, td.xcenter, td.ycenter, k1, k2)
    && IsCorrectionTable(t, td.w, td.h, td.xcenter, td.ycenter, k1, k2)
  }

  /** `dst` holds `src` resampled by kernel `k` through `table` on every row; `before` is what it held. */
  ghost predicate PlaneDone(k: SliceKernel, td: ThreadData, table: seq<int>, src: seq<int>, dst: seq<int>,
                            before: seq<int>)
  {
    && SourcesOk(td, table, src)
    && RowsResampled(dst, before, k, td, table, src, 0, td.h)
  }

  /** `f` is the first failure when every plane before it succeeds and it fails (or is `n`). */
  lemma {:induction false} FirstFailureIs(slots: seq<Option<seq<int>>>, alloc: seq<bool>, n: int, f: int)
    requires 0 <= f <= n <= |slots| && n <= |alloc|
    requires forall p :: 0 <= p < f ==> slots[p].Some? || alloc[p]
    requires f < n ==> slots[f].None? && !alloc[f]
    ensures FirstFailure(slots, alloc, n) == f
    decreases n
  {
    if n > 0 {
      FirstFailureIs(slots, alloc, n - 1, if f < n then f else n - 1);
    }
  }

  /**
   * The plane at which `filter_frame` stops for want of memory: the first of
   * the first `n` planes whose table slot is empty and whose allocation
   * fails, or `n` when there is none.
   */
  function FirstFailure(slots: seq<Option<seq<int>>>, alloc: seq<bool>, n: int): (f: int)
    requires 0 <= n <= |slots| && n <= |alloc|
    ensures 0 <= f <= n
    ensures f < n ==> slots[f].None? && !alloc[f]
    ensures forall p :: 0 <= p < f ==> slots[p].Some? || alloc[p]
  {
    if n == 0 then 0
    else if FirstFailure(slots, alloc, n - 1) < n - 1 then FirstFailure(slots, alloc, n - 1)
    else if slots[n - 1].None? && !alloc[n - 1] then n - 1
    else n
  }
}
