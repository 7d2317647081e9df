# lenscorrection: a verified model of the lens-distortion correction engine

This project models the core of FFmpeg's `lenscorrection` video filter
(`libavfilter/vf_lenscorrection.c`). The filter undoes radial lens
distortion. For every plane it builds a table of Q24 fixed-point radius
multipliers, one per pixel, and caches it. It then resamples each output
row slice through that table, either with the nearest source sample or with
a bilinear blend of four. Pixels whose source position falls outside the
plane get the fill colour.

The modules follow the structure of the C file:

- `FixedPoint`: the Q-format constants, and the C operations the arithmetic
  relies on. These are arithmetic right shifts (floor division),
  `AV_CEIL_RSHIFT`, `av_clip_uintp2_c`, truncating `double`→`int` casts and
  narrowing stores to `uint8_t`/`uint16_t`.
- `Layout`: the row-major layout `row * stride + col` used by both the
  tables and the frame planes.
- `Correction`: the table formula (`r2inv`, `r2`, `r4`, `radius_mult`) and
  `FillCorrection`, the nested `j`/`i` loop that fills a table in place.
- `Slices`: the row partition `[h*job/n, h*(job+1)/n)` with
  `n = FFMIN(h, threads)`.
- `Resample`:
  - the `NEAREST` and `BILINEAR` slice kernels as methods over an
    `array<int>` output plane;
  - the per-pixel functions that specify them. `TableEntry`, `SourceX`,
    `SourceY` and `SourceValid` are the named pieces of `NearestPixel` and
    `BilinearPixel`: the table read, the two mapped coordinates and the
    validity test (lines 106-109 and 149-152 of the C file);
  - `Execute`, the job loop run sequentially;
  - the properties of the kernels.
- `Lenscorrection`: the filter context as a class. It holds the options, the
  format facts, the fill colour, the four cached table slots and the
  installed slice function. Its methods are `config_props`, `filter_frame`
  (split into its per-plane steps) and `uninit`.

Every intermediate is an unbounded integer. Lemmas show that, in the ranges
the options and formats allow, these values fit the C type they are computed
in:
- `dx²+dy²` of the table formula fits `int`; the products `s * r2inv`,
  `r2 * r2`, `r2 * k1` and `r4 * k2`, the rounded sums and the final sum
  fit `int64_t`; and `radius_mult` fits `int` (`RadiusMultInRange`);
- the slice products `h*job` and `h*(job+1)` fit `int` (`SliceProductsFit`);
- `radius_mult * off` fits `int64_t` and the mapped coordinate fits `int`,
  for every centre column from 0 to `w` (`MapCoordFits`);
- the bilinear `sum + (1 << 47)` fits `uint64_t` (`BlendFitsUint64`).

`w*w + h*h` itself fitting `int` is a precondition (`PlaneSizeOk`), not a
lemma. No other value is claimed to fit its C type.

Three facts about the code are worth stating on their own:

- **With `k1 = k2 = 0` the nearest kernel is the identity and the bilinear
  kernel is not.**
  - The table is all `1 << 24` (`ZeroCoefficientsTable`), and `NEAREST` copies
    the input (`NearestIdentityAtZeroCoefficients`).
  - `BILINEAR` adds the rounding constant `1 << 23` before taking the weights
    `du`, `dv`, so they are one half, or one unit less for a negative
    offset (`UnitMultiplierHalfWeight`).
  - On a two-pixel plane holding 0 and 255 it writes 127 where the input
    holds 0 (`BilinearNotIdentityAtZeroCoefficients`).
- **The table is point-symmetric, `T[y, x] == T[h-1-y, w-1-x]`, when the
  centre is the middle pixel of an odd-sized plane.**
  - The multiplier is always symmetric under reflection through the centre
    pixel (`RadiusMultReflection`); on an odd size with the default centre
    that reflection is `(y, x) -> (h-1-y, w-1-x)` (`CentredTableSymmetric`).
  - On an even size the truncated centre is not the middle, and the
    mirrored entries can differ: on a 2x1 plane with centre column 1 and
    `k1 = 1.0`, column 0 gets a multiplier above `1 << 24` and column 1
    gets exactly `1 << 24` (`EvenSizeNotSymmetric`).
- **A cached table is never discarded or rebuilt.**
  - A slot is filled only when it is null. A later frame with a different
    geometry reuses the old table.
  - `FilterFrame` and `FilterPlane` therefore state the outcome relative to
    whatever table the slot held.
  - They require a cached table to have at least `w * h` entries. Otherwise
    the C code reads past its end.

## Model

| member | source | states |
|---|---|---|
| FixedPoint.ClipUintP2 | libavfilter/vf_lenscorrection.c:170 | the clip result is a `p`-bit value; negative inputs give 0, too-large ones `2^p-1`, in-range ones are unchanged |
| FixedPoint.Store | libavfilter/vf_lenscorrection.c:110 | storing into a `bits`-wide sample gives a value in `[0, 2^bits)` that equals the stored value when it already fits |
| FixedPoint.CeilRshift | libavfilter/vf_lenscorrection.c:281-282 | `AV_CEIL_RSHIFT(a, b)` is the ceiling of `a / 2^b`, and for positive `a` lies in `[1, a]` |
| FixedPoint.TruncToInt | libavfilter/vf_lenscorrection.c:283-286 | the `double`→`int` cast truncates toward zero: it is within one of `x`, on the side of zero |
| Layout.IdxBound | libavfilter/vf_lenscorrection.c:314 | a position inside a `rows x stride` grid has an index inside the buffer |
| Layout.IdxInjective | libavfilter/vf_lenscorrection.c:314 | distinct grid positions have distinct indices, so writes to two pixels never collide |
| Layout.IdxOf | libavfilter/vf_lenscorrection.c:314 | every table index is the index of a grid position |
| Layout.RowBelow | libavfilter/vf_lenscorrection.c:314 | a position whose index lies inside a `rows * stride` buffer is on one of its rows |
| Layout.IdxBoundEveryStride | libavfilter/vf_lenscorrection.c:110 | a position inside a `rows x cols` plane indexes inside the buffer for every stride of at least `cols` |
| Correction.R2Inv | libavfilter/vf_lenscorrection.c:301 | `r2inv` is positive and is the floor of `2^62 / (w²+h²)` |
| Correction.RadiusMult | libavfilter/vf_lenscorrection.c:309-314 | every multiplier fits the 32-bit `radius_mult` |
| Correction.RadiusMultInRange | libavfilter/vf_lenscorrection.c:309-314 | `dx²+dy²` fits `int`; its product with `r2inv` is at most `2^62`; `r2 <= 2^30`; `r4 <= 2^32`; `r2*r2`, `r2*k1`, `r4*k2`, the rounded sums and the final sum fit `int64_t`; the result fits `int` |
| Correction.SquaredOffsetBound | libavfilter/vf_lenscorrection.c:309-311 | a pixel's squared offset from a centre inside the plane is at most `w²+h²` |
| Correction.ZeroCoefficientsGiveUnit | libavfilter/vf_lenscorrection.c:313-314 | with `k1 = k2 = 0` every multiplier is exactly `1 << 24` |
| Correction.ZeroCoefficientsTable | libavfilter/vf_lenscorrection.c:299-317 | the table built with zero coefficients holds `1 << 24` in every entry |
| Correction.TableDeterministic | libavfilter/vf_lenscorrection.c:299-317 | two tables built from the same geometry and coefficients are equal |
| Correction.RadiusMultReflection | libavfilter/vf_lenscorrection.c:309-314 | pixels mirrored through the centre pixel get the same multiplier |
| Correction.CentredTableSymmetric | libavfilter/vf_lenscorrection.c:299-317 | with the centre on the middle pixel of an odd-sized plane, `T[row, col] == T[h-1-row, w-1-col]` |
| Correction.FilledStep | libavfilter/vf_lenscorrection.c:314 | writing one entry at `j * w + i` extends the filled prefix by one entry and keeps the earlier ones |
| Correction.FillCorrection | libavfilter/vf_lenscorrection.c:301-317 | afterwards the `w*h` array holds, at `j * w + i`, the multiplier of pixel `(j, i)`, for every pixel |
| Correction.NormRadius2 | libavfilter/vf_lenscorrection.c:311 | `r2` is `s * r2inv / 2^32` rounded to the nearest integer, halves up |
| Correction.NormRadius4 | libavfilter/vf_lenscorrection.c:312 | `r4` is `r2² / 2^28` rounded to the nearest integer, halves up |
| Correction.Multiplier | libavfilter/vf_lenscorrection.c:313 | the multiplier minus 1.0 (`2^24`) is `(r2*k1 + r4*k2) / 2^28` rounded to the nearest integer, halves up |
| Correction.EvenSizeNotSymmetric | libavfilter/vf_lenscorrection.c:309-314 | on a 2x1 plane with centre column 1 and `k1 = 1.0`, column 1 gets `1 << 24` and column 0 a larger multiplier |
| Slices.SliceStart | libavfilter/vf_lenscorrection.c:94 | `start` is the floor of `h*job/n` and lies in `[0, h]` |
| Slices.SliceEnd | libavfilter/vf_lenscorrection.c:95 | `end` lies in `[0, h]` and is where the next job starts |
| Slices.NbJobs | libavfilter/vf_lenscorrection.c:320 | `nb_jobs` is the smaller of `h` and the thread count, and at least 1 |
| Slices.StartMonotone | libavfilter/vf_lenscorrection.c:94-95 | a later job never starts earlier |
| Slices.SlicesSpanPlane | libavfilter/vf_lenscorrection.c:94-95 | job 0 starts at row 0 and the last job ends at row `h` |
| Slices.SliceBounds | libavfilter/vf_lenscorrection.c:135-136 | each slice is a row range inside the plane, and consecutive slices abut |
| Slices.SliceSizesBalanced | libavfilter/vf_lenscorrection.c:94-95 | every slice has `h / n` or `h / n + 1` rows, so the slices differ in size by at most one row |
| Slices.SlicesDisjoint | libavfilter/vf_lenscorrection.c:94-95 | two different jobs share no row |
| Slices.SliceOfRow | libavfilter/vf_lenscorrection.c:94-95 | every row of the plane belongs to some job |
| Slices.SlicesNonEmpty | libavfilter/vf_lenscorrection.c:320 | with `nb_jobs <= h` no slice is empty |
| Slices.SliceProductsFit | libavfilter/vf_lenscorrection.c:94-95 | with at most `h` jobs and `h*h` within `int`, `h*job` and `h*(job+1)` fit `int` and increase |
| Resample.MapCoord | libavfilter/vf_lenscorrection.c:107-108 | the mapped coordinate is `center` plus `rm * off / 2^24` rounded to the nearest integer, halves up |
| Resample.InPlane | libavfilter/vf_lenscorrection.c:109 | a position passing `NEAREST`'s validity test indexes inside the input plane for every line size of at least `w` |
| Resample.NearestValue | libavfilter/vf_lenscorrection.c:105-110 | an invalid source position gives the fill colour; a valid one gives the input sample at its index, which lies inside the plane |
| Resample.Blend | libavfilter/vf_lenscorrection.c:163-168 | when the four neighbours are equal the blend is `max² * p0`: the weights sum to one |
| Resample.BilinearSum | libavfilter/vf_lenscorrection.c:157-168 | for 16-bit input samples the accumulated `sum + (1 << 47)` fits `uint64_t` |
| Resample.BilinearValue | libavfilter/vf_lenscorrection.c:150-173 | a valid position gives a `depth`-bit value; an invalid one gives the fill colour |
| Resample.Accumulate | libavfilter/vf_lenscorrection.c:163-168 | the four `sum +=` steps compute the blend of the four neighbours |
| Resample.Frac | libavfilter/vf_lenscorrection.c:157-158 | the weights `du`, `dv` lie in `[0, 2^24-1]` |
| Resample.Neighbour | libavfilter/vf_lenscorrection.c:155-156 | `FFMIN(x+1, w-1)` stays inside the plane; it is `x` exactly on the last column and `x+1` otherwise |
| Resample.Sample | libavfilter/vf_lenscorrection.c:117-118 | the sample each kernel instance stores fits its `uint8_t` or `uint16_t` |
| Resample.ResampledStep | libavfilter/vf_lenscorrection.c:104-111 | writing pixel `(i, j)` extends the resampled region by that pixel and leaves every other sample as it was |
| Resample.ResampledNextRow | libavfilter/vf_lenscorrection.c:101 | a row finished at column `w` is the same state as the next row at column 0 |
| Resample.RowsCompose | libavfilter/vf_lenscorrection.c:320 | resampling rows `[lo, m)` and then `[m, hi)` resamples `[lo, hi)` |
| Resample.NearestPixel | libavfilter/vf_lenscorrection.c:105-110 | the value chosen for a pixel is the source sample at its mapped position when that lies in the plane, the fill colour otherwise |
| Resample.NearestSlice | libavfilter/vf_lenscorrection.c:82-114 | rows `[start, end)`, columns `[0, w)` of the output get the nearest sample or the fill colour; every other output sample is unchanged |
| Resample.BilinearPixel | libavfilter/vf_lenscorrection.c:147-173 | the value chosen for a pixel is the rounded, clipped blend of its four clamped neighbours when its position is valid, the fill colour otherwise |
| Resample.BilinearSlice | libavfilter/vf_lenscorrection.c:120-178 | rows `[start, end)`, columns `[0, w)` of the output get the bilinear value; every other output sample is unchanged |
| Resample.Execute | libavfilter/vf_lenscorrection.c:320 | after all `nb_jobs` slices every row of the plane is resampled and nothing outside the plane's `w` columns is changed |
| Resample.MapCoordUnit | libavfilter/vf_lenscorrection.c:107-108 | a multiplier of `1 << 24` maps every offset onto itself |
| Resample.NearestUnitMultiplier | libavfilter/vf_lenscorrection.c:106-110 | where the table holds `1 << 24`, the source position is the pixel itself and `NEAREST` copies the input sample there |
| Resample.NearestIdentityAtZeroCoefficients | libavfilter/vf_lenscorrection.c:106-110 | with `k1 = k2 = 0` the nearest-resampled plane equals the input plane at every pixel |
| Resample.InPlaneInclusive | libavfilter/vf_lenscorrection.c:152 | `BILINEAR`'s inclusive validity test `x <= w-1 && y <= h-1` holds exactly when `NEAREST`'s test of line 109 does |
| Resample.OutsideIsFill | libavfilter/vf_lenscorrection.c:171-173 | a pixel whose source position is invalid gets the fill colour from both kernels |
| Resample.WeightsSum | libavfilter/vf_lenscorrection.c:165-168 | the four weight products add up to `max²` |
| Resample.BlendBound | libavfilter/vf_lenscorrection.c:163-168 | a blend of samples at most `top` is between 0 and `max² * top` |
| Resample.WeightedBound | libavfilter/vf_lenscorrection.c:163-168 | a sum of non-negatively weighted samples at most `top` is between 0 and the weight total times `top` |
| Resample.BlendFitsUint64 | libavfilter/vf_lenscorrection.c:163-170 | for samples below `2^16`, `sum + (1 << 47)` fits `uint64_t` |
| Resample.RoundedBlendInRange | libavfilter/vf_lenscorrection.c:170 | the blend of `depth`-bit samples, rounded with `>> 48`, is a `depth`-bit value |
| Resample.BilinearUnclipped | libavfilter/vf_lenscorrection.c:170 | when input samples fit the depth, the clip never acts and the output is the rounded blend |
| Resample.ZeroWeightsSelectFirst | libavfilter/vf_lenscorrection.c:165-170 | with `du = dv = 0` the rounded blend is exactly `p0` |
| Resample.BilinearMatchesNearest | libavfilter/vf_lenscorrection.c:150-170 | where `du = dv = 0`, the bilinear kernel writes what the nearest kernel writes |
| Resample.UnitMultiplierHalfWeight | libavfilter/vf_lenscorrection.c:157-158 | at multiplier `1 << 24` the weight is `2^23` for a non-negative offset and `2^23 - 1` for a negative one, never 0 |
| Resample.BilinearNotIdentityAtZeroCoefficients | libavfilter/vf_lenscorrection.c:150-170 | a zero-coefficient table on a 2x1 plane where `NEAREST` writes 0 and `BILINEAR` writes 127 |
| Resample.MapCoordFits | libavfilter/vf_lenscorrection.c:106-108 | with an `int32_t` entry and an in-plane offset, the `int64_t` product and the coordinate fit their C types |
| Lenscorrection.SelectKernel | libavfilter/vf_lenscorrection.c:245-247 | the 8-bit kernel is chosen exactly for depth at most 8, bilinear exactly for non-zero `interpolation` |
| Lenscorrection.SelectedKernelHoldsDepth | libavfilter/vf_lenscorrection.c:245-247 | the chosen kernel's sample type is wide enough for the format's depth |
| Lenscorrection.RgbFill | libavfilter/vf_lenscorrection.c:250-253 | slot `rgba_map[k]` of the fill colour is `fill_rgba[k] * factor` for each `k` |
| Lenscorrection.RgbFillOverwritesAll | libavfilter/vf_lenscorrection.c:249-253 | the RGB fill colour does not depend on the previous contents of `fill_color` |
| Lenscorrection.YuvFillFitsDepth | libavfilter/vf_lenscorrection.c:254-259 | with 8-bit converted components and alpha, every slot of the YUV fill colour is a valid `depth`-bit sample |
| Lenscorrection.ScaledComponentFits | libavfilter/vf_lenscorrection.c:239 | `factor = 1 << (depth-8)` carries an 8-bit component to a `depth`-bit value |
| Lenscorrection.RgbFillFitsDepth | libavfilter/vf_lenscorrection.c:249-253 | every slot of the RGB fill colour is a valid `depth`-bit sample |
| Lenscorrection.PlaneSub | libavfilter/vf_lenscorrection.c:279-280 | only planes 1 and 2 take the subsampling shift |
| Lenscorrection.PlaneSizeIsCeiling | libavfilter/vf_lenscorrection.c:281-282 | planes other than 1 and 2 keep the frame size; planes 1 and 2 are `ceil(size / 2^sub)` |
| Lenscorrection.PlaneSize | libavfilter/vf_lenscorrection.c:279-282 | a plane's size is in `[1, size]` and is the least `n` with `n * 2^s >= size`, for the plane's shift `s` |
| Lenscorrection.PixelCenter | libavfilter/vf_lenscorrection.c:283-284 | `cx * w` truncated is a column in `[0, w]`, the floor of the product |
| Lenscorrection.FixedCoefficient | libavfilter/vf_lenscorrection.c:285-286 | `k * (1<<24)` truncated toward zero lies in `[-2^24, 2^24]` |
| Lenscorrection.SubPlaneSizeOk | libavfilter/vf_lenscorrection.c:301 | a subsampled plane keeps `w*w + h*h` within `int` when the full frame does |
| Lenscorrection.PlaneThreadData | libavfilter/vf_lenscorrection.c:278-295 | a plane's size is positive and at most the frame's, and its centre is inside it |
| Lenscorrection.Lenscorrection.constructor | libavfilter/vf_lenscorrection.c:39-54 | a new context holds its options and four null table slots |
| Lenscorrection.Lenscorrection.ConfigProps | libavfilter/vf_lenscorrection.c:227-261 | it sets the depth, subsampling, size and plane count, installs the kernel `SelectKernel` picks for the depth and interpolation and computes the RGB or YUV fill colour; the output size is the input size |
| Lenscorrection.Lenscorrection.PlaneGeometry | libavfilter/vf_lenscorrection.c:278-295 | it gives the plane's size, centre, line sizes and fill colour, and the Q24 coefficients; these meet the table builder's and the kernels' requirements |
| Lenscorrection.Lenscorrection.BuildTable | libavfilter/vf_lenscorrection.c:299-317 | a null slot gets the table built for the plane, or stays null with failure when the allocation fails; a filled slot is kept unchanged; no other slot changes |
| Lenscorrection.Lenscorrection.FilterPlane | libavfilter/vf_lenscorrection.c:278-321 | one plane iteration: on success the slot holds a table (new ones built for this plane) and the output plane is resampled through it, with other planes and slots unchanged; on allocation failure nothing changes |
| Lenscorrection.Lenscorrection.FilterStep | libavfilter/vf_lenscorrection.c:277-321 | one loop pass takes "first `plane` planes done" to "first `plane + 1` done", or stops at an allocation failure of plane `plane` |
| Lenscorrection.Lenscorrection.FilterFrame | libavfilter/vf_lenscorrection.c:263-325 | a failed output allocation gives ENOMEM and changes no slot. Otherwise every plane before the first failed table allocation is resampled, with its slot built or reused, and later planes and slots are unchanged. The result is Ok exactly when no allocation fails. Only the first `nb_planes` output buffers may be modified |
| Lenscorrection.Lenscorrection.Uninit | libavfilter/vf_lenscorrection.c:217-225 | all four table slots are null afterwards |
| Lenscorrection.PlanesDoneStep | libavfilter/vf_lenscorrection.c:277-321 | finishing one more plane extends the "planes done" state by that plane |
| Lenscorrection.FirstFailureIs | libavfilter/vf_lenscorrection.c:299-305 | a plane whose predecessors all have a table, and whose own slot is null with a failing allocation, is the plane where `filter_frame` stops |
| Lenscorrection.FirstFailure | libavfilter/vf_lenscorrection.c:299-305 | the stopping plane has every earlier plane with a table or a successful allocation, and is itself, when below `nb_planes`, a null slot whose allocation fails |

## Left out

- `query_formats`, the option table, and the filter and pad registration
  are not modelled. They are format lists and framework boilerplate. The
  formats and option ranges they impose appear as `FormatOk` and `Valid`.
- The slice thread pool (`ctx->internal->execute`) is modelled as a
  sequential loop over the jobs (`Execute`). `ff_filter_get_nb_threads` is the
  `nbThreads` parameter. Concurrency is not modelled.
- The `double` options are `real`s. `cx * w` and `k * (1 << 24)` are exact
  real products, truncated toward zero. The rounding of the `double`
  multiplication is not modelled.
- `ConfigProps`, `YuvFill`: the BT.709 macros `RGB_TO_Y_BT709`/`RGB_TO_U_BT709`/`RGB_TO_V_BT709`
  live in `colorspace.h`, which is not part of this model. The converted
  colour is the `yuv` parameter, not computed.
- `YuvFill` has no row of its own: its result is the converted colour and
  alpha scaled by `factor`, slot by slot, and with the conversion left out
  the only property left to state is its range (`YuvFillFitsDepth`).
- `av_pix_fmt_desc_get`, `ff_fill_rgba_map` and `av_pix_fmt_count_planes`
  are not part of this model. Their results are the `PixelFormat` argument.
- Frame management is not modelled: `av_frame_copy_props`, `av_frame_free`
  and `ff_filter_frame`.
  - `FilterFrame`: on success the C code returns the status of
    `ff_filter_frame(outlink, out)`; the model returns `Ok` in its place.
  - The result of `ff_get_video_buffer` is the `output` argument, `None`
    when it fails.
  - The success of each `av_malloc_array` is `tableAlloc[plane]`.
- `FilterFrame`: the input frame is an immutable value (`Picture`). The output
  planes are arrays, and byte line sizes are counted in samples (the C code
  divides by `sizeof(type)`). Aliasing between input and output planes is
  therefore not modelled.
- `FilterFrame`, `ThreadDataOk`, `PicturePlanesOk`, `FramePlanesOk`: line
  sizes are taken to be positive and at least the plane width. The C code
  puts no constraint on them; negative line sizes (bottom-up frames) are not
  modelled.
- `FilterFrame`, `FilterPlane`, `BuildTable`: a table slot holds the table's
  contents as a value, not a pointer. A table is never written after it is
  built, so nothing observable is lost, but the pointer identity of
  `td.correction` is not modelled.
- `FilterFrame`, `FilterPlane`: they require a cached table to have at least
  `w * h` entries for the current geometry. The C code does not check this
  and reads past the end of a smaller table.
- `FilterFrame`: requires `w*w + h*h` of the frame to fit `int`
  (`PlaneSizeOk`). The C code would overflow this product for larger frames.
- `Uninit`: `av_freep` is modelled as setting a slot to null. Freeing memory
  is not modelled.
- The memory leak of `in` and `out` on the table-allocation failure path is
  not modelled. Neither frame's lifetime is part of the model.
