# Vada Perfection Index: the analysis core in Dafny

This project models `rate_my_vada`, the function that scores a photograph
of a vada. It segments the vada from the background with GrabCut and finds
its hole inside the segmented region. It then measures size, roundness,
hole size and golden-brown colour, and combines the four sub-scores with
fixed weights into the Standardized Vada Perfection Index (VPI-S, 0 to 100).

The model is pure, as the source is. The function is straight-line code over
whole-array operations and guarded arithmetic. Masks are grids of 8-bit
values (`seq<seq<Byte>>`), scores are exact `real`s, and contours are values
whose area, enclosing-circle radius and perimeter are given non-negative
reals. OpenCV's algorithms and the file system are the fields of a `Vision`
record of total functions. Every property holds whatever those functions
compute.

Modules:

- `Grids`: byte grids, `CountNonZero`, and the counting facts (a bound, sub-masks, disjoint unions).
- `OpenCvOps`: the whole-array OpenCV operations the masks are built from (bitwise AND with and without a mask, `bitwise_not`, `THRESH_BINARY`, `inRange`) and the 8-bit AND and NOT.
- `Contours`: contours and Python's `max(..., key=cv2.contourArea)`.
- `Scoring`: the four guarded sub-scores, the weights and VPI-S.
- `VadaAnalysis`: the `Vision` record, the GrabCut seed rectangle, trimap collapse, hole and golden-brown masks, segmentation, measurement and `RateMyVada`.
- `Wrappers`: `Option`, for the function's `None` results.

Three consequences of the code that a reader of the scores should know:

- Gray level 50 itself is a hole pixel. `THRESH_BINARY` sets only values strictly above 50, so after the inversion every object pixel at or below 50 is in the hole mask (`HoleMask`).
- `net_area` is never negative. The hole mask is clipped to the object mask, so `net_area` is exactly the number of object pixels brighter than 50 (`MeasureCounts`).
- The golden-brown count ANDs the colour mask with the whole filled object, holes included, while `net_area` excludes the holes. So `rho_gb` can exceed 1. When `net_area > 0`, `S_color` is at least 0.3 exactly when the brown count is at most `net_area`. When `net_area` is 0 (every object pixel at or below gray level 50), `rho_gb` falls back to 0 and `S_color` is 0.7 whatever the brown count (`ColorScoreOfCounts`).

## Model

| member | source | states |
|---|---|---|
| `Grids.CountNonZeroBound` | vada_analysis.py:60 | an h by w mask has at most h·w nonzero pixels |
| `Grids.CountSubMask` | vada_analysis.py:60 | a mask contained in another never has more nonzero pixels |
| `Grids.CountDisjointUnion` | vada_analysis.py:60 | when a mask is split into two disjoint parts, its count is the sum of their counts |
| `Grids.CountNonZeroZero` | vada_analysis.py:60 | `CountNonZero` (OpenCV `countNonZero`) is 0 exactly when every pixel is 0 |
| `OpenCvOps.BitAnd` | vada_analysis.py:69 | 8-bit AND: no larger than either operand, idempotent, and AND with an all-ones value (255) returns the other operand |
| `OpenCvOps.MaskValueAllOnes` | vada_analysis.py:42 | the mask value 255 is all ones in binary |
| `OpenCvOps.NotBits` | vada_analysis.py:45 | the digit-by-digit complement of the low `n` binary digits of `x`, for `x < 2^n`, is `2^n − 1 − x` |
| `OpenCvOps.BitNot` | vada_analysis.py:45 | the 8-bit complement is 255 − x |
| `OpenCvOps.MaskedCopy` | vada_analysis.py:43-46 | `bitwise_and(src, src, mask=m)` has `src`'s shape and keeps each pixel where the mask is nonzero, 0 elsewhere |
| `OpenCvOps.ThresholdBinary` | vada_analysis.py:44 | every output pixel is 0 or `maxval`; with a nonzero `maxval`, nonzero exactly where the input is strictly above the threshold |
| `OpenCvOps.BitwiseNot` | vada_analysis.py:45 | each output pixel and its input pixel sum to 255 |
| `OpenCvOps.BitwiseNotInvolution` | vada_analysis.py:45 | complementing twice gives the grid back |
| `OpenCvOps.BitwiseAnd` | vada_analysis.py:69 | each output pixel is at most both inputs; on two 0/255 masks the output is a 0/255 mask set exactly where both are set |
| `OpenCvOps.InRange` | vada_analysis.py:68 | a 0/255 mask of the input's shape, set exactly where all three channels lie in their inclusive bounds |
| `Contours.EnclosingDiameter` | vada_analysis.py:57-58 | the enclosing-circle diameter is twice the radius, so it is non-negative and at least the radius |
| `Contours.MaxAreaIndex` | vada_analysis.py:38 | on a non-empty list, an index whose area is maximal, and the first such index (Python's `max` keeps the earlier element on ties) |
| `Contours.LargestByArea` | vada_analysis.py:36-38 | `None` exactly on an empty list; otherwise an element of the list of maximal area, the first one of that area (`IsFirstLargest`) |
| `Scoring.SizeScore` | vada_analysis.py:59 | `S_size · width = D_avg`; non-negative; above 1 exactly when `D_avg` exceeds the width (no clamping) |
| `Scoring.ShapeScore` | vada_analysis.py:61-62 | 0 when the perimeter is not positive; otherwise `S_shape · perimeter² = 4π·net_area`; non-negative when `net_area ≥ 0`; positive when both are positive |
| `Scoring.HoleScore` | vada_analysis.py:63 | 0 when `D_avg ≤ 0`; otherwise `S_hole · D_avg = D_avg − D_hole`, at most 1, equal to 1 exactly when `D_hole = 0`, and non-negative when `D_hole ≤ D_avg` |
| `Scoring.GoldenBrownRatio` | vada_analysis.py:70 | 0 when `net_area ≤ 0`; otherwise `rho_gb · net_area = brown_pixels`; never negative; at most 1 when `brown_pixels ≤ net_area` |
| `Scoring.ColorScore` | vada_analysis.py:64-71 | `S_color ≤ 1`, equal to 1 exactly when `rho_gb = 0.3`; at least 0.3 for `rho_gb` in [0, 1]; negative exactly when `rho_gb` is outside [−0.7, 1.3] (no clamping) |
| `Scoring.ColorScoreFavoursIdeal` | vada_analysis.py:71 | a ratio closer to 0.3 never gets a lower colour score |
| `Scoring.ColorScoreOfCounts` | vada_analysis.py:70-71 | `S_color` is 0.7 when `net_area ≤ 0`; when `net_area > 0` it is at least 0.3 exactly when `brown_pixels ≤ net_area` |
| `Scoring.RatioAtMostOne` | vada_analysis.py:70 | with a positive denominator, a ratio is at most 1 exactly when its numerator is at most its denominator |
| `Scoring.WeightsSumToOne` | vada_analysis.py:74 | the weights 0.01, 0.4, 0.3 and 0.29 sum to 1 |
| `Scoring.Vpi` | vada_analysis.py:74-75 | four equal sub-scores `x` give a VPI-S of `100·x` |
| `Scoring.VpiOfPerfectScores` | vada_analysis.py:74-75 | four sub-scores of 1 give a VPI-S of exactly 100 |
| `Scoring.VpiBounds` | vada_analysis.py:74-75 | sub-scores in [0, 1] give a VPI-S in [0, 100] |
| `Scoring.VpiMonotone` | vada_analysis.py:74-75 | raising sub-scores (none lowered) never lowers VPI-S |
| `Scoring.VpiSensitivity` | vada_analysis.py:74-75 | a change `d` in one sub-score moves VPI-S by exactly d, 40d, 30d or 29d (size, shape, hole, colour) |
| `VadaAnalysis.Height` | vada_analysis.py:26 | a decoded image has at least one row |
| `VadaAnalysis.Width` | vada_analysis.py:26 | a decoded image has at least one column, so `D_avg / img_width` never divides by zero |
| `VadaAnalysis.SeedRect` | vada_analysis.py:32 | origin and extent are the truncations of a tenth and of four fifths of each dimension; the rectangle lies inside the image with at least a tenth of it, and at least one pixel, to its right and below; it is empty exactly on an image one pixel wide or tall |
| `VadaAnalysis.Trimap` | vada_analysis.py:29-33 | GrabCut's label grid has the image's height and width |
| `VadaAnalysis.CollapseTrimap` | vada_analysis.py:34 | every output cell is 0 or 1; 0 exactly for definite or probable background (labels 0, 2); labels 1 and 3 give 1 |
| `VadaAnalysis.ForegroundMask` | vada_analysis.py:33-34 | the collapsed foreground mask has the image's height and width |
| `VadaAnalysis.GrayImage` | vada_analysis.py:25 | the gray view has the image's height and width |
| `VadaAnalysis.HsvImage` | vada_analysis.py:65 | the HSV view has the image's height and width |
| `VadaAnalysis.ObjectMask` | vada_analysis.py:41-42 | `vada_mask` is an image-sized 0/255 mask, set exactly where the filled outer contour covers the pixel |
| `VadaAnalysis.SolidMask` | vada_analysis.py:43-44 | `hole_thresh` is a 0/255 mask inside the object, set exactly on object pixels with gray level above 50 |
| `VadaAnalysis.HoleMask` | vada_analysis.py:45-46 | `hole_mask` is a 0/255 mask set exactly on object pixels with gray level at most 50; it lies inside the object, and the object is its disjoint union with `hole_thresh` |
| `VadaAnalysis.GoldenBrownMask` | vada_analysis.py:66-69 | set exactly on object pixels (holes included) whose HSV lies in [10..30]×[80..255]×[50..200]; lies inside the object |
| `VadaAnalysis.Segment` | vada_analysis.py:29-54 | fails exactly when the foreground mask has no external contour. On success: the outer contour is the first largest-area one and the object mask is its filling; the hole mask is the object's dark pixels (gray level 50 or less); the hole contour is absent exactly when the hole mask has no contour, and otherwise is the first largest-area one |
| `VadaAnalysis.HoleDiameter` | vada_analysis.py:49-54 | `D_hole` is 0 without a hole contour, otherwise twice its enclosing radius; never negative |
| `VadaAnalysis.Measure` | vada_analysis.py:55-69 | the width is the image's; `D_avg` is twice the outer radius; `D_hole` is the hole diameter; the perimeter is the outer contour's; `net_area` is the object count minus the hole count; `brown_pixels` is the number of pixels of the golden-brown mask ANDed with the object, so it never exceeds the object count |
| `VadaAnalysis.SubScoresOf` | vada_analysis.py:59-71 | `S_size · width = D_avg`; `S_shape · perimeter² = 4π·net_area` for a positive perimeter, else 0; `S_hole · D_avg = D_avg − D_hole` for a positive `D_avg`, else 0; `S_color` is the colour score of `rho_gb`, which is `brown_pixels / net_area`, or 0 when `net_area ≤ 0` |
| `VadaAnalysis.MeasureCounts` | vada_analysis.py:41-69 | `net_area` equals the number of object pixels brighter than 50, so `0 ≤ net_area ≤ count(object) ≤ h·w`, and `brown_pixels ≤ count(object)` |
| `VadaAnalysis.ScoresOfSegmentation` | vada_analysis.py:55-71 | for a successful segmentation, each sub-score is its scoring function applied to the segmentation's own measures (`net_area` as the bright-object-pixel count), and the four sub-score bounds hold |
| `VadaAnalysis.Analyze` | vada_analysis.py:35-71 | fails exactly when no outer contour is found; otherwise each sub-score is its scoring function applied to the segmentation: `S_size` of twice the outer radius over the width, `S_shape` of the bright-object-pixel count and the outer perimeter, `S_hole` of the two enclosing diameters, `S_color` of the golden-brown count over the bright-object-pixel count; and `S_size ≥ 0`, `S_shape ≥ 0`, `S_hole ≤ 1`, `S_color ≤ 1` |
| `VadaAnalysis.SolidVadaHasFullHoleScore` | vada_analysis.py:49-63 | with no hole contour and an outer contour of positive radius, `S_hole = 1` |
| `VadaAnalysis.RateMyVada` | vada_analysis.py:12-93 | `None` when the file does not exist, cannot be decoded, or yields no outer contour, and only then (exceptions aside, see below). Otherwise: the file was decoded and its four returned sub-scores are exactly those `Analyze` computes from that image; VPI-S is their weighted sum; the sub-score bounds; the file's base name; and the path `annotated_<name>.png` in the output directory |

## Left out

- OpenCV's algorithms are given functions (fields of `Vision`), not modelled. These are GrabCut's energy minimisation, `findContours`, `contourArea`, `minEnclosingCircle`, `arcLength`, the filling done by `drawContours` and the BGR-to-gray and BGR-to-HSV conversions. Contour areas, radii and perimeters are taken as given non-negative reals.
- GrabCut is given the image, the seed rectangle and the iteration count 5. Its background and foreground colour models (`bgdModel`, `fgdModel`) are internal state of that algorithm and are not represented.
- File access is given functions: `os.path.exists`, `cv2.imread`, and the base-name and path-join helpers of `os.path`.
- Floating-point arithmetic is not modelled. Scores are exact reals, and the `:.2f` formatting of the overlay text is left out.
- `ShapeScore` divides by the perimeter twice rather than by its square. Over exact reals the two are equal, and its postcondition states the result against the square.
- The annotated image is not modelled: drawing the contours and the VPI-S text, creating the output directory and writing the file are I/O. Only the returned path is computed.
- The error message printed for a missing file is output only.
- `create_visual_report` (matplotlib rendering and file saving) is not part of this model.
- gan_model.py (a neural-network generator) and app.py (web routes, model loading, certificate rendering) are not part of this model.
- RateMyVada: exceptions raised inside the function are not modelled; the model returns `None` or a report instead. One is `cv2.grabCut` rejecting its seed, for example the empty rectangle of an image one pixel wide or tall (`SeedRect` states when the rectangle is empty); whether GrabCut accepts a rectangle is decided inside OpenCV, which is not part of this model. Another is `os.makedirs` failing to create the output directory. With either, the source raises instead of returning.
- RateMyVada: the output directory is a required parameter; the default `'analyzed_results'` of the source's signature is not modelled. The web front end, which is not part of this model, always passes it explicitly.
- Geometric consistency between a contour and the masks (for example, that the hole contour's enclosing circle is no larger than the object's) depends on OpenCV's contour algorithms. So `S_hole ≥ 0` is stated only under `D_hole ≤ D_avg`.
