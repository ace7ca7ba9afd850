# Lane-line post-processing of the ERFNet demo

The ERFNet lane-detection demo feeds each camera frame through a segmentation
network. Its output is a per-pixel score image with one channel per lane.
`get_lane_mask` turns the first `selected_lines` (two) channels of that output
into lane masks. For each channel, in channel order, it:

1. thresholds the 8-bit channel at 60 and collects the lane pixels as
   `(x = column, y = row)` points in row-major order;
2. drops outliers with `_thresh_coord`, which keeps a point when its column
   deviates from the mean column of all points by less than that mean;
3. reduces the points to a centerline with one point per distinct row. The
   rows are ascending, and each point's x is the mean column of that row;
4. when the centerline has more than five rows, fits the least-squares line
   `x = slope * y + intercept` to it and deletes the centerline points farther
   than 5 pixels from that line;
5. truncates the centerline to integers and draws it as a polyline on a black
   canvas of the channel's size. A channel without any lane pixel yields the
   black canvas alone.

The model is written in Dafny, one module per step:

- `Common`: bytes, points, the pipeline's constants, and order-preserving
  selection (`Keep`, `IsSubsequence`), which models numpy's boolean indexing
  and `np.delete`.
- `Extraction`: `np.where(frame >= 60)` followed by the axis flip, plus the
  extrema the branch computes.
- `OutlierFilter`: `_thresh_coord`, on exact reals.
- `Aggregator`: `np.unique` of the rows and the per-row means. `BuildCenterline`
  is the method with the `for y in Y` loop.
- `LineFitter`: the least-squares line and the distance pruning.
  - The fit is defined by the normal equations over sum moments. It is proved
    to have a unique closed-form solution and to minimise the squared error.
  - The perpendicular-distance test is written without `sqrt` as
    `(slope*y - x + intercept)^2 <= 5^2 * (slope^2 + 1)`. It is proved to agree
    with `distance <= 5`.
- `LanePipeline`:
  - `ProcessChannel` is one pass of the channel loop.
  - `GetLaneMask` is the loop itself.
  - Both are proved equal to the specification function `LaneMaskOf`.
  - Lemmas state what a mask is:
    - it is always the black canvas of the channel's size;
    - a polyline is handed to the drawing call exactly when some pixel reaches the threshold;
    - the polyline lies inside the image and visits its rows top to bottom;
    - a lane lying in a single column `c > 0` is drawn whole, in that column.

The input is the already quantised tensor: one byte per row, column and channel.
A mask is modelled as its black canvas together with the integer polyline drawn
onto it (`None` when nothing is drawn).

A line is fitted when the centerline has more than five rows. `X` and `Y`
both have one entry per centerline row, so `len(X) > 5 and len(Y) > 5` is a
single test, "more than `MinFitRows` (5) rows".

## Model

| member | source | states |
|---|---|---|
| Common.Keep | test_erfnet.py:95-96 | the selection holds exactly the elements satisfying the test, and they keep their input order (a subsequence) |
| Common.KeepCopies | test_erfnet.py:95-96 | every copy of a value that passes the test is kept, and no copy of one that fails it |
| Common.KeepAll | test_erfnet.py:95-96 | nothing is dropped when every element passes the test |
| Extraction.RowHits | test_erfnet.py:111 | the hits of one row are exactly its cells `>= 60`, with strictly increasing column |
| Extraction.Hits | test_erfnet.py:111-121 | the flipped `np.where` hit list; characterised by `HitsMembers` (which points), `HitsRowMajor` (their order) and `HitsInside` |
| Extraction.HitsMembers | test_erfnet.py:110-121 | a point is extracted exactly when it is a cell of the grid whose value is `>= 60`, with x the column and y the row |
| Extraction.HitsRowMajor | test_erfnet.py:111-121 | the extracted points come in row-major order, as `np.where` yields them |
| Extraction.HitsInside | test_erfnet.py:111-121 | every extracted point lies inside the `h` by `w` image |
| Extraction.Min | test_erfnet.py:116-118 | `min` (called on lines 116 and 118) returns an element that is at most every element |
| Extraction.Max | test_erfnet.py:115-117 | `max` (called on lines 115 and 117) returns an element that is at least every element |
| Extraction.ExtentOf | test_erfnet.py:113-118 | each extreme is attained by a point, and bounds every point's column or row |
| Extraction.ExtentOfHits | test_erfnet.py:112-118 | in the non-empty branch the extremes lie inside the image; the row extremes are the first and the last hit's rows |
| Extraction.ExtentOfOrdered | test_erfnet.py:113-118 | for points in row-major order the minimum and maximum rows are the first and last points' rows |
| OutlierFilter.ThreshCoord | test_erfnet.py:93-97 | the kept points are the input points with `abs(x - mean) < mean` (mean over all input points), in input order; an empty input keeps nothing |
| OutlierFilter.ThreshCoordCopies | test_erfnet.py:93-97 | every copy of a point that passes the test is kept, and no copy of one that fails it |
| OutlierFilter.MeanX | test_erfnet.py:94 | `np.mean` of the columns, as column sum over count; the filter test on it is characterised by `IntegerDeviationTest` |
| OutlierFilter.KeptStrictlyInsideTwiceMean | test_erfnet.py:93-97 | a kept point has `0 < x < 2 * mean`, so a point in column 0 is always dropped |
| OutlierFilter.UniformColumnKept | test_erfnet.py:93-97 | when every point has the same positive column, every point is kept |
| OutlierFilter.IntegerDeviationTest | test_erfnet.py:95 | the real test `abs(x - S/n) < S/n` agrees with the integer test `abs(n*x - S) < S` |
| Aggregator.InsertSorted | test_erfnet.py:126 | inserting into a strictly increasing sequence keeps it strictly increasing and adds exactly the new value |
| Aggregator.Unique | test_erfnet.py:126 | `np.unique` is strictly increasing and has exactly the values of its input |
| Aggregator.DistinctCount | test_erfnet.py:126 | a strictly increasing sequence has as many elements as distinct values |
| Aggregator.RowXs | test_erfnet.py:127-128 | a row that occurs in the input has at least one column to average |
| Aggregator.RowMean | test_erfnet.py:127-129 | the mean column of one row; characterised by `CenterlineMean`, `RowMeanBounds` and `RowMeanUniform` |
| Aggregator.Centerline | test_erfnet.py:125-131 | the centerline; characterised by `CenterlineCount`, `CenterlineCoversRows`, `CenterlineAscending`, `CenterlineMean` and `BuildCenterline` |
| Aggregator.CenterlineCount | test_erfnet.py:125-131 | the centerline has one point per distinct row of the input |
| Aggregator.CenterlineCoversRows | test_erfnet.py:125-131 | a row holds a centerline point exactly when some input point lies in it |
| Aggregator.CenterlineAscending | test_erfnet.py:125-131 | the centerline's rows are strictly increasing |
| Aggregator.CenterlineMean | test_erfnet.py:127-129 | the `k`-th centerline point lies in the `k`-th distinct row, that row holds at least one point, and the point's x is the sum of the row's columns divided by their count |
| Aggregator.CenterlineInside | test_erfnet.py:125-131 | for input points inside the image, centerline columns lie in `[0, w-1]` and rows in `[0, h)` |
| Aggregator.CenterlineUniform | test_erfnet.py:125-131 | points that all lie in one column give a centerline in that column |
| Aggregator.RowMeanBounds | test_erfnet.py:128 | a row's mean column lies in `[0, hi]` when every input column does |
| Aggregator.RowMeanUniform | test_erfnet.py:127-129 | when every point lies in column `c`, every row's mean is `c` |
| Aggregator.BuildCenterline | test_erfnet.py:125-131 | the `for y in Y` loop builds exactly the centerline |
| Aggregator.AggregationExample | test_erfnet.py:125-131 | the points (1,5), (3,5), (10,6) give the centerline (2,5), (10,6) |
| LineFitter.MomentsCount | test_erfnet.py:136 | the point count of the moments is zero exactly for no points, and then the fit's determinant is zero |
| LineFitter.SolutionOf | test_erfnet.py:136 | the closed-form coefficients solve the least-squares normal equations |
| LineFitter.SolutionUnique | test_erfnet.py:136 | with a non-zero determinant the normal equations have only one solution |
| LineFitter.SolutionMinimal | test_erfnet.py:136 | a solution of the normal equations has the least squared error of all lines |
| LineFitter.SquaredErrorMoments | test_erfnet.py:136 | the squared error over the points is the quadratic form of their moments |
| LineFitter.Fit | test_erfnet.py:136 | the fitted line solves the normal equations of the centerline |
| LineFitter.FitLine | test_erfnet.py:136 | the computed coefficients are the fitted line |
| LineFitter.FitIsLeastSquares | test_erfnet.py:136 | no line has a smaller squared error over the centerline than the fitted one |
| LineFitter.DetPositive | test_erfnet.py:134-136 | two or more strictly increasing rows make the fit's determinant positive, so the fit is defined whenever the gate opens |
| LineFitter.FitRecoversExactLine | test_erfnet.py:136 | points lying exactly on a line are fitted by that line |
| LineFitter.WithinBandIsDistance | test_erfnet.py:144-145 | the squared band test holds exactly when the perpendicular distance is at most 5, so distance 5 itself is kept |
| LineFitter.Prune | test_erfnet.py:144-146 | a point survives exactly when it is within the band; survivors are a subsequence in the original order |
| LineFitter.PruneCopies | test_erfnet.py:144-146 | every copy of a point within the band survives, and no copy of one outside it |
| LineFitter.PruneKeepsOnLine | test_erfnet.py:144-146 | points on the line used for pruning are all kept |
| LineFitter.ExactLineKeptWhole | test_erfnet.py:136-146 | a centerline lying exactly on a line loses no point to fitting and pruning |
| LanePipeline.ZeroCanvas | test_erfnet.py:105-108 | the canvas is `h` by `w` and all zero |
| LanePipeline.Trunc | test_erfnet.py:148 | `astype(int)` rounds toward zero: the nearest integer not farther from zero |
| LanePipeline.Polyline | test_erfnet.py:148 | the integer point array of the centerline; characterised by `PolylineTruncates` |
| LanePipeline.PolylineTruncates | test_erfnet.py:148 | one point per centerline point; each coordinate keeps its sign, lies between zero and the real coordinate, and is less than one away from it (rounding toward zero) |
| LanePipeline.Pruned | test_erfnet.py:134-146 | a centerline of at most 5 rows is kept unchanged; a longer one has a defined fit and loses exactly the points outside its band; the result is a subsequence |
| LanePipeline.PrunedExactLine | test_erfnet.py:134-146 | a centerline lying exactly on a line passes the fitting step unchanged |
| LanePipeline.LaneMaskOf | test_erfnet.py:104-154 | the mask of one channel; characterised by `BlankIffNoHit`, `PolylineInside`, `PolylineRowsAscend` and `VerticalLaneDrawnWhole` |
| LanePipeline.ProcessChannel | test_erfnet.py:104-154 | one pass of the channel loop produces the channel's mask |
| LanePipeline.Channel | test_erfnet.py:104 | the channel is the `h` by `w` grid of the tensor's `i`-th values |
| LanePipeline.GetLaneMask | test_erfnet.py:99-156 | exactly `selected_lines` masks, the i-th being the mask of channel i |
| LanePipeline.BlankIffNoHit | test_erfnet.py:105-153 | every mask is the black canvas of the channel's size; a polyline is handed to the drawing call exactly when some cell reaches 60 (that polyline may be empty) |
| LanePipeline.PolylineInside | test_erfnet.py:148-149 | the polyline's points lie inside the image |
| LanePipeline.PolylineRowsAscend | test_erfnet.py:125-149 | the polyline satisfies `VisitsLaneRows`: its rows strictly increase, and each is an image row holding a lane pixel |
| LanePipeline.CenterlineRowHasHit | test_erfnet.py:110-131 | each centerline row is a whole image row holding a lane pixel |
| LanePipeline.VerticalLaneCenterline | test_erfnet.py:93-131 | the pixels of a lane in one column `c > 0` all survive the filter, and their centerline lies on `x = c` |
| LanePipeline.VerticalLaneDrawnWhole | test_erfnet.py:110-149 | a lane in one column `c > 0` is drawn in column `c` with a point for every row holding a lane pixel |

## Left out

- The network, video capture, display and command-line handling are not modelled. They are I/O and foreign libraries.
- `softmax` is not modelled. It is floating-point `exp` numerics.
- The float-to-`uint8` conversion `(f * 255).astype(np.uint8)` is not modelled. The input is the 8-bit tensor itself.
- Floating point is replaced by exact reals:
  - the mean column of `_thresh_coord`;
  - the row means;
  - the `np.polyfit` coefficients, which `FitLine` computes by the closed-form formula;
  - the distance `D`.
  Rounding in numpy or LAPACK can therefore decide a borderline comparison differently from the model.
- Drawing with `cv2.polylines` is not modelled. This covers the rasterisation at thickness 5 and the in-place change of `mask_img`. A mask is its black canvas plus the polyline handed to the drawing call.
- The PIL/`cvtColor` canvas construction is reduced to its result, an all-zero `h` by `w` canvas.
- What `cv2.polylines` does with an empty point array is not modelled. The array is empty when the filter drops every point, or when pruning deletes every centerline point. The model yields an empty polyline in both cases, so a mask can stay black although some pixel reaches the threshold.
- Exactly straight lanes in general: the model proves that a centerline lying on a line passes the fitting step whole (`PrunedExactLine`). It proves that a whole lane is drawn only for a lane in a single column `c > 0`. The outlier filter can drop pixels of a slanted straight lane; a pixel in column 0 is always dropped.
- Channels with zero rows or zero columns are not modelled. On an empty image the canvas construction with `cv2.cvtColor` raises an error, while the model returns a mask.
- `poly_Y`, `poly_X` and `poly_line` are not modelled. They are computed and never used.
- The extrema are modelled on their own by `ExtentOf`, because they only feed those unused values.
- The fallback defaults of the extrema are not modelled. They cannot be taken inside the non-empty branch, where `len(column > 0)` is `len(column)`.
- GetLaneMask: requires at least two channels. With fewer, the source indexing raises an error, which is not modelled.
