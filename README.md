# AMASVI perception and speech core, modelled in Dafny

AMASVI is an Android navigation aid for visually impaired pedestrians. Each camera frame goes through
the steps below, and the result is spoken as short pre-recorded voice clips. This project models
those numeric and decision-making steps:

- **YoloHelper**: the object detector's raw output tensor becomes integer boxes. Each cell keeps its
  best class if it clears a confidence threshold. The letterbox is removed, then greedy
  class-agnostic non-maximum suppression (NMS) runs, and the coordinates are truncated.
- **bbox_resizing**: boxes move between square resolutions.
- **GLPDepthHelper** and **MidasHelper**: the depth networks' outputs are scaled, resampled
  and turned into grey-level pictures.
- **rel2abs**: a relative depth map becomes metric depth. A least-squares fit of inverse depth uses
  a few pixels of known depth.
- **distance_Cal_make_map**: the safe-distance map. At each pixel it holds the distance at which the
  floor or a side wall of a free corridor would be seen.
- **dist_Cal** and **safe_cal**: the strided scan of a box, giving its nearest depth and its
  left/front/right sector; the hazard check compares depth against the safe map.
- **TTSManager**: an instruction becomes an ordered playlist of clips. The manager also tracks
  clips still being synthesised and an instruction deferred until they exist.

The model represents the app's values as follows:

- Float and Double values are `real`.
- Kotlin `Int` division and `Float.toInt()` truncation are written out (`Common.KDiv`,
  `Common.Trunc`).
- A float cell that may be +Infinity is `Common.Dist`.
- The square root of makeMap is a function parameter. `SafeMap.IsSqrt` states what the
  properties need of it.
- File existence for the speech clips is an input set of clips.
- What the speech engine and media player are asked to do is recorded as events in the manager's
  `log`.

Modules follow the source files: `Common`, `StridedScan` (the grid loop shared by dist_Cal and
isSafe), `DistCal`, `SafeCal`, `BBoxResizing`, `YoloHelper`, `Rel2Abs`, `SafeMap`, `GlpDepth`,
`Midas` and `Tts`. Loops in the source are methods with loop invariants. Each is proved against a
function, and that function's properties are lemmas. `Tts.TtsManager` is a class whose methods
update its fields.

Points where the code reads differently from what it seems to intend; the model follows the code:

- The floor distance in makeMap is `sqrt(x² + z²)` (distance_Cal_make_map.kt:53-55). The wall
  distances at lines 59 and 63 include the `(y - H)` camera-height term; the floor distance has
  none (`SafeMap.FloorOmitsCameraHeight`).
- GLP `detect` multiplies by `2f / 8f`, a quarter (GLPDepthHelper.kt:68), although the comment at
  line 63 says 5/8 (`GlpDepth.Scale`).
- isSafe returns an empty list at the first box whose qualifying minimum exceeds 3 m
  (safe_cal.kt:24-26), before the nearest box is known, so a far box can hide a nearer one (see
  Findings).
- `startZ` is a local constant, 1.75 (distance_Cal_make_map.kt:20), not a parameter of makeMap, so
  the model states the bound it gives (`SafeMap.FiniteCellBeyondStartZ`) but has nothing to vary.

## Model

| member | source | states |
|---|---|---|
| Common.BoxOf | app/src/main/java/com/example/application/dist_Cal.kt:9 | destructuring takes the first four coordinates as x1, y1, x2, y2 |
| Common.KDiv | app/src/main/java/com/example/application/dist_Cal.kt:21 | Kotlin `Int /` by a positive divisor truncates toward zero: bounds on both signs |
| Common.Trunc | app/src/main/java/com/example/application/bbox_resizing.kt:6 | `toInt()` truncates toward zero: within 1 of the value, on the zero side |
| Common.CoerceIn | app/src/main/java/com/example/application/YoloHelper.kt:151-154 | the result lies in [lo, hi]; it equals the value inside, and lo or hi when the value is below or above |
| Common.SectorOf | app/src/main/java/com/example/application/dist_Cal.kt:22-27 | Left iff centre < width/3, Front iff width/3 <= centre < 2*(width/3), Right otherwise |
| Common.SectorBoundaries | app/src/main/java/com/example/application/dist_Cal.kt:22-27 | at width 300 the boundary columns 100 and 200 belong to the band on their right |
| Common.SectorMonotone | app/src/main/java/com/example/application/safe_cal.kt:27-33 | the sector never moves left as the centre column moves right |
| BBoxResizing.ResizeBBoxes | app/src/main/java/com/example/application/bbox_resizing.kt:3-8 | same number of boxes and coordinates; each coordinate is rescaled on its own |
| BBoxResizing.ResizeCoordTruncates | app/src/main/java/com/example/application/bbox_resizing.kt:4-6 | each coordinate is coord*target/original truncated toward zero |
| BBoxResizing.SameSizeIsIdentity | app/src/main/java/com/example/application/bbox_resizing.kt:3-8 | resizing to the same resolution changes nothing |
| BBoxResizing.HalvingFrom640To320 | app/src/main/java/com/example/application/bbox_resizing.kt:4-6 | 640 to 320 is integer halving for non-negative coordinates |
| BBoxResizing.NegativeTruncatesTowardZero | app/src/main/java/com/example/application/bbox_resizing.kt:6 | -3 at half scale becomes -1, not -2 |
| BBoxResizing.ShrinkingNeverGrows | app/src/main/java/com/example/application/bbox_resizing.kt:4-6 | scaling down keeps non-negative coordinates in [0, c] |
| BBoxResizing.MainExample | app/src/main/java/com/example/application/bbox_resizing.kt:13-21 | the file's example boxes from 640 to 384 give [[30,36,120,132],[18,24,60,72]] |
| StridedScan.Steps | app/src/main/java/com/example/application/dist_Cal.kt:12-13 | `a until e step g` stays in [a, e) and is empty iff e <= a |
| StridedScan.StepsAre | app/src/main/java/com/example/application/dist_Cal.kt:12-13 | k is visited iff a <= k < e and k - a is a multiple of g |
| StridedScan.ScanRowsLeast | app/src/main/java/com/example/application/safe_cal.kt:15-22 | the outer loop from any row keeps the least qualifying reading seen so far |
| StridedScan.BoxMinLeast | app/src/main/java/com/example/application/dist_Cal.kt:12-19 | the scan's result is the least qualifying reading of the grid, null iff there is none |
| StridedScan.AnyPixelReadings | app/src/main/java/com/example/application/dist_Cal.kt:10-20 | without a filter some pixel is read iff the box is non-empty in both directions |
| StridedScan.ScanMin | app/src/main/java/com/example/application/dist_Cal.kt:12-19 | the nested loops compute the least qualifying reading on the grid, null iff none |
| DistCal.DistCal | app/src/main/java/com/example/application/dist_Cal.kt:3-30 | null iff the box is empty; otherwise a visited depth no larger than any other, with the box's sector |
| SafeCal.Scans | app/src/main/java/com/example/application/safe_cal.kt:12-33 | one scan per box, in list order; entry k holds the least depth among box k's visited pixels nearer than the safe map (null iff none) and box k's sector |
| SafeCal.SelectFrom | app/src/main/java/com/example/application/safe_cal.kt:12-39 | the outer loop from any box keeps the invariant and ends with the result SelectSpec states |
| SafeCal.SelectSpec | app/src/main/java/com/example/application/safe_cal.kt:12-41 | at most one hazard; none iff some box is beyond 3 m or no box qualifies; otherwise the nearest box, earliest on a tie |
| SafeCal.IsSafe | app/src/main/java/com/example/application/safe_cal.kt:3-42 | the method's result is the one SelectSpec describes, with the box's sector and its least qualifying depth |
| SafeCal.SelectLoop | app/src/main/java/com/example/application/safe_cal.kt:12-39 | the outer loop, with its early return, leaves exactly Select of the per-box scans |
| SafeCal.NearestFrom | app/src/main/java/com/example/application/safe_cal.kt:34-38 | the nearest-box search without a cutoff finds the nearest qualifying box, none iff no box qualifies |
| SafeCal.SelectWithinCutoffSpec | app/src/main/java/com/example/application/safe_cal.kt:23-26 | with the cutoff on the nearest box: a hazard iff some box qualifies within 3 m, and it is the nearest |
| SafeCal.FarBoxHidesNearHazard | app/src/main/java/com/example/application/safe_cal.kt:23-26 | a box at 1 m before a box at 5 m: isSafe reports nothing; the nearest-box cutoff reports the 1 m box |
| SafeCal.CutoffExamples | app/src/main/java/com/example/application/safe_cal.kt:24 | a lone box at 2.9 m is a hazard, one at 3.1 m is not |
| YoloHelper.IntersectionBounds | app/src/main/java/com/example/application/YoloHelper.kt:44-52 | the overlap is non-negative and no larger than either box's area |
| YoloHelper.Iou | app/src/main/java/com/example/application/YoloHelper.kt:43-56 | IoU lies in [0, 1] |
| YoloHelper.IouSymmetric | app/src/main/java/com/example/application/YoloHelper.kt:43-56 | IoU does not depend on the order of the boxes |
| YoloHelper.IouSelf | app/src/main/java/com/example/application/YoloHelper.kt:43-56 | a box with positive area has IoU 1 with itself |
| YoloHelper.IouDisjoint | app/src/main/java/com/example/application/YoloHelper.kt:43-56 | boxes that are side by side or stacked have IoU 0 |
| YoloHelper.BestClass | app/src/main/java/com/example/application/YoloHelper.kt:137-139 | the first index of a greatest score, and its score; null iff there are no scores |
| YoloHelper.ClassScores | app/src/main/java/com/example/application/YoloHelper.kt:136 | 13 scores, score c being row 4 + c of the cell |
| YoloHelper.MakeLetterbox | app/src/main/java/com/example/application/YoloHelper.kt:95-101 | the scaled image fits 640 x 640 and the pads are non-negative; a truncated side `nw` or `nh` is 0 iff one side of the frame is more than 640 times the other |
| YoloHelper.FittedSides | app/src/main/java/com/example/application/YoloHelper.kt:97-99 | with scale = min(640/w, 640/h), one of `(w*scale).toInt()` and `(h*scale).toInt()` is 0 iff 640w < h or 640h < w |
| YoloHelper.NarrowFrameScalesToNothing | app/src/main/java/com/example/application/YoloHelper.kt:97-104 | a 1 x 1000 frame scales to 0 x 640, the size `createScaledBitmap` rejects |
| YoloHelper.Unletterbox | app/src/main/java/com/example/application/YoloHelper.kt:151-154 | an image coordinate, clamped into [0, limit] |
| YoloHelper.DecodeCell | app/src/main/java/com/example/application/YoloHelper.kt:135-156 | a detection iff some class reaches 0.01; it carries the best class and a box inside the image |
| YoloHelper.Decoded | app/src/main/java/com/example/application/YoloHelper.kt:134-157 | at most one candidate per cell; every cell that clears 0.01 contributes its detection; every candidate clears the threshold, has a valid class and lies in the image |
| YoloHelper.DecodedExactly | app/src/main/java/com/example/application/YoloHelper.kt:134-157 | the candidates are exactly the detections of the confident cells, one per cell, in strictly increasing cell order |
| YoloHelper.ConfidentCellCovered | app/src/main/java/com/example/application/YoloHelper.kt:134-168 | the detection of every confident cell survives NMS or is suppressed by a survivor |
| YoloHelper.DecodeCells | app/src/main/java/com/example/application/YoloHelper.kt:134-157 | the decode loop yields exactly Decoded, in cell order |
| YoloHelper.InsertByScore | app/src/main/java/com/example/application/YoloHelper.kt:162 | insertion adds exactly one element (multiset) |
| YoloHelper.InsertKeepsOrder | app/src/main/java/com/example/application/YoloHelper.kt:162 | inserting into a score-descending list keeps it descending |
| YoloHelper.SortByScoreDesc | app/src/main/java/com/example/application/YoloHelper.kt:162 | the sort is a permutation of its input |
| YoloHelper.SortIsOrdered | app/src/main/java/com/example/application/YoloHelper.kt:162 | the sort's output has non-increasing scores |
| YoloHelper.SortSortedIsIdentity | app/src/main/java/com/example/application/YoloHelper.kt:162 | the stable sort leaves an already ordered list unchanged |
| YoloHelper.Survivors | app/src/main/java/com/example/application/YoloHelper.kt:167 | `removeAll` keeps exactly the elements the kept box does not suppress |
| YoloHelper.SurvivorsKeepOrder | app/src/main/java/com/example/application/YoloHelper.kt:167 | removal keeps score order |
| YoloHelper.SurvivorsAll | app/src/main/java/com/example/application/YoloHelper.kt:167 | removal changes nothing when no element is suppressed |
| YoloHelper.Greedy | app/src/main/java/com/example/application/YoloHelper.kt:163-168 | the survivors are a sub-multiset of the candidates |
| YoloHelper.GreedyOrdered | app/src/main/java/com/example/application/YoloHelper.kt:163-168 | survivors of a sorted list are sorted |
| YoloHelper.GreedySeparated | app/src/main/java/com/example/application/YoloHelper.kt:163-168 | no two survivors overlap by more than 0.2 IoU, whatever their classes |
| YoloHelper.GreedyCovers | app/src/main/java/com/example/application/YoloHelper.kt:163-168 | every candidate survives or is suppressed by a survivor |
| YoloHelper.GreedySeparatedIsIdentity | app/src/main/java/com/example/application/YoloHelper.kt:163-168 | an already separated list passes through unchanged |
| YoloHelper.NmsIdempotent | app/src/main/java/com/example/application/YoloHelper.kt:162-168 | NMS applied to its own output changes nothing |
| YoloHelper.NmsSpec | app/src/main/java/com/example/application/YoloHelper.kt:162-168 | NMS output: sub-multiset, sorted, separated, covering every candidate |
| YoloHelper.GreedyLoop | app/src/main/java/com/example/application/YoloHelper.kt:163-168 | the `while` loop with `removeAt(0)`, `+=` and `removeAll` leaves exactly the greedy survivors in `finalDets` |
| YoloHelper.Nms | app/src/main/java/com/example/application/YoloHelper.kt:162-168 | sorting then the loop computes NmsOf: a sub-multiset of the candidates, sorted, separated, covering every candidate |
| YoloHelper.IntBoxes | app/src/main/java/com/example/application/YoloHelper.kt:176-178 | one four-integer list per detection, its corners truncated |
| YoloHelper.IntBoxesInImage | app/src/main/java/com/example/application/YoloHelper.kt:151-154 | clamped corners truncate to integers inside the image |
| YoloHelper.Detect | app/src/main/java/com/example/application/YoloHelper.kt:89-183 | a letterbox side that truncates to 0 pixels or a malformed output gives no boxes (the catch block); otherwise decoded, suppressed and truncated boxes, all inside the image |
| YoloHelper.DecodedOneCell | app/src/main/java/com/example/application/YoloHelper.kt:134-157 | a single confident cell decodes to a single candidate |
| YoloHelper.OneConfidentCell | app/src/main/java/com/example/application/YoloHelper.kt:134-168 | a single confident cell yields exactly one detection |
| Rel2Abs.RowMaxGreatest | app/src/main/java/com/example/application/rel2abs.kt:26-28 | the inner loop keeps the greatest value seen |
| Rel2Abs.MapMaxGreatest | app/src/main/java/com/example/application/rel2abs.kt:24-29 | the nested loops keep the greatest value of the map |
| Rel2Abs.MaxValue | app/src/main/java/com/example/application/rel2abs.kt:24-29 | the loops compute the greatest cell, none for a map without cells |
| Rel2Abs.Normalize | app/src/main/java/com/example/application/rel2abs.kt:35-37 | height x width cells, each divided by the maximum |
| Rel2Abs.NormalizedAtMostOne | app/src/main/java/com/example/application/rel2abs.kt:35-37 | every normalised value is at most 1; the maximum's cell becomes 1 |
| Rel2Abs.Rels | app/src/main/java/com/example/application/rel2abs.kt:48-51 | one entry per known point; entry k is the normalised map at that point's (y, x) |
| Rel2Abs.Complement | app/src/main/java/com/example/application/rel2abs.kt:52 | the second column of A is 1 - rel, entry by entry |
| Rel2Abs.Targets | app/src/main/java/com/example/application/rel2abs.kt:53 | one entry per known point; entry k times that point's real depth is 1 |
| Rel2Abs.DotSymmetric | app/src/main/java/com/example/application/rel2abs.kt:60-63 | the dot product does not depend on column order |
| Rel2Abs.PrefixStep | app/src/main/java/com/example/application/rel2abs.kt:59-66 | one loop iteration adds row i's products to AtA and Aty |
| Rel2Abs.NormalSymmetric | app/src/main/java/com/example/application/rel2abs.kt:60-63 | AtA[0][1] == AtA[1][0] |
| Rel2Abs.FillDesign | app/src/main/java/com/example/application/rel2abs.kt:46-54 | row i of A is (rel_i, 1 - rel_i) and yVec[i] is 1/realDepth_i |
| Rel2Abs.Accumulate | app/src/main/java/com/example/application/rel2abs.kt:57-66 | the accumulation loop leaves AᵀA and Aᵀy in AtA and Aty |
| Rel2Abs.SolveParams | app/src/main/java/com/example/application/rel2abs.kt:68-81 | singular iff abs(det) < 1e-6; otherwise A_param = s - t and B_param = t by Cramer's rule, and (s, t) = (A_param + B_param, B_param) solves the normal equations |
| Rel2Abs.CramerSolves | app/src/main/java/com/example/application/rel2abs.kt:74-81 | for any number of points, Cramer's s and t satisfy AᵀA·(s, t) = Aᵀy whenever det ≠ 0 |
| Rel2Abs.CramerFromCells | app/src/main/java/com/example/application/rel2abs.kt:74-75 | the array-cell formulas for s and t are Cramer's rule on AᵀA |
| Rel2Abs.ZeroMap | app/src/main/java/com/example/application/rel2abs.kt:32 | height x width cells, all zero |
| Rel2Abs.AffineMap | app/src/main/java/com/example/application/rel2abs.kt:84-90 | each cell is 1/(A_param * rel + B_param) of its normalised value |
| Rel2Abs.AbsoluteDepth | app/src/main/java/com/example/application/rel2abs.kt:16-93 | the result always has the input's shape |
| Rel2Abs.ConvertRelativeToAbsoluteDepth | app/src/main/java/com/example/application/rel2abs.kt:16-93 | the method computes AbsoluteDepth: zero map on each failure, the fitted affine map otherwise |
| Rel2Abs.FailuresGiveZeroMap | app/src/main/java/com/example/application/rel2abs.kt:30-72 | non-positive maximum, fewer than two points or a near-singular system give the all-zero map |
| Rel2Abs.FittedCellFormula | app/src/main/java/com/example/application/rel2abs.kt:77-87 | 1/(1/s) and 1/(1/t) fold back to s and t in the cell formula |
| Rel2Abs.SquareNormalDet | app/src/main/java/com/example/application/rel2abs.kt:68 | for a square system det(AᵀA) is det(A) squared |
| Rel2Abs.SquareNormalNumerators | app/src/main/java/com/example/application/rel2abs.kt:74-75 | the Cramer numerators of AᵀA are det(A) times those of A |
| Rel2Abs.SquareSystemExact | app/src/main/java/com/example/application/rel2abs.kt:57-75 | a non-singular square system is solved exactly by the normal equations |
| Rel2Abs.TwoPointNormal | app/src/main/java/com/example/application/rel2abs.kt:57-66 | two points give the square system with rows (r, 1 - r) |
| Rel2Abs.TwoPointDet | app/src/main/java/com/example/application/rel2abs.kt:68 | the two-point determinant is (r0 - r1) squared |
| Rel2Abs.AffineForm | app/src/main/java/com/example/application/rel2abs.kt:80-87 | (s - t)·r + t is the interpolation s·r + t·(1 - r) |
| Rel2Abs.TwoPointExactFit | app/src/main/java/com/example/application/rel2abs.kt:74-81 | with two points, the fitted line passes through both inverse depths |
| Rel2Abs.FittedPath | app/src/main/java/com/example/application/rel2abs.kt:77-90 | on the fitted path the output is the affine map of the solved parameters |
| Rel2Abs.FittedCell | app/src/main/java/com/example/application/rel2abs.kt:84-90 | on the fitted path each cell is the affine depth of its normalised value |
| Rel2Abs.CellAtTarget | app/src/main/java/com/example/application/rel2abs.kt:87 | a cell whose fitted inverse depth is 1/d reads back d |
| Rel2Abs.TwoPointCells | app/src/main/java/com/example/application/rel2abs.kt:74-87 | the fitted cells of the two relative depths are the two known depths |
| Rel2Abs.TwoPointRoundTrip | app/src/main/java/com/example/application/rel2abs.kt:16-93 | with two usable points and a non-singular system, the output at each point's pixel is its known depth |
| SafeMap.VanishingRow | app/src/main/java/com/example/application/distance_Cal_make_map.kt:15 | the vanishing row lies in [0, n] |
| SafeMap.ScaleX | app/src/main/java/com/example/application/distance_Cal_make_map.kt:25-26 | the horizontal scale is positive for a non-empty map |
| SafeMap.FloorBelowHorizon | app/src/main/java/com/example/application/distance_Cal_make_map.kt:29-30 | a floor point exists iff v > floor(0.3 n) |
| SafeMap.LeftWallSide | app/src/main/java/com/example/application/distance_Cal_make_map.kt:36-40 | a left-wall point exists iff u < centerX |
| SafeMap.RightWallSide | app/src/main/java/com/example/application/distance_Cal_make_map.kt:36-40 | a right-wall point exists iff u > centerX |
| SafeMap.WallSide | app/src/main/java/com/example/application/distance_Cal_make_map.kt:36-47 | a wall point exists iff (u - centerX) has the wall's sign; the 1e-9 guards never fire |
| SafeMap.WallDenominator | app/src/main/java/com/example/application/distance_Cal_make_map.kt:43-44 | the second wall denominator is at least 2 in magnitude |
| SafeMap.CentreColumnHasNoWall | app/src/main/java/com/example/application/distance_Cal_make_map.kt:36-40 | column centerX sees neither wall |
| SafeMap.MinOrInf | app/src/main/java/com/example/application/distance_Cal_make_map.kt:65-66 | +infinity iff there is no candidate, else the least candidate |
| SafeMap.PixelDistance | app/src/main/java/com/example/application/distance_Cal_make_map.kt:52-66 | the candidate list is built floor, left, right, and its minimum is the cell |
| SafeMap.FillRow | app/src/main/java/com/example/application/distance_Cal_make_map.kt:51-67 | the inner loop fills row v and leaves every other row alone |
| SafeMap.MakeMap | app/src/main/java/com/example/application/distance_Cal_make_map.kt:49-69 | an n x n array whose cell [v][u] is the nearest accepted distance at (u, v) |
| SafeMap.SqrtAtLeast | app/src/main/java/com/example/application/distance_Cal_make_map.kt:55 | the square root of a value at least z² is at least z |
| SafeMap.FloorAcceptedBeyond | app/src/main/java/com/example/application/distance_Cal_make_map.kt:53-55 | an accepted floor point is at least startZ away |
| SafeMap.WallAcceptedBeyond | app/src/main/java/com/example/application/distance_Cal_make_map.kt:57-63 | an accepted wall point is at least startZ away |
| SafeMap.CandidatesBeyondStartZ | app/src/main/java/com/example/application/distance_Cal_make_map.kt:52-63 | every accepted candidate is at least startZ |
| SafeMap.FiniteCellBeyondStartZ | app/src/main/java/com/example/application/distance_Cal_make_map.kt:52-66 | every finite cell of the map is at least startZ |
| SafeMap.FloorOmitsCameraHeight | app/src/main/java/com/example/application/distance_Cal_make_map.kt:55-59 | for a floor point, the floor formula is strictly below the formula with the (y - H) term |
| SafeMap.FloorNearerDownward | app/src/main/java/com/example/application/distance_Cal_make_map.kt:29-31 | below the horizon, a lower row sees a strictly nearer floor |
| GlpDepth.Scale | app/src/main/java/com/example/application/GLPDepthHelper.kt:64-70 | same h x w as the raw output; every cell is a quarter of the raw cell |
| GlpDepth.ScaleKeepsOrder | app/src/main/java/com/example/application/GLPDepthHelper.kt:68 | scaling keeps the order and equality between any two cells, both ways |
| GlpDepth.ScaleKeepsNearest | app/src/main/java/com/example/application/GLPDepthHelper.kt:68 | the nearest raw pixel is still the nearest after scaling |
| GlpDepth.FlattenMembers | app/src/main/java/com/example/application/GLPDepthHelper.kt:100 | a value is in the flattened list iff it is some cell of the map |
| GlpDepth.MaxOrNull | app/src/main/java/com/example/application/GLPDepthHelper.kt:101 | the greatest value, null iff the list is empty |
| GlpDepth.MinOrNull | app/src/main/java/com/example/application/GLPDepthHelper.kt:102 | the least value, null iff the list is empty |
| GlpDepth.CellBetween | app/src/main/java/com/example/application/GLPDepthHelper.kt:100-102 | every cell lies between min and max |
| GlpDepth.GreyRange | app/src/main/java/com/example/application/GLPDepthHelper.kt:106 | values in [min, max] map into 0..255; min maps to 0; max maps to 255 when max > min |
| GlpDepth.GreyMonotone | app/src/main/java/com/example/application/GLPDepthHelper.kt:106 | a larger value never gets a darker grey |
| GlpDepth.Postprocess | app/src/main/java/com/example/application/GLPDepthHelper.kt:95-111 | an h x w picture whose pixel (x, y) is the grey level of output[y][x] |
| GlpDepth.PictureInRange | app/src/main/java/com/example/application/GLPDepthHelper.kt:101-107 | every pixel of the picture is in 0..255 |
| GlpDepth.PictureExtremes | app/src/main/java/com/example/application/GLPDepthHelper.kt:106 | the farthest cell is white when the cells differ; the nearest is black |
| Midas.SourceIndex | app/src/main/java/com/example/application/MidasHelper.kt:59-60 | the sampled index is in [0, 256) and is floor(i * 256 / outputSize) |
| Midas.FlatIndex | app/src/main/java/com/example/application/MidasHelper.kt:61 | yy * 256 + xx stays inside the 65536-value output |
| Midas.Resample | app/src/main/java/com/example/application/MidasHelper.kt:57-58 | the result is outputSize x outputSize |
| Midas.ResampleCell | app/src/main/java/com/example/application/MidasHelper.kt:54-61 | each cell is the raw value at an in-range sampled pixel |
| Midas.IdentityAtModelSize | app/src/main/java/com/example/application/MidasHelper.kt:59-61 | at outputSize 256 the result is raw[y * 256 + x] |
| Midas.SameIndex | app/src/main/java/com/example/application/MidasHelper.kt:59-60 | at outputSize 256 each index samples itself |
| Midas.SourceIndexMonotone | app/src/main/java/com/example/application/MidasHelper.kt:59-60 | the sampled row and column never decrease |
| Midas.HalfSize | app/src/main/java/com/example/application/MidasHelper.kt:57-63 | at outputSize 128, cell [y][x] is source pixel (2y, 2x) |
| Midas.HalfIndex | app/src/main/java/com/example/application/MidasHelper.kt:59-60 | at outputSize 128 index i samples 2i |
| Tts.DirectionClip | app/src/main/java/com/example/application/TTSManager.kt:119-132 | a direction clip iff the code is "L", "R" or "F": left.mp3, right.mp3, forward |
| Tts.DistanceBand | app/src/main/java/com/example/application/TTSManager.kt:125 | the band is in 1..5: 1 at or below 1 m, 5 at or above 5 m, else the whole metres |
| Tts.DistanceKeyPresent | app/src/main/java/com/example/application/TTSManager.kt:30 | every band's key "<m>미터" is in the distance map, naming "<m>m.mp3" |
| Tts.DistanceClip | app/src/main/java/com/example/application/TTSManager.kt:125-136 | the distance clip is always present and is "<band>m.mp3" |
| Tts.PlaylistLayout | app/src/main/java/com/example/application/TTSManager.kt:127-155 | optional direction, then distance, item, fixed_end, and caution last for the obstacle |
| Tts.CautionOnlyForObstacle | app/src/main/java/com/example/application/TTSManager.kt:138-155 | the caution clip is present iff the item is "장애물"; the list ends on caution or fixed_end |
| Tts.AssembleFiles | app/src/main/java/com/example/application/TTSManager.kt:127-156 | the `apply` block builds exactly the playlist |
| Tts.Present | app/src/main/java/com/example/application/TTSManager.kt:161 | `filter { exists }` keeps exactly the clips on disk |
| Tts.Absent | app/src/main/java/com/example/application/TTSManager.kt:158 | `filterNot { exists }` keeps exactly the missing clips |
| Tts.PresentAbsentSplit | app/src/main/java/com/example/application/TTSManager.kt:158-161 | the two filters split the list; nothing is missing iff the present clips are the whole list |
| Tts.TtsManager.constructor | app/src/main/java/com/example/application/TTSManager.kt:17-45 | not initialised, not speaking, nothing pending, the 12 built-in locations |
| Tts.TtsManager.OnInit | app/src/main/java/com/example/application/TTSManager.kt:62-64 | initialised iff the engine reports success; nothing else changes |
| Tts.TtsManager.SynthesizeToFile | app/src/main/java/com/example/application/TTSManager.kt:96-107 | a missing clip is requested once and its id "$category-$fileName" becomes pending; otherwise nothing changes |
| Tts.TtsManager.LocationFile | app/src/main/java/com/example/application/TTSManager.kt:139-145 | a known item keeps its file; an unknown item is added as "$item.mp3" with one synthesis request |
| Tts.TtsManager.PlayInstruction | app/src/main/java/com/example/application/TTSManager.kt:109-175 | no effect when not ready or speaking; otherwise the playlist is played, or, with a clip missing, completion is reported at once and the playback stored |
| Tts.TtsManager.Dispatch | app/src/main/java/com/example/application/TTSManager.kt:158-174 | with a clip missing: the playback is stored, speaking stops and completion is reported; otherwise the whole playlist is played; the location map and pending ids are untouched |
| Tts.TtsManager.PlaybackFinished | app/src/main/java/com/example/application/TTSManager.kt:171-174 | speaking stops and completion is reported |
| Tts.TtsManager.OnDone | app/src/main/java/com/example/application/TTSManager.kt:68-74 | the id leaves the pending set; only when the set becomes empty does the stored instruction run on the clips present, and it is then cleared |
| Tts.TtsManager.OnError | app/src/main/java/com/example/application/TTSManager.kt:76-78 | the id leaves the pending set and nothing else changes, so a stored instruction stays stored |

## Left out

- IEEE-754 rounding: every Float and Double is an exact real, so rounding before `toInt()`, NaN
  and signed zero are absent. Two exceptions are modelled: the GLP grey level of a zero span (NaN
  converts to 0, an infinity saturates), and rel2abs cells with a zero denominator (+Infinity).
- Rel2Abs.ConvertRelativeToAbsoluteDepth: requires every known point to lie on the map with a
  non-zero depth when the fit is attempted. The source would read out of bounds, or compute
  1/0 = Infinity as a target; neither case is modelled.
- Rel2Abs.FittedCellFormula: `1.0 / (1.0 / s)` is taken as `s`. With IEEE arithmetic this also
  holds for s = 0 (through ±Infinity), but not for every rounding.
- SafeMap.MakeMap: `sqrt` is a parameter. The properties that depend on it assume `IsSqrt`: a
  non-negative root whose square is its argument.
- SafeMap.MakeMap: the conversion of each distance to Float (`toFloat()`) is not modelled.
- The safe-map claim that a larger `startZ` gives larger distances is not stated. `startZ` is a
  constant inside makeMap, and the model keeps it a constant.
- Midas.Resample: Int overflow of `y * 256` for outputSize above 2^23 is not modelled.
- Model inference and image I/O are not modelled:
  - the TFLite and ONNX sessions;
  - the pixels of bitmap scaling, letterbox drawing and ByteBuffer packing (only the one failure that changes the result, a scaled side of 0 pixels, is modelled, in `YoloHelper.ScaledEmpty`);
  - GLP `preprocess` (ImageNet normalisation) and `copyModelToCache`;
  - the unused `sigmoid`.
  The networks' outputs are inputs to the model.
- GLP `process` and `detect` logging of the centre pixel and the maximum is not modelled; it is
  logging only.
- `visualizeMqp`, `drawDetections` and DrawBox are not modelled: they render with OpenCV and Canvas.
- MidasHelper.process is not modelled: it only passes the resampled map to `visualizeMqp`.
- TTSManager playback is not modelled:
  - `playSequence`, with MediaPlayer, the 2.5 s timeouts and the playback speed;
  - `cacheAllKeywords`;
  - `shutdown`, `setOnInitListener` and the init listener.
  The start of a playback is the `Play` event; its end is `PlaybackFinished`, which models the
  player's final callback.
- Tts.TtsManager.OnInit: sets the ready flag only. The engine language and the synthesis of every
  keyword at start-up are not modelled.
- MainActivity, LLMManager, STTManager, CameraManager, MlKitRecognitionHelper and BitmapUtils are not
  part of this model. They cover orchestration, concurrency, network calls and platform I/O.

## Findings

| source | as written | input that shows it | evidently intended | confidence | as-written member | corrected member |
|---|---|---|---|---|---|---|
| app/src/main/java/com/example/application/safe_cal.kt:23-26 | the first box whose qualifying minimum exceeds 3 m returns an empty list at once, discarding nearer hazards in other boxes | two boxes with qualifying minima 1 m (listed first) and 5 m: no hazard is reported | the cutoff applies to the globally closest qualifying box, so the 1 m box is reported | not executed; high that the result differs, medium that it is unintended | SafeCal.FarBoxHidesNearHazard | SafeCal.SelectWithinCutoffSpec |
