# Carrot phenotyping, modelled in Dafny

This project models the integer core of a carrot-phenotyping pipeline. The pipeline photographs
carrots on a tape background and reads each carrot's QR label. It then cuts out a 0/255 mask of
the root, straightens it, masks its tip and measures traits: length, widths, shoulders and tip angle.
Specimen metadata travels in file names as `{Key_value}` tokens.

The model covers these parts:

- the trait scans of `phenotype.py` over a mask: tip and shoulder columns, length, maximum
  width, decile widths, tip-angle points, shoulder boxes and shouldering;
- the tip detectors of `lib/tip_mask.py`: longest white run, shape from the length/width ratio,
  look-ahead and look-back, width profile and normalisation, ML features, marking the tail;
- mask repair and crop geometry of `lib/crop.py`: tape-edge trim, blue-line crop and its anchors,
  black-tape box, buffer rows, in-place gap filling and shoulder symmetry on a mask;
- the `{Key_value}` file-name grammar of `lib/utils.py` and its users: `append.py`, the photo
  naming of `acquire.py`, the target paths of `mask.py`, `straighten.py` and `tipmask.py`, and the
  average-contour name of `avg_contour.py`;
- scale markers: the per-pixel colour rules and bar measurements of `lib/scalebar.py` and
  `ScaleFinder.java`;
- the integer core of `Straightener.java`: carrot segment per column, column data, the two
  offset-cancellation passes, width smoothing, column construction, cropping and the curvature name;
- the stateful box scanner of `BoxFinder.java` with `ImageBox.java`, and the cutoff and the
  naming/count check of `Main.java`;
- the helpers of `avg_contour.py` (canvas size, padding) and `tipmask_train.py`.

Library results are inputs to the model: OpenCV contours and areas, thresholded grids, the
decoded QR text, the colour predicate of the box finder and the trained model's prediction.
Directory listings and the files on disk are inputs too, as a list of names or a set of files.
File-system effects become values: the path a file is written to, or the list of copy/move steps
a script performs. Python's `round` is modelled exactly, rounding half to even on the exact
rational. Java's `/` on `int` truncates toward zero (`Numeric.JavaDiv`). Python slices clamp
and wrap negative bounds (`Numeric.SliceRange`).

One module per source file: `Phenotype`, `TipMask`, `Crop` (plus `Contours` for the sorting it
needs), `Utils`, `Append`, `Acquire`, `CopyResults` (the three `copy_results` scripts), `Scalebar`,
`AvgContour`, `TipmaskTrain`, `Straightener`, `BoxFinding`, `ImageBoxes`, `ScaleFinding` and
`CarrotMain`. Shared helpers live in `Wrappers` (Option, Result), `Numeric`, `Text` (split, join,
search, integer text) and `Pixels` (grids, argmax, white counts). `JavaImage` holds the RGB image
of the Java code.

## Model

| member | source | states |
|---|---|---|
| Phenotype.QualifiesBinary | phenotype.py:151-152 | on a 0/255 column, `np.argmax(col) > 0` holds iff the first pixel is black and some pixel is 255 |
| Phenotype.QualifiesByArgMax | phenotype.py:110-111 | `np.argmax(line) > 0` holds exactly when some pixel is brighter than the first |
| Phenotype.Transpose | phenotype.py:125 | `mask.T` has one line per column and line j is column j |
| Phenotype.LeadingIsFirst | phenotype.py:148-155 | the forward scan stops at the first qualifying line, or gives 0 when none qualifies |
| Phenotype.TrailingIsLast | phenotype.py:158-165 | the scan over the reversed lines stops just after the last qualifying line, or gives 0 when none qualifies |
| Phenotype.TipIndex | phenotype.py:148-155 | the tip index is a column of the mask |
| Phenotype.ShoulderIndex | phenotype.py:158-166 | the shoulder index lies in 1..W |
| Phenotype.TipIsFirstColumn | phenotype.py:148-155 | the tip index is the first column with argmax > 0, or 0 when there is none |
| Phenotype.ShoulderIsPastLastColumn | phenotype.py:158-166 | the shoulder index is one past the last qualifying column, or W when no column qualifies |
| Phenotype.TipBeforeShoulder | phenotype.py:169-178 | the tip index is never past the shoulder index |
| Phenotype.Length | phenotype.py:169-178 | the length lies in 0..W |
| Phenotype.LengthSpansCarrot | phenotype.py:169-178 | with a qualifying column the length is last − first + 1 ≥ 1; without one it is W |
| Phenotype.GetIndexOfTip | phenotype.py:148-155 | the early-exit loop returns the index of the forward scan |
| Phenotype.GetIndexOfShoulder | phenotype.py:158-165 | the loop over `[::-1]` returns the length minus the trailing non-qualifying lines |
| Phenotype.GetMaxWidth | phenotype.py:97-121 | the two row loops return height − leading − trailing non-qualifying rows |
| Phenotype.MaxWidthSpansRows | phenotype.py:97-121 | the width spans the first to the last qualifying row; with none it is the full height |
| Phenotype.AllBlackMaxWidth | phenotype.py:97-121 | an all-black mask has width equal to its height |
| Phenotype.MaxColumnWhiteIsMax | phenotype.py:142-145 | the running maximum over the first n columns bounds every white count and equals one of them |
| Phenotype.MaxWidthUnstraightenedIsMax | phenotype.py:142-145 | `get_max_width_unstraightened` is the largest white count of any column |
| Phenotype.DecileColumn | phenotype.py:130-131 | sample column k is at or after the tip, and before the shoulder when the length is at least 10 |
| Phenotype.DecileWidths | phenotype.py:124-139 | fails iff the length is under 10 (step-0 `range`); otherwise 11 white counts, shoulder − 1 first, then columns tip + k·d in reverse |
| Phenotype.TipSection | phenotype.py:194 | `round(length · 0.16)` is within half a unit of 0.16·length and lies in 0..length |
| Phenotype.TipAnglePoints | phenotype.py:188-223 | fails iff the tip section is empty; A points sit on the tip column, B points at tip + q, read from column tip + q − 1; top y are first maxima, bottom y last maxima |
| Phenotype.TipSectionFits | phenotype.py:193-196 | the tip section ends at or before the shoulder |
| Phenotype.ColumnOutline | phenotype.py:203-218 | in a 0/255 column holding white, argmax is the first white row and the converted reversed argmax the last |
| Phenotype.TipPointsOnOutline | phenotype.py:203-221 | the A points are the first and last white pixel of the tip column |
| Phenotype.TipEndPointsOnOutline | phenotype.py:204-221 | the B points take the first and last white row of column tip + q − 1 |
| Phenotype.ShoulderSection | phenotype.py:284 | `round(length / 4)` is within half a unit of length/4 and fits before the shoulder |
| Phenotype.TopOffsets | phenotype.py:285-292 | one argmax per column of the last quarter |
| Phenotype.BottomOffsets | phenotype.py:299-300 | one reversed argmax per column of the last quarter |
| Phenotype.ScanFromEndIsBackwardScan | phenotype.py:289-303 | the strict-`<` scan from the end keeps the least value below 1000, ties going to the position nearest the shoulder |
| Phenotype.ScanBackward | phenotype.py:289-295 | the loop returns the running minimum and one past its position |
| Phenotype.ShouldersScanBackward | phenotype.py:278-329 | both boxes end at the shoulder index and meet at half the height; their start columns are backward-scan minima |
| Phenotype.GetShoulders | phenotype.py:278-329 | the two loops compute the shoulder boxes |
| Phenotype.BoxBlack | phenotype.py:348-355 | area minus non-zero count of the clamped slice, which is ≥ 0 |
| Phenotype.Shouldering | phenotype.py:332-357 | both shouldering values are ≥ 0 |
| Phenotype.AssembleInstance | phenotype.py:360-418 | None iff the name parses and has no Scale; traits iff Scale parses to a non-zero integer, length ≥ 10 and the tip section is non-empty; the traits then hold the name's attributes, the mm-per-pixel factor of its Scale, the length, the maximum width, the 11 decile widths, the non-zero count, the shouldering pair and the tip-angle points of the mask, in pixels |
| Pixels.ArgMaxIsFirstMax | phenotype.py:151 | `np.argmax` is the first position of the maximum |
| Pixels.ArgMaxUnique | phenotype.py:151 | a maximum with nothing as large before it is the argmax |
| Pixels.LastArgMaxIsLastMax | phenotype.py:213-218 | `len − 1 − argmax(s[::-1])` is the last position of the maximum |
| Pixels.BinaryArgMax | phenotype.py:151-152 | on 0/255 data argmax > 0 iff the first pixel is black and some is white; argmax is then the first white pixel |
| Pixels.CountWhitePositive | phenotype.py:77-85 | the white count is positive iff the line holds 255 |
| Pixels.GridZeroComplement | phenotype.py:351-355 | non-zero plus zero pixels fill the box area |
| Pixels.Window | phenotype.py:348-349 | `mask[r0:r1, c0:c1]` holds exactly the pixels of the box |
| Numeric.RoundHalfEven | avg_contour.py:46 | Python `round(n/d)`: within half a unit, and even on a tie |
| Numeric.RoundHalfEvenUnique | avg_contour.py:46 | that rounding is the only integer with this property |
| Numeric.SliceRange | phenotype.py:348-349 | a Python slice selects a half-open range clamped to the sequence, negative bounds counted from the end |
| Numeric.PyIndex | lib/tip_mask.py:231 | Python indexing succeeds iff −n ≤ i < n, and picks i or i + n |
| TipMask.LongestRunIsLongest | lib/tip_mask.py:240-259 | `count_bins_in_column` is the length of some white run and no white run is longer |
| TipMask.RunHasWhite | lib/tip_mask.py:255-259 | a positive result comes from a column holding 255 |
| TipMask.LongestRunZero | lib/tip_mask.py:255-259 | the result is 0 exactly when the column holds no 255 |
| TipMask.LongestRunUpToAttained | lib/tip_mask.py:252-258 | the largest run found so far is the run ending at some earlier position |
| TipMask.RunEndingAtIsRun | lib/tip_mask.py:252-253 | the run counted back from a position is all white |
| TipMask.RunEndingAtCovers | lib/tip_mask.py:252-253 | every white run ending at a position is counted there |
| TipMask.RevWhiteCounts | lib/tip_mask.py:52-59 | one white count per column of `mask.T[::-1]` |
| TipMask.RevRuns | lib/tip_mask.py:128-135 | one longest-run length per column of `mask.T[::-1]` |
| TipMask.FirstThinIsFirst | lib/tip_mask.py:57-62 | the scan stops at the first measure in (0, threshold] |
| TipMask.ScanThin | lib/tip_mask.py:55-62 | the detector loop leaves the first thin reversed position, else 0 |
| TipMask.ThinColumnFromRight | lib/tip_mask.py:64-66 | a non-zero answer is a thin column with no thin column to its right; 0 means the rightmost or leftmost column is thin, or none is |
| TipMask.FindTipBruteForce | lib/tip_mask.py:46-66 | returns `len − index − 1` for the first reversed column with white count in (0, threshold], else 0 |
| TipMask.FindTipBruteForceByBins | lib/tip_mask.py:69-98 | the same scan over the longest white run of each column |
| TipMask.ShapeOf | lib/tip_mask.py:110-126 | slender iff the 2-decimal ratio exceeds 10 (6 px), ball iff it is below 2.5 (15 px), normal otherwise (6 px) |
| TipMask.RatioThresholds | lib/tip_mask.py:114-122 | the rounded ratio crosses 10.00 and 2.50 exactly at 2n > 20.01·d and 2n ≥ 4.99·d, ties rounding to even |
| TipMask.BackLength | lib/tip_mask.py:222 | `round(length · 0.3)` is within half a unit and never exceeds the length |
| TipMask.Wrap | lib/tip_mask.py:231 | `mask[k]` with a negative k reads from the end |
| TipMask.AbruptBackFrom | lib/tip_mask.py:228-237 | the look-back gives 0, or a column whose count start − k + 1 lies in [35, 500] |
| TipMask.AbruptBack | lib/tip_mask.py:203-237 | the result is 0 or a column within `round(0.3·length)` before the start, counted 35 to 500 back |
| TipMask.AbruptBackFromIsFirst | lib/tip_mask.py:229-236 | a non-zero look-back is abrupt (run > threshold × 1.5 slender, × 2 otherwise) and every column between it and the start is not |
| TipMask.CheckBackAbruptChange | lib/tip_mask.py:203-237 | the loop returns the look-back result |
| TipMask.AverageBackLength | lib/tip_mask.py:183 | `round(length · 0.2)` is within half a unit |
| TipMask.AverageBackFromReaches | lib/tip_mask.py:187-200 | a non-zero result counted at least 25 columns and its running average reached threshold × 1.6 |
| TipMask.CheckBackAverage | lib/tip_mask.py:169-200 | the loop returns the averaging look-back |
| TipMask.DetectFromRuns | lib/tip_mask.py:128-166 | the decision is 0 or a column of the mask |
| TipMask.PseudoDynamicTip | lib/tip_mask.py:101-166 | fails iff no column holds white (the ratio divides by 0); otherwise a column of the mask |
| TipMask.FindTipPseudoDynamic | lib/tip_mask.py:101-166 | the method computes the detector's decision |
| TipMask.DetectTip | lib/tip_mask.py:131-166 | scan, look-ahead and look-back compute the decision on the runs |
| TipMask.LookAhead | lib/tip_mask.py:143-150 | true iff reversed columns i..i+12 all exist and hold a white run |
| TipMask.PseudoDynamicAllBlack | lib/tip_mask.py:110-113 | the detector fails on a mask without white |
| TipMask.DetectFromRunsColumn | lib/tip_mask.py:134-165 | a non-zero decision has a first thin index i > 0 that passed the look-ahead; pure gives W − 1 − i, otherwise the look-back column 35 to 500 back |
| TipMask.WidthProfileBounds | lib/tip_mask.py:362-380 | every width is in [0, height/2] and positive exactly on columns holding white |
| TipMask.GetWidthArray | lib/tip_mask.py:362-380 | the loop appends half the white count of every column |
| TipMask.ScaleProfile | lib/tip_mask.py:402 | each width is multiplied by mm per pixel |
| TipMask.GetWidthArrayMm | lib/tip_mask.py:383-402 | the loop gives the profile scaled to millimetres |
| TipMask.MaxReal | lib/tip_mask.py:414 | `max` bounds every width and is one of them |
| TipMask.NormalizeWidthArray | lib/tip_mask.py:405-415 | fails iff the profile is empty or its maximum is 0; keeps the length |
| TipMask.NormalizeUnitRange | lib/tip_mask.py:405-415 | a non-negative profile with positive maximum normalises into [0, 1] with maximum 1 |
| TipMask.NormalizeIdempotent | lib/tip_mask.py:405-415 | normalising a normalised profile changes nothing |
| TipMask.TipMaskFeatures | lib/tip_mask.py:262-269 | the features are the reversed mm profile, normalised, padded with zeros to max(5000, W); never truncated |
| TipMask.MarkStartOfTail | lib/tip_mask.py:33-43 | paints exactly column `index` when it is positive; an index past the last column raises; every other pixel is unchanged |
| Crop.TrimBounds | lib/crop.py:39-61 | the top and left margins are the floor of 5% and 2.5% of the size, the bottom and right margins the ceiling; the kept band is never inverted |
| Crop.TrimTapeEdges | lib/crop.py:39-61 | the trimmed image is exactly the window of the image inside `TrimBounds` |
| Crop.BlueStartsMembers | lib/crop.py:75-79 | `blues` holds exactly the positive first-blue columns of the rows |
| Crop.MinOfIsMin | lib/crop.py:81 | `min` of a non-empty list is a member no larger than any element |
| Crop.LegacyBlueCrop | lib/crop.py:67-84 | fails (ValueError) iff no row has a positive first-blue column; otherwise keeps every row |
| Crop.LegacyBlueCropColumns | lib/crop.py:81-84 | every row keeps its first `m - 5` columns for the least positive first-blue column `m`, a negative stop counting from the right edge |
| Crop.LeastBlueStart | lib/crop.py:81-82 | `min(blues)` is the least positive first-blue column |
| Crop.ExtLeftIsLeftmost | lib/crop.py:144-145 | the extreme-left point is a contour point with the least x |
| Crop.SelectAnchors | lib/crop.py:104-172 | fails iff there is no contour (IndexError) or the largest area is 0 (ZeroDivisionError) |
| Crop.BlueAnchors | lib/crop.py:117-172 | the contour loop computes exactly `SelectAnchors` |
| Crop.StepKeepsQuarters | lib/crop.py:151-172 | one contour step keeps every set anchor in the outer quarter of the image |
| Crop.StepExtLefts | lib/crop.py:144-145 | each step appends the contour's extreme-left point |
| Crop.ScanInQuarters | lib/crop.py:130-172 | after the scan the top anchor lies in the top quarter and the bottom anchor in the bottom quarter |
| Crop.ScanExtLefts | lib/crop.py:130-145 | the scan records one extreme-left point for the first contour, and one for the second exactly when it is at least a tenth of the first |
| Crop.TopAnchorOffset | lib/crop.py:151-159 | a changed top anchor x is that of contour point `o`, the offset (not the index) of the least x among the 25 points from the topmost one |
| Crop.CorridorLeast | lib/crop.py:155-157 | the least x of the 25-point corridor is found at an offset below 25 |
| Crop.DescendingY | lib/crop.py:163-166 | the lowest-first order is a permutation of the contour, sorted by descending y |
| Crop.BottomAnchorLowest | lib/crop.py:163-172 | a changed bottom anchor x is the least x among the 25 lowest points, all at or below every later point |
| Crop.CropPolygonShape | lib/crop.py:175-194 | fails (TypeError) iff an anchor is unset or no extreme-left point exists; otherwise the polygon runs from the top anchor through the y-sorted extreme-left points to the bottom anchor and the two points 150 pixels right; `crop_at` is the larger anchor x |
| Crop.SortedExtLefts | lib/crop.py:180 | sorting the extreme-left points by y keeps them and puts the lower y first |
| Crop.PolygonLayout | lib/crop.py:185-194 | the polygon's vertices in order: top anchor, sorted extreme-left points, the three fixed corners |
| Crop.CropPolygonHoldsExtLefts | lib/crop.py:185-194 | every extreme-left point is a vertex of the polygon |
| Crop.BlueHsvBandChoice | lib/crop.py:90-97 | only the string "white" selects the white-backdrop band; the `True` of the legacy scale bar selects the black-backdrop band |
| Crop.BlueLineCrop | lib/crop.py:232-240 | `[:, :crop_at]` keeps at most the image width |
| Crop.BlueLineCropFacts | lib/crop.py:104-240 | succeeds iff a contour exists, the first area is non-zero and both anchors are set; the polygon then holds the first contour's extreme-left point, and the second's when it is not too small |
| Crop.TruncReal | lib/crop.py:270-274 | `int()` of a float truncates toward zero |
| Crop.BlackTapeBounds | lib/crop.py:270-274 | the rows and the first column kept by `crop_black_tape` form a band inside the image |
| Crop.CropBlackTape | lib/crop.py:243-276 | the result is exactly the image inside `BlackTapeBounds`, all columns right of the first kept |
| Crop.SortPairs | lib/crop.py:270-271 | four coordinates made of two values, each twice, sort to `[lo, lo, hi, hi]` |
| Crop.UprightBlackTape | lib/crop.py:270-274 | for an upright integer box inside the image the crop drops 25 pixels at the top, bottom and left edge of the box |
| Crop.WholeTapeBounds | lib/crop.py:270-274 | with whole middle coordinates the bounds are `(y1 + 25, y2 - 25, x1 + 25)` |
| Crop.BufferRows | lib/crop.py:305-306 | adds 12 black rows above and below; the mask rows are kept in between |
| Crop.BufferedColumn | lib/crop.py:336-337 | a buffered column is 12 black pixels, the column, 12 black pixels |
| Crop.PaddedColumnBinary | lib/crop.py:305-306 | a padded 0/255 column stays 0/255, starts black and keeps its white pixels |
| Crop.BufferedColumnQualifies | lib/crop.py:305-306 | after buffering, a column passes the scans' `argmax > 0` test iff it holds a white pixel |
| Crop.SetColumnCol | lib/crop.py:486 | writing column `j` changes column `j` only |
| Crop.WriteColumn | lib/crop.py:486 | the array afterwards is the old mask with column `j` replaced |
| Crop.FillHolesSameEnds | lib/crop.py:486 | filling holes keeps, for every row, whether a set pixel lies at or above it and at or below it |
| Crop.FillHolesWhitens | lib/crop.py:486 | filling is 0/255, keeps white pixels white and is idempotent |
| Crop.GapFillStep | lib/crop.py:483-487 | filling the columns one after the other from their current contents gives the same mask as filling each original column |
| Crop.GapFillNextColumn | lib/crop.py:483-487 | the next column to fill still holds its original pixels |
| Crop.GapFillNone | lib/crop.py:483-487 | filling no column leaves the mask unchanged |
| Crop.FillGaps | lib/crop.py:483-487 | fills the seven columns ending at `last_white`; when fewer than seven columns exist, the ones reached stay filled and an IndexError ends the repair |
| Crop.PaintSlice | lib/crop.py:520-525 | `column[lo:hi] = 255` with non-negative bounds paints only rows from `lo` up to `hi` |
| Crop.SymmetryColumnWhitens | lib/crop.py:492-526 | the symmetry correction only paints pixels white |
| Crop.FillFromStart | lib/crop.py:517-521 | with the smaller start gap and a non-negative end, the painted rows are the fill-size rows down from the first white row |
| Crop.FillFromEnd | lib/crop.py:522-526 | otherwise the painted rows are the fill-size rows just above one row above the last white row |
| Crop.SymmetryColumnPaints | lib/crop.py:492-526 | paints down from the first white row when the start gap is the smaller, up to the last white row otherwise |
| Crop.SymmetryStepTouches | lib/crop.py:492-526 | one pass changes only column `j`, only when it has shrunk below 90% of its predecessor, and only by painting white |
| Crop.SymmetryTouches | lib/crop.py:492-526 | the correction changes only columns `c - 1` and `c`, only by painting white |
| Crop.FixSymmetry | lib/crop.py:492-526 | the array afterwards is `Symmetry` of the old mask |
| Crop.RightmostWhiteIsLast | lib/crop.py:476-481 | `last_white` is the rightmost column holding a 255, and none exists iff no column holds one |
| Crop.FindLastWhite | lib/crop.py:476-481 | the scan from the right returns `RightmostWhite` and changes nothing |
| Crop.RepairMask | lib/crop.py:476-526 | the array afterwards and the result are those of `Repair` of the old mask |
| Crop.RepairWhitens | lib/crop.py:476-526 | a repaired 0/255 mask differs from the original only in the seven columns ending at the rightmost white column, and only by white pixels |
| Crop.GapFillWhitens | lib/crop.py:483-487 | filling the gap columns changes only those columns and only to white |
| Crop.CropToShoulder | lib/crop.py:531-532 | every row is cut at the shoulder index |
| Crop.CropToShoulderDropsEmpty | lib/crop.py:531-532 | the dropped columns are exactly the empty columns at the right edge |
| Contours.SortBySorted | lib/crop.py:180 | `sorted(..., key=...)` returns its input ordered by key: a permutation, ascending |
| Contours.InsertSorted | lib/crop.py:180 | inserting into a sorted list keeps it sorted and adds exactly that element |
| Contours.SortTwo | lib/crop.py:180 | two elements are swapped exactly when the second has the strictly smaller key (the sort is stable) |
| Contours.AscendingUnique | lib/crop.py:272-273 | two ascending sequences with the same numbers are equal, so the sorted corner coordinates are determined by the corners |
| Utils.RunEnd | lib/utils.py:73 | the end of a `[\w-]` run: every character before it matches, the one at it does not |
| Utils.GetKvPairs | lib/utils.py:72-75 | every token found matches `[\w-]+_[\w-]+` |
| Utils.PairsArePairs | lib/utils.py:72-75 | only `[\w-]+_[\w-]+` texts are read as pairs |
| Utils.BracedHead | lib/utils.py:72-75 | a leading `{pair}` token is read as that pair and the scan resumes after its brace |
| Utils.KvPairsOfBraced | lib/utils.py:72-75 | writing pairs as `{pair}` tokens and reading them back gives the same pairs, followed by the pairs of the text after them |
| Utils.PairsNoBrace | lib/utils.py:72-75 | text without `{` holds no token |
| Utils.AttributesOf | lib/utils.py:84-90 | fails (ValueError) iff some pair does not split into exactly a key and a value |
| Utils.AttributesOfKeys | lib/utils.py:84-90 | the dictionary's keys are exactly the keys of the pairs |
| Utils.LaterPairWins | lib/utils.py:84-90 | the value stored for a key is the value of the last pair with that key |
| Utils.GetAttributes | lib/utils.py:78-90 | the attributes of a file name exist iff each of its `{key_value}` tokens has exactly one underscore |
| Utils.ThresholdValues | lib/utils.py:111-127 | index threshold 0.14 (0.13 for old images); grey threshold 150 (63 for old), overridden to 50 for a black backdrop |
| Utils.DetectBackdrop | lib/utils.py:138-152 | "white" iff more than 60% of the pixels are set, "black" otherwise |
| Utils.RatioAbove | lib/utils.py:148-150 | the 60% test equals the integer test `5 w > 3 t` |
| Utils.PixelToMm | lib/utils.py:155-163 | fails iff the scale is not an integer literal or is 0 (ValueError, ZeroDivisionError) |
| Utils.ScaleRoundTrip | lib/utils.py:155-163 | for a measured scale bar of `n > 0` pixels, the rounded mm-per-pixel factor times `n` gives 100 mm back to within half a unit in the fourth decimal per pixel |
| Utils.RoundedFactorBound | lib/utils.py:163 | a factor within half a step of `100 / n` reproduces the scale bar |
| Utils.Selected | lib/utils.py:38-43 | the selected paths are exactly the joined paths of the kept names |
| Utils.FilesToProcess | lib/utils.py:50-69 | lists exactly the directories that are not a result directory (or are allowed) and hold a kept raw file |
| Utils.MasksToProcess | lib/utils.py:25-47 | lists exactly the directories named after the mask type that hold a kept mask file |
| Text.SplitJoin | append.py:9-12 | joining the parts of a split with the same separator gives the text back; no part holds the separator |
| Text.JoinSplit | append.py:68-71 | splitting a join of parts free of the separator gives the parts back |
| Text.IntStringRoundTrip | lib/utils.py:159 | reading back the decimal text of an integer gives the integer (Java too, within 32 bits) |
| Text.IntToStringInjective | acquire.py:156 | distinct integers have distinct decimal texts |
| Text.ParseJavaInt | java/src/org/uwm/carrots/Main.java:31 | `Integer.parseInt` succeeds iff the text is a signed decimal within 32 bits |
| Text.IndexOf | java/src/org/uwm/carrots/Straightener.java:46-47 | the first occurrence at or after `from`, or -1 when there is none |
| Text.LastIndexOfChar | java/src/org/uwm/carrots/Main.java:68 | the last position holding the character, or -1 |
| Text.Substring | java/src/org/uwm/carrots/Straightener.java:50 | succeeds iff `0 <= b <= e <= length`, giving exactly that slice |
| Text.BeforeFirst | lib/utils.py:34 | `split(sep)[0]`: a prefix free of `sep`, followed by `sep` when shorter than the text |
| Text.PathJoin | lib/utils.py:42 | an absolute second part replaces the first; otherwise the result starts with the first part and ends with the second |
| Numeric.JavaDiv | java/src/org/uwm/carrots/Straightener.java:149 | Java `/` on ints: the magnitude is the floor of the magnitudes, and the sign is that of the operands' product |
| Numeric.TruncatedMeanBetween | java/src/org/uwm/carrots/Straightener.java:288-297 | a truncated mean of values in `[lo, hi]` stays in `[lo, hi]` |
| Numeric.SliceBound | lib/crop.py:83 | a negative slice bound counts from the end; the result is clamped to the length |
| Append.PathIsDirAndName | append.py:9-12 | a path is its directory part followed by its last `/` segment |
| Append.AssembleNewFilepath | append.py:8-13 | the new path is the old directory part followed by the new name |
| Append.BracedEachConcat | append.py:10-11 | joining the `{pair}` tokens gives the braced pairs as one text |
| Append.BracedNoSlash | append.py:10-12 | the tokens of well-formed pairs hold no `/`, so the name stays one path segment |
| Append.AssembleNewFilepathParts | append.py:8-13 | the new path keeps the old directory and its last segment is exactly the new name |
| Append.NewNameReadsBack | append.py:8-13 | the new name reads back as exactly the pairs written, when the extension holds no `{` |
| Append.FirstWithKey | append.py:27-36 | the index of the first pair carrying the key, or none iff no pair carries it |
| Append.ChangeEditsFirstMatch | append.py:27-36 | only the first pair carrying the key is edited: renamed to `newkey` keeping its value, or given the new value; every other pair is unchanged |
| Append.ChangeAppendsAbsent | append.py:37-38 | an absent key is appended as `key_value`, in rename mode too (with the value `None`) |
| Append.KeyOfPair | append.py:22 | a pair written as `key_value` with no `_` in the key reads back that key |
| Append.AppendOrChangeFilename | append.py:21-41 | the loop renames the file to the assembled path of the changed pairs |
| Append.DeleteAbsentKeeps | append.py:51-54 | deleting a key no pair carries changes nothing |
| Append.DeleteRemovesFirstMatch | append.py:51-54 | deleting removes exactly the first pair with the key; earlier pairs stay and later pairs move up |
| Append.DeleteKeyFile | append.py:44-56 | the file is renamed to the assembled path of the pairs of its name up to the first `.`, less the first pair with the key |
| Append.InsertIntoUidSegments | append.py:66-71 | the inserted value becomes the second-to-last `-` segment; the other segments keep their order and the year stays last |
| Append.ReplaceYearSegments | append.py:82-86 | the year replaces the last `-` segment; the segments before it are kept |
| Append.RewrittenUidKey | append.py:71 | a rewritten pair has the key `UID`, whatever the case of the old key |
| Append.UidJoin | append.py:71 | `"_".join(["UID", v])` is `UID_` followed by `v` |
| Append.DoUidInsertFile | append.py:59-73 | every UID pair (not only the first) gets the inserted segment, the other pairs are kept, and the file is renamed to the assembled path |
| Append.ReplaceUidYearFile | append.py:76-88 | every UID pair gets the year as its last segment, the other pairs are kept, and the file is renamed to the assembled path |
| Acquire.Rotations | acquire.py:85-99 | the box's quarter turns read the first code of the whole image, so there are none to read (IndexError) iff no code was found |
| Acquire.TallBoxTurnsOnce | acquire.py:87-94 | for a tall box cut between its extremes, the box is turned once iff the code lies below the middle, three times iff above, not at all iff exactly on it |
| Acquire.BothTurnsCancel | acquire.py:87-94 | both tall-box turns fire only on a box shorter than its extremes, and then cancel out |
| Acquire.UidOf | acquire.py:20 | a found uid is the text after an occurrence of `{uid_` up to a `}` |
| Acquire.UidOfIsLeftmostShortest | acquire.py:20 | the match starts at the first `{uid_`, is at least one character, and holds no `}` after its first character (the non-greedy `.+?`) |
| Acquire.UidOfNone | acquire.py:20 | no uid is found iff no `{uid_` is followed, one character on or later, by a `}` |
| Acquire.DestDirCases | acquire.py:122-132 | the destination is `dest` when the directory key is missing or empty; `dest/<dir>` when no sub key is given or found; `dest/<dir>/<sub>` otherwise |
| Acquire.SameUidMembers | acquire.py:136-144 | the counted entries are exactly the listed names whose lower-cased uid matches |
| Acquire.NextPhotoNumber | acquire.py:146-156 | a file written for the same uid raises the next photo number by one; any other file leaves it |
| Acquire.NumberPair | acquire.py:152-156 | a key of word characters with a decimal number is a `key_value` pair |
| Acquire.TokensArePairs | acquire.py:152-156 | the `Scale_n` and `Photo_n` tokens are pairs |
| Acquire.NameReadsBack | acquire.py:148-160 | reading the written name back gives the QR pairs, the scale when it was measured, and the photo number, in that order |
| Acquire.NamePairsArePairs | acquire.py:148-156 | every pair written into the name is a `key_value` pair |
| Acquire.ExistingPhotos | acquire.py:136-146 | the loop collects exactly the entries of the same uid, in listing order |
| Acquire.SaveBoxAsImage | acquire.py:106-164 | nothing is written for an empty QR text; a QR text with no uid is an AttributeError and a malformed pair a ValueError; otherwise the path is the destination joined with the name of the QR pairs, scale and next photo number |
| Acquire.PhotoPath | acquire.py:148-161 | the path written is the destination directory joined with the braced pairs and the file format |
| CopyResults.CorrectedName | mask.py:36 | a name without `_px` or `_ppm` is kept as it is |
| CopyResults.HierarchyIsDestDir | mask.py:39-57 | below `dest/<year>_<location>` the target follows the same directory-key rule as acquisition |
| CopyResults.HierarchyCases | tipmask.py:30-48 | the target is `dest/<year_location>`, then `/<dir>` when the directory key is set, then `/<sub>` when a sub key is given and set too; the sub key is read only when the directory key is set |
| CopyResults.UidAttributes | mask.py:38-39 | succeeds only with a `UID` attribute (otherwise the name's ValueError or a KeyError) |
| CopyResults.MaskStep | mask.py:35-66 | fails iff the corrected name's attributes fail or lack `UID`; otherwise copies the file from the source directory |
| CopyResults.StraightenStep | straighten.py:32-75 | skips exactly the names without `Curvature` or the file format; with flat files moves the file into `dest` under its own name; otherwise fails iff the attributes fail or lack `UID`, and moves the file |
| CopyResults.TipmaskStep | tipmask.py:25-57 | skips exactly the names without the file format; fails iff the attributes fail or lack `UID`; otherwise moves the file |
| CopyResults.StraightenSibling | straighten.py:50-52 | with an empty destination the mask goes to `straight-masks` under the part of the source before `binary-masks` |
| CopyResults.StageStep | mask.py:35-66 | no stage step removes a directory |
| CopyResults.Steps | tipmask.py:25 | one step outcome per listed file, in listing order |
| CopyResults.RunSucceeds | tipmask.py:25-57 | a run ends without exception iff every step succeeds, and then it performed the operation of every handled file in listing order |
| CopyResults.RunFailsAtFirstError | tipmask.py:25-57 | a failed run reports the first failing step's error after exactly the operations of the files before it |
| CopyResults.SourceRemovedLast | tipmask.py:58 | the source directory is removed only by the tipmask stage, as the last operation, and only when no step failed |
| CopyResults.OnlyStepOps | tipmask.py:25-57 | the loop itself removes nothing |
| CopyResults.RunExtend | tipmask.py:25-57 | one more step extends a run that has not failed |
| CopyResults.RunErrorSticks | tipmask.py:25-57 | once a run has failed, later steps change nothing |
| CopyResults.CopyResults | tipmask.py:15-58 | the loop performs exactly the run of the stage's steps, stopping at the first exception |
| Scalebar.GreenPixel | lib/scalebar.py:21-27 | every mask pixel is 0 or 255 |
| Scalebar.GreenMask | lib/scalebar.py:12-30 | the mask has the image's shape and each pixel is the excess-green rule on the image pixel |
| Scalebar.GreenMaskMonotone | lib/scalebar.py:21-27 | a pixel is white iff `2G - R - B` reaches the threshold, so a higher threshold keeps only pixels a lower one kept |
| Scalebar.BluePixel | lib/scalebar.py:42-48 | every mask pixel is 0 or 255; a NaN index (`B + R == 0`) stays 0 |
| Scalebar.BlueMask | lib/scalebar.py:33-49 | the mask has the image's shape and each pixel is the blue-index rule on the image pixel |
| Scalebar.BluePixelCrossMultiplied | lib/scalebar.py:42-48 | for non-negative channels a pixel is white iff `B + R > 0` and `B - R >= t (B + R)` |
| Scalebar.BlueIndexSigned | lib/scalebar.py:42 | the index is signed: with a positive threshold only pixels bluer than red are white, and red pixels stay black |
| Scalebar.LargestIndex | lib/scalebar.py:60 | `max(..., key=area)` picks the first contour of largest area |
| Scalebar.ExtremePointsAreFirstExtremes | lib/scalebar.py:64-70 | each extreme point lies on the contour, bounds every point in its direction, and is the first point to reach that bound |
| Scalebar.MeasureScalebarNew | lib/scalebar.py:85-96 | fails (`max` of nothing) iff the green mask has no contour |
| Scalebar.MeasureScalebarNewSpan | lib/scalebar.py:85-96 | the length is never negative; every point of the largest contour lies within it of the leftmost point, and some point reaches it |
| Scalebar.RightHalf | lib/scalebar.py:109 | the right half keeps columns from `W // 2` on, unchanged |
| Scalebar.OldThresh | lib/scalebar.py:126-132 | the threshold mask keeps the image's rows |
| Scalebar.OldThreshRow | lib/scalebar.py:126-135 | with the black column in front, a row qualifies for `get_max_width` iff it has a lit pixel left of the last 20 columns |
| Scalebar.OldThreshRows | lib/scalebar.py:126-135 | the same for every row |
| Scalebar.MeasureScalebarOldSpansRows | lib/scalebar.py:126-137 | the legacy length is 2.7 times (rounded half to even) the rows from the first to the last lit one, or 2.7 times the height when no row is lit |
| Scalebar.MeasureScalebarRenames | lib/scalebar.py:73-82 | every file is measured and renamed, except the legacy mode's own `_contour`, `_mask` and `_crop` outputs |
| Scalebar.ScaleRecorded | lib/scalebar.py:82 | the renamed file carries `Scale_<length>`, in place of the first Scale pair or appended |
| AvgContour.MaxOf | avg_contour.py:15 | `max` of a non-empty list is a member no smaller than any element |
| AvgContour.EvenMaxIsLeastEvenBound | avg_contour.py:14-25 | fails (ValueError) iff the list is empty; otherwise the result is the least even number no smaller than every size |
| AvgContour.GetMaxX | avg_contour.py:14-18 | the canvas width is the least even bound of the mask widths; an empty batch raises |
| AvgContour.GetMaxY | avg_contour.py:21-25 | the canvas height is the least even bound of the mask heights; an empty batch raises |
| AvgContour.PadAmountsFill | avg_contour.py:28-57 | borders are never negative and the right one is empty; all horizontal slack goes left; the top is `round(slack / 2)` and differs from the bottom by at most one; a dimension larger than the canvas gets no border |
| AvgContour.PaddedToCanvas | avg_contour.py:66-71 | every mask of a batch is padded to exactly the canvas size |
| AvgContour.Readings | avg_contour.py:126-132 | one reading per mask name, in order |
| AvgContour.TallyErrSticks | avg_contour.py:126-132 | once a prefix of the readings fails, the whole loop fails with the same error |
| AvgContour.TallyExtend | avg_contour.py:126-132 | one more reading extends a successful tally, or ends the loop with that reading's error |
| AvgContour.GenerateAvgFilename | avg_contour.py:119-140 | the loop computes exactly the name of the finished tally, or the first error |
| AvgContour.TallyGenotypes | avg_contour.py:126-128 | the tally succeeds iff every mask name reads, and then holds one genotype per mask, in order |
| AvgContour.TallySumBounds | avg_contour.py:129-132 | with every counted scale in `[lo, hi]` the sum lies between `count * lo` and `count * hi` |
| AvgContour.AvgScaleBetween | avg_contour.py:133 | the recorded scale, the truncated mean of the counted scales, lies between the smallest and the largest of them |
| AvgContour.NameOfOneGenotype | avg_contour.py:137-140 | a tally of one genotype gives `{Scale_<mean>}{Genotype_<g>}.png` |
| AvgContour.NameOfMixedGenotypes | avg_contour.py:137-140 | a tally of mixed genotypes gives `{Scale_<mean>}.png` |
| AvgContour.OneGenotypeOfTally | avg_contour.py:137 | the tallied genotypes are all one iff the readings all carry one genotype |
| AvgContour.NameOfShape | avg_contour.py:119-140 | a name is made iff some scale was counted (ZeroDivisionError otherwise); it carries the genotype iff every mask has the same one |
| TipmaskTrain.GetTrueTipIndex | tipmask_train.py:26-38 | the first pixel whose red exceeds 100, and none iff there is no such pixel |
| TipmaskTrain.GetIndexFirstWhitePixel | tipmask_train.py:41-53 | the first column holding a 255, and none iff no column holds one |
| TipmaskTrain.CountOfPositive | tipmask_train.py:51-52 | the counter has a positive count for a value iff the value occurs |
| TipmaskTrain.Padded | tipmask_train.py:61-66 | the vector followed by zeros up to 5000 entries, unchanged when longer |
| TipmaskTrain.PaddedIdempotent | tipmask_train.py:56-68 | padding a padded vector adds nothing |
| TipmaskTrain.EqualizeLengths | tipmask_train.py:56-68 | returns the same list; every record's vector is padded in place, a record listed twice only once; labels are unchanged |
| TipmaskTrain.TrainingMatchesPrediction | tipmask_train.py:128-160 | the label is a column count of the de-tipped mask, and the padded features are exactly the vector the tip detector builds from the same mask |
| Straightener.RunEnd | java/src/org/uwm/carrots/Straightener.java:354-359 | the run of carrot rows from row `i` ends at `e`: every row up to `e` is carrot and the next is not |
| Straightener.RunsFromAreRuns | java/src/org/uwm/carrots/Straightener.java:354-375 | each listed run is a maximal run of carrot rows (red above 128) at or below the start |
| Straightener.RunsFromApart | java/src/org/uwm/carrots/Straightener.java:354-375 | the runs go top to bottom with at least one row between consecutive ones |
| Straightener.RunsFromEmpty | java/src/org/uwm/carrots/Straightener.java:354-390 | no run is listed iff no row from the start on is carrot |
| Straightener.RunEndAt | java/src/org/uwm/carrots/Straightener.java:358-359 | a run of carrot rows followed by a non-carrot row or the edge ends there |
| Straightener.FindCarrot | java/src/org/uwm/carrots/Straightener.java:351-392 | the scan, including the run reaching the bottom edge, reports exactly the segment picked from the runs top to bottom |
| Straightener.PickAllSpan | java/src/org/uwm/carrots/Straightener.java:363-370 | replacing the choice with a longer run (when it is a root hair) or extending it to a later run's end keeps a run start and a run end |
| Straightener.CarrotSegmentSpan | java/src/org/uwm/carrots/Straightener.java:351-392 | start is -1 (and end H-1) iff no row is carrot; otherwise `0 <= start <= end < H`, start begins a run and end ends one |
| Straightener.DataOfAt | java/src/org/uwm/carrots/Straightener.java:146-154 | entry `k` holds column `k`'s x, centre and width, and after the first the previous column's offset minus its own |
| Straightener.ColumnDataStep | java/src/org/uwm/carrots/Straightener.java:140-155 | a column with carrot appends its data; one without adds nothing |
| Straightener.GetColumnData | java/src/org/uwm/carrots/Straightener.java:134-157 | the scan from the right edge to the left returns the data of exactly the columns with carrot |
| Straightener.RelAdjustTelescopes | java/src/org/uwm/carrots/Straightener.java:146-154 | the first change is 0 and the changes sum to the first column's offset minus the last column's |
| Straightener.CenterWithin | java/src/org/uwm/carrots/Straightener.java:149 | a segment's centre lies within the segment |
| Straightener.Cancel | java/src/org/uwm/carrots/Straightener.java:173-181 | two offsets of opposite signs both move toward zero by the smaller magnitude: the sum is kept, the smaller becomes 0, offsets of equal sign are untouched |
| Straightener.TowardKeepsCompatible | java/src/org/uwm/carrots/Straightener.java:184-197 | moving two compatible offsets toward zero keeps them compatible |
| Straightener.CancelPairStep | java/src/org/uwm/carrots/Straightener.java:170-197 | one cancellation keeps the sum, only moves values toward zero and extends the compatible prefix |
| Straightener.TowardKeepsAllCompatible | java/src/org/uwm/carrots/Straightener.java:184-197 | the second pass cannot undo the first pass's neighbour compatibility |
| Straightener.CancelAdjacent | java/src/org/uwm/carrots/Straightener.java:170-183 | the first pass keeps the total, moves values only toward zero, and leaves no two neighbours of opposite signs |
| Straightener.CancelSkipOne | java/src/org/uwm/carrots/Straightener.java:184-197 | the second pass keeps the total, moves values only toward zero, leaves no two columns one apart of opposite signs, and keeps neighbour compatibility |
| Straightener.CancelOffsets | java/src/org/uwm/carrots/Straightener.java:170-197 | both passes: total kept, every value moved toward zero, no opposite signs between neighbours or columns one apart |
| Straightener.SmoothWidth | java/src/org/uwm/carrots/Straightener.java:288-298 | the window `[max(i - 10, 0), min(i + 10, n))` holds the index, and the result is the truncated mean of its widths |
| Straightener.SumRangeBounds | java/src/org/uwm/carrots/Straightener.java:292-294 | a sum of values in `[m, M]` lies between count times `m` and count times `M` |
| Straightener.SmoothedWithin | java/src/org/uwm/carrots/Straightener.java:288-298 | the smoothed width lies between the smallest and largest width of its window |
| Straightener.BuildColumn | java/src/org/uwm/carrots/Straightener.java:234-244 | the column has the image height; it is white exactly on the `width` rows from `centerline - width / 2` (clipped at 0 and the height), black elsewhere |
| Straightener.WhiteInExtent | java/src/org/uwm/carrots/Straightener.java:266-270 | when a column has white, its least and greatest white rows are white pixels; otherwise the extent is `(MAX_VALUE, 0)` |
| Straightener.WhiteExtent | java/src/org/uwm/carrots/Straightener.java:263-272 | rows `yMin..yMax` hold every white pixel, and there is no extent iff nothing is white |
| Straightener.WhiteExtentEnds | java/src/org/uwm/carrots/Straightener.java:263-272 | both ends of the extent are white pixels of some column |
| Straightener.ColumnExtent | java/src/org/uwm/carrots/Straightener.java:266-270 | the inner scan finds the lowest and highest white row of one column |
| Straightener.CropBounds | java/src/org/uwm/carrots/Straightener.java:262-286 | with columns of one height, the extent exists iff some pixel is white, and then lies within the height |
| Straightener.CropToCarrot | java/src/org/uwm/carrots/Straightener.java:262-286 | fails iff no pixel is white; otherwise every column is cut to the rows from the first to the last white row of any column |
| Straightener.CarrotExtent | java/src/org/uwm/carrots/Straightener.java:263-272 | the first loop computes `yMin` and `yMax` |
| Straightener.TrimColumns | java/src/org/uwm/carrots/Straightener.java:274-284 | the second loop cuts each column to rows `yMin..yMax` |
| Straightener.ScaleOfName | java/src/org/uwm/carrots/Straightener.java:45-53 | no scale iff the lower-cased name has no `{scale_` |
| Straightener.Curvature | java/src/org/uwm/carrots/Straightener.java:44-58 | without a scale the curvature is the pixel adjustment; it fails (ArithmeticException) iff the scale is 0 |
| Straightener.CurvatureNameKeepsExtension | java/src/org/uwm/carrots/Straightener.java:42-61 | the written name starts with the name up to its last `.` and ends with the original extension |
| Straightener.CurvatureKeepsExtension | java/src/org/uwm/carrots/Straightener.java:61 | putting `{Curvature_c}` before the extension keeps the base name and the extension |
| Straightener.ExtensionAfterLastDot | java/src/org/uwm/carrots/Straightener.java:42 | the text after the last `.` of `head.suffix` is the suffix when it has no `.` |
| Straightener.ScaleTokenFound | java/src/org/uwm/carrots/Straightener.java:46 | the first `{scale_` of a name whose prefix has none starts right after the prefix |
| Straightener.ReadUntil | java/src/org/uwm/carrots/Straightener.java:47-52 | reading up to the next `c` yields the field when the field is followed by `c` and does not contain it |
| Straightener.PpmFieldIsNotInt | java/src/org/uwm/carrots/Straightener.java:50-51 | `N_ppm` is not a Java int, so the `}` reading fails |
| Straightener.ScaleOfNameClose | java/src/org/uwm/carrots/Straightener.java:50 | the field up to `}` is taken when it parses |
| Straightener.ScaleOfNameUnder | java/src/org/uwm/carrots/Straightener.java:51-52 | otherwise 100 times the field up to `_` is taken |
| Straightener.ScaleFieldRead | java/src/org/uwm/carrots/Straightener.java:45-53 | a field `N}` reads as N |
| Straightener.ScaleFieldReadPpm | java/src/org/uwm/carrots/Straightener.java:45-53 | a field `N_ppm}` reads as 100 N |
| Straightener.ScaleTokenRead | java/src/org/uwm/carrots/Straightener.java:45-53 | `{Scale_N}` after text without one reads back as N, and `{Scale_N_ppm}` (as the scale finder writes it) as 100 N |
| Straightener.MirrorColumns | java/src/org/uwm/carrots/Straightener.java:36-41 | the written image is the result columns mirrored: column x goes to `n - 1 - x` |
| BoxFinding.NearbyNamesNewPixel | java/src/org/uwm/carrots/BoxFinder.java:34-51 | `isBoxNearby` answers FOUND exactly when the pixel is new (unclaimed and passing the cutoff); PLUS_ONE and MINUS_ONE name a new neighbour one step forward or back along the traced axis, inside the image, while the pixel itself fails the cutoff; a pixel inside a recorded box is NOT_FOUND |
| BoxFinding.RecordedPrefix | java/src/org/uwm/carrots/BoxFinder.java:130 | appending a box to `foundImages` keeps everything established about the boxes already there |
| BoxFinding.LaterBoxNotInside | java/src/org/uwm/carrots/BoxFinder.java:53-170 | a box recorded later never lies within an earlier one, because the pixel it grew from was not claimed by any earlier box |
| BoxFinding.RecordedBoxEvidence | java/src/org/uwm/carrots/BoxFinder.java:56-130 | a recorded box shows that some pixel passes the cutoff and that the image is wider and taller than `minWidth`; cropping the image to the box does not throw |
| BoxFinding.BoxFinder.constructor | java/src/org/uwm/carrots/BoxFinder.java:14-21 | a new finder keeps the image and `minWidth` and has found no boxes |
| BoxFinding.BoxFinder.AlreadyFound | java/src/org/uwm/carrots/BoxFinder.java:163-170 | the answer is true iff some recorded box contains the pixel (edges included) |
| BoxFinding.BoxFinder.IsNewBox | java/src/org/uwm/carrots/BoxFinder.java:23-25 | the answer is true iff no recorded box contains the pixel and the pixel passes the cutoff |
| BoxFinding.BoxFinder.IsBoxNearby | java/src/org/uwm/carrots/BoxFinder.java:34-51 | the answer is the `isBoxNearby` classification of the pixel (see `NearbyNamesNewPixel` for what each answer means) |
| BoxFinding.BoxFinder.GapSearch | java/src/org/uwm/carrots/BoxFinder.java:72-120 | entered only after NOT_FOUND, the gap search moves neither the trace nor the corner; it reports a jump iff some of the next 20 positions along the edge, before the scan limit, is not NOT_FOUND |
| BoxFinding.BoxFinder.Trace | java/src/org/uwm/carrots/BoxFinder.java:63-122 | tracing an edge ends between the start and the last index of the axis, with the drift inside the image and the corner no further in than the start or the drift; it stops early only at a NOT_FOUND pixel whose gap cannot be jumped |
| BoxFinding.BoxFinder.VerifySides | java/src/org/uwm/carrots/BoxFinder.java:145-161 | the box passes iff more than four fifths of its rows have a pixel that is not NOT_FOUND among the 49 columns left of the right edge (column 0 excluded) |
| BoxFinding.BoxFinder.FindBoxes | java/src/org/uwm/carrots/BoxFinder.java:53-143 | the result is the finder's list, which extends the old one; every box added lies in the image, is wider and taller than `minWidth`, passed the side check and was grown from a pixel that was new at that time; with short-circuit at most one box is added |
| BoxFinding.BoxFinder.RecordBox | java/src/org/uwm/carrots/BoxFinder.java:123-130 | the box is appended to `foundImages` and every box added since the scan began still satisfies the recorded-box property |
| ImageBoxes.NewImageBox | java/src/org/uwm/carrots/ImageBox.java:11-17 | the built box lies within `[0, width] × [0, height]`; corners already inside are kept and the box only shrinks |
| ImageBoxes.ClampIsIntersection | java/src/org/uwm/carrots/ImageBox.java:11-21 | a built box contains exactly the pixels the given corners contain that also lie in the image's closed extent |
| ImageBoxes.ClampIdempotent | java/src/org/uwm/carrots/ImageBox.java:11-17 | building a box again from a built box's corners gives the same box |
| ImageBoxes.Crop | java/src/org/uwm/carrots/ImageBox.java:23-25 | the crop succeeds iff the box is non-empty and lies in the image; it then has the box's width and height and holds the image's pixel at each offset from the upper-left corner |
| ImageBoxes.CropHoldsContained | java/src/org/uwm/carrots/ImageBox.java:19-25 | a successful crop is a rectangular image, and each pixel the box contains short of its lower-right edges appears in it at its offset |
| ScaleFinding.GreenIsNotBlue | java/src/org/uwm/carrots/ScaleFinder.java:73-120 | no colour with channels in 0..255 is both a bar (green) pixel and a disc (blue) pixel |
| ScaleFinding.GreenRun | java/src/org/uwm/carrots/ScaleFinder.java:105-115 | the green run from a pixel stays in the image, every pixel of it is green, and it ends at the right edge or at a pixel that is not green |
| ScaleFinding.BlueRun | java/src/org/uwm/carrots/ScaleFinder.java:93-103 | the blue run from a pixel stays in the image, every pixel of it is blue, and it ends at the bottom edge or at a pixel that is not blue |
| ScaleFinding.FindLine | java/src/org/uwm/carrots/ScaleFinder.java:105-115 | the count is the length of the maximal green run rightward from the pixel |
| ScaleFinding.FindVerticalLine | java/src/org/uwm/carrots/ScaleFinder.java:93-103 | the count is the length of the maximal blue run downward from the pixel |
| ScaleFinding.BestInColumnIsMax | java/src/org/uwm/carrots/ScaleFinder.java:62-68 | the scan of one column yields a value no pixel's score exceeds, and it is -1 or the score of one of its pixels |
| ScaleFinding.BestIsUpperBound | java/src/org/uwm/carrots/ScaleFinder.java:59-91 | the scan's result is at least the score of every pixel scanned |
| ScaleFinding.BestIsAttained | java/src/org/uwm/carrots/ScaleFinder.java:59-91 | the scan's result is -1 or the score of some pixel scanned |
| ScaleFinding.LongestGreenRun | java/src/org/uwm/carrots/ScaleFinder.java:78-91 | the bar search returns -1 iff no green run longer than 50 pixels exists; otherwise it returns the longest such run, which some pixel starts |
| ScaleFinding.LongestBlueRun | java/src/org/uwm/carrots/ScaleFinder.java:59-71 | the disc search returns -1 iff no pixel is blue; otherwise it returns the longest vertical blue run, which some blue pixel starts |
| ScaleFinding.FindGreenScale | java/src/org/uwm/carrots/ScaleFinder.java:78-91 | the pixel-by-pixel scan computes the bar search's maximum over all columns |
| ScaleFinding.FindBlueCircle | java/src/org/uwm/carrots/ScaleFinder.java:59-71 | the pixel-by-pixel scan computes the disc search's maximum over all columns |
| ScaleFinding.FindPixelsPerMeter | java/src/org/uwm/carrots/ScaleFinder.java:45-57 | the result is ten times the bar length when the bar is found, and 27 times the disc result otherwise |
| ScaleFinding.PixelsPerMeterCases | java/src/org/uwm/carrots/ScaleFinder.java:45-57 | with the bar the result exceeds 500 and is a multiple of 10; with only the disc it is a positive multiple of 27; it is negative iff neither marker is present, and then it is -27 |
| ScaleFinding.ScaleRename | java/src/org/uwm/carrots/ScaleFinder.java:26-36 | a negative count leaves the file's name alone; otherwise a name without '.' throws, and any other name is renamed |
| ScaleFinding.FirstTokenAt | java/src/org/uwm/carrots/ScaleFinder.java:32-33 | the case-insensitive search finds a `{scale_` token at the first position where one starts |
| ScaleFinding.StripClosedToken | java/src/org/uwm/carrots/ScaleFinder.java:32-35 | a base name with a closed `{scale_…}` token, and no token before it, loses exactly that token |
| ScaleFinding.StripNoToken | java/src/org/uwm/carrots/ScaleFinder.java:32-35 | a base name without a `{scale_` token is kept as it is |
| ScaleFinding.RenameKeepsExtension | java/src/org/uwm/carrots/ScaleFinder.java:30-36 | the new name ends in the same extension, the text after its last '.', as the old one |
| ScaleFinding.RenameReadsBack | java/src/org/uwm/carrots/ScaleFinder.java:36 | reading the new name's scale back as the straightener does gives 100 times the written count, whenever the base name holds no other token |
| CarrotMain.ParseArgs | java/src/org/uwm/carrots/Main.java:25-37 | no arguments is an index exception; otherwise the arguments are accepted iff there are three or four of them, the third parses as a Java `int`, and a fourth is `inverted` in any case; the input, output root and count are then the given ones, and inversion is on iff a fourth word was given |
| CarrotMain.CarrotIsRedderThanBlue | java/src/org/uwm/carrots/Main.java:39-40 | a pixel `CARROT_DETECT` accepts is redder than it is blue, so no grey pixel passes |
| CarrotMain.FindAdjustedCutoff | java/src/org/uwm/carrots/Main.java:94-125 | the pixel-by-pixel tally computes the midpoint of the dark and light mean reds of near-grey pixels over the whole image, an empty class counting once |
| CarrotMain.ColumnTallyBounded | java/src/org/uwm/carrots/Main.java:99-113 | over one column, the dark red sum is at most 59 per dark pixel and the light sum between 111 and 255 per light pixel |
| CarrotMain.ImageTallyBounded | java/src/org/uwm/carrots/Main.java:99-113 | the same bounds hold for the tallies over the whole image |
| CarrotMain.CutoffSeparatesMeans | java/src/org/uwm/carrots/Main.java:94-125 | the cutoff lies in 0..157; with both classes present it lies strictly between the dark and light mean reds, so the plain cutoff keeps every pixel no redder than the dark mean and drops every pixel at least as red as the light mean, and the inverted cutoff does the opposite; with no light pixel it is at most 29, and with only light pixels at least 55 |
| CarrotMain.FolderOfReads | java/src/org/uwm/carrots/Main.java:61-62 | a QR text holding `Source_`, then a folder name without `}`, then `}`, and no `Source_` before it, names that folder |
| CarrotMain.TrimmedNameReads | java/src/org/uwm/carrots/Main.java:68 | a QR text whose first `{` and last `}` bound a name is trimmed to exactly that name |
| CarrotMain.PhotoNameInjective | java/src/org/uwm/carrots/Main.java:72-77 | different copy numbers give different `{Photo_k}` names |
| CarrotMain.ClaimedStep | java/src/org/uwm/carrots/Main.java:74-78 | trying the next copy number because the current one is on disk leaves fewer files on disk to try, so the copy loop ends |
| CarrotMain.FirstFree | java/src/org/uwm/carrots/Main.java:74-78 | the chosen copy number is the first one, from the start, whose file is not on disk; every copy number before it is taken |
| CarrotMain.PickOutput | java/src/org/uwm/carrots/Main.java:72-78 | the copy loop picks the file of the first free copy number in the card's folder |
| CarrotMain.NameCard | java/src/org/uwm/carrots/Main.java:60-78 | a named output file is never a file already on disk |
| CarrotMain.NameOne | java/src/org/uwm/carrots/Main.java:50-80 | one pass of the loop body gives the card's outcome: skipped without a code or a carrot, an exception from a bad QR text, or its file |
| CarrotMain.CollectStep | java/src/org/uwm/carrots/Main.java:49-81 | one more card: its exception stops the loop, a skipped card changes nothing, and a named card is put under its file |
| CarrotMain.CollectErrorStops | java/src/org/uwm/carrots/Main.java:49-81 | after an exception the later cards change nothing |
| CarrotMain.CollectFailsAt | java/src/org/uwm/carrots/Main.java:49-81 | the first card that raises an exception decides the outcome of the whole loop |
| CarrotMain.CollectAllOk | java/src/org/uwm/carrots/Main.java:49-81 | when the loop goes through, no card raised an exception |
| CarrotMain.CollectNoError | java/src/org/uwm/carrots/Main.java:49-81 | when no card raises an exception, the loop goes through |
| CarrotMain.CollectKeys | java/src/org/uwm/carrots/Main.java:79 | each file in `toWrite` holds a card, seen so far, that was named to that file |
| CarrotMain.CollectLastWins | java/src/org/uwm/carrots/Main.java:79 | each file holds the last card named to it: `put` overwrites the earlier ones |
| CarrotMain.CollectComplete | java/src/org/uwm/carrots/Main.java:79 | every card that was named has its file among the keys |
| CarrotMain.Outputs | java/src/org/uwm/carrots/Main.java:49-80 | there is one outcome per card, and it is that card's outcome |
| CarrotMain.CollectCards | java/src/org/uwm/carrots/Main.java:49-81 | the loop over the cards builds the map the card-by-card definition gives, or stops with the first exception |
| CarrotMain.NameCards | java/src/org/uwm/carrots/Main.java:48-84 | the loop and the count check give the planned files, or the exception that stops the run |
| CarrotMain.PlanMeaning | java/src/org/uwm/carrots/Main.java:48-84 | when the run goes through, exactly `numCarrots` files are written, none on disk before; each holds the last card that shows a carrot and whose QR text names that file; every such card's file is written |
| CarrotMain.PlanSucceeds | java/src/org/uwm/carrots/Main.java:48-84 | when every card with a carrot and a QR text can be named, the run goes through exactly when the number of distinct files named equals `numCarrots`, and the files written are exactly those |
| CarrotMain.PlanFails | java/src/org/uwm/carrots/Main.java:60-68 | a card with a carrot whose QR text cannot be named makes the whole run fail |
| CarrotMain.CutoffMask | java/src/org/uwm/carrots/Main.java:124 | the mask has the image's size and holds the cutoff's verdict on each pixel |
| CarrotMain.CarrotMask | java/src/org/uwm/carrots/Main.java:39-40 | the mask has the image's size and holds `CARROT_DETECT`'s verdict on each pixel |
| CarrotMain.CarrotFound | java/src/org/uwm/carrots/Main.java:53 | a card reported as holding a carrot has a carrot-coloured pixel and is more than 30 pixels wide and high |
| CarrotMain.FindCards | java/src/org/uwm/carrots/Main.java:45-46 | the cutoff is the adjusted average of the photograph, and every box found satisfies the recorded-box property of the box finder with minimum width 600 under that cutoff |
| CarrotMain.PlanDelivers | java/src/org/uwm/carrots/Main.java:48-84 | when every card was read from its box, each planned file holds a box that crops, shows a carrot pixel and has a QR text naming that file, and there are `numCarrots` of them |
| CarrotMain.Process | java/src/org/uwm/carrots/Main.java:42-92 | one card is read per box found, each cropping without exception, with its QR text and a carrot verdict backed by a carrot-coloured pixel; the result is `Plan` of those cards, so when the run goes through exactly `numCarrots` files are written, none on disk before, each holding a card whose QR text names that file |

## Left out

- OpenCV, scipy and numpy image operations (findContours, contourArea, drawContours, fillPoly, thresholds, blurs, erode/dilate, minAreaRect/boxPoints, HSV conversion, the grey-to-RGB conversion (`COLOR_GRAY2RGB`) that `mark_start_of_tail` applies to the grayscale masks it is given (`TipMask.MarkStartOfTail` starts from its colour result), distanceTransform, copyMakeBorder, binary_fill_holes): foreign library calls. Their results (contours, areas, binary grids, box corners) are inputs of the model.
- Floating-point traits: the mm and mm² conversions, the atan2 tip angles, the float-slope area above the tip angle and the length/width ratio of `phenotype.py`. Float representation is not modelled; thresholds that compare floats are stated as exact integer cross-multiplications, and Python `round` is modelled on the exact rational.
- `Straightener.java` floating point and the curvature value: findSlope, findWidth, the adjustRow length compensation and the column duplication it drives (a column added twice when the accumulated stretch exceeds .5) are not modelled. The integer `totalAdjustment` and `integralOfDiagonal` and the final `sqrt` that give the curvature in pixels are not modelled either: that value (`pixelAdjust`) is an input of `Straightener.Curvature`. The unsmoothed widths are inputs of `Straightener.SmoothWidth`.
- `Straightener.preprocess` is never called by the program and is not modelled.
- Java `int` wrap-around: the tallies of `findAdjustedCutoff` (held in `long` and `int`), the `* 10` and `* 27` of `findPixelsPerMeter`, the offset sums of the straightener, the `100 * Integer.parseInt(...)` of a `_ppm` scale in `Straightener.ScaleOfName` and the `pixelAdjust *= 100` of `Straightener.Curvature` are computed on unbounded integers. Realistic image sizes and scales stay far from 2^31.
- ScaleFinding.RenameReadsBack: requires the count to be below 2^31, since a larger one is not a Java `int` and would not parse back.
- Machine learning: the random-forest fit, score, dump and load, and `model.predict`. The prediction is an input, and only the feature and label construction is modelled.
- File system: image reads and writes, directory walks and listings, `mkdirs`, `rename`, `copy`, `rmtree`. Listings and files on disk are inputs (a list of names or a set of files). The effects are values: the path a file would get, or the list of copy/move steps a run performs. An output file is identified by its folder and name; the output root is not part of that key.
- `get_mask_pairs`, the `tip_mask` directory loop, `get_target_dir`, `move_straightened_masks` and the Java subprocess and re-crop loop of `lib/crop.py`: process and directory plumbing around the modelled functions.
- `ScaleFinder.main` and the directory recursion of `bulkProcess`, and `Straightener.main`: only the per-file rename logic is modelled.
- Concurrency: the multiprocessing pools of the command-line entry points, and `Timer.java` (a synchronised wall-clock accumulator).
- QR decoding (zxing `extract` in `Main.java`, pyzbar in `acquire.py`): a function parameter of the model, returning the decoded text or nothing.
- Database, CSV and UI code: MongoDB writes, CSV assembly, the hazelnut phenotyper, lens correction, the acquisition preview client and server, the watchdog and click prompts, and the visualisation and plotting code.
- Configuration: `config.json` values are fixed constants (scale-bar length 100 mm, `.png`, padded length 5000, the list of methods).
- Regular expressions: `\w` is read as ASCII letters, digits and underscore, and `lower()` and `equalsIgnoreCase` as ASCII case folding. Non-ASCII file names are outside the model. The `.` of `{uid_(?P<uid>.+?)}` does not match a newline in Python; `Acquire.UidOf` accepts any character there.
- Python `int(str)` is modelled on optional sign and decimal digits. Surrounding whitespace and digit-group underscores are not accepted by the model.
- BoxFinding.BoxFinder: the colour predicate is given as its verdict on every pixel (a boolean grid). The side check's `nMatched > (lrY - ulY) * .8` is stated exactly as `5 * nMatched > 4 * (lrY - ulY)`.
- BoxFinding.BoxFinder.Trace: states bounds on the traced edge and the stopping rule, not the exact drift and corner values.
- BoxFinding.BoxFinder.FindBoxes: states what holds of each recorded box, not that every box present in the image is found.
- BoxFinding.BoxFinder.GapSearch: requires the incoming answer to be NOT_FOUND, the only case in which the source enters the gap search; the drift updates inside it are therefore dead code.
- CarrotMain.CarrotFound: one direction only: a reported carrot implies a carrot-coloured pixel and a large enough card, not the converse.
- CarrotMain.NameCard: its own contract only says the file is new; the folder, trimmed name and copy number are stated by `FolderOfReads`, `TrimmedNameReads` and `FirstFree`.
- CarrotMain.Process: the final `ImageIO.write` of each card is not modelled; the result is the map from output file to card.
- Straightener.CropToCarrot: a column added twice to the Java result list is one shared list there, trimmed once and then skipped by the height check; in the model each entry of the column array is trimmed once, which gives the same columns.
- Straightener: the `relAdjust` fields of the column records are kept in a separate array of offsets that the cancellation passes update in place.
- Scalebar.MeasureScalebarOld: rounds 2.7 times the height on the exact rational; the source's binary64 product can land just above a tie (335 * 2.7 is 904.5000000000001, giving 905 where the model gives 904), so the legacy length may differ by one.
