/**
 * `lib/scalebar.py`: the per-pixel colour indices that find the green
 * scale bar and the blue circle, the extreme points of the bar's contour,
 * the two length measurements, and which files `measure_scalebar` renames.
 * The contours, their areas and the contour drawn back onto a black image
 * come from OpenCV and are inputs.
 */
module Scalebar {
  import opened Wrappers
  import opened Numeric
  import opened Text
  import opened Pixels
  import opened Contours
  import opened Phenotype
  import Append
  import Utils

  /** One pixel of an OpenCV image, channels in B, G, R order. */
  datatype Bgr = Bgr(b: int, g: int, r: int)

  type Image = seq<seq<Bgr>>

  // ------------------------------------------------------------ colour indices

  /** `2 * G - R - B`, the excess-green index. */
  function ExcessGreen(p: Bgr): int
  {
    2 * p.g - p.r - p.b
  }

  /** One pixel of `create_binary_mask_by_green_index`: `piecewise(..., [< t, >= t], [0, 1]) * 255`. */
  function GreenPixel(p: Bgr, threshold: int): (v: int)
    ensures v == 0 || v == 255
  {
    if ExcessGreen(p) < threshold then 0 else 255
  }

  /** `create_binary_mask_by_green_index(image, threshold)` */
  function GreenMask(img: Image, threshold: int): (m: Grid)
    ensures |m| == |img| && forall i :: 0 <= i < |img| ==> |m[i]| == |img[i]|
    ensures forall i, j :: 0 <= i < |img| && 0 <= j < |img[i]| ==> m[i][j] == GreenPixel(img[i][j], threshold)
  {
    seq(|img|, i requires 0 <= i < |img| => seq(|img[i]|, j requires 0 <= j < |img[i]| => GreenPixel(img[i][j], threshold)))
  }

  /**
   * A pixel of the green mask is white exactly when its excess green reaches
   * the threshold, so a higher threshold keeps only pixels a lower one kept.
   */
  lemma GreenMaskMonotone(img: Image, lo: int, hi: int)
    requires lo <= hi
    ensures forall i, j :: 0 <= i < |img| && 0 <= j < |img[i]| ==>
      (GreenMask(img, hi)[i][j] == 255 ==> GreenMask(img, lo)[i][j] == 255)
      && (GreenMask(img, lo)[i][j] == 255 <==> 2 * img[i][j].g - img[i][j].r - img[i][j].b >= lo)
  {
  }

  /**
   * One pixel of `create_binary_mask_by_blue_index` before the erosion:
   * the signed index `(B - R) / (B + R)` against the threshold. When
   * `B + R == 0` the index is NaN, which fails both conditions of
   * `np.piecewise`, and the pixel stays 0.
   */
  function BluePixel(p: Bgr, threshold: real): (v: int)
    ensures v == 0 || v == 255
  {
    if p.b + p.r == 0 then 0
    else if (p.b - p.r) as real / (p.b + p.r) as real < threshold then 0
    else 255
  }

  /** `create_binary_mask_by_blue_index(image, threshold)` up to the erosion and dilation. */
  function BlueMask(img: Image, threshold: real): (m: Grid)
    ensures |m| == |img| && forall i :: 0 <= i < |img| ==> |m[i]| == |img[i]|
    ensures forall i, j :: 0 <= i < |img| && 0 <= j < |img[i]| ==> m[i][j] == BluePixel(img[i][j], threshold)
  {
    seq(|img|, i requires 0 <= i < |img| => seq(|img[i]|, j requires 0 <= j < |img[i]| => BluePixel(img[i][j], threshold)))
  }

  /**
   * For non-negative channels the blue rule is the cross-multiplied test
   * `B - R >= t * (B + R)` on pixels that are not black in both channels.
   */
  lemma BluePixelCrossMultiplied(p: Bgr, threshold: real)
    requires 0 <= p.b && 0 <= p.r
    ensures BluePixel(p, threshold) == 255 <==>
      p.b + p.r > 0 && (p.b - p.r) as real >= threshold * (p.b + p.r) as real
  {
    if p.b + p.r > 0 {
      var s := (p.b + p.r) as real;
      var d := (p.b - p.r) as real;
      assert d / s * s == d;
      if d / s >= threshold {
        assert d / s * s >= threshold * s;
      } else {
        assert d / s * s < threshold * s;
      }
    }
  }

  /**
   * The index is signed: with a positive threshold a pixel is white only
   * when it is bluer than red, and a red pixel (whose absolute index may be
   * large) stays black.
   */
  lemma BlueIndexSigned(p: Bgr, threshold: real)
    requires 0 <= p.b && 0 <= p.r && threshold > 0.0
    ensures BluePixel(p, threshold) == 255 ==> p.b > p.r
    ensures p.r >= p.b ==> BluePixel(p, threshold) == 0
  {
    BluePixelCrossMultiplied(p, threshold);
  }

  // ------------------------------------------------------------ contours

  /** `max(cnts, key=cv2.contourArea)`: the first contour of largest area. */
  function LargestIndex(areas: seq<real>): (k: nat)
    requires |areas| > 0
    ensures k < |areas|
    ensures forall i :: 0 <= i < |areas| ==> areas[i] <= areas[k]
    ensures forall i :: 0 <= i < k ==> areas[i] < areas[k]
  {
    if |areas| == 1 then 0
    else
      var k := LargestIndex(areas[..|areas| - 1]);
      if areas[|areas| - 1] > areas[k] then |areas| - 1 else k
  }

  /** The four extreme points of a contour, as `find_extreme_points_of_contour` returns them. */
  datatype Extremes = Extremes(top: Point, right: Point, bottom: Point, left: Point)

  /** `find_extreme_points_of_contour(c)`: the first points of least and greatest x and y, in contour order. */
  function FindExtremePoints(c: Contour): (e: Extremes)
    requires |c| > 0
  {
    Extremes(c[ArgMin(Ys(c))], c[ArgMax(Xs(c))], c[ArgMax(Ys(c))], c[ArgMin(Xs(c))])
  }

  /**
   * Each extreme point lies on the contour, bounds every point in its
   * direction, and no earlier point of the contour reaches it.
   */
  lemma ExtremePointsAreFirstExtremes(c: Contour)
    requires |c| > 0
    ensures var e := FindExtremePoints(c);
      e.top in c && e.right in c && e.bottom in c && e.left in c
      && (forall k :: 0 <= k < |c| ==> e.left.x <= c[k].x <= e.right.x && e.top.y <= c[k].y <= e.bottom.y)
      && (forall k :: 0 <= k < ArgMin(Xs(c)) ==> e.left.x < c[k].x)
      && (forall k :: 0 <= k < ArgMax(Xs(c)) ==> c[k].x < e.right.x)
      && (forall k :: 0 <= k < ArgMin(Ys(c)) ==> e.top.y < c[k].y)
      && (forall k :: 0 <= k < ArgMax(Ys(c)) ==> c[k].y < e.bottom.y)
  {
    ArgMinIsFirstMin(Xs(c));
    ArgMaxIsFirstMax(Xs(c));
    ArgMinIsFirstMin(Ys(c));
    ArgMaxIsFirstMax(Ys(c));
  }

  /**
   * `measure_scalebar_new` given the contours of the green mask (threshold
   * 120) and their areas: the x extent of the largest one. A mask without
   * contours makes `max` raise.
   */
  function MeasureScalebarNew(cs: seq<Contour>, areas: seq<real>): (r: Result<int>)
    requires |areas| == |cs| && forall i :: 0 <= i < |cs| ==> |cs[i]| > 0
    ensures r.Err? <==> |cs| == 0
  {
    if |cs| == 0 then Err("ValueError")
    else
      var e := FindExtremePoints(cs[LargestIndex(areas)]);
      Ok(e.right.x - e.left.x)
  }

  /** The length is never negative, and every point of the chosen contour lies within it of the leftmost. */
  lemma MeasureScalebarNewSpan(cs: seq<Contour>, areas: seq<real>)
    requires |areas| == |cs| > 0 && forall i :: 0 <= i < |cs| ==> |cs[i]| > 0
    ensures var c := cs[LargestIndex(areas)];
      var r := MeasureScalebarNew(cs, areas);
      r.Ok? && r.value >= 0
      && (forall k :: 0 <= k < |c| ==> c[ArgMin(Xs(c))].x <= c[k].x <= c[ArgMin(Xs(c))].x + r.value)
      && (exists k :: 0 <= k < |c| && c[k].x == c[ArgMin(Xs(c))].x + r.value)
  {
    var c := cs[LargestIndex(areas)];
    ExtremePointsAreFirstExtremes(c);
    assert c[ArgMax(Xs(c))].x == c[ArgMin(Xs(c))].x + MeasureScalebarNew(cs, areas).value;
  }

  // ------------------------------------------------------------ the legacy measurement

  /** `mask[:, mask.shape[1] // 2:]`: the right half, where the blue circle is searched. */
  function RightHalf(g: Grid): (h: Grid)
    requires IsGrid(g)
    ensures |h| == |g| && forall i :: 0 <= i < |h| ==> |h[i]| == Width(g) - Width(g) / 2
    ensures forall i, j :: 0 <= i < |h| && 0 <= j < Width(g) - Width(g) / 2 ==> h[i][j] == g[i][Width(g) / 2 + j]
  {
    Window(g, 0, |g|, Width(g) / 2, Width(g))
  }

  /** `thresh[:, :-20]` with a black column put in front of it. */
  function OldThresh(drawn: Grid): (t: Grid)
    requires IsGrid(drawn)
    ensures IsGrid(t) && |t| == |drawn|
  {
    var stop := SliceRange(0, -20, Width(drawn)).1;
    seq(|drawn|, i requires 0 <= i < |drawn| => [0] + drawn[i][..stop])
  }

  /**
   * The legacy length from the drawn contour (white on black, thresholded):
   * `round(get_max_width(thresh) * 2.7)`.
   */
  function MeasureScalebarOld(drawn: Grid): (r: int)
    requires IsGrid(drawn)
  {
    RoundHalfEven(MaxWidth(OldThresh(drawn)) * 27, 10)
  }

  /** With the black column in front, a row qualifies exactly when it keeps a lit pixel. */
  lemma OldThreshRow(drawn: Grid, i: nat)
    requires IsGrid(drawn) && i < |drawn|
    requires forall j :: 0 <= j < Width(drawn) ==> drawn[i][j] >= 0
    ensures var stop := SliceRange(0, -20, Width(drawn)).1;
      Qualifies(OldThresh(drawn)[i]) <==> exists j :: 0 <= j < stop && drawn[i][j] > 0
  {
    var stop := SliceRange(0, -20, Width(drawn)).1;
    var row := OldThresh(drawn)[i];
    assert row == [0] + drawn[i][..stop];
    if exists j :: 0 <= j < stop && drawn[i][j] > 0 {
      var j :| 0 <= j < stop && drawn[i][j] > 0;
      assert row[j + 1] == drawn[i][j];
    }
    if Qualifies(row) {
      var k :| 0 < k < |row| && row[0] < row[k];
      assert row[k] == drawn[i][k - 1];
    }
  }

  lemma OldThreshRows(drawn: Grid)
    requires IsGrid(drawn)
    requires forall i, j :: 0 <= i < |drawn| && 0 <= j < Width(drawn) ==> drawn[i][j] >= 0
    ensures var stop := SliceRange(0, -20, Width(drawn)).1;
      forall i :: 0 <= i < |drawn| ==> (Qualifies(OldThresh(drawn)[i]) <==> exists j :: 0 <= j < stop && drawn[i][j] > 0)
  {
    forall i | 0 <= i < |drawn|
      ensures Qualifies(OldThresh(drawn)[i]) <==> exists j :: 0 <= j < SliceRange(0, -20, Width(drawn)).1 && drawn[i][j] > 0
    {
      OldThreshRow(drawn, i);
    }
  }

  /**
   * The legacy length is 2.7 times (rounded half to even) the number of rows
   * from the first to the last one lit left of the last 20 columns, or 2.7
   * times the full height when no such row is lit.
   */
  lemma MeasureScalebarOldSpansRows(drawn: Grid)
    requires IsGrid(drawn)
    requires forall i, j :: 0 <= i < |drawn| && 0 <= j < Width(drawn) ==> drawn[i][j] >= 0
    ensures var t := OldThresh(drawn);
      var stop := SliceRange(0, -20, Width(drawn)).1;
      ((forall i, j :: 0 <= i < |drawn| && 0 <= j < stop ==> drawn[i][j] == 0) ==>
        MeasureScalebarOld(drawn) == RoundHalfEven(|drawn| * 27, 10))
      && ((exists i, j :: 0 <= i < |drawn| && 0 <= j < stop && drawn[i][j] > 0) ==>
        MeasureScalebarOld(drawn) == RoundHalfEven((LastQualifying(t, |t|) - FirstQualifying(t, 0) + 1) * 27, 10))
  {
    var t := OldThresh(drawn);
    var stop := SliceRange(0, -20, Width(drawn)).1;
    MaxWidthSpansRows(t);
    OldThreshRows(drawn);
    if exists i, j :: 0 <= i < |drawn| && 0 <= j < stop && drawn[i][j] > 0 {
      var i, j :| 0 <= i < |drawn| && 0 <= j < stop && drawn[i][j] > 0;
      assert Qualifies(t[i]);
    }
  }

  // ------------------------------------------------------------ measure_scalebar

  /** The files the legacy mode skips: its own debugging outputs. */
  predicate IsDerivedImage(file: string)
  {
    Contains(file, "_contour") || Contains(file, "_mask") || Contains(file, "_crop")
  }

  /**
   * `measure_scalebar(dir, old)`: the files it measures, each with its
   * length (`lengths[i]` is the length measured for `files[i]`); each is
   * then renamed to `ScaleRename(file, length)`.
   */
  function MeasureScalebarRenames(files: seq<string>, lengths: seq<int>, legacy: bool): (r: seq<(string, int)>)
    requires |lengths| == |files|
    ensures forall e :: e in r ==> !(legacy && IsDerivedImage(e.0)) && exists i :: 0 <= i < |files| && e == (files[i], lengths[i])
    ensures forall i :: 0 <= i < |files| && !(legacy && IsDerivedImage(files[i])) ==> (files[i], lengths[i]) in r
    ensures !legacy ==> |r| == |files|
  {
    if |files| == 0 then []
    else
      var rest := MeasureScalebarRenames(files[1..], lengths[1..], legacy);
      assert forall i :: 0 < i < |files| ==> files[1..][i - 1] == files[i] && lengths[1..][i - 1] == lengths[i];
      if legacy && IsDerivedImage(files[0]) then rest
      else [(files[0], lengths[0])] + rest
  }

  /** `append_or_change_filename(file, "Scale", None, "%s" % length)` */
  function ScaleRename(file: string, length: int): string
  {
    Append.AssembleNewFilepath(file, ScalePairs(file, length))
  }

  /** The pairs of the renamed file. */
  function ScalePairs(file: string, length: int): seq<string>
  {
    Append.ChangedPairs(Utils.GetKvPairs(file), "Scale", None, Some(IntToString(length)))
  }

  /** The renamed file carries `Scale_<length>`: in place of the first Scale pair, or appended. */
  lemma ScaleRecorded(file: string, length: int)
    ensures "Scale_" + IntToString(length) in ScalePairs(file, length)
  {
    var pairs, v := Utils.GetKvPairs(file), IntToString(length);
    var r := Append.ChangedPairs(pairs, "Scale", None, Some(v));
    assert r == ScalePairs(file, length);
    assert Append.PyStr(Some(v)) == v;
    assert "Scale" + "_" + v == "Scale_" + v;
    match Append.FirstWithKey(pairs, "Scale")
    case Some(i) =>
      Append.ChangeEditsFirstMatch(pairs, "Scale", None, Some(v), i);
      assert r[i] == "Scale_" + v;
    case None =>
      Append.ChangeAppendsAbsent(pairs, "Scale", None, Some(v));
      assert r[|pairs|] == "Scale_" + v;
  }
}
