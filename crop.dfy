/**
 * The integer geometry of `lib/crop.py`: the tape-edge trim, the two ways of
 * cropping left of the blue tape (the legacy first-blue-column rule and the
 * contour anchors with their crop polygon), the black-tape bounds, the black
 * rows added around a thresholded mask, and the in-place repair of the
 * shoulder columns of a mask followed by the crop at the shoulder.  OpenCV's
 * colour conversions, thresholds, contour finding and drawing are not
 * modelled: their results (masks, contours, areas, box corners) are inputs.
 */
module Crop {
  import opened Wrappers
  import opened Numeric
  import opened Pixels
  import opened Contours
  import Phenotype

  // ------------------------------------------------------------ trim_tape_edges

  /**
   * The rows `[int(0.05 h), int(h - 0.05 h))` and the columns
   * `[int(0.025 w), int(w - 0.025 w))` that `trim_tape_edges` keeps: the
   * first margin is the floor of the fraction, the second the ceiling, so the
   * trimmed band is never inverted.
   */
  function TrimBounds(height: nat, width: nat): (b: (nat, nat, nat, nat))
    ensures 20 * b.0 <= height < 20 * (b.0 + 1)
    ensures height <= 20 * (height - b.1) < height + 20
    ensures 40 * b.2 <= width < 40 * (b.2 + 1)
    ensures width <= 40 * (width - b.3) < width + 40
    ensures b.0 <= b.1 <= height && b.2 <= b.3 <= width
  {
    (height / 20, height - (height + 19) / 20, width / 40, width - (width + 39) / 40)
  }

  /** `trim_tape_edges`: the window of the image inside the trim bounds. */
  function TrimTapeEdges(img: Grid): (r: Grid)
    requires IsGrid(img)
    ensures var b := TrimBounds(|img|, Width(img));
      |r| == b.1 - b.0
      && (forall i :: 0 <= i < |r| ==> |r[i]| == b.3 - b.2)
      && forall i, j :: 0 <= i < |r| && 0 <= j < b.3 - b.2 ==> r[i][j] == img[b.0 + i][b.2 + j]
  {
    var b := TrimBounds(|img|, Width(img));
    Window(img, b.0, b.1, b.2, b.3)
  }

  // ------------------------------------------------------------ legacy blue crop (old=True)

  predicate NonEmptyRows(mask: seq<seq<int>>)
  {
    forall i :: 0 <= i < |mask| ==> |mask[i]| > 0
  }

  /** `blues`: the positive `row.argmax()` values of the blue-range mask, in row order. */
  function BlueStarts(mask: seq<seq<int>>): (s: seq<int>)
    requires NonEmptyRows(mask)
  {
    if |mask| == 0 then []
    else
      var m := ArgMax(mask[|mask| - 1]);
      BlueStarts(mask[..|mask| - 1]) + (if m > 0 then [m] else [])
  }

  /** `blues` holds exactly the positive first-blue columns of the rows. */
  lemma {:induction false} BlueStartsMembers(mask: seq<seq<int>>)
    requires NonEmptyRows(mask)
    ensures forall k :: 0 <= k < |BlueStarts(mask)| ==>
      BlueStarts(mask)[k] > 0 && exists i :: 0 <= i < |mask| && ArgMax(mask[i]) == BlueStarts(mask)[k]
    ensures forall i :: 0 <= i < |mask| && ArgMax(mask[i]) > 0 ==> ArgMax(mask[i]) in BlueStarts(mask)
  {
    if |mask| > 0 {
      var p := mask[..|mask| - 1];
      BlueStartsMembers(p);
      var m := ArgMax(mask[|mask| - 1]);
      var b, bp := BlueStarts(mask), BlueStarts(p);
      assert b == bp + (if m > 0 then [m] else []);
      forall k | 0 <= k < |b|
        ensures b[k] > 0 && exists i :: 0 <= i < |mask| && ArgMax(mask[i]) == b[k]
      {
        if k < |bp| {
          var i :| 0 <= i < |p| && ArgMax(p[i]) == bp[k];
          assert p[i] == mask[i];
        } else {
          assert ArgMax(mask[|mask| - 1]) == b[k];
        }
      }
      forall i | 0 <= i < |mask| && ArgMax(mask[i]) > 0
        ensures ArgMax(mask[i]) in b
      {
        if i < |p| {
          assert p[i] == mask[i];
          assert ArgMax(p[i]) in bp;
        }
      }
    }
  }

  /** Python's `min` of a non-empty list. */
  function MinOf(s: seq<int>): (m: int)
    requires |s| > 0
  {
    if |s| == 1 then s[0] else Min(MinOf(s[..|s| - 1]), s[|s| - 1])
  }

  lemma {:induction false} MinOfIsMin(s: seq<int>)
    requires |s| > 0
    ensures MinOf(s) in s && forall k :: 0 <= k < |s| ==> MinOf(s) <= s[k]
  {
    if |s| > 1 {
      MinOfIsMin(s[..|s| - 1]);
    }
  }

  /**
   * The `old` branch of `crop_left_of_blue_line_hsv`: the columns before
   * `min(blues) - 5`, a ValueError when no row has a positive first-blue column.
   */
  function LegacyBlueCrop(img: Grid, mask: seq<seq<int>>): (r: Result<Grid>)
    requires IsGrid(img) && |mask| == |img| && NonEmptyRows(mask)
    ensures r.Err? <==> forall i :: 0 <= i < |mask| ==> ArgMax(mask[i]) == 0
    ensures r.Ok? ==> |r.value| == |img|
  {
    BlueStartsMembers(mask);
    var blues := BlueStarts(mask);
    if |blues| == 0 then Err("ValueError")
    else
      var stop := SliceRange(0, MinOf(blues) - 5, Width(img)).1;
      Ok(Window(img, 0, |img|, 0, stop))
  }

  /**
   * With `m` the least positive first-blue column, every row keeps its first
   * `m - 5` columns; when `m < 5` the negative stop counts from the right edge.
   */
  lemma LegacyBlueCropColumns(img: Grid, mask: seq<seq<int>>, i: nat)
    requires IsGrid(img) && |mask| == |img| && NonEmptyRows(mask)
    requires i < |mask| && ArgMax(mask[i]) > 0
    requires forall j :: 0 <= j < |mask| && ArgMax(mask[j]) > 0 ==> ArgMax(mask[i]) <= ArgMax(mask[j])
    ensures var m, w := ArgMax(mask[i]), Width(img);
      var kept := if m >= 5 then Min(m - 5, w) else Max(0, w + m - 5);
      LegacyBlueCrop(img, mask).Ok?
      && forall k :: 0 <= k < |img| ==> LegacyBlueCrop(img, mask).value[k] == img[k][..kept]
  {
    LeastBlueStart(mask, i);
  }

  /** `min(blues)` is the least positive first-blue column of the rows. */
  lemma LeastBlueStart(mask: seq<seq<int>>, i: nat)
    requires NonEmptyRows(mask)
    requires i < |mask| && ArgMax(mask[i]) > 0
    requires forall j :: 0 <= j < |mask| && ArgMax(mask[j]) > 0 ==> ArgMax(mask[i]) <= ArgMax(mask[j])
    ensures |BlueStarts(mask)| > 0 && MinOf(BlueStarts(mask)) == ArgMax(mask[i])
  {
    BlueStartsMembers(mask);
    var blues := BlueStarts(mask);
    MinOfIsMin(blues);
    var k :| 0 <= k < |blues| && blues[k] == MinOf(blues);
    var j :| 0 <= j < |mask| && ArgMax(mask[j]) == blues[k];
  }

  // ------------------------------------------------------------ blue-tape contours

  /** The sort key `lambda x: x[0][1]`. */
  function YKey(p: Point): real { p.y as real }

  /** The running state of the contour loop: `min_y_y`, `min_y_x`, `max_y_y`, `max_y_x`, `ext_lefts`. */
  datatype Anchors = Anchors(minYY: int, minYX: Option<int>, maxYY: int, maxYX: Option<int>, extLefts: seq<Point>)

  /** The corridor of contour points searched for the least x. */
  const YOffset: nat := 25

  predicate NonEmptyContours(cs: seq<Contour>)
  {
    forall i :: 0 <= i < |cs| ==> |cs[i]| > 0
  }

  /** `c[c[:, :, 0].argmin()]`: the first point of least x. */
  function ExtLeft(c: Contour): (p: Point)
    requires |c| > 0
  {
    c[ArgMin(Xs(c))]
  }

  lemma ExtLeftIsLeftmost(c: Contour)
    requires |c| > 0
    ensures ExtLeft(c) in c && forall k :: 0 <= k < |c| ==> ExtLeft(c).x <= c[k].x
  {
    ArgMinIsFirstMin(Xs(c));
  }

  /**
   * The top-left update: a higher topmost point lowers `min_y_y`, and when it
   * lies in the top quarter, `min_y_x` becomes the x of the point whose index
   * is the OFFSET of the least x within the 25 points from the topmost one.
   */
  function TopStep(st: Anchors, c: Contour, height: nat): (r: Anchors)
    requires |c| > 0
  {
    var iy := ArgMin(Ys(c));
    if c[iy].y < st.minYY then
      if 4 * c[iy].y < height then
        var lohi := SliceRange(iy, iy + YOffset, |c|);
        var off := ArgMin(Xs(c)[lohi.0..lohi.1]);
        Anchors(c[iy].y, Some(c[off].x), st.maxYY, st.maxYX, st.extLefts)
      else Anchors(c[iy].y, st.minYX, st.maxYY, st.maxYX, st.extLefts)
    else st
  }

  /** `sorted(c, key=y)[::-1]`: the points from the lowest (largest y) up. */
  function ByDescendingY(c: Contour): (d: Contour)
    ensures |d| == |c|
  {
    Reverse(SortBy(c, YKey))
  }

  /**
   * The bottom-left update: a lower bottommost point raises `max_y_y`, and
   * when it lies in the bottom quarter, `max_y_x` becomes the least x among
   * the 25 lowest points.
   */
  function BottomStep(st: Anchors, c: Contour, height: nat): (r: Anchors)
    requires |c| > 0
  {
    var iy := ArgMax(Ys(c));
    if c[iy].y > st.maxYY then
      if 4 * c[iy].y > 3 * height then
        var d := ByDescendingY(c);
        var low := d[..Min(YOffset, |d|)];
        var k := ArgMin(Xs(low));
        Anchors(st.minYY, st.minYX, c[iy].y, Some(low[k].x), st.extLefts)
      else Anchors(st.minYY, st.minYX, c[iy].y, st.maxYX, st.extLefts)
    else st
  }

  /** One pass of the loop body for a contour large enough to be tape. */
  function Step(st: Anchors, c: Contour, height: nat): (r: Anchors)
    requires |c| > 0
  {
    BottomStep(TopStep(Anchors(st.minYY, st.minYX, st.maxYY, st.maxYX, st.extLefts + [ExtLeft(c)]), c, height), c, height)
  }

  /** `relative_area < 0.1`: a contour this small is skipped. */
  predicate TooSmall(area: real, biggest: real)
    requires biggest != 0.0
  {
    area / biggest < 0.1
  }

  /** The state after the first `n` contours. */
  function Scan(cs: seq<Contour>, areas: seq<real>, height: nat, n: nat): (st: Anchors)
    requires NonEmptyContours(cs) && n <= |cs| == |areas| && |areas| > 0 && areas[0] != 0.0
  {
    if n == 0 then Anchors(height, None, 0, None, [])
    else
      var st := Scan(cs, areas, height, n - 1);
      if TooSmall(areas[n - 1], areas[0]) then st else Step(st, cs[n - 1], height)
  }

  /**
   * The anchors of `crop_left_of_blue_line_hsv` from the contours in
   * decreasing area (`sorted(...)[::-1]`) and their areas: at most the first
   * two are considered; no contour is an IndexError and a first area of 0 a
   * ZeroDivisionError.
   */
  function SelectAnchors(cs: seq<Contour>, areas: seq<real>, height: nat): (r: Result<Anchors>)
    requires NonEmptyContours(cs) && |cs| == |areas|
    ensures r.Err? <==> |cs| == 0 || areas[0] == 0.0
  {
    if |cs| == 0 then Err("IndexError")
    else if areas[0] == 0.0 then Err("ZeroDivisionError")
    else Ok(Scan(cs, areas, height, Min(2, |cs|)))
  }

  /** The contour loop of `crop_left_of_blue_line_hsv`. */
  method BlueAnchors(cs: seq<Contour>, areas: seq<real>, height: nat) returns (r: Result<Anchors>)
    requires NonEmptyContours(cs) && |cs| == |areas|
    ensures r == SelectAnchors(cs, areas, height)
  {
    if |cs| == 0 {
      return Err("IndexError");
    }
    var biggest := areas[0];
    if biggest == 0.0 {
      return Err("ZeroDivisionError");
    }
    var st := Anchors(height, None, 0, None, []);
    for i := 0 to Min(2, |cs|)
      invariant st == Scan(cs, areas, height, i)
    {
      if !TooSmall(areas[i], biggest) {
        st := Step(st, cs[i], height);
      }
    }
    return Ok(st);
  }

  /** What the loop keeps true: an anchor x is set only with its y in the outer quarter. */
  predicate AnchorsInQuarters(st: Anchors, height: nat)
  {
    (st.minYX.Some? ==> 4 * st.minYY < height) && (st.maxYX.Some? ==> 4 * st.maxYY > 3 * height)
  }

  lemma StepKeepsQuarters(st: Anchors, c: Contour, height: nat)
    requires |c| > 0 && AnchorsInQuarters(st, height)
    ensures AnchorsInQuarters(Step(st, c, height), height)
  {
  }

  /** Each step records the contour's extreme-left point after the earlier ones. */
  lemma StepExtLefts(st: Anchors, c: Contour, height: nat)
    requires |c| > 0
    ensures Step(st, c, height).extLefts == st.extLefts + [ExtLeft(c)]
  {
  }

  /** After the scan, anchors are set only in the outer quarters of the image. */
  lemma {:induction false} ScanInQuarters(cs: seq<Contour>, areas: seq<real>, height: nat, n: nat)
    requires NonEmptyContours(cs) && n <= |cs| == |areas| && |areas| > 0 && areas[0] != 0.0
    ensures AnchorsInQuarters(Scan(cs, areas, height, n), height)
  {
    if n > 0 {
      ScanInQuarters(cs, areas, height, n - 1);
      if !TooSmall(areas[n - 1], areas[0]) {
        StepKeepsQuarters(Scan(cs, areas, height, n - 1), cs[n - 1], height);
      }
    }
  }

  /**
   * After the scan of one or two contours: one extreme-left point per
   * contour that is not too small (the first always is), in contour order.
   */
  lemma ScanExtLefts(cs: seq<Contour>, areas: seq<real>, height: nat, n: nat)
    requires NonEmptyContours(cs) && 1 <= n <= 2 && n <= |cs| == |areas| && areas[0] != 0.0
    ensures var e := Scan(cs, areas, height, n).extLefts;
      |e| >= 1 && e[0] == ExtLeft(cs[0])
      && (n == 1 ==> |e| == 1)
      && (n == 2 ==> |e| == (if TooSmall(areas[1], areas[0]) then 1 else 2))
      && (n == 2 && !TooSmall(areas[1], areas[0]) ==> e[1] == ExtLeft(cs[1]))
  {
    var s0 := Scan(cs, areas, height, 0);
    assert areas[0] / areas[0] == 1.0;
    var s1 := Scan(cs, areas, height, 1);
    assert s1 == Step(s0, cs[0], height);
    StepExtLefts(s0, cs[0], height);
    if n == 2 && !TooSmall(areas[1], areas[0]) {
      assert Scan(cs, areas, height, 2) == Step(s1, cs[1], height);
      StepExtLefts(s1, cs[1], height);
    }
  }

  /** Point `from + o` has the least x among the up to 25 points starting at `from`. */
  predicate LeastXInCorridor(c: Contour, from: nat, o: nat)
    requires from + o < |c|
  {
    forall k :: from <= k < |c| && k < from + YOffset ==> c[from + o].x <= c[k].x
  }

  /**
   * When the top anchor is set, its x is that of contour point `o`, where `o`
   * is the offset (not the index) of the first least x among the up to 25
   * points starting at the topmost point `iy`.
   */
  lemma TopAnchorOffset(st: Anchors, c: Contour, height: nat)
    requires |c| > 0
    ensures TopStep(st, c, height).minYX != st.minYX ==>
      exists o: nat :: o < YOffset && ArgMin(Ys(c)) + o < |c| && TopStep(st, c, height).minYX == Some(c[o].x)
        && LeastXInCorridor(c, ArgMin(Ys(c)), o)
  {
    var iy := ArgMin(Ys(c));
    if c[iy].y < st.minYY && 4 * c[iy].y < height {
      var lohi := SliceRange(iy, iy + YOffset, |c|);
      assert lohi == (iy, Min(iy + YOffset, |c|));
      CorridorLeast(c, iy);
      var o := ArgMin(Xs(c)[lohi.0..lohi.1]);
      assert TopStep(st, c, height).minYX == Some(c[o].x);
    }
  }

  /** The first least x among the up to 25 points from `from` is at an offset below 25. */
  lemma CorridorLeast(c: Contour, from: nat)
    requires from < |c|
    ensures var w := Xs(c)[from..Min(from + YOffset, |c|)];
      |w| > 0 && ArgMin(w) < YOffset && from + ArgMin(w) < |c| && LeastXInCorridor(c, from, ArgMin(w))
  {
    var w := Xs(c)[from..Min(from + YOffset, |c|)];
    var o := ArgMin(w);
    ArgMinIsFirstMin(w);
    forall k | from <= k < |c| && k < from + YOffset ensures c[from + o].x <= c[k].x {
      assert w[k - from] == c[k].x;
    }
  }

  /** `ByDescendingY` lists the contour's points, lowest first. */
  lemma DescendingY(c: Contour)
    ensures multiset(ByDescendingY(c)) == multiset(c)
    ensures forall i, j :: 0 <= i < j < |c| ==> ByDescendingY(c)[i].y >= ByDescendingY(c)[j].y
  {
    var s := SortBy(c, YKey);
    SortBySorted(c, YKey);
    assert forall i, j :: 0 <= i < j < |c| ==> YKey(s[i]) <= YKey(s[j]);
    assert forall i :: 0 <= i < |c| ==> ByDescendingY(c)[i] == s[|c| - 1 - i];
    ReverseMultiset(s);
  }

  lemma {:induction false} ReverseMultiset<T>(s: seq<T>)
    ensures multiset(Reverse(s)) == multiset(s)
  {
    if |s| > 0 {
      ReverseMultiset(s[1..]);
      assert Reverse(s) == Reverse(s[1..]) + [s[0]];
      assert s == [s[0]] + s[1..];
    }
  }

  /**
   * When the bottom anchor is set, its x is the least x among the first 25
   * points of the lowest-first order, all of which lie at or below every
   * later point.
   */
  lemma BottomAnchorLowest(st: Anchors, c: Contour, height: nat)
    requires |c| > 0
    ensures var r, d := BottomStep(st, c, height), ByDescendingY(c);
      r.maxYX != st.maxYX ==>
        exists k :: 0 <= k < Min(YOffset, |c|) && r.maxYX == Some(d[k].x)
          && forall j :: 0 <= j < Min(YOffset, |c|) ==> d[k].x <= d[j].x
  {
    var iy := ArgMax(Ys(c));
    if c[iy].y > st.maxYY && 4 * c[iy].y > 3 * height {
      var d := ByDescendingY(c);
      var n := Min(YOffset, |d|);
      var low := d[..n];
      var k := ArgMin(Xs(low));
      ArgMinIsFirstMin(Xs(low));
      assert BottomStep(st, c, height).maxYX == Some(d[k].x);
      forall j | 0 <= j < n ensures d[k].x <= d[j].x {
        assert Xs(low)[j] == d[j].x && Xs(low)[k] == d[k].x;
      }
    }
  }

  /** The crop polygon and the column `crop_at` the image is cut at. */
  datatype BlueCrop = BlueCrop(polygon: seq<Point>, cropAt: int)

  /**
   * The polygon `[top_left, ext_lefts[0], (ext_lefts[1],) bottom_left,
   * bottom_right, top_right]` and `crop_at = max(min_y_x, max_y_x)`; an unset
   * anchor is a TypeError (`None + 150`).
   */
  function CropPolygon(st: Anchors, height: nat): (r: Result<BlueCrop>)
  {
    if st.minYX.None? || st.maxYX.None? then Err("TypeError")
    else if |st.extLefts| == 0 then Err("IndexError")
    else
      var tx, bx := st.minYX.value, st.maxYX.value;
      var e := SortBy(st.extLefts, YKey);
      var poly := [Point(tx, 0), e[0], Point(bx, height), Point(tx + 150, height), Point(bx + 150, 0)];
      Ok(BlueCrop(if |e| > 1 then poly[..2] + [e[1]] + poly[2..] else poly, Max(tx, bx)))
  }

  /**
   * The polygon runs from the top anchor through the extreme-left points,
   * ordered by y, to the bottom anchor and the two points 150 pixels right of
   * the anchors; `crop_at` is the larger anchor x.
   */
  lemma CropPolygonShape(st: Anchors, height: nat)
    requires |st.extLefts| <= 2
    ensures CropPolygon(st, height).Err? <==> st.minYX.None? || st.maxYX.None? || |st.extLefts| == 0
    ensures var r := CropPolygon(st, height);
      r.Ok? ==>
        var p, n, tx, bx := r.value.polygon, |st.extLefts|, st.minYX.value, st.maxYX.value;
        |p| == 4 + n
        && p[0] == Point(tx, 0)
        && p[n + 1] == Point(bx, height) && p[n + 2] == Point(tx + 150, height) && p[n + 3] == Point(bx + 150, 0)
        && multiset(p[1..n + 1]) == multiset(st.extLefts)
        && (n == 2 ==> p[1].y <= p[2].y)
        && r.value.cropAt >= tx && r.value.cropAt >= bx && (r.value.cropAt == tx || r.value.cropAt == bx)
  {
    if st.minYX.Some? && st.maxYX.Some? && |st.extLefts| > 0 {
      var e := SortBy(st.extLefts, YKey);
      SortedExtLefts(st.extLefts);
      PolygonLayout(st, height);
      var p := CropPolygon(st, height).value.polygon;
      assert p[1..|e| + 1] == e;
    }
  }

  /** The extreme-left points sorted by y: the same points, lowest y first. */
  lemma SortedExtLefts(ext: seq<Point>)
    requires 0 < |ext| <= 2
    ensures var e := SortBy(ext, YKey);
      |e| == |ext| && multiset(e) == multiset(ext) && (|e| == 2 ==> e[0].y <= e[1].y)
  {
    var e := SortBy(ext, YKey);
    SortBySorted(ext, YKey);
    assert |e| == |multiset(e)| == |multiset(ext)| == |ext|;
    if |e| == 2 {
      assert YKey(e[0]) <= YKey(e[1]);
    }
  }

  /** The polygon's vertices: the top anchor, the sorted extreme-left points, then the three fixed corners. */
  lemma PolygonLayout(st: Anchors, height: nat)
    requires st.minYX.Some? && st.maxYX.Some? && 0 < |st.extLefts| <= 2
    requires |SortBy(st.extLefts, YKey)| == |st.extLefts|
    ensures var p, e := CropPolygon(st, height).value.polygon, SortBy(st.extLefts, YKey);
      var tx, bx := st.minYX.value, st.maxYX.value;
      p == [Point(tx, 0)] + e + [Point(bx, height), Point(tx + 150, height), Point(bx + 150, 0)]
  {
  }

  /** Every extreme-left point is a vertex of the crop polygon. */
  lemma CropPolygonHoldsExtLefts(st: Anchors, height: nat)
    requires |st.extLefts| <= 2
    ensures CropPolygon(st, height).Ok? ==>
      forall q :: q in st.extLefts ==> q in CropPolygon(st, height).value.polygon
  {
    CropPolygonShape(st, height);
    if CropPolygon(st, height).Ok? {
      var p, n := CropPolygon(st, height).value.polygon, |st.extLefts|;
      forall q | q in st.extLefts ensures q in p {
        assert q in multiset(p[1..n + 1]);
        assert p[1..n + 1] <= p[1..];
      }
    }
  }

  /** The `backdrop` argument: callers pass a string, and the legacy scale bar passes `True`. */
  datatype BackdropArg = Named(name: string) | Flag(flag: bool)

  /** The HSV band `(BLUE_MIN, BLUE_MAX)` the blue tape is thresholded with. */
  function BlueHsvBand(backdrop: BackdropArg): (seq<int>, seq<int>)
  {
    if backdrop == Named("white") then ([85, 50, 50], [150, 255, 255]) else ([85, 45, 45], [150, 255, 255])
  }

  /**
   * Only the string "white" selects the white-backdrop band; anything else,
   * including the `True` the legacy scale bar passes, selects the looser
   * black-backdrop band.
   */
  lemma BlueHsvBandChoice(backdrop: BackdropArg)
    ensures BlueHsvBand(backdrop).0[1] == 50 <==> backdrop == Named("white")
    ensures BlueHsvBand(Flag(true)) == ([85, 45, 45], [150, 255, 255])
  {
  }

  /**
   * The non-visualising result of `crop_left_of_blue_line_hsv`: the crop
   * polygon and the number of columns `overlay[:, :crop_at]` keeps.
   */
  function BlueLineCrop(cs: seq<Contour>, areas: seq<real>, height: nat, width: nat): (r: Result<(BlueCrop, nat)>)
    requires NonEmptyContours(cs) && |cs| == |areas|
    ensures r.Ok? ==> r.value.1 <= width
  {
    match SelectAnchors(cs, areas, height)
    case Err(e) => Err(e)
    case Ok(st) =>
      match CropPolygon(st, height)
      case Err(e) => Err(e)
      case Ok(crop) => Ok((crop, SliceRange(0, crop.cropAt, width).1))
  }

  /**
   * The crop succeeds exactly when there is a contour, the first has a
   * non-zero area and both anchors are set; then the polygon passes through
   * the extreme-left point of the first contour, and of the second when it is
   * at least a tenth of the first.
   */
  lemma BlueLineCropFacts(cs: seq<Contour>, areas: seq<real>, height: nat, width: nat)
    requires NonEmptyContours(cs) && |cs| == |areas|
    ensures var r := BlueLineCrop(cs, areas, height, width);
      r.Ok? <==> (|cs| > 0 && areas[0] != 0.0
        && Scan(cs, areas, height, Min(2, |cs|)).minYX.Some?
        && Scan(cs, areas, height, Min(2, |cs|)).maxYX.Some?)
    ensures var r := BlueLineCrop(cs, areas, height, width);
      r.Ok? ==>
        ExtLeft(cs[0]) in r.value.0.polygon
        && (|cs| > 1 && !TooSmall(areas[1], areas[0]) ==> ExtLeft(cs[1]) in r.value.0.polygon)
        && 4 * Scan(cs, areas, height, Min(2, |cs|)).minYY < height
        && 4 * Scan(cs, areas, height, Min(2, |cs|)).maxYY > 3 * height
  {
    if |cs| > 0 && areas[0] != 0.0 {
      var n := Min(2, |cs|);
      ScanInQuarters(cs, areas, height, n);
      ScanExtLefts(cs, areas, height, n);
      var st := Scan(cs, areas, height, n);
      CropPolygonHoldsExtLefts(st, height);
      assert st.extLefts[0] in st.extLefts;
      if |st.extLefts| == 2 {
        assert st.extLefts[1] in st.extLefts;
      }
    }
  }

  // ------------------------------------------------------------ crop_black_tape

  /** A corner of `cv2.boxPoints`, in floating point. */
  datatype Corner = Corner(x: real, y: real)

  /** Python's `int()` on a float: truncation toward zero. */
  function TruncReal(x: real): (n: int)
    ensures x >= 0.0 ==> n as real <= x < n as real + 1.0
    ensures x < 0.0 ==> n as real - 1.0 < x <= n as real
  {
    if x >= 0.0 then x.Floor else -((-x).Floor)
  }

  /** The corners' x coordinates (`box[:, 0]`). */
  function XCoords(box: seq<Corner>): (v: seq<real>)
    requires |box| == 4
    ensures |v| == 4 && forall i :: 0 <= i < 4 ==> v[i] == box[i].x
  {
    [box[0].x, box[1].x, box[2].x, box[3].x]
  }

  /** The corners' y coordinates (`box[:, 1]`). */
  function YCoords(box: seq<Corner>): (v: seq<real>)
    requires |box| == 4
    ensures |v| == 4 && forall i :: 0 <= i < 4 ==> v[i] == box[i].y
  {
    [box[0].y, box[1].y, box[2].y, box[3].y]
  }

  /** The corners' x coordinates in ascending order (`sorted(box[:, 0])`). */
  function SortedXs(box: seq<Corner>): (v: seq<real>)
    requires |box| == 4
    ensures |v| == 4
  {
    SortBy(XCoords(box), Id)
  }

  /** The corners' y coordinates in ascending order (`sorted(box[:, 1])`). */
  function SortedYs(box: seq<Corner>): (v: seq<real>)
    requires |box| == 4
    ensures |v| == 4
  {
    SortBy(YCoords(box), Id)
  }

  /**
   * The region `crop_black_tape` keeps: with `x1, x2` and `y1, y2` the middle
   * two of the sorted corner coordinates, rows `[int(y1) + 25, int(y2) - 25)`
   * and the columns from `int(x1) + 25`, as Python clamps these slices.
   */
  function BlackTapeBounds(box: seq<Corner>, height: nat, width: nat): (b: (nat, nat, nat))
    requires |box| == 4
    ensures b.0 <= b.1 <= height && b.2 <= width
  {
    var xs, ys := SortedXs(box), SortedYs(box);
    var rows := SliceRange(TruncReal(ys[1]) + 25, TruncReal(ys[2]) - 25, height);
    (rows.0, rows.1, SliceBound(TruncReal(xs[1]) + 25, width))
  }

  /** `crop_black_tape` without visualisation: the image inside the bounds. */
  function CropBlackTape(img: Grid, box: seq<Corner>): (r: Grid)
    requires IsGrid(img) && |box| == 4
    ensures var b := BlackTapeBounds(box, |img|, Width(img));
      |r| == b.1 - b.0 && forall i :: 0 <= i < |r| ==> r[i] == img[b.0 + i][b.2..]
  {
    var b := BlackTapeBounds(box, |img|, Width(img));
    Window(img, b.0, b.1, b.2, Width(img))
  }

  /** The coordinates of an upright box along one axis: each edge twice. */
  function Twice(lo: real, hi: real): (v: seq<real>)
  {
    [lo, lo, hi, hi]
  }

  /** Four coordinates made of two values, each twice, sort to `[lo, lo, hi, hi]`. */
  lemma SortPairs(v: seq<real>, lo: real, hi: real)
    requires lo <= hi && multiset(v) == multiset(Twice(lo, hi))
    ensures SortBy(v, Id) == Twice(lo, hi)
  {
    var u, w := SortBy(v, Id), Twice(lo, hi);
    assert Ascending(u) && multiset(u) == multiset(w) by {
      SortBySorted(v, Id);
      SortedAscending(u);
    }
    assert Ascending(w);
    AscendingUnique(u, w);
  }

  /**
   * For an upright box with integer corners `[left, right] x [top, bottom]`
   * lying inside the image, the crop drops 25 pixels at the top, at the
   * bottom and at the left edge of the box, and keeps everything to the right.
   */
  lemma UprightBlackTape(box: seq<Corner>, left: nat, right: nat, top: nat, bottom: nat, height: nat, width: nat)
    requires |box| == 4 && left <= right && top + 50 <= bottom <= height && left + 25 <= width
    requires multiset(XCoords(box)) == multiset(Twice(left as real, right as real))
    requires multiset(YCoords(box)) == multiset(Twice(top as real, bottom as real))
    ensures BlackTapeBounds(box, height, width) == (top + 25, bottom - 25, left + 25)
  {
    SortPairs(XCoords(box), left as real, right as real);
    SortPairs(YCoords(box), top as real, bottom as real);
    WholeTapeBounds(box, left, top, bottom, height, width);
  }

  /** The bounds when the middle coordinates are whole numbers inside the image. */
  lemma WholeTapeBounds(box: seq<Corner>, x1: nat, y1: nat, y2: nat, height: nat, width: nat)
    requires |box| == 4 && y1 + 50 <= y2 <= height && x1 + 25 <= width
    requires SortedXs(box)[1] == x1 as real
    requires SortedYs(box)[1] == y1 as real && SortedYs(box)[2] == y2 as real
    ensures BlackTapeBounds(box, height, width) == (y1 + 25, y2 - 25, x1 + 25)
  {
    assert TruncReal(x1 as real) == x1;
    assert TruncReal(y1 as real) == y1 && TruncReal(y2 as real) == y2;
  }

  // ------------------------------------------------------------ create_binary_mask_by_index / _by_thresh

  function ZeroRow(w: nat): (z: seq<int>)
    ensures |z| == w && forall j :: 0 <= j < w ==> z[j] == 0
  {
    seq(w, _ => 0)
  }

  /** `np.vstack([black_row, binary, black_row])` with 12 black rows on each side. */
  function BufferRows(g: Grid): (r: Grid)
    requires IsGrid(g)
    ensures IsGrid(r) && |r| == |g| + 24 && Width(r) == Width(g)
    ensures forall i :: 0 <= i < |g| ==> r[12 + i] == g[i]
    ensures forall i :: 0 <= i < 12 ==> r[i] == ZeroRow(Width(g))
    ensures forall i :: |g| + 12 <= i < |r| ==> r[i] == ZeroRow(Width(g))
  {
    var r := seq(|g| + 24, i requires 0 <= i < |g| + 24 => if 12 <= i < |g| + 12 then g[i - 12] else ZeroRow(Width(g)));
    assert r[0] == ZeroRow(Width(g));
    r
  }

  /** A column of the buffered mask: 12 black pixels, the column, 12 black pixels. */
  lemma BufferedColumn(g: Grid, j: nat)
    requires IsGrid(g) && j < Width(g)
    ensures Col(BufferRows(g), j) == ZeroRow(12) + Col(g, j) + ZeroRow(12)
  {
    var c, p := Col(BufferRows(g), j), ZeroRow(12) + Col(g, j) + ZeroRow(12);
    forall i | 0 <= i < |c| ensures c[i] == p[i] {
      if i < 12 {
        assert p[i] == 0;
      } else if i < |g| + 12 {
        assert p[i] == Col(g, j)[i - 12];
      } else {
        assert p[i] == ZeroRow(12)[i - |g| - 12];
      }
    }
  }

  /** A 0/255 column padded with black is 0/255, starts black and holds white where the column does. */
  lemma PaddedColumnBinary(d: seq<int>)
    requires IsBinarySeq(d)
    ensures var c := ZeroRow(12) + d + ZeroRow(12);
      IsBinarySeq(c) && c[0] == 0 && (255 in c <==> 255 in d)
  {
    var c := ZeroRow(12) + d + ZeroRow(12);
    if 255 in d {
      var i :| 0 <= i < |d| && d[i] == 255;
      assert c[i + 12] == 255;
    }
  }

  /**
   * After buffering, the top pixel of every column is black, so a column of
   * a 0/255 mask passes the scans' `argmax > 0` test exactly when it holds
   * a white pixel.
   */
  lemma BufferedColumnQualifies(g: Grid, j: nat)
    requires IsGrid(g) && IsBinary(g) && j < Width(g)
    ensures Phenotype.Qualifies(Col(BufferRows(g), j)) <==> 255 in Col(g, j)
  {
    BufferedColumn(g, j);
    ColBinary(g, j);
    PaddedColumnBinary(Col(g, j));
    Phenotype.QualifiesBinary(Col(BufferRows(g), j));
  }

  // ------------------------------------------------------------ create_binary_mask: gap filling

  /** The array's pixels as rows. */
  function Snapshot(a: array2<int>): (g: Grid)
    reads a
    ensures |g| == a.Length0
    ensures forall i :: 0 <= i < |g| ==> |g[i]| == a.Length1
  {
    seq(a.Length0, i requires 0 <= i < a.Length0 reads a =>
      seq(a.Length1, j requires 0 <= j < a.Length1 reads a => a[i, j]))
  }

  /** Two masks of the same shape with the same pixels are the same mask. */
  lemma GridExt(g: Grid, h: Grid)
    requires |g| == |h| && forall i :: 0 <= i < |g| ==> |g[i]| == |h[i]|
    requires forall i, j :: 0 <= i < |g| && 0 <= j < |g[i]| ==> g[i][j] == h[i][j]
    ensures g == h
  {
    forall i | 0 <= i < |g| ensures g[i] == h[i] {
      assert forall j :: 0 <= j < |g[i]| ==> g[i][j] == h[i][j];
    }
  }

  /** The mask with column `j` replaced by `col` (`contour[:, j] = col`). */
  function SetColumn(g: Grid, j: nat, col: seq<int>): (r: Grid)
    requires IsGrid(g) && j < Width(g) && |col| == |g|
    ensures IsGrid(r) && |r| == |g| && Width(r) == Width(g)
    ensures forall i, x {:trigger r[i][x]} :: 0 <= i < |g| && 0 <= x < Width(g) ==> r[i][x] == (if x == j then col[i] else g[i][x])
  {
    seq(|g|, i requires 0 <= i < |g| => g[i][j := col[i]])
  }

  /** Column `x` after replacing column `j`: the new column at `j`, the old one elsewhere. */
  lemma SetColumnCol(g: Grid, j: nat, col: seq<int>, x: nat)
    requires IsGrid(g) && j < Width(g) && |col| == |g| && x < Width(g)
    ensures Col(SetColumn(g, j, col), x) == if x == j then col else Col(g, x)
  {
    var r := SetColumn(g, j, col);
    assert forall i :: 0 <= i < |g| ==> r[i][x] == (if x == j then col[i] else g[i][x]);
  }

  /** Writes `col` into column `j` of the array, row by row. */
  method WriteColumn(a: array2<int>, j: nat, col: seq<int>)
    requires 0 < a.Length0 && 0 < a.Length1 && j < a.Length1 && |col| == a.Length0
    modifies a
    ensures Snapshot(a) == SetColumn(old(Snapshot(a)), j, col)
  {
    ghost var g := Snapshot(a);
    for i := 0 to a.Length0
      invariant forall r, x :: 0 <= r < a.Length0 && 0 <= x < a.Length1 ==>
        a[r, x] == (if x == j && r < i then col[r] else g[r][x])
    {
      a[i, j] := col[i];
    }
    GridExt(Snapshot(a), SetColumn(g, j, col));
  }

  /** A non-zero pixel lies at or above row `k`. */
  predicate SetAtOrBefore(s: seq<int>, k: int)
  {
    exists i :: 0 <= i <= k && i < |s| && s[i] != 0
  }

  /** A non-zero pixel lies at or below row `k`. */
  predicate SetAtOrAfter(s: seq<int>, k: int)
  {
    exists i :: 0 <= k <= i < |s| && s[i] != 0
  }

  /**
   * `ndimage.binary_fill_holes(column).astype(int) * 255` on one column: a
   * pixel becomes 255 when a non-zero pixel lies at or before it and another
   * at or after it, and 0 otherwise.
   */
  function FillHoles(s: seq<int>): (r: seq<int>)
    ensures |r| == |s|
  {
    seq(|s|, k requires 0 <= k < |s| => if SetAtOrBefore(s, k) && SetAtOrAfter(s, k) then 255 else 0)
  }

  /** Filling keeps the same outermost non-zero pixels on either side of every row. */
  lemma FillHolesSameEnds(s: seq<int>, k: int)
    requires 0 <= k < |s|
    ensures SetAtOrBefore(FillHoles(s), k) <==> SetAtOrBefore(s, k)
    ensures SetAtOrAfter(FillHoles(s), k) <==> SetAtOrAfter(s, k)
  {
    var r := FillHoles(s);
    if SetAtOrBefore(r, k) {
      var i :| 0 <= i <= k && i < |r| && r[i] != 0;
      assert SetAtOrBefore(s, i);
      var p :| 0 <= p <= i && p < |s| && s[p] != 0;
      assert 0 <= p <= k;
    }
    if SetAtOrBefore(s, k) {
      var p :| 0 <= p <= k && p < |s| && s[p] != 0;
      assert SetAtOrBefore(s, p) && SetAtOrAfter(s, p);
      assert r[p] != 0;
    }
    if SetAtOrAfter(r, k) {
      var i :| 0 <= k <= i < |r| && r[i] != 0;
      assert SetAtOrAfter(s, i);
      var q :| 0 <= i <= q < |s| && s[q] != 0;
      assert k <= q;
    }
    if SetAtOrAfter(s, k) {
      var q :| 0 <= k <= q < |s| && s[q] != 0;
      assert SetAtOrBefore(s, q) && SetAtOrAfter(s, q);
      assert r[q] != 0;
    }
  }

  /**
   * Filling is 0/255, keeps every white pixel of a 0/255 column white, and
   * filling again changes nothing.
   */
  lemma FillHolesWhitens(s: seq<int>)
    ensures IsBinarySeq(FillHoles(s))
    ensures IsBinarySeq(s) ==> forall k :: 0 <= k < |s| && s[k] == 255 ==> FillHoles(s)[k] == 255
    ensures FillHoles(FillHoles(s)) == FillHoles(s)
  {
    var r := FillHoles(s);
    forall k | 0 <= k < |s| && s[k] != 0 ensures r[k] == 255 {
      assert SetAtOrBefore(s, k) && SetAtOrAfter(s, k);
    }
    forall k | 0 <= k < |s| ensures FillHoles(r)[k] == r[k] {
      FillHolesSameEnds(s, k);
    }
  }

  /** Whether column `x` is one of the `k` columns ending at column `c`. */
  predicate InGap(c: int, k: int, x: int)
  {
    c + 1 - k <= x <= c
  }

  /**
   * The mask once the `k` columns ending at `c` are filled: each of them
   * holds its original column with the holes filled, every other pixel is
   * unchanged.
   */
  function GapFill(g: Grid, c: nat, k: nat): (r: Grid)
    requires IsGrid(g) && c < Width(g) && k <= c + 1
    ensures IsGrid(r) && |r| == |g| && Width(r) == Width(g)
  {
    seq(|g|, i requires 0 <= i < |g| =>
      seq(Width(g), x requires 0 <= x < Width(g) => if InGap(c, k, x) then FillHoles(Col(g, x))[i] else g[i][x]))
  }

  /**
   * Filling the columns one after the other, right to left, each from its
   * current contents, reaches the same mask: filling column `c + 1 - k` of
   * the mask with `k - 1` columns filled gives the mask with `k` filled.
   */
  lemma GapFillStep(g: Grid, c: nat, k: nat)
    requires IsGrid(g) && c < Width(g) && 0 < k <= c + 1
    ensures var h, j := GapFill(g, c, k - 1), c + 1 - k;
      GapFill(g, c, k) == SetColumn(h, j, FillHoles(Col(h, j)))
  {
    var h, j := GapFill(g, c, k - 1), c + 1 - k;
    GapFillNextColumn(g, c, k);
    var r := SetColumn(h, j, FillHoles(Col(h, j)));
    forall i, x | 0 <= i < |g| && 0 <= x < Width(g) ensures GapFill(g, c, k)[i][x] == r[i][x] {
      assert InGap(c, k, x) <==> InGap(c, k - 1, x) || x == j;
    }
    GridExt(GapFill(g, c, k), r);
  }

  /** The next column to fill is still the original one. */
  lemma GapFillNextColumn(g: Grid, c: nat, k: nat)
    requires IsGrid(g) && c < Width(g) && 0 < k <= c + 1
    ensures Col(GapFill(g, c, k - 1), c + 1 - k) == Col(g, c + 1 - k)
  {
    var h, j := GapFill(g, c, k - 1), c + 1 - k;
    forall i | 0 <= i < |g| ensures Col(h, j)[i] == Col(g, j)[i] {
      assert !InGap(c, k - 1, j);
    }
  }

  /** Filling no column leaves the mask as it was. */
  lemma GapFillNone(g: Grid, c: nat)
    requires IsGrid(g) && c < Width(g)
    ensures GapFill(g, c, 0) == g
  {
    GridExt(GapFill(g, c, 0), g);
  }

  /**
   * The gap-filling loop for `last_white = -i` (column `c = W - 1 - i`): the
   * columns `last_white - 1, ..., last_white - 7` are the seven columns
   * ending at `c`, counted from the right; when `c < 6` the index runs past
   * the left edge, the columns already filled stay filled and an IndexError
   * ends the repair.
   */
  method FillGaps(a: array2<int>, lastWhite: int) returns (r: Result<()>)
    requires 0 < a.Length0 && 0 < a.Length1 && -a.Length1 < lastWhite <= 0
    modifies a
    ensures var c := a.Length1 - 1 + lastWhite;
      Snapshot(a) == GapFill(old(Snapshot(a)), c, Min(c + 1, 7))
      && r == (if c < 6 then Err("IndexError") else Ok(()))
  {
    ghost var g := Snapshot(a);
    ghost var c := a.Length1 - 1 + lastWhite;
    GapFillNone(g, c);
    for i := 1 to 8
      invariant i - 1 <= c + 1
      invariant Snapshot(a) == GapFill(g, c, i - 1)
    {
      match PyIndex(lastWhite - i, a.Length1)
      case None =>
        assert i - 1 == c + 1 == Min(c + 1, 7) && c < 6;
        return Err("IndexError");
      case Some(j) =>
        assert j == c + 1 - i;
        var before := Snapshot(a);
        WriteColumn(a, j, FillHoles(Col(before, j)));
        GapFillStep(g, c, i);
    }
    assert Min(c + 1, 7) == 7 && c >= 6;
    return Ok(());
  }

  // ------------------------------------------------------------ create_binary_mask: shoulder symmetry

  /** The pixels `[lo, hi)` of a column set to 255 (`column[lo:hi] = 255`). */
  function Paint(col: seq<int>, lo: nat, hi: nat): (r: seq<int>)
    ensures |r| == |col| && forall k :: 0 <= k < |col| ==> r[k] == (if lo <= k < hi then 255 else col[k])
  {
    seq(|col|, k requires 0 <= k < |col| => if lo <= k < hi then 255 else col[k])
  }

  /** With bounds that are not negative, `column[lo:hi] = 255` paints only rows from `lo` up to `hi`. */
  lemma PaintSlice(col: seq<int>, lo: int, hi: int)
    requires 0 <= lo && 0 <= hi
    ensures var rng := SliceRange(lo, hi, |col|);
      forall k :: 0 <= k < |col| && Paint(col, rng.0, rng.1)[k] != col[k] ==> lo <= k < hi
  {
  }

  /** `white_pixels <= white_pixels_prev * 0.9` */
  predicate Shrunk(col: seq<int>, prev: seq<int>)
  {
    10 * CountWhite(col) <= 9 * CountWhite(prev)
  }

  /** `len(column) - 2 - column[::-1].argmax()`: one row above the last maximum. */
  function LastWhiteRow(col: seq<int>): int
    requires |col| > 0
  {
    LastArgMax(col) - 1
  }

  /** The size of the fill, `white_pixels_prev - gap * 2 - 2`. */
  function FillSize(prev: seq<int>, gap: int): int
  {
    CountWhite(prev) - gap * 2 - 2
  }

  /**
   * The rows the symmetry correction paints in one column, given its
   * predecessor: with the gaps between their first white pixels (`start`)
   * and between their `LastWhiteRow`s (`end`), a smaller start gap paints
   * down from the first white pixel, otherwise up to `LastWhiteRow`; the
   * range is the Python slice, its negative bounds counting from the bottom.
   */
  function SymmetryRange(col: seq<int>, prev: seq<int>): (rng: (nat, nat))
    requires |col| == |prev| > 0
    ensures rng.0 <= rng.1 <= |col|
  {
    FillRange(ArgMax(col), LastWhiteRow(col), ArgMax(prev), LastWhiteRow(prev), CountWhite(prev), |col|)
  }

  /**
   * `SymmetryRange` from the rows it depends on: the first white rows `f`,
   * `fPrev` and the rows `l`, `lPrev` of the column and its predecessor, the
   * predecessor's white count and the column length.
   */
  function FillRange(f: int, l: int, fPrev: int, lPrev: int, whitePrev: int, n: nat): (rng: (nat, nat))
    ensures rng.0 <= rng.1 <= n
  {
    var start, end := Abs(f - fPrev), Abs(l - lPrev);
    if start < end then SliceRange(f, f + (whitePrev - start * 2 - 2), n)
    else SliceRange(l - (whitePrev - end * 2 - 2), l, n)
  }

  /** The corrected column: `SymmetryRange` painted white. */
  function SymmetryColumn(col: seq<int>, prev: seq<int>): (r: seq<int>)
    requires |col| == |prev| > 0
    ensures |r| == |col|
  {
    var rng := SymmetryRange(col, prev);
    Paint(col, rng.0, rng.1)
  }

  /** The correction only paints pixels white. */
  lemma SymmetryColumnWhitens(col: seq<int>, prev: seq<int>)
    requires |col| == |prev| > 0
    ensures var r := SymmetryColumn(col, prev);
      forall k :: 0 <= k < |col| ==> r[k] == col[k] || r[k] == 255
  {
  }

  /**
   * When the start gap is the smaller and the end of the fill is not
   * negative, the painted rows lie in the `FillSize` rows from the first
   * white row `f` down; a negative end would count from the bottom instead.
   */
  lemma FillFromStart(col: seq<int>, f: int, l: int, fPrev: int, lPrev: int, whitePrev: int)
    requires 0 <= f && Abs(f - fPrev) < Abs(l - lPrev)
    ensures var rng, size := FillRange(f, l, fPrev, lPrev, whitePrev, |col|), whitePrev - Abs(f - fPrev) * 2 - 2;
      0 <= f + size ==> forall k :: 0 <= k < |col| && Paint(col, rng.0, rng.1)[k] != col[k] ==> f <= k < f + size
  {
    var size := whitePrev - Abs(f - fPrev) * 2 - 2;
    if 0 <= f + size {
      PaintSlice(col, f, f + size);
    }
  }

  /**
   * Otherwise, when `l` and the start of the fill are not negative, the
   * painted rows lie in the `FillSize` rows just above `l`; a negative bound
   * would count from the bottom instead.
   */
  lemma FillFromEnd(col: seq<int>, f: int, l: int, fPrev: int, lPrev: int, whitePrev: int)
    requires Abs(f - fPrev) >= Abs(l - lPrev)
    ensures var rng, size := FillRange(f, l, fPrev, lPrev, whitePrev, |col|), whitePrev - Abs(l - lPrev) * 2 - 2;
      0 <= l && 0 <= l - size ==> forall k :: 0 <= k < |col| && Paint(col, rng.0, rng.1)[k] != col[k] ==> l - size <= k < l
  {
    var size := whitePrev - Abs(l - lPrev) * 2 - 2;
    if 0 <= l && 0 <= l - size {
      PaintSlice(col, l - size, l);
    }
  }

  /**
   * The symmetry correction paints from the first white row down when the
   * start gap is the smaller, and up to `LastWhiteRow` otherwise.
   */
  lemma SymmetryColumnPaints(col: seq<int>, prev: seq<int>)
    requires |col| == |prev| > 0
    ensures var r, f, l := SymmetryColumn(col, prev), ArgMax(col), LastWhiteRow(col);
      var start, end := Abs(f - ArgMax(prev)), Abs(l - LastWhiteRow(prev));
      (start < end && 0 <= f + FillSize(prev, start) ==>
        forall k :: 0 <= k < |col| && r[k] != col[k] ==> f <= k < f + FillSize(prev, start))
      && (start >= end && 0 <= l && 0 <= l - FillSize(prev, end) ==>
        forall k :: 0 <= k < |col| && r[k] != col[k] ==> l - FillSize(prev, end) <= k < l)
  {
    SymmetryColumnPaintsDown(col, prev);
    SymmetryColumnPaintsUp(col, prev);
  }

  lemma SymmetryColumnPaintsDown(col: seq<int>, prev: seq<int>)
    requires |col| == |prev| > 0
    ensures var r, f := SymmetryColumn(col, prev), ArgMax(col);
      var start := Abs(f - ArgMax(prev));
      start < Abs(LastWhiteRow(col) - LastWhiteRow(prev)) && 0 <= f + FillSize(prev, start) ==>
        forall k :: 0 <= k < |col| && r[k] != col[k] ==> f <= k < f + FillSize(prev, start)
  {
    var f: int, fPrev: int := ArgMax(col), ArgMax(prev);
    var l, lPrev, w := LastWhiteRow(col), LastWhiteRow(prev), CountWhite(prev);
    if Abs(f - fPrev) < Abs(l - lPrev) {
      var rng := FillRange(f, l, fPrev, lPrev, w, |col|);
      assert SymmetryColumn(col, prev) == Paint(col, rng.0, rng.1);
      FillFromStart(col, f, l, fPrev, lPrev, w);
    }
  }

  lemma SymmetryColumnPaintsUp(col: seq<int>, prev: seq<int>)
    requires |col| == |prev| > 0
    ensures var r, l := SymmetryColumn(col, prev), LastWhiteRow(col);
      var end := Abs(l - LastWhiteRow(prev));
      Abs(ArgMax(col) - ArgMax(prev)) >= end && 0 <= l && 0 <= l - FillSize(prev, end) ==>
        forall k :: 0 <= k < |col| && r[k] != col[k] ==> l - FillSize(prev, end) <= k < l
  {
    var f: int, fPrev: int := ArgMax(col), ArgMax(prev);
    var l, lPrev, w := LastWhiteRow(col), LastWhiteRow(prev), CountWhite(prev);
    if Abs(f - fPrev) >= Abs(l - lPrev) {
      var rng := FillRange(f, l, fPrev, lPrev, w, |col|);
      assert SymmetryColumn(col, prev) == Paint(col, rng.0, rng.1);
      FillFromEnd(col, f, l, fPrev, lPrev, w);
    }
  }

  /** One pass of the symmetry loop on column `j` and its predecessor `j - 1`. */
  function SymmetryStep(g: Grid, j: nat): (r: Grid)
    requires IsGrid(g) && 1 <= j < Width(g)
    ensures IsGrid(r) && |r| == |g| && Width(r) == Width(g)
  {
    var col, prev := Col(g, j), Col(g, j - 1);
    if Shrunk(col, prev) then SetColumn(g, j, SymmetryColumn(col, prev)) else g
  }

  /** `for i in range(2, 0, -1)`: column `c - 1` against `c - 2`, then `c` against the updated `c - 1`. */
  function Symmetry(g: Grid, c: nat): (r: Grid)
    requires IsGrid(g) && 2 <= c < Width(g)
    ensures IsGrid(r) && |r| == |g| && Width(r) == Width(g)
  {
    SymmetryStep(SymmetryStep(g, c - 1), c)
  }

  /** One pass changes only column `j`, only when it is short, and only by painting white. */
  lemma SymmetryStepTouches(g: Grid, j: nat)
    requires IsGrid(g) && 1 <= j < Width(g)
    ensures var r := SymmetryStep(g, j);
      (!Shrunk(Col(g, j), Col(g, j - 1)) ==> r == g)
      && forall i, x :: 0 <= i < |g| && 0 <= x < Width(g) ==> r[i][x] == g[i][x] || (r[i][x] == 255 && x == j)
  {
    SymmetryColumnWhitens(Col(g, j), Col(g, j - 1));
  }

  /**
   * The symmetry correction changes only columns `c - 1` and `c`, and only
   * by painting white.
   */
  lemma SymmetryTouches(g: Grid, c: nat)
    requires IsGrid(g) && 2 <= c < Width(g)
    ensures var r := Symmetry(g, c);
      forall i, x :: 0 <= i < |g| && 0 <= x < Width(g) ==>
        (r[i][x] == g[i][x] || (r[i][x] == 255 && (x == c - 1 || x == c)))
  {
    var h := SymmetryStep(g, c - 1);
    var r := SymmetryStep(h, c);
    SymmetryStepTouches(g, c - 1);
    SymmetryStepTouches(h, c);
    TwoWhitenings(g, h, r, c - 1, c);
  }

  /** Two passes that each only paint column `a`, then column `b`, white only paint those two. */
  lemma TwoWhitenings(g: Grid, h: Grid, r: Grid, a: int, b: int)
    requires IsGrid(g) && IsGrid(h) && IsGrid(r) && |h| == |g| && |r| == |g| && Width(h) == Width(g) && Width(r) == Width(g)
    requires forall i, x :: 0 <= i < |g| && 0 <= x < Width(g) ==> h[i][x] == g[i][x] || (h[i][x] == 255 && x == a)
    requires forall i, x :: 0 <= i < |h| && 0 <= x < Width(h) ==> r[i][x] == h[i][x] || (r[i][x] == 255 && x == b)
    ensures forall i, x :: 0 <= i < |g| && 0 <= x < Width(g) ==>
      (r[i][x] == g[i][x] || (r[i][x] == 255 && (x == a || x == b)))
  {
    forall i, x | 0 <= i < |g| && 0 <= x < Width(g)
      ensures r[i][x] == g[i][x] || (r[i][x] == 255 && (x == a || x == b))
    {
      assert h[i][x] == g[i][x] || (h[i][x] == 255 && x == a);
      assert r[i][x] == h[i][x] || (r[i][x] == 255 && x == b);
    }
  }

  /** The symmetry loop, writing a corrected column only when it is short. */
  method FixSymmetry(a: array2<int>, lastWhite: int)
    requires 0 < a.Length0 && 0 < a.Length1 && -a.Length1 < lastWhite <= 0 && a.Length1 - 1 + lastWhite >= 6
    modifies a
    ensures Snapshot(a) == Symmetry(old(Snapshot(a)), a.Length1 - 1 + lastWhite)
  {
    ghost var g := Snapshot(a);
    var c := a.Length1 - 1 + lastWhite;
    var i := 2;
    while i > 0
      invariant 0 <= i <= 2
      invariant i == 2 ==> Snapshot(a) == g
      invariant i == 1 ==> Snapshot(a) == SymmetryStep(g, c - 1)
      invariant i == 0 ==> Snapshot(a) == Symmetry(g, c)
    {
      var j := c + 1 - i;
      var column := Col(Snapshot(a), j);
      var prevColumn := Col(Snapshot(a), j - 1);
      if Shrunk(column, prevColumn) {
        WriteColumn(a, j, SymmetryColumn(column, prevColumn));
      }
      i := i - 1;
    }
  }

  // ------------------------------------------------------------ create_binary_mask: the repair

  /** The rightmost column before `n` that holds a 255 (`last_white`). */
  function RightmostWhite(g: Grid, n: nat): (r: Option<nat>)
    requires IsGrid(g) && n <= Width(g)
    ensures r.Some? ==> r.value < n
  {
    if n == 0 then None
    else if CountWhite(Col(g, n - 1)) > 0 then Some(n - 1)
    else RightmostWhite(g, n - 1)
  }

  lemma {:induction false} RightmostWhiteIsLast(g: Grid, n: nat)
    requires IsGrid(g) && n <= Width(g)
    ensures var r := RightmostWhite(g, n);
      (r.Some? ==> CountWhite(Col(g, r.value)) > 0 && forall x :: r.value < x < n ==> CountWhite(Col(g, x)) == 0)
      && (r.None? ==> forall x :: 0 <= x < n ==> CountWhite(Col(g, x)) == 0)
  {
    if n > 0 && CountWhite(Col(g, n - 1)) == 0 {
      assert RightmostWhite(g, n) == RightmostWhite(g, n - 1);
      RightmostWhiteIsLast(g, n - 1);
    }
  }

  /**
   * The repair block of `create_binary_mask`: no change when no column holds
   * white; the gap filling of the seven columns ending at the rightmost white
   * column `c`, which fails when `c < 6`; then the symmetry correction.
   */
  function Repair(g: Grid): (r: (Grid, Result<()>))
    requires IsGrid(g)
    ensures IsGrid(r.0) && |r.0| == |g| && Width(r.0) == Width(g)
  {
    match RightmostWhite(g, Width(g))
    case None => (g, Ok(()))
    case Some(c) =>
      var filled := GapFill(g, c, Min(c + 1, 7));
      if c < 6 then (filled, Err("IndexError")) else (Symmetry(filled, c), Ok(()))
  }

  /** Scans the columns from the right for `last_white`; changes nothing. */
  method FindLastWhite(a: array2<int>) returns (c: Option<nat>)
    requires 0 < a.Length0 && 0 < a.Length1
    ensures c == RightmostWhite(Snapshot(a), a.Length1)
  {
    var g := Snapshot(a);
    var n := a.Length1;
    while n > 0
      invariant 0 <= n <= a.Length1
      invariant RightmostWhite(g, a.Length1) == RightmostWhite(g, n)
    {
      if CountWhite(Col(g, n - 1)) > 0 {
        return Some(n - 1);
      }
      n := n - 1;
    }
    return None;
  }

  /** `create_binary_mask`'s in-place repair of the `contour` mask. */
  method RepairMask(a: array2<int>) returns (r: Result<()>)
    requires 0 < a.Length0 && 0 < a.Length1
    modifies a
    ensures Snapshot(a) == Repair(old(Snapshot(a))).0 && r == Repair(old(Snapshot(a))).1
  {
    ghost var g := Snapshot(a);
    assert Width(g) == a.Length1;
    var last := FindLastWhite(a);
    assert last == RightmostWhite(g, Width(g));
    if last.None? {
      return Ok(());
    }
    var c: int := last.value;
    var lastWhite: int := c - a.Length1 + 1;
    ghost var filled := GapFill(g, c, Min(c + 1, 7));
    r := FillGaps(a, lastWhite);
    assert Snapshot(a) == filled;
    if r.Err? {
      assert Repair(g) == (filled, Err("IndexError"));
      return;
    }
    FixSymmetry(a, lastWhite);
    assert Repair(g) == (Symmetry(filled, c), Ok(()));
  }

  /**
   * A repaired 0/255 mask differs from the original only in the seven
   * columns ending at its rightmost white column, and only by white pixels.
   */
  lemma RepairWhitens(g: Grid)
    requires IsGrid(g) && IsBinary(g)
    ensures var r := Repair(g).0;
      match RightmostWhite(g, Width(g))
      case None => r == g
      case Some(c) =>
        forall i, x :: 0 <= i < |g| && 0 <= x < Width(g) ==>
          (r[i][x] == g[i][x] || (r[i][x] == 255 && c - 6 <= x <= c))
  {
    match RightmostWhite(g, Width(g))
    case None =>
    case Some(c) => RepairWhitensFrom(g, c);
  }

  /** `RepairWhitens` when the rightmost white column is `c`. */
  lemma RepairWhitensFrom(g: Grid, c: nat)
    requires IsGrid(g) && IsBinary(g) && c < Width(g) && RightmostWhite(g, Width(g)) == Some(c)
    ensures var r := Repair(g).0;
      forall i, x :: 0 <= i < |g| && 0 <= x < Width(g) ==>
        (r[i][x] == g[i][x] || (r[i][x] == 255 && c - 6 <= x <= c))
  {
    var k := Min(c + 1, 7);
    var h := GapFill(g, c, k);
    var r := Repair(g).0;
    GapFillWhitens(g, c, k);
    if c >= 6 {
      assert k == 7;
      assert r == Symmetry(h, c);
      SymmetryTouches(h, c);
    } else {
      assert r == h;
    }
  }

  /** Filling the gap columns changes only those columns, and only by painting white. */
  lemma GapFillWhitens(g: Grid, c: nat, k: nat)
    requires IsGrid(g) && IsBinary(g) && c < Width(g) && k <= c + 1
    ensures var h := GapFill(g, c, k);
      forall i, x :: 0 <= i < |g| && 0 <= x < Width(g) ==>
        (h[i][x] == g[i][x] || (h[i][x] == 255 && InGap(c, k, x)))
  {
    var h := GapFill(g, c, k);
    forall i, x | 0 <= i < |g| && 0 <= x < Width(g)
      ensures h[i][x] == g[i][x] || (h[i][x] == 255 && InGap(c, k, x))
    {
      if InGap(c, k, x) {
        ColBinary(g, x);
        FillHolesWhitens(Col(g, x));
        assert g[i][x] == Col(g, x)[i];
      }
    }
  }

  // ------------------------------------------------------------ crop at the shoulder

  /** `contour[:, :get_index_of_shoulder(contour.T)]` */
  function CropToShoulder(g: Grid): (r: Grid)
    requires IsGrid(g)
    ensures |r| == |g| && forall i :: 0 <= i < |g| ==> r[i] == g[i][..Phenotype.ShoulderIndex(g)]
  {
    Window(g, 0, |g|, 0, Phenotype.ShoulderIndex(g))
  }

  /**
   * The shoulder crop drops exactly the empty columns at the right edge: every
   * dropped column fails the scans' test, and with some column passing it the
   * last kept column passes it.
   */
  lemma CropToShoulderDropsEmpty(g: Grid)
    requires IsGrid(g)
    ensures var n := Phenotype.ShoulderIndex(g);
      1 <= n <= Width(g)
      && (forall j :: n <= j < Width(g) ==> !Phenotype.Qualifies(Col(g, j)))
      && (Phenotype.SomeColumnQualifies(g) ==> Phenotype.Qualifies(Col(g, n - 1)))
  {
    Phenotype.ShoulderIsPastLastColumn(g);
  }
}
