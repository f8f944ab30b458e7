/**
 * phenotype.py: pixel traits of a straightened binary carrot mask.  The
 * mask lies horizontally with its tip on the left; a column (or row)
 * "qualifies" when `np.argmax` over it is positive, which on a 0/255 mask
 * means its first pixel is black and it holds a white pixel.
 */
module Phenotype {
  import opened Wrappers
  import opened Numeric
  import opened Pixels
  import Utils

  /**
   * The test `np.argmax(line) > 0` of the scans: some pixel is brighter
   * than the first one (see `QualifiesByArgMax`).
   */
  predicate Qualifies(line: seq<int>)
  {
    exists i :: 0 < i < |line| && line[0] < line[i]
  }

  /** On 0/255 data a line qualifies exactly when its first pixel is black and it holds a white pixel. */
  lemma QualifiesBinary(line: seq<int>)
    requires IsBinarySeq(line)
    ensures Qualifies(line) <==> |line| > 0 && line[0] == 0 && 255 in line
  {
    if |line| > 0 && line[0] == 0 && 255 in line {
      var i :| 0 <= i < |line| && line[i] == 255;
      assert 0 < i;
    }
  }

  /** `np.argmax(line) > 0` holds exactly when the line qualifies. */
  lemma QualifiesByArgMax(line: seq<int>)
    requires |line| > 0
    ensures ArgMax(line) > 0 <==> Qualifies(line)
  {
    ArgMaxIsFirstMax(line);
  }

  /** `mask.T`: the columns of the mask. */
  function Transpose(g: Grid): (t: seq<seq<int>>)
    requires IsGrid(g)
    ensures |t| == Width(g) && forall j :: 0 <= j < |t| ==> t[j] == Col(g, j)
  {
    seq(Width(g), j requires 0 <= j < Width(g) => Col(g, j))
  }

  // ------------------------------------------------------------ scanning specifications

  /** The first qualifying line at or after `from`, or `|ls|` if none. */
  function FirstQualifying(ls: seq<seq<int>>, from: nat): (r: nat)
    requires from <= |ls|
    ensures from <= r <= |ls|
    decreases |ls| - from
  {
    if from == |ls| then |ls|
    else if Qualifies(ls[from]) then from
    else FirstQualifying(ls, from + 1)
  }

  lemma {:induction false} FirstQualifyingIsFirst(ls: seq<seq<int>>, from: nat)
    requires from <= |ls|
    ensures var r := FirstQualifying(ls, from);
      (r < |ls| ==> Qualifies(ls[r])) && forall k :: from <= k < r ==> !Qualifies(ls[k])
    decreases |ls| - from
  {
    if from < |ls| && !Qualifies(ls[from]) {
      FirstQualifyingIsFirst(ls, from + 1);
    }
  }

  /** The last qualifying line before `upto`, or -1 if none. */
  function LastQualifying(ls: seq<seq<int>>, upto: nat): (r: int)
    requires upto <= |ls|
    ensures -1 <= r < upto
    decreases upto
  {
    if upto == 0 then -1
    else if Qualifies(ls[upto - 1]) then upto - 1
    else LastQualifying(ls, upto - 1)
  }

  lemma {:induction false} LastQualifyingIsLast(ls: seq<seq<int>>, upto: nat)
    requires upto <= |ls|
    ensures var r := LastQualifying(ls, upto);
      (r >= 0 ==> Qualifies(ls[r])) && forall k :: r < k < upto ==> !Qualifies(ls[k])
    decreases upto
  {
    if upto > 0 && !Qualifies(ls[upto - 1]) {
      LastQualifyingIsLast(ls, upto - 1);
    }
  }

  /** The index the forward scan stops at: the first qualifying line, else 0. */
  function Leading(ls: seq<seq<int>>): (r: nat)
    ensures r == 0 || r < |ls|
  {
    var f := FirstQualifying(ls, 0);
    if f == |ls| then 0 else f
  }

  /** The index the scan over `ls[::-1]` stops at: the lines after the last qualifying one, else 0. */
  function Trailing(ls: seq<seq<int>>): (r: nat)
    ensures r == 0 || r < |ls|
  {
    var l := LastQualifying(ls, |ls|);
    if l < 0 then 0 else |ls| - 1 - l
  }

  /** The forward scan stops at the first qualifying line, or at 0 when none qualifies. */
  lemma LeadingIsFirst(ls: seq<seq<int>>)
    ensures (exists k :: 0 <= k < |ls| && Qualifies(ls[k])) ==>
      Leading(ls) < |ls| && Qualifies(ls[Leading(ls)]) && forall k :: 0 <= k < Leading(ls) ==> !Qualifies(ls[k])
    ensures (forall k :: 0 <= k < |ls| ==> !Qualifies(ls[k])) ==> Leading(ls) == 0
  {
    FirstQualifyingIsFirst(ls, 0);
  }

  /** The backward scan stops after the last qualifying line, or at 0 when none qualifies. */
  lemma TrailingIsLast(ls: seq<seq<int>>)
    ensures (exists k :: 0 <= k < |ls| && Qualifies(ls[k])) ==>
      Trailing(ls) < |ls| && Qualifies(ls[|ls| - 1 - Trailing(ls)])
      && forall k :: |ls| - 1 - Trailing(ls) < k < |ls| ==> !Qualifies(ls[k])
    ensures (forall k :: 0 <= k < |ls| ==> !Qualifies(ls[k])) ==> Trailing(ls) == 0
  {
    LastQualifyingIsLast(ls, |ls|);
  }

  /** `get_index_of_tip(mask.T)` */
  function TipIndex(g: Grid): (t: nat)
    requires IsGrid(g)
    ensures t < Width(g)
  {
    Leading(Transpose(g))
  }

  /** `get_index_of_shoulder(mask.T)` */
  function ShoulderIndex(g: Grid): (s: nat)
    requires IsGrid(g)
    ensures 1 <= s <= Width(g)
  {
    Width(g) - Trailing(Transpose(g))
  }

  predicate SomeColumnQualifies(g: Grid)
    requires IsGrid(g)
  {
    exists j :: 0 <= j < Width(g) && Qualifies(Col(g, j))
  }

  /** `get_length`: the distance from the tip index to the shoulder index. */
  function Length(g: Grid): (n: int)
    requires IsGrid(g)
    ensures 0 <= n <= Width(g)
  {
    TipBeforeShoulder(g);
    ShoulderIndex(g) - TipIndex(g)
  }

  lemma TipBeforeShoulder(g: Grid)
    requires IsGrid(g)
    ensures TipIndex(g) <= ShoulderIndex(g)
  {
    var t := Transpose(g);
    LeadingIsFirst(t);
    TrailingIsLast(t);
  }

  /**
   * `get_index_of_tip(mask.T)` is the first column whose first pixel is below
   * the column maximum, or 0 when there is none.
   */
  lemma TipIsFirstColumn(g: Grid)
    requires IsGrid(g)
    ensures SomeColumnQualifies(g) ==>
      Qualifies(Col(g, TipIndex(g))) && forall j :: 0 <= j < TipIndex(g) ==> !Qualifies(Col(g, j))
    ensures !SomeColumnQualifies(g) ==> TipIndex(g) == 0
  {
    var t := Transpose(g);
    var tip := TipIndex(g);
    if SomeColumnQualifies(g) {
      var j :| 0 <= j < Width(g) && Qualifies(Col(g, j));
      assert Qualifies(t[j]);
      LeadingIsFirst(t);
      assert t[tip] == Col(g, tip);
      forall k | 0 <= k < tip ensures !Qualifies(Col(g, k)) {
        assert t[k] == Col(g, k);
      }
    } else {
      forall k | 0 <= k < |t| ensures !Qualifies(t[k]) {
        assert t[k] == Col(g, k);
      }
      LeadingIsFirst(t);
    }
  }

  /**
   * `get_index_of_shoulder(mask.T)` is one past the last qualifying column,
   * or the full width when there is none.
   */
  lemma ShoulderIsPastLastColumn(g: Grid)
    requires IsGrid(g)
    ensures SomeColumnQualifies(g) ==>
      Qualifies(Col(g, ShoulderIndex(g) - 1)) && forall j :: ShoulderIndex(g) <= j < Width(g) ==> !Qualifies(Col(g, j))
    ensures !SomeColumnQualifies(g) ==> ShoulderIndex(g) == Width(g)
  {
    var t := Transpose(g);
    var s := ShoulderIndex(g);
    if SomeColumnQualifies(g) {
      var j :| 0 <= j < Width(g) && Qualifies(Col(g, j));
      assert Qualifies(t[j]);
      TrailingIsLast(t);
      assert t[s - 1] == Col(g, s - 1);
      forall k | s <= k < Width(g) ensures !Qualifies(Col(g, k)) {
        assert t[k] == Col(g, k);
      }
    } else {
      forall k | 0 <= k < |t| ensures !Qualifies(t[k]) {
        assert t[k] == Col(g, k);
      }
      TrailingIsLast(t);
    }
  }

  /**
   * With a qualifying column the length spans the first to the last
   * qualifying column, so it is at least 1; without one it is the full width.
   */
  lemma LengthSpansCarrot(g: Grid)
    requires IsGrid(g)
    ensures SomeColumnQualifies(g) ==>
      Length(g) >= 1 && Qualifies(Col(g, TipIndex(g))) && Qualifies(Col(g, TipIndex(g) + Length(g) - 1))
      && forall j :: 0 <= j < Width(g) && (j < TipIndex(g) || j >= TipIndex(g) + Length(g)) ==> !Qualifies(Col(g, j))
    ensures !SomeColumnQualifies(g) ==> Length(g) == Width(g)
  {
    TipIsFirstColumn(g);
    ShoulderIsPastLastColumn(g);
  }

  /** `get_max_width`: the height minus the lines the two scans skip. */
  function MaxWidth(g: Grid): (w: int)
    requires IsGrid(g)
  {
    |g| - Leading(g) - Trailing(g)
  }

  /**
   * The width spans the first to the last qualifying row; with no
   * qualifying row it is the full height.
   */
  lemma MaxWidthSpansRows(g: Grid)
    requires IsGrid(g)
    ensures (exists i :: 0 <= i < |g| && Qualifies(g[i])) ==>
      MaxWidth(g) == LastQualifying(g, |g|) - FirstQualifying(g, 0) + 1 >= 1
    ensures (forall i :: 0 <= i < |g| ==> !Qualifies(g[i])) ==> MaxWidth(g) == |g|
  {
    LeadingIsFirst(g);
    TrailingIsLast(g);
    FirstQualifyingIsFirst(g, 0);
    LastQualifyingIsLast(g, |g|);
  }

  /** No row of an all-black mask qualifies, so its width is its height. */
  lemma AllBlackMaxWidth(g: Grid)
    requires IsGrid(g)
    requires forall i, j :: 0 <= i < |g| && 0 <= j < |g[i]| ==> g[i][j] == 0
    ensures MaxWidth(g) == |g|
  {
    MaxWidthSpansRows(g);
  }

  // ------------------------------------------------------------ the scanning loops

  /** Every line is non-empty, as in a mask with at least one pixel (`np.argmax` rejects an empty line). */
  predicate NonEmptyLines(ls: seq<seq<int>>)
  {
    forall k :: 0 <= k < |ls| ==> |ls[k]| > 0
  }

  /** The loop of `get_index_of_tip`. */
  method GetIndexOfTip(ls: seq<seq<int>>) returns (start: nat)
    requires NonEmptyLines(ls)
    ensures start == Leading(ls)
  {
    start := 0;
    var i := 0;
    while i < |ls|
      invariant 0 <= i <= |ls|
      invariant forall k :: 0 <= k < i ==> !Qualifies(ls[k])
    {
      QualifiesByArgMax(ls[i]);
      if ArgMax(ls[i]) > 0 {
        start := i;
        LeadingIsFirst(ls);
        return;
      }
      i := i + 1;
    }
    LeadingIsFirst(ls);
  }

  /** The loop of `get_index_of_shoulder`: the length minus the trailing non-qualifying lines. */
  method GetIndexOfShoulder(ls: seq<seq<int>>) returns (end: nat)
    requires NonEmptyLines(ls)
    ensures end == |ls| - Trailing(ls)
  {
    var endPx := 0;
    var i := 0;
    while i < |ls|
      invariant 0 <= i <= |ls|
      invariant forall k :: |ls| - i <= k < |ls| ==> !Qualifies(ls[k])
    {
      var line := ls[|ls| - 1 - i];
      QualifiesByArgMax(line);
      if ArgMax(line) > 0 {
        endPx := i;
        break;
      }
      i := i + 1;
    }
    TrailingIsLast(ls);
    end := |ls| - endPx;
  }

  /** The two loops of `get_max_width` over the rows of the mask. */
  method GetMaxWidth(g: Grid) returns (w: int)
    requires IsGrid(g)
    ensures w == MaxWidth(g)
  {
    var startPx := 0;
    var i := 0;
    while i < |g|
      invariant 0 <= i <= |g|
      invariant forall k :: 0 <= k < i ==> !Qualifies(g[k])
    {
      QualifiesByArgMax(g[i]);
      if ArgMax(g[i]) > 0 {
        startPx := i;
        break;
      }
      i := i + 1;
    }
    var endPx := 0;
    i := 0;
    while i < |g|
      invariant 0 <= i <= |g|
      invariant forall k :: |g| - i <= k < |g| ==> !Qualifies(g[k])
    {
      QualifiesByArgMax(g[|g| - 1 - i]);
      if ArgMax(g[|g| - 1 - i]) > 0 {
        endPx := i;
        break;
      }
      i := i + 1;
    }
    LeadingIsFirst(g);
    TrailingIsLast(g);
    w := |g| - startPx - endPx;
  }

  // ------------------------------------------------------------ widths

  /** `get_max_width_unstraightened` over the first `n` columns. */
  function MaxColumnWhite(g: Grid, n: nat): (m: nat)
    requires IsGrid(g) && 1 <= n <= Width(g)
  {
    if n == 1 then CountWhite(Col(g, 0))
    else Max(MaxColumnWhite(g, n - 1), CountWhite(Col(g, n - 1)))
  }

  lemma {:induction false} MaxColumnWhiteIsMax(g: Grid, n: nat)
    requires IsGrid(g) && 1 <= n <= Width(g)
    ensures forall j :: 0 <= j < n ==> CountWhite(Col(g, j)) <= MaxColumnWhite(g, n)
    ensures exists j :: 0 <= j < n && CountWhite(Col(g, j)) == MaxColumnWhite(g, n)
  {
    if n == 1 {
      assert CountWhite(Col(g, 0)) == MaxColumnWhite(g, n);
    } else {
      MaxColumnWhiteIsMax(g, n - 1);
      if CountWhite(Col(g, n - 1)) >= MaxColumnWhite(g, n - 1) {
        assert CountWhite(Col(g, n - 1)) == MaxColumnWhite(g, n);
      } else {
        var j :| 0 <= j < n - 1 && CountWhite(Col(g, j)) == MaxColumnWhite(g, n - 1);
        assert CountWhite(Col(g, j)) == MaxColumnWhite(g, n);
      }
    }
  }

  /** `get_max_width_unstraightened`: `max` of the white counts of the columns. */
  function MaxWidthUnstraightened(g: Grid): (m: nat)
    requires IsGrid(g)
  {
    MaxColumnWhite(g, Width(g))
  }

  /** The result is the largest white count of any column. */
  lemma MaxWidthUnstraightenedIsMax(g: Grid)
    requires IsGrid(g)
    ensures forall j :: 0 <= j < Width(g) ==> CountWhite(Col(g, j)) <= MaxWidthUnstraightened(g)
    ensures exists j :: 0 <= j < Width(g) && CountWhite(Col(g, j)) == MaxWidthUnstraightened(g)
  {
    MaxColumnWhiteIsMax(g, Width(g));
  }

  /** The k-th sampled column of `get_decile_widths`: tip + k * d, with d = length div 10. */
  function DecileColumn(g: Grid, k: nat): (c: int)
    requires IsGrid(g) && k < 10
    ensures TipIndex(g) <= c
    ensures Length(g) >= 10 ==> c < ShoulderIndex(g)
  {
    var d := Length(g) / 10;
    MulBelow(k, d, Length(g));
    TipIndex(g) + k * d
  }

  lemma MulBelow(k: nat, d: nat, n: nat)
    requires k < 10 && d == n / 10
    ensures 0 <= k * d && (n >= 10 ==> k * d < n)
  {
    assert k * d <= 9 * d;
  }

  /**
   * `get_decile_widths` in pixels: the white counts of columns tip + k * d for
   * k = 0..9 and of column shoulder - 1, returned shoulder first; the `range`
   * with step 0 raises when the length is under 10.
   */
  function DecileWidths(g: Grid): (r: Result<seq<nat>>)
    requires IsGrid(g)
    ensures r.Ok? <==> Length(g) >= 10
    ensures r.Ok? ==> |r.value| == 11 && r.value[0] == CountWhite(Col(g, ShoulderIndex(g) - 1))
    ensures r.Ok? ==> forall k :: 0 <= k < 10 ==> r.value[10 - k] == CountWhite(Col(g, DecileColumn(g, k)))
  {
    if Length(g) / 10 == 0 then Err("ValueError")
    else
      var indices := seq(10, k requires 0 <= k < 10 => DecileColumn(g, k)) + [ShoulderIndex(g) - 1];
      var widths := seq(11, k requires 0 <= k < 11 => CountWhite(Col(g, indices[k])));
      Ok(Reverse(widths))
  }

  // ------------------------------------------------------------ tip angle points

  /** `round(length * 0.16)`, the width of the tip section. */
  function TipSection(g: Grid): (q: int)
    requires IsGrid(g)
    ensures 2 * Abs(100 * q - 16 * Length(g)) <= 100
    ensures 0 <= q <= Length(g)
  {
    var q := RoundHalfEven(16 * Length(g), 100);
    assert q * 100 == 100 * q;
    q
  }

  /**
   * `get_tip_angle_points`: (A_top, B_top, A_bottom, B_bottom).  A points sit on
   * the tip column, B points at x = tip + q but take their y from column
   * tip + q - 1, the last column of the slice; a zero-width slice raises.
   * Top y values are first maxima, bottom y values last maxima.
   */
  function TipAnglePoints(g: Grid): (r: Result<(Point, Point, Point, Point)>)
    requires IsGrid(g)
    ensures r.Ok? <==> TipSection(g) > 0
    ensures r.Ok? ==> TipIndex(g) + TipSection(g) <= Width(g)
    ensures r.Ok? ==>
      var t, e := TipIndex(g), TipIndex(g) + TipSection(g);
      r.value.0 == Point(t, ArgMax(Col(g, t))) && r.value.2 == Point(t, LastArgMax(Col(g, t)))
      && r.value.1 == Point(e, ArgMax(Col(g, e - 1))) && r.value.3 == Point(e, LastArgMax(Col(g, e - 1)))
  {
    var t := TipIndex(g);
    var q := TipSection(g);
    TipSectionFits(g);
    if q == 0 then Err("IndexError")
    else
      var first := Col(g, t);
      var last := Col(g, t + q - 1);
      Ok((Point(t, ArgMax(first)), Point(t + q, ArgMax(last)), Point(t, LastArgMax(first)), Point(t + q, LastArgMax(last))))
  }

  /** The tip section ends at or before the shoulder. */
  lemma TipSectionFits(g: Grid)
    requires IsGrid(g)
    ensures TipIndex(g) + TipSection(g) <= ShoulderIndex(g)
  {
    assert Length(g) == ShoulderIndex(g) - TipIndex(g);
  }

  /**
   * In a 0/255 column holding a white pixel, `np.argmax` finds its first white
   * row and the reversed search its last white row.
   */
  lemma ColumnOutline(g: Grid, x: int)
    requires IsGrid(g) && IsBinary(g) && 0 <= x < Width(g) && 255 in Col(g, x)
    ensures var top := ArgMax(Col(g, x));
      g[top][x] == 255 && forall y :: 0 <= y < top ==> g[y][x] == 0
    ensures var bottom := LastArgMax(Col(g, x));
      g[bottom][x] == 255 && forall y :: bottom < y < |g| ==> g[y][x] == 0
  {
    var c := Col(g, x);
    ColBinary(g, x);
    BinaryArgMax(c);
    BinaryLastArgMax(c);
  }

  /** The A points lie on the first and the last white pixel of the tip column of a 0/255 mask with a carrot. */
  lemma TipPointsOnOutline(g: Grid)
    requires IsGrid(g) && IsBinary(g) && SomeColumnQualifies(g) && TipAnglePoints(g).Ok?
    ensures var (aTop, _, aBottom, _) := TipAnglePoints(g).value;
      aTop.x == aBottom.x == TipIndex(g) &&
      g[aTop.y][aTop.x] == 255 && (forall y :: 0 <= y < aTop.y ==> g[y][aTop.x] == 0) &&
      g[aBottom.y][aBottom.x] == 255 && (forall y :: aBottom.y < y < |g| ==> g[y][aBottom.x] == 0)
  {
    var t := TipIndex(g);
    TipIsFirstColumn(g);
    ColBinary(g, t);
    QualifiesBinary(Col(g, t));
    ColumnOutline(g, t);
  }

  /**
   * The B points sit at x = tip + q and take the first and the last white
   * row of column x - 1, whenever that column holds a white pixel.
   */
  lemma TipEndPointsOnOutline(g: Grid)
    requires IsGrid(g) && IsBinary(g) && TipAnglePoints(g).Ok?
    ensures var (_, bTop, _, bBottom) := TipAnglePoints(g).value;
      var x := bTop.x - 1;
      bTop.x == bBottom.x == TipIndex(g) + TipSection(g) &&
      (255 in Col(g, x) ==>
        g[bTop.y][x] == 255 && (forall y :: 0 <= y < bTop.y ==> g[y][x] == 0) &&
        g[bBottom.y][x] == 255 && (forall y :: bBottom.y < y < |g| ==> g[y][x] == 0))
  {
    var x := TipIndex(g) + TipSection(g) - 1;
    if 255 in Col(g, x) {
      ColumnOutline(g, x);
    }
  }

  // ------------------------------------------------------------ shoulders

  /** The two boxes `get_shoulders` returns (y then x bounds, as slice starts and stops). */
  datatype ShoulderBoxes = ShoulderBoxes(
    topYMin: int, topYMax: int, topXMin: int, topXMax: int,
    bottomYMin: int, bottomYMax: int, bottomXMin: int, bottomXMax: int)

  /** `round(length / 4)`, the width of the shoulder section. */
  function ShoulderSection(g: Grid): (q: int)
    requires IsGrid(g)
    ensures 2 * Abs(4 * q - Length(g)) <= 4
    ensures 0 <= q <= Length(g) && q <= ShoulderIndex(g)
  {
    var q := RoundHalfEven(Length(g), 4);
    assert q * 4 == 4 * q;
    q
  }

  /** `np.argmax(column)` for the last `q` columns before the shoulder, left to right. */
  function TopOffsets(g: Grid): (v: seq<int>)
    requires IsGrid(g)
    ensures |v| == ShoulderSection(g)
  {
    var s, q := ShoulderIndex(g), ShoulderSection(g);
    seq(q, k requires 0 <= k < q => ArgMax(Col(g, s - q + k)))
  }

  /** `np.argmax(column[::-1])` for the same columns: `|g| - 1 - LastArgMax` of each. */
  function BottomOffsets(g: Grid): (v: seq<int>)
    requires IsGrid(g)
    ensures |v| == ShoulderSection(g)
  {
    var s, q := ShoulderIndex(g), ShoulderSection(g);
    seq(q, k requires 0 <= k < q => ArgMax(Reverse(Col(g, s - q + k))))
  }

  /**
   * The running minimum of a `get_shoulders` loop, scanning `vals` from its
   * end with a strict `<` against a start value of 1000: the minimum and one
   * past its position, or (1000, 0) when nothing is below 1000.
   */
  function ScanFromEnd(vals: seq<int>): (r: (int, int))
    ensures 0 <= r.1 <= |vals|
  {
    if |vals| == 0 then (1000, 0)
    else
      var (best, index) := ScanFromEnd(vals[1..]);
      if vals[0] < best then (vals[0], 1)
      else (best, if index == 0 then 0 else index + 1)
  }

  /**
   * The outcome of a backward scan: `index` is 0 when nothing is below 1000,
   * else one past the position of the minimum nearest the end.
   */
  predicate BackwardScan(vals: seq<int>, best: int, index: int)
  {
    if index == 0 then best == 1000 && forall k :: 0 <= k < |vals| ==> vals[k] >= 1000
    else
      1 <= index <= |vals| && best == vals[index - 1] && best < 1000
      && (forall k :: 0 <= k < |vals| ==> best <= vals[k])
      && (forall k :: index - 1 < k < |vals| ==> best < vals[k])
  }

  /** The scan finds the smallest value below 1000, ties going to the position nearest the end. */
  lemma {:induction false} ScanFromEndIsBackwardScan(vals: seq<int>)
    ensures BackwardScan(vals, ScanFromEnd(vals).0, ScanFromEnd(vals).1)
  {
    if |vals| > 0 {
      ScanFromEndIsBackwardScan(vals[1..]);
      assert forall k :: 1 <= k < |vals| ==> vals[k] == vals[1..][k - 1];
    }
  }

  /** One loop of `get_shoulders`: `max_white_* = col_index` and `max_white_*_index = len - i` on each strict improvement. */
  method ScanBackward(vals: seq<int>) returns (best: int, index: int)
    ensures (best, index) == ScanFromEnd(vals)
  {
    best, index := 1000, 0;
    var i := 0;
    while i < |vals|
      invariant 0 <= i <= |vals|
      invariant index == 0 || |vals| - i < index <= |vals|
      invariant (best, if index == 0 then 0 else index - (|vals| - i)) == ScanFromEnd(vals[|vals| - i..])
    {
      var v := vals[|vals| - 1 - i];
      assert vals[|vals| - 1 - i..][1..] == vals[|vals| - i..];
      if v < best {
        best := v;
        index := |vals| - i;
      }
      i := i + 1;
    }
    assert vals[|vals| - i..] == vals;
  }

  /**
   * `get_shoulders`.  Over the last q = round(length / 4) columns before the
   * shoulder, the top box starts at the column whose first white pixel is
   * highest and the bottom box at the column whose last white pixel is
   * lowest; both boxes end at the shoulder index and meet at half the height.
   */
  function Shoulders(g: Grid): (b: ShoulderBoxes)
    requires IsGrid(g)
  {
    var s, q, h := ShoulderIndex(g), ShoulderSection(g), |g|;
    var (top, topIndex) := ScanFromEnd(TopOffsets(g));
    var (bottom, bottomIndex) := ScanFromEnd(BottomOffsets(g));
    ShoulderBoxes(top, h / 2, s - q + topIndex - 1, s, h / 2, h - bottom - 1, s - q + bottomIndex - 1, s)
  }

  /**
   * Both boxes end at the shoulder index and split the height at its middle;
   * their starting columns come from backward scans of the offsets, so ties
   * go to the column nearest the shoulder.
   */
  lemma ShouldersScanBackward(g: Grid)
    requires IsGrid(g)
    ensures var b := Shoulders(g);
      b.topXMax == ShoulderIndex(g) && b.bottomXMax == ShoulderIndex(g)
      && b.topYMax == |g| / 2 && b.bottomYMin == |g| / 2
    ensures var b, lo := Shoulders(g), ShoulderIndex(g) - ShoulderSection(g);
      BackwardScan(TopOffsets(g), b.topYMin, b.topXMin - lo + 1)
      && BackwardScan(BottomOffsets(g), |g| - 1 - b.bottomYMax, b.bottomXMin - lo + 1)
  {
    var b, lo := Shoulders(g), ShoulderIndex(g) - ShoulderSection(g);
    var top, bottom := ScanFromEnd(TopOffsets(g)), ScanFromEnd(BottomOffsets(g));
    assert b.topYMin == top.0 && b.topXMin - lo + 1 == top.1;
    assert |g| - 1 - b.bottomYMax == bottom.0 && b.bottomXMin - lo + 1 == bottom.1;
    ScanFromEndIsBackwardScan(TopOffsets(g));
    ScanFromEndIsBackwardScan(BottomOffsets(g));
  }

  /** The loops of `get_shoulders`. */
  method GetShoulders(g: Grid) returns (b: ShoulderBoxes)
    requires IsGrid(g)
    ensures b == Shoulders(g)
  {
    var s := ShoulderIndex(g);
    var q := ShoulderSection(g);
    var h := |g|;
    var maxWhiteTop, maxWhiteTopIndex := ScanBackward(TopOffsets(g));
    var maxWhiteBottom, maxWhiteBottomIndex := ScanBackward(BottomOffsets(g));
    b := ShoulderBoxes(
      maxWhiteTop, h / 2, s - q + maxWhiteTopIndex - 1, s,
      h / 2, h - maxWhiteBottom - 1, s - q + maxWhiteBottomIndex - 1, s);
  }

  /**
   * Area minus non-zero count of `mask[yMin:yMax, xMin:xMax]`, the slice
   * taken with Python's clamping and negative wrap: the black pixels of the box.
   */
  function BoxBlack(g: Grid, yMin: int, yMax: int, xMin: int, xMax: int): (black: int)
    requires IsGrid(g)
    ensures var (r0, r1) := SliceRange(yMin, yMax, |g|);
      var (c0, c1) := SliceRange(xMin, xMax, Width(g));
      black == GridZero(Window(g, r0, r1, c0, c1)) && black >= 0
  {
    var (r0, r1) := SliceRange(yMin, yMax, |g|);
    var (c0, c1) := SliceRange(xMin, xMax, Width(g));
    var w := Window(g, r0, r1, c0, c1);
    GridZeroComplement(w, c1 - c0);
    (r1 - r0) * (c1 - c0) - GridNonZero(w)
  }

  /** `get_shouldering`: the black pixels of the top and the bottom shoulder box. */
  function Shouldering(g: Grid): (r: (int, int))
    requires IsGrid(g)
    ensures r.0 >= 0 && r.1 >= 0
  {
    var b := Shoulders(g);
    (BoxBlack(g, b.topYMin, b.topYMax, b.topXMin, b.topXMax),
     BoxBlack(g, b.bottomYMin, b.bottomYMax, b.bottomXMin, b.bottomXMax))
  }

  // ------------------------------------------------------------ assembling an instance

  /** The pixel traits `assemble_instance` stores, before their conversion to millimetres. */
  datatype Traits = Traits(
    attributes: map<string, string>, mmPerPixel: real,
    maxWidth: int, decileWidths: seq<nat>, length: int, biomass: nat,
    shoulderTop: int, shoulderBottom: int, tipPoints: (Point, Point, Point, Point))

  /**
   * `assemble_instance` on a file name and its mask: None when the name has
   * no Scale attribute; an error when the name is malformed, the scale is
   * not a positive-or-negative non-zero integer, the length is under 10
   * columns, or the tip section is empty.
   */
  function AssembleInstance(filename: string, g: Grid): (r: Result<Option<Traits>>)
    requires IsGrid(g)
    ensures Utils.GetAttributes(filename).Err? ==> r.Err?
    ensures r.Ok? && r.value.None? <==>
      Utils.GetAttributes(filename).Ok? && "Scale" !in Utils.GetAttributes(filename).value
    ensures r.Ok? && r.value.Some? <==>
      Utils.GetAttributes(filename).Ok? && "Scale" in Utils.GetAttributes(filename).value
      && Utils.PixelToMm(Utils.GetAttributes(filename).value["Scale"]).Ok?
      && Length(g) >= 10 && TipSection(g) > 0
    ensures r.Ok? && r.value.Some? ==>
      var t := r.value.value;
      t.attributes == Utils.GetAttributes(filename).value
      && t.length == Length(g) && t.maxWidth == MaxWidth(g) && |t.decileWidths| == 11
      && t.biomass == GridNonZero(g) && t.shoulderTop >= 0 && t.shoulderBottom >= 0
      && t.decileWidths == DecileWidths(g).value
      && (t.shoulderTop, t.shoulderBottom) == Shouldering(g)
      && t.tipPoints == TipAnglePoints(g).value
      && t.mmPerPixel == Utils.PixelToMm(Utils.GetAttributes(filename).value["Scale"]).value
  {
    match Utils.GetAttributes(filename)
    case Err(e) => Err(e)
    case Ok(attrs) =>
      if "Scale" !in attrs then Ok(None)
      else
        match Utils.PixelToMm(attrs["Scale"])
        case Err(e) => Err(e)
        case Ok(mm) =>
          match DecileWidths(g)
          case Err(e) => Err(e)
          case Ok(deciles) =>
            match TipAnglePoints(g)
            case Err(e) => Err(e)
            case Ok(points) =>
              var (top, bottom) := Shouldering(g);
              Ok(Some(Traits(attrs, mm, MaxWidth(g), deciles, Length(g), GridNonZero(g), top, bottom, points)))
  }
}
