/**
 * lib/tip_mask.py: where the tip of a straightened carrot mask begins.
 * The detectors walk the columns from the right (`mask.T[::-1]`), so a
 * "reversed index" i names column W - 1 - i.
 */
module TipMask {
  import opened Wrappers
  import opened Numeric
  import opened Pixels
  import Phenotype

  /** `TIP_MASK_PSEUDO_MAX_LENGTH`: the length of a feature vector. */
  const PseudoMaxLength: nat := 5000

  // ------------------------------------------------------------ count_bins_in_column

  /** Positions i..j-1 of `s` are all white. */
  predicate WhiteRun(s: seq<int>, i: int, j: int)
  {
    0 <= i <= j <= |s| && forall k :: i <= k < j ==> s[k] == 255
  }

  /** The length of the white run ending just before position `n`. */
  function RunEndingAt(s: seq<int>, n: nat): (r: nat)
    requires n <= |s|
    ensures r <= n
  {
    if n == 0 || s[n - 1] != 255 then 0 else RunEndingAt(s, n - 1) + 1
  }

  /** The longest white run ending at or before position `n`. */
  function LongestRunUpTo(s: seq<int>, n: nat): (r: nat)
    requires n <= |s|
    ensures r <= n
  {
    if n == 0 then 0
    else
      var a, b := LongestRunUpTo(s, n - 1), RunEndingAt(s, n);
      if a >= b then a else b
  }

  /**
   * `count_bins_in_column`: the white positions grouped into runs of
   * consecutive indices, the length of the largest run, 0 without white.
   */
  function LongestRun(s: seq<int>): (r: nat)
    ensures r <= |s|
  {
    LongestRunUpTo(s, |s|)
  }

  lemma {:induction false} RunEndingAtIsRun(s: seq<int>, n: nat)
    requires n <= |s|
    ensures WhiteRun(s, n - RunEndingAt(s, n), n)
  {
    if n > 0 && s[n - 1] == 255 {
      RunEndingAtIsRun(s, n - 1);
    }
  }

  lemma {:induction false} RunEndingAtCovers(s: seq<int>, i: nat, n: nat)
    requires WhiteRun(s, i, n)
    ensures RunEndingAt(s, n) >= n - i
    decreases n
  {
    if i < n {
      RunEndingAtCovers(s, i, n - 1);
    }
  }

  lemma {:induction false} LongestRunUpToAttained(s: seq<int>, n: nat)
    requires n <= |s|
    ensures exists m :: 0 <= m <= n && RunEndingAt(s, m) == LongestRunUpTo(s, n)
  {
    if n == 0 {
      assert RunEndingAt(s, 0) == LongestRunUpTo(s, 0);
    } else if LongestRunUpTo(s, n - 1) < RunEndingAt(s, n) {
      assert RunEndingAt(s, n) == LongestRunUpTo(s, n);
    } else {
      LongestRunUpToAttained(s, n - 1);
      var m :| 0 <= m <= n - 1 && RunEndingAt(s, m) == LongestRunUpTo(s, n - 1);
      assert RunEndingAt(s, m) == LongestRunUpTo(s, n);
    }
  }

  lemma {:induction false} LongestRunUpToBounds(s: seq<int>, m: nat, n: nat)
    requires m <= n <= |s|
    ensures RunEndingAt(s, m) <= LongestRunUpTo(s, n)
    decreases n
  {
    if m < n {
      LongestRunUpToBounds(s, m, n - 1);
    }
  }

  /**
   * The result is the length of a white run of `s`, and no white run of `s`
   * is longer.
   */
  lemma LongestRunIsLongest(s: seq<int>)
    ensures exists i, j :: WhiteRun(s, i, j) && j - i == LongestRun(s)
    ensures forall i, j :: WhiteRun(s, i, j) ==> j - i <= LongestRun(s)
  {
    LongestRunUpToAttained(s, |s|);
    var m :| 0 <= m <= |s| && RunEndingAt(s, m) == LongestRun(s);
    RunEndingAtIsRun(s, m);
    assert WhiteRun(s, m - LongestRun(s), m);
    forall i, j | WhiteRun(s, i, j) ensures j - i <= LongestRun(s) {
      RunEndingAtCovers(s, i, j);
      LongestRunUpToBounds(s, j, |s|);
    }
  }

  /** A positive longest run is made of white pixels. */
  lemma RunHasWhite(s: seq<int>)
    ensures LongestRun(s) > 0 ==> 255 in s
  {
    LongestRunIsLongest(s);
    var i, j :| WhiteRun(s, i, j) && j - i == LongestRun(s);
    if i < j {
      assert s[i] == 255;
    }
  }

  /** A column has no white run exactly when it holds no white pixel. */
  lemma LongestRunZero(s: seq<int>)
    ensures LongestRun(s) == 0 <==> 255 !in s
  {
    if 255 in s {
      LongestRunIsLongest(s);
      var k :| 0 <= k < |s| && s[k] == 255;
      assert WhiteRun(s, k, k + 1);
    } else {
      RunHasWhite(s);
    }
  }

  // ------------------------------------------------------------ first thin column from the right

  /** The per-column measure of the reversed columns: `measure(mask.T[::-1][i])`. */
  function RevWhiteCounts(g: Grid): (v: seq<int>)
    requires IsGrid(g)
    ensures |v| == Width(g)
  {
    seq(Width(g), i requires 0 <= i < Width(g) => CountWhite(Col(g, Width(g) - 1 - i)))
  }

  function RevRuns(g: Grid): (v: seq<int>)
    requires IsGrid(g)
    ensures |v| == Width(g)
  {
    seq(Width(g), i requires 0 <= i < Width(g) => LongestRun(Col(g, Width(g) - 1 - i)))
  }

  /** A measure that is positive and within the pixel threshold. */
  predicate Thin(v: int, threshold: int)
  {
    0 < v <= threshold
  }

  /** The first thin measure at or after `from`, or `|vals|`. */
  function FirstThin(vals: seq<int>, threshold: int, from: nat): (i: nat)
    requires from <= |vals|
    ensures from <= i <= |vals|
    decreases |vals| - from
  {
    if from == |vals| then |vals|
    else if Thin(vals[from], threshold) then from
    else FirstThin(vals, threshold, from + 1)
  }

  lemma {:induction false} FirstThinIsFirst(vals: seq<int>, threshold: int, from: nat)
    requires from <= |vals|
    ensures var i := FirstThin(vals, threshold, from);
      (i < |vals| ==> Thin(vals[i], threshold)) && forall k :: from <= k < i ==> !Thin(vals[k], threshold)
    decreases |vals| - from
  {
    if from < |vals| && !Thin(vals[from], threshold) {
      FirstThinIsFirst(vals, threshold, from + 1);
    }
  }

  /** The `index` a detector loop leaves: the position of the first thin measure, else 0. */
  function ThinIndex(vals: seq<int>, threshold: int): (i: nat)
    ensures i == 0 || i < |vals|
  {
    var f := FirstThin(vals, threshold, 0);
    if f == |vals| then 0 else f
  }

  /** `len(mask_reversed) - index - 1` when the index is non-zero, else 0. */
  function ColumnOfReversed(index: nat, width: nat): int
  {
    if index != 0 then width - index - 1 else 0
  }

  /** The detector loop: the first reversed position whose measure is thin. */
  method ScanThin(vals: seq<int>, threshold: int) returns (index: nat)
    ensures index == ThinIndex(vals, threshold)
  {
    index := 0;
    var i := 0;
    while i < |vals|
      invariant 0 <= i <= |vals|
      invariant forall k :: 0 <= k < i ==> !Thin(vals[k], threshold)
    {
      if vals[i] > 0 && vals[i] <= threshold {
        index := i;
        break;
      }
      i := i + 1;
    }
    FirstThinIsFirst(vals, threshold, 0);
  }

  /**
   * A non-zero answer of a detector is a column whose measure is thin while
   * every column to its right is not; 0 means a thin rightmost column
   * (reversed index 0), or a thin leftmost one, or no thin column at all.
   */
  lemma ThinColumnFromRight(vals: seq<int>, threshold: int)
    ensures var c := ColumnOfReversed(ThinIndex(vals, threshold), |vals|);
      0 <= c < |vals| || |vals| == 0
    ensures var c := ColumnOfReversed(ThinIndex(vals, threshold), |vals|);
      c > 0 ==> Thin(vals[|vals| - 1 - c], threshold) && forall k :: 0 <= k < |vals| - 1 - c ==> !Thin(vals[k], threshold)
    ensures ColumnOfReversed(ThinIndex(vals, threshold), |vals|) == 0 ==>
      (|vals| > 0 && Thin(vals[0], threshold)) || forall k :: 0 <= k < |vals| - 1 ==> !Thin(vals[k], threshold)
  {
    FirstThinIsFirst(vals, threshold, 0);
  }

  /** `find_tip_brute_force`: the first reversed column whose white count is in (0, threshold]. */
  method FindTipBruteForce(g: Grid, threshold: int) returns (tip: int)
    requires IsGrid(g)
    ensures tip == ColumnOfReversed(ThinIndex(RevWhiteCounts(g), threshold), Width(g))
  {
    var index := ScanThin(RevWhiteCounts(g), threshold);
    tip := if index != 0 then Width(g) - index - 1 else index;
  }

  /** `find_tip_brute_force_by_bins`: the same scan measuring the longest white run. */
  method FindTipBruteForceByBins(g: Grid, threshold: int) returns (tip: int)
    requires IsGrid(g)
    ensures tip == ColumnOfReversed(ThinIndex(RevRuns(g), threshold), Width(g))
  {
    var index := ScanThin(RevRuns(g), threshold);
    tip := if index != 0 then Width(g) - index - 1 else index;
  }

  // ------------------------------------------------------------ find_tip_pseudo_dynamic

  datatype Shape = Slender | Normal | Ball

  /**
   * The shape and pixel threshold from the length/width ratio rounded to two
   * decimals (`ratio` is that rounding times 100): above 10 slender (6), from
   * 2.5 to 10 normal (6), below 2.5 a ball (15).
   */
  function ShapeOf(length: int, maxWidth: int): (r: (Shape, int))
    requires maxWidth > 0
    ensures r.0 == Slender <==> 200 * length > 2001 * maxWidth
    ensures r.0 == Ball <==> 200 * length < 499 * maxWidth
    ensures r.1 == if r.0 == Ball then 15 else 6
  {
    var ratio := RoundHalfEven(100 * length, maxWidth);
    RatioThresholds(100 * length, maxWidth, ratio);
    if ratio > 1000 then (Slender, 6)
    else if ratio >= 250 then (Normal, 6)
    else (Ball, 15)
  }

  /**
   * Where the two-decimal rounding crosses 10.00 and 2.50: exactly 10.005
   * rounds down to the even 1000, exactly 2.495 up to the even 250.
   */
  lemma RatioThresholds(n: int, d: int, ratio: int)
    requires d > 0 && 2 * Abs(ratio * d - n) <= d
    requires 2 * Abs(ratio * d - n) == d ==> ratio % 2 == 0
    ensures ratio > 1000 <==> 2 * n > 2001 * d
    ensures ratio >= 250 <==> 2 * n >= 499 * d
  {
    if ratio >= 1001 {
      MulMono(1001, ratio, d);
      if 2 * n == 2001 * d {
        assert 2 * (ratio * d - n) == d;
        MulMono(1002, ratio, d);
      }
    } else {
      MulMono(ratio, 1000, d);
    }
    if ratio >= 250 {
      MulMono(250, ratio, d);
    } else {
      MulMono(ratio, 249, d);
      if 2 * n == 499 * d {
        assert 2 * (n - ratio * d) == d;
        MulMono(ratio, 248, d);
      }
    }
  }

  lemma MulMono(a: int, b: int, d: int)
    requires a <= b && d > 0
    ensures a * d <= b * d
  {
    assert b * d - a * d == (b - a) * d;
  }

  /** `round(length * 0.3)`, the look-back distance. */
  function BackLength(length: nat): (b: nat)
    ensures 2 * Abs(10 * b - 3 * length) <= 10
    ensures length > 0 ==> b < length + 1 && b <= length
  {
    var b := RoundHalfEven(3 * length, 10);
    assert b * 10 == 10 * b;
    b
  }

  /** Python `mask[k]` for -len <= k < len. */
  function Wrap(k: int, n: nat): (i: nat)
    requires 0 <= k + n && k < n
    ensures i < n && (i == k || i == k + n)
  {
    if k >= 0 then k else k + n
  }

  /** The abrupt-change test: a run above threshold * 1.5 (slender) or threshold * 2. */
  predicate Abrupt(v: int, threshold: int, shape: Shape)
  {
    if shape == Slender then 2 * v > 3 * threshold else v > 2 * threshold
  }

  /**
   * `check_back_abrupt_change` from `k` down to (excluding) `stop`: at the
   * first abrupt column the count start - k + 1 must lie in [35, 500],
   * otherwise 0; 0 when no column is abrupt.
   */
  function AbruptBackFrom(runs: seq<int>, start: int, stop: int, threshold: int, shape: Shape, k: int): (r: int)
    requires 0 <= stop + |runs| && k <= start < |runs|
    ensures r == 0 || (stop < r <= k && 35 <= start - r + 1 <= 500)
    decreases k - stop
  {
    if k <= stop then 0
    else if Abrupt(runs[Wrap(k, |runs|)], threshold, shape) then
      var count := start - k + 1;
      if count < 35 || count > 500 then 0 else k
    else AbruptBackFrom(runs, start, stop, threshold, shape, k - 1)
  }

  function AbruptBack(runs: seq<int>, length: nat, start: nat, threshold: int, shape: Shape): (r: int)
    requires start < |runs| && length <= |runs|
    ensures r == 0 || (start - BackLength(length) < r <= start && 35 <= start - r + 1 <= 500)
  {
    var b := BackLength(length);
    AbruptBackFrom(runs, start, start - b, threshold, shape, start)
  }

  /**
   * A non-zero look-back stops at the first abrupt column below the start,
   * so every column between it and the start is not abrupt.
   */
  lemma {:induction false} AbruptBackFromIsFirst(runs: seq<int>, start: int, stop: int, threshold: int, shape: Shape, k: int)
    requires 0 <= stop + |runs| && k <= start < |runs|
    ensures var r := AbruptBackFrom(runs, start, stop, threshold, shape, k);
      r != 0 ==> (Abrupt(runs[Wrap(r, |runs|)], threshold, shape)
        && forall m :: r < m <= k ==> !Abrupt(runs[Wrap(m, |runs|)], threshold, shape))
    decreases k - stop
  {
    if k > stop && !Abrupt(runs[Wrap(k, |runs|)], threshold, shape) {
      AbruptBackFromIsFirst(runs, start, stop, threshold, shape, k - 1);
    }
  }

  /** The loop of `check_back_abrupt_change`, over `range(start, start - back_length, -1)`. */
  method CheckBackAbruptChange(runs: seq<int>, length: nat, start: nat, threshold: int, shape: Shape) returns (r: int)
    requires start < |runs| && length <= |runs|
    ensures r == AbruptBack(runs, length, start, threshold, shape)
  {
    var backLength := BackLength(length);
    var count := 0;
    var k := start;
    while k > start - backLength
      invariant start - backLength <= k <= start
      invariant count == start - k
      invariant AbruptBackFrom(runs, start, start - backLength, threshold, shape, k)
        == AbruptBack(runs, length, start, threshold, shape)
      decreases k - (start - backLength)
    {
      count := count + 1;
      var binHeight := runs[Wrap(k, |runs|)];
      if Abrupt(binHeight, threshold, shape) {
        if count < 35 || count > 500 {
          return 0;
        } else {
          return k;
        }
      }
      k := k - 1;
    }
    return 0;
  }

  /** `sum(mask[j] for j in range(start, k - 1, -1))`, the runs from `k` up to `start`. */
  function SumBack(runs: seq<int>, start: int, k: int): int
    requires 0 <= k + |runs| && start < |runs|
    decreases start - k
  {
    if k > start then 0 else runs[Wrap(k, |runs|)] + SumBack(runs, start, k + 1)
  }

  /**
   * `check_back_average` from `k` down to (excluding) `stop`: at the first
   * column where the running average reaches threshold * 1.6 the count must
   * be at least 25, otherwise 0; 0 when the average never reaches it.
   */
  function AverageBackFrom(runs: seq<int>, start: int, stop: int, threshold: int, k: int): (r: int)
    requires 0 <= stop + |runs| && k <= start < |runs|
    decreases k - stop
  {
    if k <= stop then 0
    else if 5 * SumBack(runs, start, k) >= 8 * threshold * (start - k + 1) then
      if start - k + 1 < 25 then 0 else k
    else AverageBackFrom(runs, start, stop, threshold, k - 1)
  }

  /** `round(length * 0.2)`, the look-back distance of the averaging variant. */
  function AverageBackLength(length: nat): (b: nat)
    ensures 2 * Abs(10 * b - 2 * length) <= 10
    ensures b <= length
  {
    var b := RoundHalfEven(2 * length, 10);
    assert b * 10 == 10 * b;
    b
  }

  /**
   * A non-zero result of the averaging look-back has counted at least 25
   * columns, and the average over the columns from it to the start reaches
   * threshold * 1.6.
   */
  lemma {:induction false} AverageBackFromReaches(runs: seq<int>, start: int, stop: int, threshold: int, k: int)
    requires 0 <= stop + |runs| && k <= start < |runs|
    ensures var r := AverageBackFrom(runs, start, stop, threshold, k);
      r != 0 ==> (stop < r <= k && start - r + 1 >= 25
        && 5 * SumBack(runs, start, r) >= 8 * threshold * (start - r + 1))
    decreases k - stop
  {
    if k > stop && 5 * SumBack(runs, start, k) < 8 * threshold * (start - k + 1) {
      AverageBackFromReaches(runs, start, stop, threshold, k - 1);
    }
  }

  /** The loop of `check_back_average`. */
  method CheckBackAverage(runs: seq<int>, length: nat, start: nat, threshold: int) returns (r: int)
    requires start < |runs| && length <= |runs|
    ensures r == AverageBackFrom(runs, start, start - AverageBackLength(length), threshold, start)
  {
    var backLength := AverageBackLength(length);
    var binSum := 0;
    var count := 0;
    var k := start;
    while k > start - backLength
      invariant start - backLength <= k <= start
      invariant count == start - k
      invariant binSum == SumBack(runs, start, k + 1)
      invariant AverageBackFrom(runs, start, start - backLength, threshold, k)
        == AverageBackFrom(runs, start, start - backLength, threshold, start)
      decreases k - (start - backLength)
    {
      count := count + 1;
      binSum := binSum + runs[Wrap(k, |runs|)];
      if 5 * binSum >= 8 * threshold * count {
        if count < 25 {
          return 0;
        } else {
          return k;
        }
      }
      k := k - 1;
    }
    return 0;
  }

  /** The 13-column look-ahead: every reversed column i..i+12 exists and has a white run. */
  predicate LookaheadOk(runs: seq<int>, i: nat)
  {
    i + 13 <= |runs| && forall k :: i <= k < i + 13 ==> runs[k] != 0
  }

  /** The shape and threshold `find_tip_pseudo_dynamic` derives from the mask. */
  function DetectorShape(g: Grid): (Shape, int)
    requires IsGrid(g) && Phenotype.MaxWidthUnstraightened(g) > 0
  {
    ShapeOf(Phenotype.Length(g), Phenotype.MaxWidthUnstraightened(g))
  }

  /**
   * The decision of `find_tip_pseudo_dynamic` on the longest runs of the
   * reversed columns: 0 when no reversed column has a thin run, when that
   * column is the rightmost, or when the look-ahead fails; in pure mode the
   * thin column; otherwise the column the look-back finds, or 0.
   */
  function DetectFromRuns(runs: seq<int>, length: nat, shape: Shape, threshold: int, pure: bool): (tip: int)
    requires length <= |runs|
    ensures 0 <= tip && (tip == 0 || tip < |runs|)
  {
    var i := ThinIndex(runs, threshold);
    if i == 0 || !LookaheadOk(runs, i) then 0
    else if pure then |runs| - i - 1
    else
      var back := AbruptBack(runs, length, i, threshold, shape);
      if back > 0 then |runs| - back - 1 else 0
  }

  /**
   * `find_tip_pseudo_dynamic`: an error when no column holds white (the
   * length/width ratio divides by zero), else the decision on the runs.
   */
  function PseudoDynamicTip(g: Grid, pure: bool): (r: Result<int>)
    requires IsGrid(g)
    ensures r.Err? <==> Phenotype.MaxWidthUnstraightened(g) == 0
    ensures r.Ok? ==> 0 <= r.value < Width(g)
  {
    if Phenotype.MaxWidthUnstraightened(g) == 0 then Err("ZeroDivisionError")
    else
      var (shape, threshold) := DetectorShape(g);
      Ok(DetectFromRuns(RevRuns(g), Phenotype.Length(g), shape, threshold, pure))
  }

  /** `find_tip_pseudo_dynamic` up to the ratio. */
  method FindTipPseudoDynamic(g: Grid, pure: bool) returns (r: Result<int>)
    requires IsGrid(g)
    ensures r == PseudoDynamicTip(g, pure)
  {
    var length := Phenotype.Length(g);
    var maxWidth := Phenotype.MaxWidthUnstraightened(g);
    if maxWidth == 0 {
      return Err("ZeroDivisionError");
    }
    var (shape, threshold) := ShapeOf(length, maxWidth);
    var tip := DetectTip(RevRuns(g), length, shape, threshold, pure);
    return Ok(tip);
  }

  /** The scan, the look-ahead and the look-back of `find_tip_pseudo_dynamic`. */
  method DetectTip(runs: seq<int>, length: nat, shape: Shape, threshold: int, pure: bool) returns (tip: int)
    requires length <= |runs|
    ensures tip == DetectFromRuns(runs, length, shape, threshold, pure)
  {
    var index := ScanThin(runs, threshold);
    if index != 0 {
      var ahead := LookAhead(runs, index);
      if !ahead {
        return 0;
      }
      if !pure {
        var back := CheckBackAbruptChange(runs, length, index, threshold, shape);
        if back > 0 {
          index := back;
        } else {
          return 0;
        }
      }
      return |runs| - index - 1;
    }
    return index;
  }

  /** The look-ahead loop: false as soon as a column has no white run or lies past the end. */
  method LookAhead(runs: seq<int>, i: nat) returns (ok: bool)
    ensures ok == LookaheadOk(runs, i)
  {
    var j := 0;
    while j < 13
      invariant 0 <= j <= 13
      invariant i + j <= |runs| || j == 0
      invariant forall k :: i <= k < i + j ==> k < |runs| && runs[k] != 0
    {
      if i + j >= |runs| || runs[i + j] == 0 {
        var k := i + j;
        if k < |runs| {
          assert runs[k] == 0;
        }
        return false;
      }
      j := j + 1;
    }
    assert j == 13;
    return true;
  }

  /** The detector fails on a mask without a white pixel. */
  lemma PseudoDynamicAllBlack(g: Grid, pure: bool)
    requires IsGrid(g) && forall i, j :: 0 <= i < |g| && 0 <= j < Width(g) ==> g[i][j] != 255
    ensures PseudoDynamicTip(g, pure).Err?
  {
    var m := Phenotype.MaxWidthUnstraightened(g);
    Phenotype.MaxWidthUnstraightenedIsMax(g);
    var j :| 0 <= j < Width(g) && CountWhite(Col(g, j)) == m;
    CountWhitePositive(Col(g, j));
  }

  /**
   * A non-zero decision comes from a reversed index i > 0 whose longest run
   * is thin, with no thin run at a smaller reversed index, and with reversed
   * columns i..i+12 all present and holding white; in pure mode it is column
   * W - 1 - i, otherwise the look-back column, which the count from i places
   * 35 to 500 columns back.
   */
  lemma DetectFromRunsColumn(runs: seq<int>, length: nat, shape: Shape, threshold: int, pure: bool)
    requires length <= |runs| && DetectFromRuns(runs, length, shape, threshold, pure) != 0
    ensures var i := ThinIndex(runs, threshold);
      0 < i && Thin(runs[i], threshold) && (forall k :: 0 <= k < i ==> !Thin(runs[k], threshold))
      && LookaheadOk(runs, i)
    ensures var i, c := ThinIndex(runs, threshold), DetectFromRuns(runs, length, shape, threshold, pure);
      (pure ==> c == |runs| - 1 - i) && (!pure ==> 35 <= i - (|runs| - 1 - c) + 1 <= 500)
  {
    FirstThinIsFirst(runs, threshold, 0);
  }

  // ------------------------------------------------------------ width profiles

  /** `get_width_array`: half the white count of every column. */
  function WidthProfile(g: Grid): (ws: seq<real>)
    requires IsGrid(g)
    ensures |ws| == Width(g)
  {
    seq(Width(g), j requires 0 <= j < Width(g) => CountWhite(Col(g, j)) as real / 2.0)
  }

  /** The profile is non-negative, at most half the height, and positive exactly on columns holding white. */
  lemma WidthProfileBounds(g: Grid)
    requires IsGrid(g)
    ensures forall j :: 0 <= j < Width(g) ==>
      0.0 <= WidthProfile(g)[j] <= |g| as real / 2.0 && (WidthProfile(g)[j] > 0.0 <==> 255 in Col(g, j))
  {
    forall j | 0 <= j < Width(g)
      ensures 0.0 <= WidthProfile(g)[j] <= |g| as real / 2.0 && (WidthProfile(g)[j] > 0.0 <==> 255 in Col(g, j))
    {
      CountWhitePositive(Col(g, j));
    }
  }

  /** The loop of `get_width_array`, appending one width per column. */
  method GetWidthArray(g: Grid) returns (ws: seq<real>)
    requires IsGrid(g)
    ensures ws == WidthProfile(g)
  {
    ws := [];
    var j := 0;
    while j < Width(g)
      invariant 0 <= j <= Width(g)
      invariant ws == WidthProfile(g)[..j]
    {
      var count := CountWhite(Col(g, j));
      if count > 0 {
        ws := ws + [count as real / 2.0];
      } else {
        ws := ws + [0.0];
      }
      j := j + 1;
    }
  }

  /** `[w * mm_per_px for w in width_array]` */
  function ScaleProfile(ws: seq<real>, mmPerPx: real): (r: seq<real>)
    ensures |r| == |ws| && forall i :: 0 <= i < |ws| ==> r[i] == ws[i] * mmPerPx
  {
    seq(|ws|, i requires 0 <= i < |ws| => ws[i] * mmPerPx)
  }

  /** `get_width_array_mm`: the same loop, scaled to millimetres. */
  method GetWidthArrayMm(g: Grid, mmPerPx: real) returns (ws: seq<real>)
    requires IsGrid(g)
    ensures ws == ScaleProfile(WidthProfile(g), mmPerPx)
  {
    var px := GetWidthArray(g);
    ws := ScaleProfile(px, mmPerPx);
  }

  /** `max(ws)` */
  function MaxReal(ws: seq<real>): (m: real)
    requires |ws| > 0
    ensures forall i :: 0 <= i < |ws| ==> ws[i] <= m
    ensures exists i :: 0 <= i < |ws| && ws[i] == m
  {
    if |ws| == 1 then ws[0]
    else
      var m := MaxReal(ws[..|ws| - 1]);
      if ws[|ws| - 1] > m then ws[|ws| - 1] else m
  }

  /** `normalize_width_array`: every width over the largest; `max` of nothing and division by 0 raise. */
  function NormalizeWidthArray(ws: seq<real>): (r: Result<seq<real>>)
    ensures r.Err? <==> |ws| == 0 || MaxReal(ws) == 0.0
    ensures r.Ok? ==> |r.value| == |ws|
  {
    if |ws| == 0 then Err("ValueError")
    else
      var m := MaxReal(ws);
      if m == 0.0 then Err("ZeroDivisionError")
      else Ok(seq(|ws|, i requires 0 <= i < |ws| => ws[i] / m))
  }

  predicate NonNegative(ws: seq<real>)
  {
    forall i :: 0 <= i < |ws| ==> ws[i] >= 0.0
  }

  /** A non-negative profile with a positive maximum normalises into [0, 1] with maximum 1. */
  lemma NormalizeUnitRange(ws: seq<real>)
    requires NonNegative(ws) && |ws| > 0 && MaxReal(ws) > 0.0
    ensures NormalizeWidthArray(ws).Ok?
    ensures var n := NormalizeWidthArray(ws).value;
      (forall i :: 0 <= i < |n| ==> 0.0 <= n[i] <= 1.0) && MaxReal(n) == 1.0
  {
    var m := MaxReal(ws);
    var n := NormalizeWidthArray(ws).value;
    forall i | 0 <= i < |n| ensures 0.0 <= n[i] <= 1.0 {
      DivideBelow(ws[i], m);
    }
    var k :| 0 <= k < |ws| && ws[k] == m;
    assert n[k] == m / m;
    DivSelf(m);
    MaxRealOfUnit(n, k);
  }

  lemma DivideBelow(x: real, m: real)
    requires 0.0 <= x <= m && m > 0.0
    ensures 0.0 <= x / m <= 1.0
  {
    assert x / m * m == x;
  }

  lemma DivSelf(m: real)
    requires m != 0.0
    ensures m / m == 1.0
  {
  }

  lemma MaxRealOfUnit(n: seq<real>, k: nat)
    requires k < |n| && n[k] == 1.0 && forall i :: 0 <= i < |n| ==> n[i] <= 1.0
    ensures MaxReal(n) == 1.0
  {
  }

  /** Normalising a normalised non-negative profile changes nothing. */
  lemma NormalizeIdempotent(ws: seq<real>)
    requires NonNegative(ws) && |ws| > 0 && MaxReal(ws) > 0.0
    ensures NormalizeWidthArray(NormalizeWidthArray(ws).value) == NormalizeWidthArray(ws)
  {
    NormalizeUnitRange(ws);
    var n := NormalizeWidthArray(ws).value;
    assert NormalizeWidthArray(n).value == n;
  }

  /**
   * The features of `tip_mask_ml`: the millimetre profile reversed (thick
   * end first), normalised, and padded with zeros up to 5000 entries; a
   * longer profile is kept whole.
   */
  function TipMaskFeatures(g: Grid, mmPerPx: real): (r: Result<seq<real>>)
    requires IsGrid(g)
    ensures r.Ok? <==> NormalizeWidthArray(Reverse(ScaleProfile(WidthProfile(g), mmPerPx))).Ok?
    ensures r.Ok? ==>
      var n := NormalizeWidthArray(Reverse(ScaleProfile(WidthProfile(g), mmPerPx))).value;
      |r.value| == Max(PseudoMaxLength, Width(g)) && r.value[..Width(g)] == n
      && forall i :: Width(g) <= i < |r.value| ==> r.value[i] == 0.0
  {
    match NormalizeWidthArray(Reverse(ScaleProfile(WidthProfile(g), mmPerPx)))
    case Err(e) => Err(e)
    case Ok(n) =>
      var missing := PseudoMaxLength - |n|;
      Ok(n + seq(if missing > 0 then missing else 0, _ => 0.0))
  }

  // ------------------------------------------------------------ mark_start_of_tail

  /** A BGR pixel of the colour copy of a mask. */
  datatype Bgr = Bgr(b: int, g: int, r: int)

  /**
   * `mark_start_of_tail`: paints column `index` when it is positive; an
   * index past the last column raises before anything is painted.
   */
  method MarkStartOfTail(mask: array2<Bgr>, index: Option<int>, color: Bgr) returns (r: Result<()>)
    modifies mask
    ensures r.Err? <==> index.Some? && index.value > 0 && index.value >= mask.Length1
    ensures forall y, x :: 0 <= y < mask.Length0 && 0 <= x < mask.Length1 ==>
      mask[y, x] == if r.Ok? && index.Some? && index.value > 0 && x == index.value then color else old(mask[y, x])
  {
    if index.Some? && index.value > 0 {
      var x := index.value;
      if x >= mask.Length1 {
        return Err("IndexError");
      }
      var y := 0;
      while y < mask.Length0
        invariant 0 <= y <= mask.Length0
        invariant forall yy, xx :: 0 <= yy < mask.Length0 && 0 <= xx < mask.Length1 ==>
          mask[yy, xx] == if xx == x && yy < y then color else old(mask[yy, xx])
      {
        mask[y, x] := color;
        y := y + 1;
      }
    }
    return Ok(());
  }
}
