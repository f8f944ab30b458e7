/**
 * Single-channel masks as the Python scripts hold them: rows of pixel
 * values (`mask[y][x]`), white being 255.  `Col(g, j)` is `mask.T[j]`.
 */
module Pixels {

  type Grid = seq<seq<int>>

  /** An image position, `x` the column and `y` the row. */
  datatype Point = Point(x: int, y: int)

  /** A non-empty rectangular mask (OpenCV never yields an image without pixels). */
  predicate IsGrid(g: Grid)
  {
    |g| > 0 && |g[0]| > 0 && forall i :: 0 <= i < |g| ==> |g[i]| == |g[0]|
  }

  function Width(g: Grid): nat
    requires |g| > 0
  {
    |g[0]|
  }

  predicate IsBinarySeq(s: seq<int>) { forall i :: 0 <= i < |s| ==> s[i] == 0 || s[i] == 255 }

  predicate IsBinary(g: Grid) { forall i :: 0 <= i < |g| ==> IsBinarySeq(g[i]) }

  /** Column `j` of the mask, i.e. `mask.T[j]`. */
  function Col(g: Grid, j: int): (c: seq<int>)
    requires IsGrid(g) && 0 <= j < Width(g)
    ensures |c| == |g| && forall i :: 0 <= i < |g| ==> c[i] == g[i][j]
  {
    seq(|g|, i requires 0 <= i < |g| => g[i][j])
  }

  lemma ColBinary(g: Grid, j: int)
    requires IsGrid(g) && IsBinary(g) && 0 <= j < Width(g)
    ensures IsBinarySeq(Col(g, j))
  {
  }

  function Reverse<T>(s: seq<T>): (r: seq<T>)
    ensures |r| == |s| && forall i :: 0 <= i < |s| ==> r[i] == s[|s| - 1 - i]
  {
    seq(|s|, i requires 0 <= i < |s| => s[|s| - 1 - i])
  }

  /** `np.argmax(s)`: scans left to right keeping the first maximum. */
  function ArgMax(s: seq<int>): (k: nat)
    requires |s| > 0
    ensures k < |s|
  {
    if |s| == 1 then 0
    else
      var k := ArgMax(s[..|s| - 1]);
      if s[|s| - 1] > s[k] then |s| - 1 else k
  }

  /** `np.argmax` finds the first position holding the maximum. */
  lemma {:induction false} ArgMaxIsFirstMax(s: seq<int>)
    requires |s| > 0
    ensures forall i :: 0 <= i < |s| ==> s[i] <= s[ArgMax(s)]
    ensures forall i :: 0 <= i < ArgMax(s) ==> s[i] < s[ArgMax(s)]
  {
    if |s| > 1 {
      ArgMaxIsFirstMax(s[..|s| - 1]);
    }
  }

  /** The first maximum is the only position that is a maximum with nothing as large before it. */
  lemma ArgMaxUnique(s: seq<int>, k: nat)
    requires k < |s|
    requires forall i :: 0 <= i < |s| ==> s[i] <= s[k]
    requires forall i :: 0 <= i < k ==> s[i] < s[k]
    ensures ArgMax(s) == k
  {
    ArgMaxIsFirstMax(s);
    var a := ArgMax(s);
    assert s[a] <= s[k] && s[k] <= s[a];
  }

  /** `np.argmin(s)`: the first position holding the minimum. */
  function ArgMin(s: seq<int>): (k: nat)
    requires |s| > 0
    ensures k < |s|
  {
    ArgMax(seq(|s|, i requires 0 <= i < |s| => -s[i]))
  }

  lemma ArgMinIsFirstMin(s: seq<int>)
    requires |s| > 0
    ensures forall i :: 0 <= i < |s| ==> s[ArgMin(s)] <= s[i]
    ensures forall i :: 0 <= i < ArgMin(s) ==> s[ArgMin(s)] < s[i]
  {
    var n := seq(|s|, i requires 0 <= i < |s| => -s[i]);
    assert ArgMin(s) == ArgMax(n);
    ArgMaxIsFirstMax(n);
    assert forall i :: 0 <= i < |s| ==> n[i] == -s[i];
  }

  /** `len(s) - 1 - np.argmax(s[::-1])`. */
  function LastArgMax(s: seq<int>): (k: nat)
    requires |s| > 0
    ensures k < |s|
  {
    |s| - 1 - ArgMax(Reverse(s))
  }

  /** The position found from the end is the last one holding the maximum. */
  lemma LastArgMaxIsLastMax(s: seq<int>)
    requires |s| > 0
    ensures forall i :: 0 <= i < |s| ==> s[i] <= s[LastArgMax(s)]
    ensures forall i :: LastArgMax(s) < i < |s| ==> s[i] < s[LastArgMax(s)]
  {
    var r := Reverse(s);
    ArgMaxIsFirstMax(r);
    assert forall i :: 0 <= i < |s| ==> s[i] == r[|s| - 1 - i];
  }

  /** Number of pixels equal to 255 (`count_white_pixels`). */
  function CountWhite(s: seq<int>): (n: nat)
    ensures n <= |s|
  {
    if |s| == 0 then 0 else CountWhite(s[..|s| - 1]) + (if s[|s| - 1] == 255 then 1 else 0)
  }

  /** Number of non-zero pixels (`cv2.countNonZero`). */
  function CountNonZero(s: seq<int>): (n: nat)
    ensures n <= |s|
  {
    if |s| == 0 then 0 else CountNonZero(s[..|s| - 1]) + (if s[|s| - 1] != 0 then 1 else 0)
  }

  /** Non-zero pixels of every row of a mask. */
  function GridNonZero(g: Grid): nat
  {
    if |g| == 0 then 0 else GridNonZero(g[..|g| - 1]) + CountNonZero(g[|g| - 1])
  }

  /** A sequence holds a white pixel exactly when its white count is positive. */
  lemma {:induction false} CountWhitePositive(s: seq<int>)
    ensures CountWhite(s) > 0 <==> 255 in s
  {
    if |s| > 0 {
      CountWhitePositive(s[..|s| - 1]);
      assert s == s[..|s| - 1] + [s[|s| - 1]];
    }
  }

  /**
   * On a 0/255 sequence `np.argmax(s) > 0` holds exactly when the first pixel
   * is black and some pixel is white; the position found is then the first white one.
   */
  lemma BinaryArgMax(s: seq<int>)
    requires |s| > 0 && IsBinarySeq(s)
    ensures ArgMax(s) > 0 <==> s[0] == 0 && 255 in s
    ensures 255 in s ==> s[ArgMax(s)] == 255 && forall i :: 0 <= i < ArgMax(s) ==> s[i] == 0
    ensures 255 !in s ==> ArgMax(s) == 0
  {
    var k := ArgMax(s);
    ArgMaxIsFirstMax(s);
    if 255 in s {
      var w :| 0 <= w < |s| && s[w] == 255;
      assert s[w] <= s[k];
    }
  }

  /** On a 0/255 sequence with a white pixel, `LastArgMax` is the last white position. */
  lemma BinaryLastArgMax(s: seq<int>)
    requires |s| > 0 && IsBinarySeq(s) && 255 in s
    ensures s[LastArgMax(s)] == 255 && forall i :: LastArgMax(s) < i < |s| ==> s[i] == 0
  {
    var k := LastArgMax(s);
    LastArgMaxIsLastMax(s);
    var w :| 0 <= w < |s| && s[w] == 255;
    assert s[w] <= s[k];
  }
  /** Number of zero pixels. */
  function CountZero(s: seq<int>): (n: nat)
  {
    if |s| == 0 then 0 else CountZero(s[..|s| - 1]) + (if s[|s| - 1] == 0 then 1 else 0)
  }

  /** Zero pixels of every row of a mask. */
  function GridZero(g: Grid): nat
  {
    if |g| == 0 then 0 else GridZero(g[..|g| - 1]) + CountZero(g[|g| - 1])
  }

  /** Every pixel is either zero or non-zero. */
  lemma {:induction false} CountZeroComplement(s: seq<int>)
    ensures CountNonZero(s) + CountZero(s) == |s|
  {
    if |s| > 0 {
      CountZeroComplement(s[..|s| - 1]);
    }
  }

  /** In rows of width `w` the non-zero and the zero pixels together fill the area. */
  lemma {:induction false} GridZeroComplement(g: Grid, w: nat)
    requires forall i :: 0 <= i < |g| ==> |g[i]| == w
    ensures GridNonZero(g) + GridZero(g) == |g| * w
  {
    if |g| > 0 {
      GridZeroComplement(g[..|g| - 1], w);
      CountZeroComplement(g[|g| - 1]);
    }
  }

  /** `mask[r0:r1, c0:c1]` for bounds already clamped to the mask. */
  function Window(g: Grid, r0: nat, r1: nat, c0: nat, c1: nat): (w: Grid)
    requires IsGrid(g) && r0 <= r1 <= |g| && c0 <= c1 <= Width(g)
    ensures |w| == r1 - r0 && forall i :: 0 <= i < |w| ==> |w[i]| == c1 - c0
    ensures forall i, j :: 0 <= i < |w| && 0 <= j < c1 - c0 ==> w[i][j] == g[r0 + i][c0 + j]
  {
    seq(r1 - r0, i requires 0 <= i < r1 - r0 => g[r0 + i][c0..c1])
  }
}
