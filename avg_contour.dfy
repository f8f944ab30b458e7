/**
 * The average-contour step: the common canvas all straightened masks are padded to,
 * the padding of one mask onto that canvas, and the name of the averaged mask file.
 */
module AvgContour {
  import opened Wrappers
  import opened Numeric
  import opened Text
  import opened Utils

  // ---------------------------------------------------------------- canvas size

  /** The shape of a single-channel mask: `shape[0]` rows and `shape[1]` columns. */
  datatype Shape = Shape(rows: nat, cols: nat)

  /** The largest of a non-empty list of sizes. */
  function MaxOf(s: seq<nat>): (m: nat)
    requires |s| > 0
    ensures m in s
    ensures forall i :: 0 <= i < |s| ==> s[i] <= m
  {
    if |s| == 1 then s[0]
    else
      var rest := MaxOf(s[1..]);
      assert forall i :: 1 <= i < |s| ==> s[i] == s[1..][i - 1];
      if s[0] >= rest then s[0] else rest
  }

  /** An odd size is bumped to the next even one. */
  function EvenUp(n: nat): nat { if n % 2 > 0 then n + 1 else n }

  function Cols(masks: seq<Shape>): (r: seq<nat>)
    ensures |r| == |masks| && forall i :: 0 <= i < |masks| ==> r[i] == masks[i].cols
  {
    seq(|masks|, i requires 0 <= i < |masks| => masks[i].cols)
  }

  function Rows(masks: seq<Shape>): (r: seq<nat>)
    ensures |r| == |masks| && forall i :: 0 <= i < |masks| ==> r[i] == masks[i].rows
  {
    seq(|masks|, i requires 0 <= i < |masks| => masks[i].rows)
  }

  /** `n` is the least even number no smaller than every size in `s`. */
  predicate LeastEvenBound(n: nat, s: seq<nat>)
  {
    n % 2 == 0
    && (forall i :: 0 <= i < |s| ==> s[i] <= n)
    && (forall m: nat :: m % 2 == 0 && (forall i :: 0 <= i < |s| ==> s[i] <= m) ==> n <= m)
  }

  /** `max` over an empty list raises ValueError, which is `Err`. */
  function EvenMax(s: seq<nat>): (r: Result<nat>)
  {
    if |s| == 0 then Err("ValueError") else Ok(EvenUp(MaxOf(s)))
  }

  lemma {:induction false} EvenMaxIsLeastEvenBound(s: seq<nat>)
    ensures EvenMax(s).Err? <==> |s| == 0
    ensures EvenMax(s).Ok? ==> LeastEvenBound(EvenMax(s).value, s)
  {
    if |s| > 0 {
      var mx := MaxOf(s);
      var n := EvenUp(mx);
      forall m: nat | m % 2 == 0 && (forall i :: 0 <= i < |s| ==> s[i] <= m)
        ensures n <= m
      {
        var k :| 0 <= k < |s| && s[k] == mx;
        assert mx <= m;
        if mx % 2 > 0 {
          assert mx != m;
        }
      }
    }
  }

  /** Canvas width: the widest mask, rounded up to even. */
  function GetMaxX(masks: seq<Shape>): (r: Result<nat>)
    ensures r.Err? <==> |masks| == 0
    ensures r.Ok? ==> LeastEvenBound(r.value, Cols(masks))
  {
    EvenMaxIsLeastEvenBound(Cols(masks));
    EvenMax(Cols(masks))
  }

  /** Canvas height: the tallest mask, rounded up to even. */
  function GetMaxY(masks: seq<Shape>): (r: Result<nat>)
    ensures r.Err? <==> |masks| == 0
    ensures r.Ok? ==> LeastEvenBound(r.value, Rows(masks))
  {
    EvenMaxIsLeastEvenBound(Rows(masks));
    EvenMax(Rows(masks))
  }

  // ---------------------------------------------------------------- padding

  /** Border widths handed to `copyMakeBorder`, in its argument order. */
  datatype Padding = Padding(top: int, bottom: int, left: int, right: int)

  /**
   * The border that brings one mask up to the canvas: all horizontal slack goes to the
   * left, the vertical slack is split with the odd row rounded half-to-even onto the top.
   * A dimension already larger than the canvas gets no border on that axis.
   */
  function PadAmounts(mask: Shape, maxX: int, maxY: int): Padding
  {
    var left := if mask.cols <= maxX then maxX - mask.cols else 0;
    var vertical :=
      if mask.rows <= maxY then
        var yPadding := maxY - mask.rows;
        if yPadding % 2 == 0 then (yPadding / 2, yPadding / 2)
        else
          var top := RoundHalfEven(yPadding, 2);
          (top, yPadding - top)
      else (0, 0);
    Padding(vertical.0, vertical.1, left, 0)
  }

  function Padded(mask: Shape, p: Padding): Shape
    requires mask.rows + p.top + p.bottom >= 0 && mask.cols + p.left + p.right >= 0
  {
    Shape(mask.rows + p.top + p.bottom, mask.cols + p.left + p.right)
  }

  /**
   * The borders are never negative, the right one is always empty, the top is
   * `round(slack / 2)` and differs from the bottom by at most one row, and a mask that
   * fits the canvas is padded to exactly the canvas size.
   */
  lemma {:induction false} PadAmountsFill(mask: Shape, maxX: int, maxY: int)
    ensures var p := PadAmounts(mask, maxX, maxY);
      p.top >= 0 && p.bottom >= 0 && p.left >= 0 && p.right == 0
      && -1 <= p.top - p.bottom <= 1
    ensures var p := PadAmounts(mask, maxX, maxY);
      mask.rows <= maxY ==> p.top + p.bottom == maxY - mask.rows && p.top == RoundHalfEven(maxY - mask.rows, 2)
    ensures var p := PadAmounts(mask, maxX, maxY);
      mask.cols <= maxX ==> p.left == maxX - mask.cols
    ensures var p := PadAmounts(mask, maxX, maxY);
      mask.rows > maxY ==> p.top == 0 && p.bottom == 0
    ensures var p := PadAmounts(mask, maxX, maxY);
      mask.cols > maxX ==> p.left == 0
  {
    if mask.rows <= maxY {
      var y := maxY - mask.rows;
      var p := PadAmounts(mask, maxX, maxY);
      if y % 2 == 0 {
        assert p.top * 2 == y;
        RoundHalfEvenUnique(y, 2, y / 2);
      } else {
        var t := RoundHalfEven(y, 2);
        assert 2 * Abs(t * 2 - y) <= 2;
        assert t * 2 - y == 1 || t * 2 - y == -1;
      }
    }
  }

  /** Every mask in the batch is padded to exactly the canvas `GetMaxX` x `GetMaxY`. */
  lemma {:induction false} PaddedToCanvas(masks: seq<Shape>, i: nat)
    requires i < |masks|
    ensures GetMaxX(masks).Ok? && GetMaxY(masks).Ok?
    ensures var w, h := GetMaxX(masks).value, GetMaxY(masks).value;
      var p := PadAmounts(masks[i], w, h);
      Padded(masks[i], p) == Shape(h, w)
  {
    var w, h := GetMaxX(masks).value, GetMaxY(masks).value;
    assert Cols(masks)[i] <= w && Rows(masks)[i] <= h;
    PadAmountsFill(masks[i], w, h);
  }

  // ---------------------------------------------------------------- file name

  /** What one mask name contributes: its genotype and, when it records a non-empty one, its scale. */
  datatype Reading = Reading(genotype: string, scale: Option<int>)

  /**
   * The attributes of one mask name as the loop reads them: the name's own attribute
   * error, then KeyError when it has no `Genotype`, then ValueError when a non-empty
   * `Scale` is not an integer; an absent or empty `Scale` is not counted.
   */
  function ReadMask(mask: string): Result<Reading>
  {
    match GetAttributes(mask)
    case Err(e) => Err(e)
    case Ok(attrs) =>
      if "Genotype" !in attrs then Err("KeyError")
      else if "Scale" in attrs && attrs["Scale"] != "" then
        match ParsePyInt(attrs["Scale"])
        case None => Err("ValueError")
        case Some(v) => Ok(Reading(attrs["Genotype"], Some(v)))
      else Ok(Reading(attrs["Genotype"], None))
  }

  function Readings(masks: seq<string>): (rs: seq<Result<Reading>>)
    ensures |rs| == |masks| && forall i :: 0 <= i < |masks| ==> rs[i] == ReadMask(masks[i])
  {
    seq(|masks|, i requires 0 <= i < |masks| => ReadMask(masks[i]))
  }

  /** What the loop over the mask names has gathered so far. */
  datatype Tally = Tally(scaleSum: int, maskCount: nat, genotypes: seq<string>)

  function AddReading(t: Tally, rd: Reading): Tally
  {
    match rd.scale
    case None => Tally(t.scaleSum, t.maskCount, t.genotypes + [rd.genotype])
    case Some(v) => Tally(t.scaleSum + v, t.maskCount + 1, t.genotypes + [rd.genotype])
  }

  /** The tally after the whole list of readings, or the first error met. */
  function TallyOf(rs: seq<Result<Reading>>): Result<Tally>
  {
    if |rs| == 0 then Ok(Tally(0, 0, []))
    else
      match TallyOf(rs[..|rs| - 1])
      case Err(e) => Err(e)
      case Ok(t) =>
        match rs[|rs| - 1]
        case Err(e) => Err(e)
        case Ok(rd) => Ok(AddReading(t, rd))
  }

  /** `len(set(genotypes)) == 1`: there is at least one genotype and all are the same. */
  predicate OneGenotype(genotypes: seq<string>)
  {
    |genotypes| > 0 && forall i :: 0 <= i < |genotypes| ==> genotypes[i] == genotypes[0]
  }

  /** The Scale token of the averaged name. */
  function AvgScaleToken(t: Tally): string
    requires t.maskCount > 0
  {
    "Scale_" + IntToString(JavaDiv(t.scaleSum, t.maskCount))
  }

  /** The name built from a finished tally: ZeroDivisionError when no scale was counted. */
  function NameOf(tally: Result<Tally>): Result<string>
  {
    match tally
    case Err(e) => Err(e)
    case Ok(t) =>
      if t.maskCount == 0 then Err("ZeroDivisionError")
      else
        var genotype := if OneGenotype(t.genotypes) then ["Genotype_" + t.genotypes[0]] else [];
        Ok(Braced([AvgScaleToken(t)] + genotype) + FileFormat)
  }

  /** The name of the averaged mask of a group, or the error that stops the run. */
  function AvgFilename(masks: seq<string>): Result<string>
  {
    NameOf(TallyOf(Readings(masks)))
  }

  /** Once some prefix of the readings fails, the whole list fails with the same error. */
  lemma {:induction false} TallyErrSticks(rs: seq<Result<Reading>>, i: nat)
    requires i <= |rs| && TallyOf(rs[..i]).Err?
    ensures TallyOf(rs) == TallyOf(rs[..i])
    decreases |rs| - i
  {
    if i < |rs| {
      assert rs[..i + 1][..i] == rs[..i];
      TallyErrSticks(rs, i + 1);
    } else {
      assert rs[..i] == rs;
    }
  }

  /** One more reading extends a successful tally, or ends it with that reading's error. */
  lemma TallyExtend(rs: seq<Result<Reading>>, i: nat, t: Tally)
    requires i < |rs| && TallyOf(rs[..i]) == Ok(t)
    ensures rs[i].Ok? ==> TallyOf(rs[..i + 1]) == Ok(AddReading(t, rs[i].value))
    ensures rs[i].Err? ==> TallyOf(rs) == Err(rs[i].error)
  {
    assert rs[..i + 1][..i] == rs[..i];
    if rs[i].Err? {
      TallyErrSticks(rs, i + 1);
    }
  }

  /** The loop of `generate_avg_filename`, one mask at a time. */
  method GenerateAvgFilename(masks: seq<string>) returns (r: Result<string>)
    ensures r == AvgFilename(masks)
  {
    ghost var rs := Readings(masks);
    var scaleSum := 0;
    var maskCount := 0;
    var genotypes := [];
    var i := 0;
    while i < |masks|
      invariant 0 <= i <= |masks|
      invariant TallyOf(rs[..i]) == Ok(Tally(scaleSum, maskCount, genotypes))
    {
      var reading := ReadMask(masks[i]);
      assert reading == rs[i];
      ghost var before := Tally(scaleSum, maskCount, genotypes);
      TallyExtend(rs, i, before);
      if reading.Err? {
        assert NameOf(TallyOf(rs)) == Err(reading.error);
        return Err(reading.error);
      }
      genotypes := genotypes + [reading.value.genotype];
      if reading.value.scale.Some? {
        scaleSum := scaleSum + reading.value.scale.value;
        maskCount := maskCount + 1;
      }
      assert Tally(scaleSum, maskCount, genotypes) == AddReading(before, reading.value);
      i := i + 1;
    }
    assert rs[..i] == rs;
    r := NameOf(Ok(Tally(scaleSum, maskCount, genotypes)));
  }

  // ---------------------------------------------------------------- what the name records

  /** The tally succeeds exactly when every mask reads, and then has one genotype per mask, in order. */
  lemma {:induction false} TallyGenotypes(rs: seq<Result<Reading>>)
    ensures TallyOf(rs).Ok? <==> forall i :: 0 <= i < |rs| ==> rs[i].Ok?
    ensures TallyOf(rs).Ok? ==>
      |TallyOf(rs).value.genotypes| == |rs|
      && forall i :: 0 <= i < |rs| ==> rs[i].value.genotype == TallyOf(rs).value.genotypes[i]
  {
    if |rs| > 0 {
      var init := rs[..|rs| - 1];
      assert forall i :: 0 <= i < |init| ==> init[i] == rs[i];
      TallyGenotypes(init);
    }
  }

  /** Every counted scale lies in `[lo, hi]`. */
  predicate ScalesWithin(rs: seq<Result<Reading>>, lo: int, hi: int)
  {
    forall i :: 0 <= i < |rs| && rs[i].Ok? && rs[i].value.scale.Some? ==> lo <= rs[i].value.scale.value <= hi
  }

  lemma AddOne(k: int, x: int)
    ensures (k + 1) * x == k * x + x
  {
  }

  /** The sum lies between `count * lo` and `count * hi` when every counted scale lies in `[lo, hi]`. */
  lemma {:induction false} TallySumBounds(rs: seq<Result<Reading>>, lo: int, hi: int)
    requires TallyOf(rs).Ok? && ScalesWithin(rs, lo, hi)
    ensures var t := TallyOf(rs).value;
      t.maskCount * lo <= t.scaleSum <= t.maskCount * hi
  {
    if |rs| > 0 {
      var init := rs[..|rs| - 1];
      assert forall i :: 0 <= i < |init| ==> init[i] == rs[i];
      TallySumBounds(init, lo, hi);
      var t := TallyOf(init).value;
      var t' := TallyOf(rs).value;
      var rd := rs[|rs| - 1].value;
      if rd.scale.Some? {
        AddOne(t.maskCount, lo);
        AddOne(t.maskCount, hi);
      }
    }
  }

  /**
   * The recorded scale is the truncated mean of the counted scales, so it lies between
   * the smallest and the largest of them.
   */
  lemma AvgScaleBetween(masks: seq<string>, lo: int, hi: int)
    requires AvgFilename(masks).Ok? && ScalesWithin(Readings(masks), lo, hi)
    ensures var t := TallyOf(Readings(masks)).value;
      t.maskCount > 0 && lo <= JavaDiv(t.scaleSum, t.maskCount) <= hi
  {
    var rs := Readings(masks);
    TallySumBounds(rs, lo, hi);
    var t := TallyOf(rs).value;
    TruncatedMeanBetween(t.scaleSum, t.maskCount, lo, hi);
  }

  /** All readings succeeded and carry the same genotype. */
  predicate SameGenotype(rs: seq<Result<Reading>>)
  {
    forall i :: 0 <= i < |rs| ==> rs[i].Ok? && rs[0].Ok? && rs[i].value.genotype == rs[0].value.genotype
  }

  /** Two tokens and a suffix, written out. */
  lemma BracedPair(x: string, y: string, tail: string)
    ensures Braced([x, y]) + tail == "{" + x + "}{" + y + "}" + tail
    ensures Braced([x]) + tail == "{" + x + "}" + tail
  {
    assert [x, y][1..] == [y];
    assert [y][1..] == [];
    assert Braced([y]) == "{" + y + "}";
    assert Braced([x, y]) == "{" + x + "}" + "{" + y + "}";
  }

  /** The name of a tally whose genotypes are all one carries that genotype. */
  lemma NameOfOneGenotype(t: Tally)
    requires t.maskCount > 0 && OneGenotype(t.genotypes)
    ensures NameOf(Ok(t)) == Ok("{" + AvgScaleToken(t) + "}{Genotype_" + t.genotypes[0] + "}.png")
  {
    var scale, genotype := AvgScaleToken(t), "Genotype_" + t.genotypes[0];
    assert NameOf(Ok(t)) == Ok(Braced([scale, genotype]) + FileFormat) by {
      assert [scale] + [genotype] == [scale, genotype];
    }
    BracedPair(scale, genotype, FileFormat);
    GenotypeNameText(scale, t.genotypes[0]);
  }

  lemma GenotypeNameText(scale: string, g: string)
    ensures "{" + scale + "}{" + ("Genotype_" + g) + "}" + FileFormat == "{" + scale + "}{Genotype_" + g + "}.png"
  {
    assert FileFormat == ".png";
    assert "}{" + ("Genotype_" + g) == "}{Genotype_" + g;
  }

  /** The name of a tally with mixed genotypes carries only the scale. */
  lemma NameOfMixedGenotypes(t: Tally)
    requires t.maskCount > 0 && !OneGenotype(t.genotypes)
    ensures NameOf(Ok(t)) == Ok("{" + AvgScaleToken(t) + "}.png")
  {
    var scale := AvgScaleToken(t);
    assert NameOf(Ok(t)) == Ok(Braced([scale]) + FileFormat) by {
      assert [scale] + [] == [scale];
    }
    BracedPair(scale, "", FileFormat);
    assert "{" + scale + "}" + FileFormat == "{" + scale + "}.png";
  }

  /** The tallied genotypes are all one exactly when the readings all carry one genotype. */
  lemma OneGenotypeOfTally(rs: seq<Result<Reading>>)
    requires TallyOf(rs).Ok? && |rs| > 0
    ensures var g := TallyOf(rs).value.genotypes;
      (OneGenotype(g) <==> SameGenotype(rs)) && rs[0].Ok? && g[0] == rs[0].value.genotype
  {
    TallyGenotypes(rs);
    var g := TallyOf(rs).value.genotypes;
    if !SameGenotype(rs) {
      var i :| 0 <= i < |rs| && rs[i].value.genotype != rs[0].value.genotype;
      assert g[i] != g[0];
    }
  }

  /**
   * A name is made exactly when some scale was counted; it is `{Scale_<mean>}{Genotype_<g>}.png`
   * when every reading carries the genotype g, and `{Scale_<mean>}.png` when they differ.
   */
  lemma {:induction false} NameOfShape(rs: seq<Result<Reading>>)
    requires TallyOf(rs).Ok?
    ensures var t := TallyOf(rs).value;
      NameOf(TallyOf(rs)).Ok? <==> t.maskCount > 0
    ensures var t := TallyOf(rs).value;
      t.maskCount > 0 && SameGenotype(rs) ==>
      |rs| > 0 && NameOf(TallyOf(rs)).value == "{" + AvgScaleToken(t) + "}{Genotype_" + rs[0].value.genotype + "}.png"
    ensures var t := TallyOf(rs).value;
      t.maskCount > 0 && !SameGenotype(rs) ==> NameOf(TallyOf(rs)).value == "{" + AvgScaleToken(t) + "}.png"
  {
    var t := TallyOf(rs).value;
    if t.maskCount > 0 {
      TallyGenotypes(rs);
      assert |rs| > 0;
      OneGenotypeOfTally(rs);
      if OneGenotype(t.genotypes) {
        NameOfOneGenotype(t);
      } else {
        NameOfMixedGenotypes(t);
      }
    }
  }
}
