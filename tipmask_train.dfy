/**
 * Training data for the tip-mask regressor: the helper scans, the zero padding of every
 * feature vector to a common length, and the feature/label pair built from a mask with
 * its tip and the same mask with the tip removed.
 */
module TipmaskTrain {
  import opened Wrappers
  import opened Numeric
  import opened Pixels
  import Utils
  import Phenotype
  import TipMask

  // ---------------------------------------------------------------- helper scans

  /** A pixel whose red channel marks the true tip. */
  predicate IsRed(p: TipMask.Bgr) { p.r > 100 }

  /** `get_true_tip_index`: the first pixel of the row with red above 100, `None` when there is none. */
  method GetTrueTipIndex(row: seq<TipMask.Bgr>) returns (r: Option<nat>)
    ensures r.Some? ==> r.value < |row| && IsRed(row[r.value])
    ensures r.Some? ==> forall j :: 0 <= j < r.value ==> !IsRed(row[j])
    ensures r.None? <==> forall j :: 0 <= j < |row| ==> !IsRed(row[j])
  {
    var i := 0;
    while i < |row|
      invariant 0 <= i <= |row|
      invariant forall j :: 0 <= j < i ==> !IsRed(row[j])
    {
      if row[i].r > 100 {
        return Some(i);
      }
      i := i + 1;
    }
    return None;
  }

  /** `get_index_first_white_pixel`: the first column holding a 255, `None` for an all-black image. */
  method GetIndexFirstWhitePixel(g: Grid) returns (r: Option<nat>)
    requires IsGrid(g)
    ensures r.Some? ==> r.value < Width(g) && 255 in Col(g, r.value)
    ensures r.Some? ==> forall j :: 0 <= j < r.value ==> 255 !in Col(g, j)
    ensures r.None? <==> forall j :: 0 <= j < Width(g) ==> 255 !in Col(g, j)
  {
    var i := 0;
    while i < Width(g)
      invariant 0 <= i <= Width(g)
      invariant forall j :: 0 <= j < i ==> 255 !in Col(g, j)
    {
      var column := Col(g, i);
      if CountOf(column, 255) > 0 {
        CountOfPositive(column, 255);
        return Some(i);
      }
      CountOfPositive(column, 255);
      i := i + 1;
    }
    return None;
  }

  /** `collections.Counter(column)[v]` */
  function CountOf(s: seq<int>, v: int): nat
  {
    if |s| == 0 then 0 else CountOf(s[..|s| - 1], v) + (if s[|s| - 1] == v then 1 else 0)
  }

  /** The counter holds a positive count for `v` exactly when `v` occurs. */
  lemma {:induction false} CountOfPositive(s: seq<int>, v: int)
    ensures CountOf(s, v) > 0 <==> v in s
  {
    if |s| > 0 {
      var init := s[..|s| - 1];
      CountOfPositive(init, v);
      assert s == init + [s[|s| - 1]];
      assert v in s <==> v in init || v == s[|s| - 1];
    }
  }

  // ---------------------------------------------------------------- equalize_lengths

  /** The zeros appended to `ws`: `[0] * (5000 - len(ws))`, empty when `ws` is already longer. */
  function Padded(ws: seq<real>): (r: seq<real>)
    ensures |r| == Max(TipMask.PseudoMaxLength, |ws|)
    ensures r[..|ws|] == ws
    ensures forall i :: |ws| <= i < |r| ==> r[i] == 0.0
  {
    var missing := TipMask.PseudoMaxLength - |ws|;
    ws + seq(if missing > 0 then missing else 0, _ => 0.0)
  }

  /** Padding a padded vector again adds nothing. */
  lemma PaddedIdempotent(ws: seq<real>)
    ensures Padded(Padded(ws)) == Padded(ws)
  {
    var p := Padded(ws);
    assert |p| >= TipMask.PseudoMaxLength;
    assert Padded(p)[..|p|] == p;
  }

  /** One training record: the label and its feature vector. */
  class Sample {
    var tipIndex: int
    var normalizedWidths: seq<real>

    constructor (tipIndex: int, normalizedWidths: seq<real>)
      ensures this.tipIndex == tipIndex && this.normalizedWidths == normalizedWidths
    {
      this.tipIndex := tipIndex;
      this.normalizedWidths := normalizedWidths;
    }
  }

  /**
   * `equalize_lengths`: every record's vector is replaced, in place, by its padded copy,
   * and the same list is returned.  A record listed twice is padded once, since padding
   * is idempotent.
   */
  method EqualizeLengths(data: seq<Sample>) returns (r: seq<Sample>)
    modifies set d | d in data
    ensures r == data
    ensures forall d :: d in data ==> d.normalizedWidths == Padded(old(d.normalizedWidths))
    ensures forall d :: d in data ==> d.tipIndex == old(d.tipIndex)
  {
    var i := 0;
    while i < |data|
      invariant 0 <= i <= |data|
      invariant forall d :: d in data ==>
        d.normalizedWidths == old(d.normalizedWidths) || d.normalizedWidths == Padded(old(d.normalizedWidths))
      invariant forall j :: 0 <= j < i ==> data[j].normalizedWidths == Padded(old(data[j].normalizedWidths))
      invariant forall d :: d in data ==> d.tipIndex == old(d.tipIndex)
    {
      var d := data[i];
      PaddedIdempotent(old(d.normalizedWidths));
      d.normalizedWidths := Padded(d.normalizedWidths);
      i := i + 1;
    }
    r := data;
  }

  // ---------------------------------------------------------------- features and label

  /** `normalize_width_array(get_width_array_mm(raw_mask, mm_per_px)[::-1])` */
  function TrainingWidths(raw: Grid, mmPerPx: real): Result<seq<real>>
    requires IsGrid(raw)
  {
    TipMask.NormalizeWidthArray(Reverse(TipMask.ScaleProfile(TipMask.WidthProfile(raw), mmPerPx)))
  }

  /**
   * One record of the training run: the scale is read from the raw mask's name
   * (`int(None)` is a TypeError), the features are the normalised reversed millimetre
   * profile of the raw mask, the label the length of the de-tipped mask.
   */
  function TrainingRecord(rawName: string, raw: Grid, training: Grid): (r: Result<(int, seq<real>)>)
    requires IsGrid(raw) && IsGrid(training)
  {
    match Utils.GetAttributes(rawName)
    case Err(e) => Err(e)
    case Ok(attrs) =>
      if "Scale" !in attrs then Err("TypeError")
      else
        match Utils.PixelToMm(attrs["Scale"])
        case Err(e) => Err(e)
        case Ok(mm) =>
          match TrainingWidths(raw, mm)
          case Err(e) => Err(e)
          case Ok(ws) => Ok((Phenotype.Length(training), ws))
  }

  /**
   * The label is a column count of the de-tipped mask, and once equalized the features
   * are exactly the vector the detector builds from the same mask at prediction time.
   */
  lemma TrainingMatchesPrediction(rawName: string, raw: Grid, training: Grid)
    requires IsGrid(raw) && IsGrid(training) && TrainingRecord(rawName, raw, training).Ok?
    ensures var rec := TrainingRecord(rawName, raw, training).value;
      var mm := Utils.PixelToMm(Utils.GetAttributes(rawName).value["Scale"]).value;
      0 <= rec.0 <= Width(training)
      && TipMask.TipMaskFeatures(raw, mm) == Ok(Padded(rec.1))
      && |Padded(rec.1)| == Max(TipMask.PseudoMaxLength, Width(raw))
  {
    var mm := Utils.PixelToMm(Utils.GetAttributes(rawName).value["Scale"]).value;
    var ws := TrainingWidths(raw, mm).value;
    var f := TipMask.TipMaskFeatures(raw, mm).value;
    assert |ws| == Width(raw);
    assert f[..|ws|] == ws == Padded(ws)[..|ws|];
    assert |f| == |Padded(ws)|;
    assert f == Padded(ws) by {
      forall i | 0 <= i < |f|
        ensures f[i] == Padded(ws)[i]
      {
        if i < |ws| {
          assert f[i] == f[..|ws|][i];
          assert Padded(ws)[i] == Padded(ws)[..|ws|][i];
        }
      }
    }
  }
}
