/**
 * lib/utils.py: the `{key_value}` filename convention, the threshold table,
 * the backdrop decision, pixel-to-millimetre conversion and the directory
 * selection rules of the batch scripts.
 */
module Utils {
  import opened Wrappers
  import opened Numeric
  import opened Text

  /** `config["file_format"]` */
  const FileFormat: string := ".png"

  /** `config["scalebar_length"]` in millimetres. */
  const ScalebarLength: int := 100

  const BinaryMasksDir: string := "binary-masks"
  const StraightenedMasksDir: string := "straight-masks"
  const DetippedMasksDir: string := "detipped-masks"
  const MaskOverlaysDir: string := "mask-overlays"

  /** Directory names that hold derived results rather than photographs. */
  const Methods: seq<string> := [
    "average", "blue_crop", "white_crop", "binary-mask", "binary_mask", "mask-overlay",
    "mask_overlay", "straight_mask", "straight_mask_no_tip", "tip-mask", "tip-angle",
    "blue-line", "black-box", "midline", "graph", "shouldering", "normal-overlays",
    "width-profiles", "output-190905", "average-overlay", "average-mask",
    BinaryMasksDir, StraightenedMasksDir, DetippedMasksDir, MaskOverlaysDir
  ]

  // ---------------------------------------------------------------- key/value tokens

  /** A token the pattern `[\w-]+_[\w-]+` matches in full. */
  predicate IsPair(t: string)
  {
    (forall i :: 0 <= i < |t| ==> IsWordDashChar(t[i]))
    && exists k :: 1 <= k < |t| - 1 && t[k] == '_'
  }

  /** The first position at or after `i` that ends a run of `[\w-]` characters. */
  function RunEnd(s: string, i: nat): (e: nat)
    requires i <= |s|
    ensures i <= e <= |s|
    ensures forall k :: i <= k < e ==> IsWordDashChar(s[k])
    ensures e < |s| ==> !IsWordDashChar(s[e])
    decreases |s| - i
  {
    if i == |s| || !IsWordDashChar(s[i]) then i else RunEnd(s, i + 1)
  }

  /** `re.findall(r"{([\w-]+_[\w-]+)}", s)`: the scan resumes after each token it takes. */
  function Pairs(s: string): (ps: seq<string>)
    decreases |s|
  {
    if |s| == 0 then []
    else if s[0] == '{' then
      var e := RunEnd(s, 1);
      if e < |s| && s[e] == '}' && IsPair(s[1..e]) then [s[1..e]] + Pairs(s[e + 1..])
      else Pairs(s[1..])
    else Pairs(s[1..])
  }

  /** `get_kv_pairs`: the inner text of every `{key_value}` token, in order. */
  function GetKvPairs(s: string): (ps: seq<string>)
    ensures forall k :: 0 <= k < |ps| ==> IsPair(ps[k])
  {
    PairsArePairs(s);
    Pairs(s)
  }

  /** Only `[\w-]+_[\w-]+` texts are read as pairs. */
  lemma {:induction false} PairsArePairs(s: string)
    ensures forall k :: 0 <= k < |Pairs(s)| ==> IsPair(Pairs(s)[k])
    decreases |s|
  {
    if |s| > 0 {
      var e := RunEnd(s, 1);
      if s[0] == '{' && e < |s| && s[e] == '}' && IsPair(s[1..e]) {
        var rest := s[e + 1..];
        PairsArePairs(rest);
        var ps := Pairs(s);
        assert ps == [s[1..e]] + Pairs(rest);
        forall k | 0 < k < |ps| ensures IsPair(ps[k]) {
          assert ps[k] == Pairs(rest)[k - 1];
        }
      } else {
        PairsArePairs(s[1..]);
      }
    }
  }

  /** `"".join("{" + p + "}" for p in pairs)` */
  function Braced(pairs: seq<string>): string
  {
    if |pairs| == 0 then "" else "{" + pairs[0] + "}" + Braced(pairs[1..])
  }

  lemma {:induction false} RunEndStops(s: string, i: nat, n: nat)
    requires i <= n < |s| && !IsWordDashChar(s[n])
    requires forall k :: i <= k < n ==> IsWordDashChar(s[k])
    ensures RunEnd(s, i) == n
    decreases n - i
  {
    if i < n {
      RunEndStops(s, i + 1, n);
    }
  }

  /** A leading `{pair}` token is read as that pair, and reading resumes after its brace. */
  lemma BracedHead(p: string, rest: string)
    requires IsPair(p)
    ensures Pairs("{" + p + "}" + rest) == [p] + Pairs(rest)
  {
    var s := "{" + p + "}" + rest;
    assert forall k :: 1 <= k < |p| + 1 ==> s[k] == p[k - 1];
    assert s[|p| + 1] == '}';
    RunEndStops(s, 1, |p| + 1);
    assert s[1..|p| + 1] == p;
    assert s[|p| + 2..] == rest;
  }

  /**
   * Writing pairs as `{pair}` tokens and reading them back gives the same
   * pairs, followed by whatever the text after the tokens holds.
   */
  lemma KvPairsOfBraced(pairs: seq<string>, tail: string)
    requires forall k :: 0 <= k < |pairs| ==> IsPair(pairs[k])
    ensures GetKvPairs(Braced(pairs) + tail) == pairs + GetKvPairs(tail)
  {
    PairsOfBraced(pairs, tail);
  }

  lemma {:induction false} PairsOfBraced(pairs: seq<string>, tail: string)
    requires forall k :: 0 <= k < |pairs| ==> IsPair(pairs[k])
    ensures Pairs(Braced(pairs) + tail) == pairs + Pairs(tail)
    decreases |pairs|
  {
    if |pairs| > 0 {
      BracedStep(pairs, tail);
      PairsOfBraced(pairs[1..], tail);
      assert pairs == [pairs[0]] + pairs[1..];
    } else {
      assert Braced(pairs) + tail == tail;
    }
  }

  /** Reading `Braced(pairs) + tail` takes the first pair and goes on with the rest. */
  lemma BracedStep(pairs: seq<string>, tail: string)
    requires |pairs| > 0 && IsPair(pairs[0])
    ensures Pairs(Braced(pairs) + tail) == [pairs[0]] + Pairs(Braced(pairs[1..]) + tail)
  {
    var rest := Braced(pairs[1..]) + tail;
    assert Braced(pairs) + tail == "{" + pairs[0] + "}" + rest;
    BracedHead(pairs[0], rest);
  }

  /** Text without `{` holds no `{key_value}` token. */
  lemma {:induction false} PairsNoBrace(s: string)
    requires '{' !in s
    ensures Pairs(s) == []
    decreases |s|
  {
    if |s| > 0 {
      assert s[0] in s;
      assert forall c :: c in s[1..] ==> c in s;
      PairsNoBrace(s[1..]);
    }
  }

  // ---------------------------------------------------------------- attribute maps

  function KeyOf(pair: string): string { Split(pair, '_')[0] }

  function ValueOf(pair: string): string
  {
    var parts := Split(pair, '_');
    if |parts| >= 2 then parts[1] else ""
  }

  /** The pair unpacks as `key, value = pair.split("_")`. */
  predicate HasOneUnderscore(pair: string) { |Split(pair, '_')| == 2 }

  /** The dictionary built from `pairs`, later pairs overwriting earlier ones; ValueError on a pair with two underscores. */
  function AttributesOf(pairs: seq<string>): (r: Result<map<string, string>>)
    ensures r.Ok? <==> forall i :: 0 <= i < |pairs| ==> HasOneUnderscore(pairs[i])
  {
    if |pairs| == 0 then Ok(map[])
    else
      var init := AttributesOf(pairs[..|pairs| - 1]);
      var last := pairs[|pairs| - 1];
      if init.Err? then init
      else if !HasOneUnderscore(last) then Err("ValueError")
      else
        assert forall i :: 0 <= i < |pairs| - 1 ==> pairs[..|pairs| - 1][i] == pairs[i];
        Ok(init.value[KeyOf(last) := ValueOf(last)])
  }

  /** The dictionary's keys are exactly the keys of the pairs. */
  lemma {:induction false} AttributesOfKeys(pairs: seq<string>)
    requires AttributesOf(pairs).Ok?
    ensures forall i :: 0 <= i < |pairs| ==> KeyOf(pairs[i]) in AttributesOf(pairs).value
    ensures forall k :: k in AttributesOf(pairs).value ==> exists i :: 0 <= i < |pairs| && KeyOf(pairs[i]) == k
  {
    if |pairs| > 0 {
      var init := pairs[..|pairs| - 1];
      assert forall i :: 0 <= i < |init| ==> init[i] == pairs[i];
      AttributesOfKeys(init);
    }
  }

  /** The value stored for a key is the one of the last pair carrying that key. */
  lemma {:induction false} LaterPairWins(pairs: seq<string>, i: nat)
    requires i < |pairs| && AttributesOf(pairs).Ok?
    requires forall j :: i < j < |pairs| ==> KeyOf(pairs[j]) != KeyOf(pairs[i])
    ensures KeyOf(pairs[i]) in AttributesOf(pairs).value
    ensures AttributesOf(pairs).value[KeyOf(pairs[i])] == ValueOf(pairs[i])
    decreases |pairs|
  {
    AttributesOfKeys(pairs);
    if i < |pairs| - 1 {
      var init := pairs[..|pairs| - 1];
      assert init[i] == pairs[i];
      assert forall j :: i < j < |init| ==> init[j] == pairs[j];
      LaterPairWins(init, i);
    }
  }

  /** `get_attributes_from_filename` (and `get_kv_pairs_dict`, which builds the same dictionary). */
  function GetAttributes(filename: string): (r: Result<map<string, string>>)
    ensures r.Ok? <==> forall p :: p in GetKvPairs(filename) ==> HasOneUnderscore(p)
  {
    AttributesOf(GetKvPairs(filename))
  }

  // ---------------------------------------------------------------- thresholds and scale

  /** `get_threshold_values(backdrop, old)`: (colour-index threshold, grey threshold). */
  function ThresholdValues(backdrop: string, oldImages: bool): (r: (real, int))
    ensures backdrop == "black" ==> r.1 == 50
    ensures backdrop != "black" ==> r.1 == (if oldImages then 63 else 150)
    ensures r.0 == (if oldImages then 0.13 else 0.14)
  {
    var (index, grey) := if oldImages then (0.13, 63) else (0.14, 150);
    (index, if backdrop == "black" then 50 else grey)
  }

  /** The decision of `detect_backdrop` from the non-zero and total pixel counts of the thresholded photo. */
  function DetectBackdrop(white: nat, total: nat): (r: string)
    requires total > 0
    ensures r == "white" <==> (white as real) / (total as real) > 0.6
    ensures r == "white" || r == "black"
  {
    RatioAbove(white, total);
    if 5 * white > 3 * total then "white" else "black"
  }

  lemma RatioAbove(w: nat, t: nat)
    requires t > 0
    ensures (w as real) / (t as real) > 0.6 <==> 5 * w > 3 * t
  {
    var q := (w as real) / (t as real);
    var tr := t as real;
    assert q * tr == w as real;
    MulPositive(q - 0.6, tr);
    MulPositive(0.6 - q, tr);
  }

  lemma MulPositive(a: real, b: real)
    requires b > 0.0
    ensures a > 0.0 ==> a * b > 0.0
  {
  }

  /** `pixel_to_mm(scale)`: millimetres per pixel, 100 / int(scale) rounded to 4 places. */
  function PixelToMm(scale: string): (r: Result<real>)
    ensures r.Err? <==> ParsePyInt(scale).None? || ParsePyInt(scale).value == 0
  {
    match ParsePyInt(scale)
    case None => Err("ValueError")
    case Some(s) =>
      if s == 0 then Err("ZeroDivisionError")
      else if s > 0 then Ok(RoundHalfEven(ScalebarLength * 10000, s) as real / 10000.0)
      else Ok(-RoundHalfEven(ScalebarLength * 10000, -s) as real / 10000.0)
  }

  /** `mm` per pixel reproduces the 100 mm scale bar of `n` pixels to within half a unit in the fourth decimal per pixel. */
  predicate ReproducesScalebar(mm: real, n: nat)
  {
    -(n as real) / 20000.0 <= mm * (n as real) - 100.0 <= (n as real) / 20000.0
  }

  /** Converting the measured scale bar back with the rounded factor gives its length again. */
  lemma ScaleRoundTrip(n: nat)
    requires n > 0
    ensures PixelToMm(IntToString(n)).Ok?
    ensures ReproducesScalebar(PixelToMm(IntToString(n)).value, n)
  {
    var text := IntToString(n);
    IntStringRoundTrip(n);
    assert ParsePyInt(text) == Some(n as int);
    var r := RoundHalfEven(1000000, n);
    RoundedFactorBound(r, n);
  }

  lemma RoundedFactorBound(r: int, n: nat)
    requires n > 0 && 2 * Abs(r * n - 1000000) <= n
    ensures ReproducesScalebar(r as real / 10000.0, n)
  {
    var d := r * n - 1000000;
    assert (r as real / 10000.0) * (n as real) == (r * n) as real / 10000.0;
    assert (r as real / 10000.0) * (n as real) - 100.0 == d as real / 10000.0;
  }

  // ---------------------------------------------------------------- directory selection

  /** A directory as `os.walk` reports it: its path and the names of its files. */
  datatype WalkEntry = WalkEntry(path: string, files: seq<string>)

  /** A directory selected for processing with the full paths of its selected files. */
  datatype DirEntry = DirEntry(path: string, files: seq<string>)

  /** `subdir.split("/")[-1].split("__")[0]` */
  function DirName(subdir: string): string
  {
    var parts := Split(subdir, '/');
    BeforeFirst(parts[|parts| - 1], "__")
  }

  predicate KeepRawDir(subdir: string, allowed: seq<string>)
  {
    DirName(subdir) !in Methods || DirName(subdir) in allowed
  }

  predicate KeepRawFile(name: string) { EndsWith(name, FileFormat) && !StartsWith(name, ".") }

  predicate KeepMaskFile(name: string) { |name| > 0 && name[0] != '.' && EndsWith(name, FileFormat) }

  /** The full paths of the files of `dir` that `keep` selects, in listing order. */
  function Selected(dir: string, names: seq<string>, keep: string -> bool): (r: seq<string>)
    ensures |r| <= |names|
    ensures forall f :: f in r ==> exists n :: n in names && keep(n) && f == PathJoin(dir, n)
    ensures forall n :: n in names && keep(n) ==> PathJoin(dir, n) in r
  {
    if |names| == 0 then []
    else
      var rest := Selected(dir, names[1..], keep);
      if keep(names[0]) then [PathJoin(dir, names[0])] + rest else rest
  }

  /** `get_files_to_process`: the kept directories that still hold a kept file. */
  function FilesToProcess(walk: seq<WalkEntry>, allowed: seq<string>): (r: seq<DirEntry>)
    ensures forall e :: e in r ==> KeepRawDir(e.path, allowed) && |e.files| > 0
    ensures forall w :: w in walk && KeepRawDir(w.path, allowed) && (exists n :: n in w.files && KeepRawFile(n))
              ==> DirEntry(w.path, Selected(w.path, w.files, KeepRawFile)) in r
  {
    if |walk| == 0 then []
    else
      var w := walk[0];
      var files := Selected(w.path, w.files, KeepRawFile);
      var rest := FilesToProcess(walk[1..], allowed);
      if KeepRawDir(w.path, allowed) && |files| > 0 then [DirEntry(w.path, files)] + rest else rest
  }

  /** `get_masks_to_process`: directories named `mask_type` that hold a kept mask file. */
  function MasksToProcess(walk: seq<WalkEntry>, maskType: string): (r: seq<DirEntry>)
    ensures forall e :: e in r ==> DirName(e.path) == maskType && |e.files| > 0
    ensures forall w :: w in walk && DirName(w.path) == maskType && (exists n :: n in w.files && KeepMaskFile(n))
              ==> DirEntry(w.path, Selected(w.path, w.files, KeepMaskFile)) in r
  {
    if |walk| == 0 then []
    else
      var w := walk[0];
      var files := Selected(w.path, w.files, KeepMaskFile);
      var rest := MasksToProcess(walk[1..], maskType);
      if DirName(w.path) == maskType && |files| > 0 then [DirEntry(w.path, files)] + rest else rest
  }
}
