/**
 * `ScaleFinder`: finds the scale marker of a photograph, either a 10 cm green bar or a
 * 37 mm blue disc, measures it in pixels and appends the pixels per metre to the file's
 * name as a `{Scale_N_ppm}` token, replacing an earlier scale token.
 */
module ScaleFinding {
  import opened Wrappers
  import opened Numeric
  import opened Text
  import opened JavaImage
  import Straightener

  // ---------------------------------------------------------------- colour tests

  /** `isGreen` */
  predicate IsGreen(c: Rgb) { c.g > 220 && c.b < 150 && c.r < 150 }

  /** `isBlue` */
  predicate IsBlue(c: Rgb) { c.g - c.r > 20 && c.b - c.g > 15 }

  /** A bar pixel is never a disc pixel: green above 220 leaves no room for blue 15 above it. */
  lemma GreenIsNotBlue(c: Rgb)
    requires IsColour(c) && IsGreen(c)
    ensures !IsBlue(c)
  {
  }

  // ---------------------------------------------------------------- runs

  /**
   * The run of green pixels starting at (x, y) and going right: it covers `x..x + r`, every
   * pixel of it is green, and it stops at the right edge or at a pixel that is not.
   */
  function GreenRun(img: seq<seq<Rgb>>, x: int, y: int): (r: nat)
    requires IsRect(img) && 0 <= x <= ImgWidth(img) && 0 <= y < ImgHeight(img)
    ensures x + r <= ImgWidth(img)
    ensures forall i :: x <= i < x + r ==> IsGreen(img[i][y])
    ensures x + r < ImgWidth(img) ==> !IsGreen(img[x + r][y])
    decreases ImgWidth(img) - x
  {
    if x == |img| || !IsGreen(img[x][y]) then 0 else 1 + GreenRun(img, x + 1, y)
  }

  /** The run of blue pixels starting at (x, y) and going down, described the same way. */
  function BlueRun(img: seq<seq<Rgb>>, x: int, y: int): (r: nat)
    requires IsRect(img) && 0 <= x < ImgWidth(img) && 0 <= y <= ImgHeight(img)
    ensures y + r <= ImgHeight(img)
    ensures forall j :: y <= j < y + r ==> IsBlue(img[x][j])
    ensures y + r < ImgHeight(img) ==> !IsBlue(img[x][y + r])
    decreases ImgHeight(img) - y
  {
    if y == |img[0]| || !IsBlue(img[x][y]) then 0 else 1 + BlueRun(img, x, y + 1)
  }

  /** `findLine`: counts green pixels rightward from (x, y), the start included. */
  method FindLine(x: int, y: int, img: seq<seq<Rgb>>) returns (count: int)
    requires IsRect(img) && 0 <= x < ImgWidth(img) && 0 <= y < ImgHeight(img)
    ensures count == GreenRun(img, x, y)
  {
    count := 0;
    var xInc := x;
    while xInc < |img|
      invariant x <= xInc <= |img| && count == xInc - x
      invariant GreenRun(img, x, y) == count + GreenRun(img, xInc, y)
    {
      if IsGreen(img[xInc][y]) {
        count := count + 1;
      } else {
        break;
      }
      xInc := xInc + 1;
    }
  }

  /** `findVerticalLine`: counts blue pixels downward from (x, y), the start included. */
  method FindVerticalLine(x: int, y: int, img: seq<seq<Rgb>>) returns (count: int)
    requires IsRect(img) && 0 <= x < ImgWidth(img) && 0 <= y < ImgHeight(img)
    ensures count == BlueRun(img, x, y)
  {
    count := 0;
    var yInc := y;
    while yInc < |img[0]|
      invariant y <= yInc <= |img[0]| && count == yInc - y
      invariant BlueRun(img, x, y) == count + BlueRun(img, x, yInc)
    {
      if IsBlue(img[x][yInc]) {
        count := count + 1;
      } else {
        break;
      }
      yInc := yInc + 1;
    }
  }

  // ---------------------------------------------------------------- longest runs

  /**
   * What a pixel contributes to the search: for the bar, the length of a green run longer
   * than 50 pixels starting there; for the disc, the length of a blue run starting there;
   * -1 otherwise.
   */
  function Score(img: seq<seq<Rgb>>, blue: bool, x: int, y: int): int
    requires IsRect(img) && 0 <= x < ImgWidth(img) && 0 <= y < ImgHeight(img)
  {
    if blue then (if IsBlue(img[x][y]) then BlueRun(img, x, y) else -1)
    else if IsGreen(img[x][y]) && GreenRun(img, x, y) > 50 then GreenRun(img, x, y)
    else -1
  }

  /** The running maximum over rows `0..n` of column `x`, from -1. */
  function BestInColumn(img: seq<seq<Rgb>>, blue: bool, x: int, n: int): int
    requires IsRect(img) && 0 <= x < ImgWidth(img) && 0 <= n <= ImgHeight(img)
  {
    if n == 0 then -1 else Max(BestInColumn(img, blue, x, n - 1), Score(img, blue, x, n - 1))
  }

  /** The running maximum over columns `0..n`, from -1. */
  function Best(img: seq<seq<Rgb>>, blue: bool, n: int): int
    requires IsRect(img) && 0 <= n <= ImgWidth(img)
  {
    if n == 0 then -1 else Max(Best(img, blue, n - 1), BestInColumn(img, blue, n - 1, ImgHeight(img)))
  }

  lemma {:induction false} BestInColumnIsMax(img: seq<seq<Rgb>>, blue: bool, x: int, n: int)
    requires IsRect(img) && 0 <= x < ImgWidth(img) && 0 <= n <= ImgHeight(img)
    ensures forall y :: 0 <= y < n ==> Score(img, blue, x, y) <= BestInColumn(img, blue, x, n)
    ensures BestInColumn(img, blue, x, n) == -1
      || exists y :: 0 <= y < n && Score(img, blue, x, y) == BestInColumn(img, blue, x, n)
  {
    if n > 0 {
      BestInColumnIsMax(img, blue, x, n - 1);
    }
  }

  /** The search result bounds the score of every pixel of the first `n` columns. */
  lemma {:induction false} BestIsUpperBound(img: seq<seq<Rgb>>, blue: bool, n: int)
    requires IsRect(img) && 0 <= n <= ImgWidth(img)
    ensures forall x, y :: 0 <= x < n && 0 <= y < ImgHeight(img) ==> Score(img, blue, x, y) <= Best(img, blue, n)
  {
    if n > 0 {
      BestIsUpperBound(img, blue, n - 1);
      BestInColumnIsMax(img, blue, n - 1, ImgHeight(img));
    }
  }

  /** The search result is -1 or the score of one of the pixels of the first `n` columns. */
  lemma {:induction false} BestIsAttained(img: seq<seq<Rgb>>, blue: bool, n: int)
    requires IsRect(img) && 0 <= n <= ImgWidth(img)
    ensures Best(img, blue, n) == -1
      || exists x, y :: 0 <= x < n && 0 <= y < ImgHeight(img) && Score(img, blue, x, y) == Best(img, blue, n)
  {
    if n > 0 && Best(img, blue, n) != -1 {
      var prev := Best(img, blue, n - 1);
      if Best(img, blue, n) == prev {
        BestIsAttained(img, blue, n - 1);
        var x, y :| 0 <= x < n - 1 && 0 <= y < ImgHeight(img) && Score(img, blue, x, y) == prev;
        assert Score(img, blue, x, y) == Best(img, blue, n);
      } else {
        BestInColumnIsMax(img, blue, n - 1, ImgHeight(img));
        var y :| 0 <= y < ImgHeight(img) && Score(img, blue, n - 1, y) == Best(img, blue, n);
      }
    }
  }

  /** Some green pixel starts a run longer than 50 pixels: the bar is in the picture. */
  predicate HasBar(img: seq<seq<Rgb>>)
    requires IsRect(img)
  {
    exists x, y :: 0 <= x < ImgWidth(img) && 0 <= y < ImgHeight(img) && IsGreen(img[x][y]) && GreenRun(img, x, y) > 50
  }

  /** Some pixel is blue: the disc is in the picture. */
  predicate HasDisc(img: seq<seq<Rgb>>)
    requires IsRect(img)
  {
    exists x, y :: 0 <= x < ImgWidth(img) && 0 <= y < ImgHeight(img) && IsBlue(img[x][y])
  }

  /**
   * The bar search finds the longest green run longer than 50 pixels, or -1 when there is
   * none.
   */
  lemma LongestGreenRun(img: seq<seq<Rgb>>)
    requires IsRect(img)
    ensures var r := Best(img, false, ImgWidth(img));
      (r == -1 <==> !HasBar(img))
      && (forall x, y :: 0 <= x < ImgWidth(img) && 0 <= y < ImgHeight(img) && IsGreen(img[x][y]) && GreenRun(img, x, y) > 50 ==> GreenRun(img, x, y) <= r)
      && (r != -1 ==> r > 50 && exists x, y :: 0 <= x < ImgWidth(img) && 0 <= y < ImgHeight(img) && IsGreen(img[x][y]) && GreenRun(img, x, y) == r)
  {
    var r := Best(img, false, ImgWidth(img));
    BestIsUpperBound(img, false, ImgWidth(img));
    BestIsAttained(img, false, ImgWidth(img));
    forall x, y | 0 <= x < ImgWidth(img) && 0 <= y < ImgHeight(img) && IsGreen(img[x][y]) && GreenRun(img, x, y) > 50
      ensures GreenRun(img, x, y) <= r
    {
      assert Score(img, false, x, y) == GreenRun(img, x, y);
    }
  }

  /** The disc search finds the longest blue vertical run, or -1 when there is no blue pixel. */
  lemma LongestBlueRun(img: seq<seq<Rgb>>)
    requires IsRect(img)
    ensures var r := Best(img, true, ImgWidth(img));
      (r == -1 <==> !HasDisc(img))
      && (forall x, y :: 0 <= x < ImgWidth(img) && 0 <= y < ImgHeight(img) && IsBlue(img[x][y]) ==> BlueRun(img, x, y) <= r)
      && (r != -1 ==> r >= 1 && exists x, y :: 0 <= x < ImgWidth(img) && 0 <= y < ImgHeight(img) && IsBlue(img[x][y]) && BlueRun(img, x, y) == r)
  {
    var r := Best(img, true, ImgWidth(img));
    BestIsUpperBound(img, true, ImgWidth(img));
    BestIsAttained(img, true, ImgWidth(img));
    forall x, y | 0 <= x < ImgWidth(img) && 0 <= y < ImgHeight(img) && IsBlue(img[x][y])
      ensures 1 <= BlueRun(img, x, y) <= r
    {
      assert Score(img, true, x, y) == BlueRun(img, x, y);
    }
  }

  /** `findGreenScale`: the scan over every pixel, column by column. */
  method FindGreenScale(img: seq<seq<Rgb>>) returns (maxGreenLine: int)
    requires IsRect(img)
    ensures maxGreenLine == Best(img, false, ImgWidth(img))
  {
    maxGreenLine := -1;
    var x := 0;
    while x < |img|
      invariant 0 <= x <= |img| && maxGreenLine == Best(img, false, x)
    {
      var y := 0;
      while y < |img[0]|
        invariant 0 <= y <= |img[0]|
        invariant maxGreenLine == Max(Best(img, false, x), BestInColumn(img, false, x, y))
      {
        if IsGreen(img[x][y]) {
          var lineLen := FindLine(x, y, img);
          if lineLen > 50 {
            maxGreenLine := Max(maxGreenLine, lineLen);
          }
        }
        y := y + 1;
      }
      x := x + 1;
    }
  }

  /** `findBlueCircle`: the same scan over vertical blue runs. */
  method FindBlueCircle(img: seq<seq<Rgb>>) returns (maxBlueLine: int)
    requires IsRect(img)
    ensures maxBlueLine == Best(img, true, ImgWidth(img))
  {
    maxBlueLine := -1;
    var x := 0;
    while x < |img|
      invariant 0 <= x <= |img| && maxBlueLine == Best(img, true, x)
    {
      var y := 0;
      while y < |img[0]|
        invariant 0 <= y <= |img[0]|
        invariant maxBlueLine == Max(Best(img, true, x), BestInColumn(img, true, x, y))
      {
        if IsBlue(img[x][y]) {
          var lineLen := FindVerticalLine(x, y, img);
          maxBlueLine := Max(maxBlueLine, lineLen);
        }
        y := y + 1;
      }
      x := x + 1;
    }
  }

  // ---------------------------------------------------------------- pixels per metre

  /** The bar is 10 cm long and the disc 37 mm across. */
  const BarPerMetre := 10
  const DiscPerMetre := 27

  /** `findPixelsPerMeter` */
  method FindPixelsPerMeter(img: seq<seq<Rgb>>) returns (nPixels: int)
    requires IsRect(img)
    ensures var green := Best(img, false, ImgWidth(img));
      var blue := Best(img, true, ImgWidth(img));
      nPixels == if green >= 0 then BarPerMetre * green else DiscPerMetre * blue
  {
    nPixels := FindGreenScale(img);
    nPixels := nPixels * BarPerMetre;
    if nPixels < 0 {
      nPixels := FindBlueCircle(img);
      nPixels := nPixels * DiscPerMetre;
    }
  }

  /**
   * The bar wins whenever it is found; the disc is used otherwise; with neither the result
   * is -27, the only negative result.
   */
  lemma PixelsPerMeterCases(img: seq<seq<Rgb>>, nPixels: int)
    requires IsRect(img)
    requires var green := Best(img, false, ImgWidth(img));
      var blue := Best(img, true, ImgWidth(img));
      nPixels == if green >= 0 then BarPerMetre * green else DiscPerMetre * blue
    ensures HasBar(img) ==> nPixels > 500 && nPixels % 10 == 0
    ensures !HasBar(img) && HasDisc(img) ==> nPixels >= 27 && nPixels % 27 == 0
    ensures nPixels < 0 <==> nPixels == -27
    ensures nPixels < 0 <==> !HasBar(img) && !HasDisc(img)
  {
    BarSearchSign(img);
    DiscSearchSign(img);
  }

  lemma BarSearchSign(img: seq<seq<Rgb>>)
    requires IsRect(img)
    ensures var r := Best(img, false, ImgWidth(img));
      (r == -1 <==> !HasBar(img)) && (r != -1 ==> r > 50)
  {
    LongestGreenRun(img);
  }

  lemma DiscSearchSign(img: seq<seq<Rgb>>)
    requires IsRect(img)
    ensures var r := Best(img, true, ImgWidth(img));
      (r == -1 <==> !HasDisc(img)) && (r != -1 ==> r >= 1)
  {
    LongestBlueRun(img);
  }

  // ---------------------------------------------------------------- renaming

  /**
   * The base name with its first `{scale_` token (any case) cut out up to the next `}`;
   * with no `}` after it, the text before the token is put back in front of the whole base
   * name, as `substring(indexOf("}") + 1)` of -1 keeps everything.
   */
  function StrippedPrefix(prefix: string): string
  {
    if Contains(Lower(prefix), "{scale_") then
      var index := IndexOf(Lower(prefix), "{scale_", 0);
      prefix[..index] + prefix[IndexOf(prefix, "}", index) + 1..]
    else prefix
  }

  /**
   * The new name of a photograph with `nPixels` pixels per metre: `None` when the scale was
   * not found (the file keeps its name); a name without '.' is a
   * StringIndexOutOfBoundsException.
   */
  function ScaleRename(name: string, nPixels: int): (r: Result<Option<string>>)
    ensures nPixels < 0 <==> r == Ok(None)
    ensures r.Err? <==> nPixels >= 0 && LastIndexOfChar(name, '.') < 0
  {
    if nPixels < 0 then Ok(None)
    else
      var dot := LastIndexOfChar(name, '.');
      if dot < 0 then Err("StringIndexOutOfBoundsException")
      else Ok(Some(StrippedPrefix(name[..dot]) + "{Scale_" + IntToString(nPixels) + "_ppm}." + name[dot + 1..]))
  }

  /** A `{scale_` token (any case) first found at `at` of a name. */
  lemma FirstTokenAt(s: string, at: int)
    requires 0 <= at && at + 7 <= |s| && Lower(s[at..at + 7]) == "{scale_"
    requires !Contains(Lower(s[..at]), "{scale_")
    ensures IndexOf(Lower(s), "{scale_", 0) == at
  {
    var lower := Lower(s);
    assert lower[at..at + 7] == Lower(s[at..at + 7]);
    forall i | 0 <= i < at
      ensures !OccursAt(lower, "{scale_", i)
    {
      if i + 7 <= at {
        assert lower[i..i + 7] == Lower(s[..at])[i..i + 7];
        assert !OccursAt(Lower(s[..at]), "{scale_", i);
      } else if i + 7 <= |lower| {
        var j := at - i;
        assert lower[i..i + 7][j] == lower[at] == '{';
        assert "{scale_"[j] != '{';
      }
    }
    IndexOfIs(lower, "{scale_", 0, at);
  }

  /**
   * A closed token is cut out whole: the base name `pre + token + field + "}" + post`, with
   * no token in `pre` and no `}` in `field`, becomes `pre + post`.
   */
  lemma StripClosedToken(pre: string, token: string, field: string, post: string)
    requires |token| == 7 && Lower(token) == "{scale_" && !Contains(Lower(pre), "{scale_")
    requires forall i :: 0 <= i < |field| ==> field[i] != '}'
    ensures StrippedPrefix(pre + token + field + "}" + post) == pre + post
  {
    var s := pre + token + field + "}" + post;
    var at := |pre|;
    var close := at + 7 + |field|;
    assert s[..at] == pre && s[at..at + 7] == token;
    FirstTokenAt(s, at);
    assert OccursAt(Lower(s), "{scale_", at);
    TokenHasNoClose(token);
    forall i | at <= i < close
      ensures s[i] != '}'
    {
      if i < at + 7 {
        assert s[i] == token[i - at];
      } else {
        assert s[i] == field[i - at - 7];
      }
    }
    assert s[close] == '}';
    IndexOfCharIs(s, '}', at, close);
    assert s[close + 1..] == post;
  }

  lemma TokenHasNoClose(token: string)
    requires |token| == 7 && Lower(token) == "{scale_"
    ensures forall i :: 0 <= i < 7 ==> token[i] != '}'
  {
    forall i | 0 <= i < 7
      ensures token[i] != '}'
    {
      assert LowerChar(token[i]) == "{scale_"[i];
    }
  }

  /** A base name without a token is kept as it is. */
  lemma StripNoToken(prefix: string)
    requires !Contains(Lower(prefix), "{scale_")
    ensures StrippedPrefix(prefix) == prefix
  {
  }

  /** The renamed file keeps its extension: the text after its last '.' is the original's. */
  lemma RenameKeepsExtension(name: string, nPixels: int)
    requires ScaleRename(name, nPixels).Ok? && ScaleRename(name, nPixels).value.Some?
    ensures var out := ScaleRename(name, nPixels).value.value;
      var outDot := LastIndexOfChar(out, '.');
      0 <= outDot && out[outDot + 1..] == name[LastIndexOfChar(name, '.') + 1..]
  {
    var out := ScaleRename(name, nPixels).value.value;
    var suffix := name[LastIndexOfChar(name, '.') + 1..];
    var p := |out| - |suffix| - 1;
    assert out[p] == '.';
    assert out[p + 1..] == suffix;
    var outDot := LastIndexOfChar(out, '.');
    assert outDot >= p;
  }

  /**
   * Reading the scale of a renamed file back, as the straightener does, gives 100 times the
   * written count (the `_ppm` reading) whenever the stripped base name holds no other token.
   */
  lemma RenameReadsBack(name: string, nPixels: int)
    requires ScaleRename(name, nPixels).Ok? && ScaleRename(name, nPixels).value.Some?
    requires nPixels < 0x8000_0000
    requires !Contains(Lower(StrippedPrefix(name[..LastIndexOfChar(name, '.')])), "{scale_")
    ensures Straightener.ScaleOfName(ScaleRename(name, nPixels).value.value) == Ok(Some(100 * nPixels))
  {
    var dot := LastIndexOfChar(name, '.');
    var pre := StrippedPrefix(name[..dot]);
    var suffix := name[dot + 1..];
    assert ScaleRename(name, nPixels).value.value == pre + ("{Scale_" + IntToString(nPixels) + "_ppm}") + ("." + suffix);
    Straightener.ScaleTokenRead(pre, nPixels, true, "." + suffix);
  }
}
