/**
 * `BoxFinder`: a scanner over an image whose pixels have been classified by a colour
 * cutoff (here the cutoff's verdicts, a boolean per pixel).  Starting from each unclaimed
 * pixel that passes the cutoff it traces a left edge downward and a top edge rightward,
 * tolerating small drifts and gaps, and records the rectangle when it is large enough and
 * its right edge is confirmed.  Recorded rectangles claim their pixels for later scans.
 */
module BoxFinding {
  import opened Numeric
  import opened JavaImage
  import opened ImageBoxes

  /** How far a gap in an edge may extend and still be jumped. */
  const GapWidth := 20

  /** The answers of `isBoxNearby`. */
  datatype FoundBox = Found | PlusOne | MinusOne | NotFound

  predicate InImage(m: seq<seq<bool>>, x: int, y: int)
    requires IsRect(m)
  {
    0 <= x < ImgWidth(m) && 0 <= y < ImgHeight(m)
  }

  /** `alreadyFound`: some recorded box contains the pixel. */
  predicate InSomeBox(found: seq<ImageBox>, x: int, y: int)
  {
    exists k :: 0 <= k < |found| && Contains(found[k], x, y)
  }

  /** `isNewBox`: no recorded box contains the pixel and it passes the cutoff. */
  predicate NewBoxAt(m: seq<seq<bool>>, found: seq<ImageBox>, x: int, y: int)
    requires IsRect(m) && InImage(m, x, y)
  {
    !InSomeBox(found, x, y) && m[x][y]
  }

  /**
   * `isBoxNearby`: a claimed pixel is NOT_FOUND, a new one FOUND; otherwise the next pixel
   * along x (or y) is tried before the previous one.
   */
  function Nearby(m: seq<seq<bool>>, found: seq<ImageBox>, x: int, y: int, modifyX: bool): FoundBox
    requires IsRect(m) && InImage(m, x, y)
  {
    if InSomeBox(found, x, y) then NotFound
    else if !NewBoxAt(m, found, x, y) then
      if (modifyX && x < ImgWidth(m) - 1 && NewBoxAt(m, found, x + 1, y))
        || (!modifyX && y < ImgHeight(m) - 1 && NewBoxAt(m, found, x, y + 1)) then PlusOne
      else if (modifyX && x > 0 && NewBoxAt(m, found, x - 1, y))
        || (!modifyX && y > 0 && NewBoxAt(m, found, x, y - 1)) then MinusOne
      else NotFound
    else Found
  }

  /**
   * Every answer other than NOT_FOUND names a new pixel: the pixel itself for FOUND, the
   * next or previous one along the traced axis for PLUS_ONE and MINUS_ONE.
   */
  lemma NearbyNamesNewPixel(m: seq<seq<bool>>, found: seq<ImageBox>, x: int, y: int, modifyX: bool)
    requires IsRect(m) && InImage(m, x, y)
    ensures Nearby(m, found, x, y, modifyX) == Found <==> NewBoxAt(m, found, x, y)
    ensures Nearby(m, found, x, y, modifyX) == PlusOne ==>
      !m[x][y] && if modifyX then x + 1 < ImgWidth(m) && NewBoxAt(m, found, x + 1, y)
                  else y + 1 < ImgHeight(m) && NewBoxAt(m, found, x, y + 1)
    ensures Nearby(m, found, x, y, modifyX) == MinusOne ==>
      !m[x][y] && if modifyX then 0 < x && NewBoxAt(m, found, x - 1, y)
                  else 0 < y && NewBoxAt(m, found, x, y - 1)
    ensures InSomeBox(found, x, y) ==> Nearby(m, found, x, y, modifyX) == NotFound
  {
  }

  /** The last index of the traced axis (`maybeY < height - 1`, `maybeX < width - 1`) and of the other. */
  function ScanLimit(m: seq<seq<bool>>, modifyX: bool): int
    requires IsRect(m)
  {
    if modifyX then ImgHeight(m) - 1 else ImgWidth(m) - 1
  }

  function DriftLimit(m: seq<seq<bool>>, modifyX: bool): int
    requires IsRect(m)
  {
    if modifyX then ImgWidth(m) - 1 else ImgHeight(m) - 1
  }

  /** `isBoxNearby` at `scan` along the traced axis and `drift` across it. */
  function NearbyAlong(m: seq<seq<bool>>, found: seq<ImageBox>, modifyX: bool, drift: int, scan: int): FoundBox
    requires IsRect(m) && 0 <= drift <= DriftLimit(m, modifyX) && 0 <= scan <= ScanLimit(m, modifyX)
  {
    if modifyX then Nearby(m, found, drift, scan, true) else Nearby(m, found, scan, drift, false)
  }

  /** The gap search succeeds: within `GapWidth` steps before the limit, some pixel is not NOT_FOUND. */
  predicate GapJumps(m: seq<seq<bool>>, found: seq<ImageBox>, modifyX: bool, drift: int, scan: int)
    requires IsRect(m) && 0 <= drift <= DriftLimit(m, modifyX) && 0 <= scan
  {
    exists s :: scan <= s < scan + GapWidth && s < ScanLimit(m, modifyX) && NearbyAlong(m, found, modifyX, drift, s) != NotFound
  }

  /** Rows `lo..hi` whose right edge is confirmed: one of the 49 pixels left of `lrX` (not column 0) is not NOT_FOUND. */
  predicate RowMatches(m: seq<seq<bool>>, found: seq<ImageBox>, y: int, lrX: int)
    requires IsRect(m) && 0 <= y < ImgHeight(m) && lrX <= ImgWidth(m)
  {
    exists x :: Max(lrX - 49, 1) <= x < lrX && Nearby(m, found, x, y, true) != NotFound
  }

  function MatchedRows(m: seq<seq<bool>>, found: seq<ImageBox>, lo: int, hi: int, lrX: int): nat
    requires IsRect(m) && 0 <= lo && hi <= ImgHeight(m) && lrX <= ImgWidth(m)
    decreases hi - lo
  {
    if hi <= lo then 0
    else MatchedRows(m, found, lo, hi - 1, lrX) + (if RowMatches(m, found, hi - 1, lrX) then 1 else 0)
  }

  /** `nMatched > (lrY - ulY) * .8` */
  predicate SidesVerified(m: seq<seq<bool>>, found: seq<ImageBox>, b: ImageBox)
    requires IsRect(m) && 0 <= b.ulY && b.lrY <= ImgHeight(m) && b.lrX <= ImgWidth(m)
  {
    5 * MatchedRows(m, found, b.ulY, b.lrY, b.lrX) > 4 * (b.lrY - b.ulY)
  }

  /**
   * What holds of the `k`-th recorded box: it lies in the image, it is wider and taller
   * than `minWidth`, its right edge was confirmed against the boxes recorded before it, and
   * it contains the pixel it was grown from, a new pixel at that time.
   */
  ghost predicate Recorded(m: seq<seq<bool>>, minWidth: int, fs: seq<ImageBox>, k: int)
    requires IsRect(m) && 0 <= k < |fs|
  {
    var b := fs[k];
    0 <= b.ulX && 0 <= b.ulY && b.lrX <= ImgWidth(m) && b.lrY <= ImgHeight(m)
    && b.lrX - b.ulX > minWidth && b.lrY - b.ulY > minWidth
    && SidesVerified(m, fs[..k], b)
    && exists x, y :: Contains(b, x, y) && InImage(m, x, y) && NewBoxAt(m, fs[..k], x, y)
  }

  /** Recording another box keeps what held of the earlier ones. */
  lemma RecordedPrefix(m: seq<seq<bool>>, minWidth: int, fs: seq<ImageBox>, b: ImageBox, k: int)
    requires IsRect(m) && 0 <= k < |fs| && Recorded(m, minWidth, fs, k)
    ensures Recorded(m, minWidth, fs + [b], k)
  {
    assert (fs + [b])[..k] == fs[..k];
  }

  /** A recorded box never lies inside an earlier one: the pixel it grew from was unclaimed. */
  lemma LaterBoxNotInside(m: seq<seq<bool>>, minWidth: int, fs: seq<ImageBox>, j: int, k: int)
    requires IsRect(m) && 0 <= j < k < |fs| && Recorded(m, minWidth, fs, k)
    ensures !(fs[j].ulX <= fs[k].ulX && fs[k].lrX <= fs[j].lrX && fs[j].ulY <= fs[k].ulY && fs[k].lrY <= fs[j].lrY)
  {
    var x, y :| Contains(fs[k], x, y) && InImage(m, x, y) && NewBoxAt(m, fs[..k], x, y);
    assert fs[..k][j] == fs[j];
    assert !Contains(fs[j], x, y);
  }

  /**
   * A recorded box shows that the image holds a pixel passing the cutoff and is wider and
   * taller than `minWidth`; and its getSubimage does not throw.
   */
  lemma RecordedBoxEvidence<T>(m: seq<seq<bool>>, minWidth: int, fs: seq<ImageBox>, k: int, img: seq<seq<T>>)
    requires IsRect(m) && 0 <= k < |fs| && Recorded(m, minWidth, fs, k) && minWidth >= 0
    requires IsRect(img) && ImgWidth(img) == ImgWidth(m) && ImgHeight(img) == ImgHeight(m)
    ensures exists x, y :: InImage(m, x, y) && m[x][y]
    ensures ImgWidth(m) > minWidth && ImgHeight(m) > minWidth
    ensures Crop(img, fs[k]).Ok?
  {
    var x, y :| Contains(fs[k], x, y) && InImage(m, x, y) && NewBoxAt(m, fs[..k], x, y);
  }

  class BoxFinder {
    /** The cutoff's verdict for each pixel, indexed [x][y]. */
    const img: seq<seq<bool>>
    const minWidth: int
    var foundImages: seq<ImageBox>

    constructor (img: seq<seq<bool>>, minWidth: int)
      ensures this.img == img && this.minWidth == minWidth && foundImages == []
    {
      this.img := img;
      this.minWidth := minWidth;
      foundImages := [];
    }

    /** `alreadyFound`: the loop over the recorded boxes. */
    method AlreadyFound(x: int, y: int) returns (r: bool)
      ensures r == InSomeBox(foundImages, x, y)
    {
      var k := 0;
      while k < |foundImages|
        invariant 0 <= k <= |foundImages|
        invariant forall j :: 0 <= j < k ==> !Contains(foundImages[j], x, y)
      {
        if Contains(foundImages[k], x, y) {
          return true;
        }
        k := k + 1;
      }
      return false;
    }

    method IsNewBox(x: int, y: int) returns (r: bool)
      requires IsRect(img) && InImage(img, x, y)
      ensures r == NewBoxAt(img, foundImages, x, y)
    {
      var claimed := AlreadyFound(x, y);
      r := !claimed && img[x][y];
    }

    method IsBoxNearby(x: int, y: int, modifyX: bool) returns (r: FoundBox)
      requires IsRect(img) && InImage(img, x, y)
      ensures r == Nearby(img, foundImages, x, y, modifyX)
    {
      var claimed := AlreadyFound(x, y);
      if claimed {
        return NotFound;
      }
      var isNew := IsNewBox(x, y);
      if !isNew {
        var plus := false;
        if modifyX && x < |img| - 1 {
          plus := IsNewBox(x + 1, y);
        } else if !modifyX && y < |img[0]| - 1 {
          plus := IsNewBox(x, y + 1);
        }
        if plus {
          return PlusOne;
        }
        var minus := false;
        if modifyX && x > 0 {
          minus := IsNewBox(x - 1, y);
        } else if !modifyX && y > 0 {
          minus := IsNewBox(x, y - 1);
        }
        if minus {
          return MinusOne;
        }
        return NotFound;
      }
      return Found;
    }

    /**
     * The gap search of a trace (lines 73-89 and 104-120).  Its adjust branches test the
     * `found` of the enclosing step, which is NOT_FOUND there, so the drift and the corner
     * never move during a gap search; it succeeds exactly when the gap is jumped.
     */
    method GapSearch(found: FoundBox, drift0: int, corner0: int, scan: int, modifyX: bool)
      returns (jumpedGap: bool, drift: int, corner: int)
      requires IsRect(img) && found == NotFound
      requires 0 <= drift0 <= DriftLimit(img, modifyX) && 0 <= scan
      ensures drift == drift0 && corner == corner0
      ensures jumpedGap <==> GapJumps(img, foundImages, modifyX, drift0, scan)
    {
      drift, corner := drift0, corner0;
      jumpedGap := false;
      var i := 0;
      while i < GapWidth && !jumpedGap && scan + i < ScanLimit(img, modifyX)
        invariant 0 <= i <= GapWidth && drift == drift0 && corner == corner0
        invariant !jumpedGap ==> forall s :: scan <= s < scan + i && s < ScanLimit(img, modifyX) ==> NearbyAlong(img, foundImages, modifyX, drift0, s) == NotFound
        invariant jumpedGap ==> GapJumps(img, foundImages, modifyX, drift0, scan)
      {
        var x, y := if modifyX then drift else scan + i, if modifyX then scan + i else drift;
        var foundGap := IsBoxNearby(x, y, modifyX);
        if foundGap != NotFound {
          assert NearbyAlong(img, foundImages, modifyX, drift0, scan + i) != NotFound;
          jumpedGap := true;
        }
        if found == PlusOne {
          drift := drift + 1;
        } else if found == MinusOne {
          drift := drift - 1;
          corner := corner - 1;
        }
        i := i + 1;
      }
    }

    /**
     * One edge trace of `findBoxes`: downward from (x, y) when `modifyX` (lines 65-90),
     * rightward otherwise (lines 96-122), following the edge one pixel across at a time.
     * It ends at the last index, or at a NOT_FOUND pixel whose gap could not be jumped;
     * the corner only moves when the edge drifts back, and never past the start.
     */
    method Trace(x: int, y: int, modifyX: bool) returns (scanEnd: int, drift: int, corner: int)
      requires IsRect(img) && InImage(img, x, y)
      ensures (if modifyX then y else x) <= scanEnd <= ScanLimit(img, modifyX)
      ensures 0 <= drift <= DriftLimit(img, modifyX)
      ensures corner <= drift && corner <= (if modifyX then x else y)
      ensures scanEnd < ScanLimit(img, modifyX) ==>
        NearbyAlong(img, foundImages, modifyX, drift, scanEnd) == NotFound
        && !GapJumps(img, foundImages, modifyX, drift, scanEnd)
    {
      var limit := ScanLimit(img, modifyX);
      scanEnd := if modifyX then y else x;
      drift := if modifyX then x else y;
      corner := drift;
      while scanEnd < limit
        invariant (if modifyX then y else x) <= scanEnd <= limit
        invariant 0 <= drift <= DriftLimit(img, modifyX)
        invariant corner <= drift && corner <= (if modifyX then x else y)
        decreases limit - scanEnd
      {
        var px, py := if modifyX then drift else scanEnd, if modifyX then scanEnd else drift;
        var found := IsBoxNearby(px, py, modifyX);
        if found == PlusOne {
          drift := drift + 1;
        } else if found == MinusOne {
          drift := drift - 1;
          corner := corner - 1;
        } else if found == NotFound {
          var jumpedGap;
          jumpedGap, drift, corner := GapSearch(found, drift, corner, scanEnd, modifyX);
          if !jumpedGap {
            return;
          }
        }
        scanEnd := scanEnd + 1;
      }
    }

    /**
     * `verifySides`: the rows of `ulY..lrY` whose right edge is confirmed number more than
     * four fifths of the height.
     */
    method VerifySides(ulX: int, ulY: int, lrX: int, lrY: int) returns (ok: bool)
      requires IsRect(img) && 0 <= ulY && lrY <= ImgHeight(img) && lrX <= ImgWidth(img)
      ensures ok <==> SidesVerified(img, foundImages, ImageBox(ulX, ulY, lrX, lrY))
    {
      var nMatched := 0;
      var y := ulY;
      while y < lrY
        invariant ulY <= y && (y <= lrY || lrY < ulY)
        invariant nMatched == MatchedRows(img, foundImages, ulY, Min(y, lrY), lrX)
        decreases lrY - y
      {
        var x := lrX - 1;
        var matched := false;
        while x > lrX - 50 && x > 0
          invariant x < lrX
          invariant forall x' :: x < x' < lrX && Max(lrX - 49, 1) <= x' ==> Nearby(img, foundImages, x', y, true) == NotFound
          decreases x
        {
          var found := IsBoxNearby(x, y, true);
          if found != NotFound {
            matched := true;
            break;
          }
          x := x - 1;
        }
        assert matched <==> RowMatches(img, foundImages, y, lrX);
        if matched {
          nMatched := nMatched + 1;
        }
        y := y + 1;
      }
      ok := 5 * nMatched > 4 * (lrY - ulY);
    }

    /**
     * `findBoxes`: scans x in `[1, width - minWidth)` and y in `[1, height - minWidth)` and
     * records every box whose traces and right edge pass; with `shortCircuit` it returns
     * after the first.  Boxes are only ever appended.
     */
    method FindBoxes(shortCircuit: bool) returns (r: seq<ImageBox>)
      requires IsRect(img) && minWidth >= 0
      modifies this
      ensures r == foundImages
      ensures |old(foundImages)| <= |r| && r[..|old(foundImages)|] == old(foundImages)
      ensures forall k :: |old(foundImages)| <= k < |r| ==> Recorded(img, minWidth, r, k)
      ensures shortCircuit ==> |r| <= |old(foundImages)| + 1
    {
      ghost var start := foundImages;
      var width, height := |img|, |img[0]|;
      var x := 1;
      while x < width - minWidth
        invariant 1 <= x
        invariant |start| <= |foundImages| && foundImages[..|start|] == start
        invariant forall k :: |start| <= k < |foundImages| ==> Recorded(img, minWidth, foundImages, k)
        invariant shortCircuit ==> foundImages == start
        decreases width - x
      {
        var y := 1;
        while y < height - minWidth
          invariant 1 <= y
          invariant |start| <= |foundImages| && foundImages[..|start|] == start
          invariant forall k :: |start| <= k < |foundImages| ==> Recorded(img, minWidth, foundImages, k)
          invariant shortCircuit ==> foundImages == start
          decreases height - y
        {
          var isNew := IsNewBox(x, y);
          if isNew {
            var lowerRightY, _, upperLeftX := Trace(x, y, true);
            if lowerRightY - y > minWidth {
              var maybeX, _, upperLeftY := Trace(x, y, false);
              if maybeX - x > minWidth {
                upperLeftY := Max(0, upperLeftY);
                upperLeftX := Max(0, upperLeftX);
                maybeX := Min(width, maybeX);
                lowerRightY := Min(height, lowerRightY);
                var ok := VerifySides(upperLeftX, upperLeftY, maybeX, lowerRightY);
                if ok {
                  RecordBox(x, y, upperLeftX, upperLeftY, maybeX, lowerRightY, start);
                  if shortCircuit {
                    return foundImages;
                  }
                }
              }
            }
          }
          y := y + 1;
        }
        x := x + 1;
      }
      r := foundImages;
    }

    /** `foundImages.add(new ImageBox(...))`, with what the scan established about the box. */
    method RecordBox(x: int, y: int, ulX: int, ulY: int, lrX: int, lrY: int, ghost start: seq<ImageBox>)
      requires IsRect(img) && InImage(img, x, y) && NewBoxAt(img, foundImages, x, y)
      requires 0 <= ulX <= x < lrX <= ImgWidth(img) && 0 <= ulY <= y < lrY <= ImgHeight(img)
      requires lrX - ulX > minWidth && lrY - ulY > minWidth
      requires SidesVerified(img, foundImages, ImageBox(ulX, ulY, lrX, lrY))
      requires |start| <= |foundImages| && foundImages[..|start|] == start
      requires forall k :: |start| <= k < |foundImages| ==> Recorded(img, minWidth, foundImages, k)
      modifies this
      ensures foundImages == old(foundImages) + [ImageBox(ulX, ulY, lrX, lrY)]
      ensures |start| <= |foundImages| && foundImages[..|start|] == start
      ensures forall k :: |start| <= k < |foundImages| ==> Recorded(img, minWidth, foundImages, k)
    {
      var b := NewImageBox(ulX, ulY, lrX, lrY, |img|, |img[0]|);
      ghost var fs := foundImages;
      forall k | |start| <= k < |fs|
        ensures Recorded(img, minWidth, fs + [b], k)
      {
        RecordedPrefix(img, minWidth, fs, b, k);
      }
      assert (fs + [b])[..|fs|] == fs;
      assert Contains(b, x, y);
      foundImages := foundImages + [b];
      assert foundImages[..|start|] == fs[..|start|];
    }
  }
}
