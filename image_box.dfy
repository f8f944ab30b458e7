/** `ImageBox`: a rectangle of an image, clamped to it when built, and the crop it selects. */
module ImageBoxes {
  import opened Wrappers
  import opened Numeric
  import opened JavaImage

  /** The upper-left and lower-right corners. */
  datatype ImageBox = ImageBox(ulX: int, ulY: int, lrX: int, lrY: int)

  /**
   * The constructor: the upper-left corner is raised to the image origin and the
   * lower-right corner lowered to the image's width and height; corners already inside
   * are kept.
   */
  function NewImageBox(ulX: int, ulY: int, lrX: int, lrY: int, width: int, height: int): (b: ImageBox)
    ensures 0 <= b.ulX && 0 <= b.ulY && b.lrX <= width && b.lrY <= height
    ensures (0 <= ulX ==> b.ulX == ulX) && (0 <= ulY ==> b.ulY == ulY)
    ensures (lrX <= width ==> b.lrX == lrX) && (lrY <= height ==> b.lrY == lrY)
    ensures b.ulX >= ulX && b.ulY >= ulY && b.lrX <= lrX && b.lrY <= lrY
  {
    ImageBox(Max(0, ulX), Max(0, ulY), Min(width, lrX), Min(height, lrY))
  }

  /** `contains`, inclusive on all four edges. */
  predicate Contains(b: ImageBox, x: int, y: int)
  {
    x <= b.lrX && x >= b.ulX && y <= b.lrY && y >= b.ulY
  }

  /** Building a box intersects the given rectangle with the image's closed extent. */
  lemma ClampIsIntersection(ulX: int, ulY: int, lrX: int, lrY: int, width: int, height: int, x: int, y: int)
    ensures Contains(NewImageBox(ulX, ulY, lrX, lrY, width, height), x, y) <==>
      Contains(ImageBox(ulX, ulY, lrX, lrY), x, y) && 0 <= x <= width && 0 <= y <= height
  {
  }

  /** Building a box from the corners of a built box changes nothing. */
  lemma ClampIdempotent(ulX: int, ulY: int, lrX: int, lrY: int, width: int, height: int)
    ensures var b := NewImageBox(ulX, ulY, lrX, lrY, width, height);
      NewImageBox(b.ulX, b.ulY, b.lrX, b.lrY, width, height) == b
  {
  }

  /**
   * `crop`: `getSubimage(ulX, ulY, lrX - ulX, lrY - ulY)`, the pixels of columns
   * `ulX..lrX` and rows `ulY..lrY`, lower-right edges excluded; an empty or outlying area
   * raises a RasterFormatException.
   */
  function Crop<T>(img: seq<seq<T>>, b: ImageBox): (r: Result<seq<seq<T>>>)
    requires IsRect(img)
    ensures r.Ok? <==> 0 <= b.ulX < b.lrX <= ImgWidth(img) && 0 <= b.ulY < b.lrY <= ImgHeight(img)
    ensures r.Ok? ==>
      |r.value| == b.lrX - b.ulX && forall i :: 0 <= i < |r.value| ==> |r.value[i]| == b.lrY - b.ulY
    ensures r.Ok? ==> forall i, j :: 0 <= i < |r.value| && 0 <= j < |r.value[i]| ==>
      r.value[i][j] == img[b.ulX + i][b.ulY + j]
  {
    if 0 <= b.ulX < b.lrX <= |img| && 0 <= b.ulY < b.lrY <= |img[0]| then
      Ok(seq(b.lrX - b.ulX, i requires 0 <= i < b.lrX - b.ulX => img[b.ulX + i][b.ulY..b.lrY]))
    else Err("RasterFormatException")
  }

  /**
   * A crop is an image again, and every pixel the box contains, short of its lower-right
   * edges, appears in it at its offset from the upper-left corner.
   */
  lemma CropHoldsContained<T>(img: seq<seq<T>>, b: ImageBox)
    requires IsRect(img) && Crop(img, b).Ok?
    ensures IsRect(Crop(img, b).value)
    ensures forall x, y :: Contains(b, x, y) && x < b.lrX && y < b.lrY ==>
      Crop(img, b).value[x - b.ulX][y - b.ulY] == img[x][y]
  {
    var c := Crop(img, b).value;
    forall x, y | Contains(b, x, y) && x < b.lrX && y < b.lrY
      ensures c[x - b.ulX][y - b.ulY] == img[x][y]
    {
      assert c[x - b.ulX][y - b.ulY] == img[b.ulX + (x - b.ulX)][b.ulY + (y - b.ulY)];
    }
  }
}
