/**
 * Java images as the finders see them: a `BufferedImage` is a rectangle of pixels indexed
 * `[x][y]` like `getRGB(x, y)`, and a `Color` is its red, green and blue channels.
 */
module JavaImage {
  /** The channels of a `java.awt.Color`, each 0..255. */
  datatype Rgb = Rgb(r: int, g: int, b: int)

  predicate IsColour(c: Rgb) { 0 <= c.r <= 255 && 0 <= c.g <= 255 && 0 <= c.b <= 255 }

  /** A non-empty rectangle of pixels, column by column. */
  predicate IsRect<T>(img: seq<seq<T>>)
  {
    |img| >= 1 && |img[0]| >= 1 && forall x :: 0 <= x < |img| ==> |img[x]| == |img[0]|
  }

  /** `getWidth()` and `getHeight()` */
  function ImgWidth<T>(img: seq<seq<T>>): nat { |img| }

  function ImgHeight<T>(img: seq<seq<T>>): nat
    requires IsRect(img)
  {
    |img[0]|
  }

  /** An image whose every pixel has channels in 0..255. */
  predicate IsImage(img: seq<seq<Rgb>>)
  {
    IsRect(img) && forall x, y :: 0 <= x < |img| && 0 <= y < |img[x]| ==> IsColour(img[x][y])
  }
}
