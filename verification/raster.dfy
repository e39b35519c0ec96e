/** Pixel buffers as the engine sees them: a rectangular grid of colours with its
    origin at (0,0), row-major (`rows[y][x]`). The width is kept explicitly because
    an image with no rows still has a width. */
module Raster {

  newtype byte = x: int | 0 <= x < 256

  /** One 8-bit RGBA sample. */
  datatype Pixel = RGBA(r: byte, g: byte, b: byte, a: byte)

  /** The colour Go's `RGBA.At` reports for a point outside the image. */
  const Transparent: Pixel := RGBA(0, 0, 0, 0)

  datatype Grid = Grid(width: nat, height: nat, rows: seq<seq<Pixel>>)
  {
    /** The rows are exactly `height` rows of exactly `width` pixels. */
    predicate Rectangular()
    {
      |rows| == height && forall y :: 0 <= y < |rows| ==> |rows[y]| == width
    }
  }

  /** An image: a rectangular grid. */
  type Image = g: Grid | g.Rectangular() witness Grid(0, 0, [])

  const Empty: Image := Grid(0, 0, [])

  /** The colour at (x, y); outside the image this is `Transparent`, as with `image.RGBA.At`. */
  function At(img: Image, x: nat, y: nat): (p: Pixel)
    ensures x < img.width && y < img.height ==> p == img.rows[y][x]
    ensures !(x < img.width && y < img.height) ==> p == Transparent
  {
    if x < img.width && y < img.height then img.rows[y][x] else Transparent
  }
}
