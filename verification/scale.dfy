/** Nearest-neighbour resampling (`ScaleImage` in internal/imageproc/scale.go, duplicated
    as `scaleImage` in main.go and internal/imageproc/adjust.go).

    Destination pixel (x, y) copies source pixel (⌊x·W/tW⌋, ⌊y·H/tH⌋); the source is
    only read, and the result is a new buffer of exactly the requested size. */
module Scale {
  import opened Arith
  import opened Raster

  /** The source coordinate sampled for destination coordinate `x` when `size` source
      pixels are stretched over `target` destination pixels. */
  function SourceIndex(x: nat, size: nat, target: nat): (s: nat)
    requires x < target
    ensures size >= 1 ==> s < size
  {
    if size >= 1 then DivLtIff(x * size, target, size); MulLt(x, target, size); x * size / target
    else 0
  }

  /** A new `tW` × `tH` image; with a non-empty source every pixel is copied unchanged from
      the sampled source position, which lies inside the source even when enlarging. With an
      empty source every read falls outside it and yields `Transparent`. */
  function ScaleImage(img: Image, tW: nat, tH: nat): (r: Image)
    ensures r.width == tW && r.height == tH
    ensures img.width >= 1 && img.height >= 1 ==>
              forall y, x :: 0 <= y < tH && 0 <= x < tW ==>
                r.rows[y][x] == img.rows[SourceIndex(y, img.height, tH)][SourceIndex(x, img.width, tW)]
    ensures img.width == 0 || img.height == 0 ==>
              forall y, x :: 0 <= y < tH && 0 <= x < tW ==> r.rows[y][x] == Transparent
  {
    var rows := seq(tH, y requires 0 <= y < tH =>
                  seq(tW, x requires 0 <= x < tW =>
                    At(img, SourceIndex(x, img.width, tW), SourceIndex(y, img.height, tH))));
    assert forall y, x :: 0 <= y < tH && 0 <= x < tW ==>
             rows[y][x] == At(img, SourceIndex(x, img.width, tW), SourceIndex(y, img.height, tH));
    Grid(tW, tH, rows)
  }

  /** Sampled positions never go backwards: a later destination pixel reads a source pixel
      at the same or a later position. */
  lemma SourceIndexMonotone(x: nat, x': nat, size: nat, target: nat)
    requires x <= x' < target
    ensures SourceIndex(x, size, target) <= SourceIndex(x', size, target)
  {
    if size >= 1 {
      MulLe(x, x', size);
      DivMonotone(x * size, x' * size, target);
    }
  }

  /** Every output pixel is some pixel of a non-empty source: no colour is invented. */
  lemma ScaledPixelsComeFromSource(img: Image, tW: nat, tH: nat, x: nat, y: nat)
    requires img.width >= 1 && img.height >= 1
    requires x < tW && y < tH
    ensures exists sx, sy :: 0 <= sx < img.width && 0 <= sy < img.height
              && ScaleImage(img, tW, tH).rows[y][x] == img.rows[sy][sx]
  {
    var sx := SourceIndex(x, img.width, tW);
    var sy := SourceIndex(y, img.height, tH);
    assert ScaleImage(img, tW, tH).rows[y][x] == img.rows[sy][sx];
  }

  /** Scaling to the source's own size reproduces the source. */
  lemma ScaleToOwnSizeIsIdentity(img: Image)
    ensures ScaleImage(img, img.width, img.height) == img
  {
    var r := ScaleImage(img, img.width, img.height);
    forall y | 0 <= y < img.height
      ensures r.rows[y] == img.rows[y]
    {
      assert SourceIndex(y, img.height, img.height) == y by {
        FloorUnique(y * img.height, img.height, y);
      }
      forall x | 0 <= x < img.width
        ensures r.rows[y][x] == img.rows[y][x]
      {
        FloorUnique(x * img.width, img.width, x);
      }
    }
  }

  /** Shrinking by a whole factor k samples every k-th source pixel, starting at 0
      (800 → 400 reads columns 0, 2, 4, …). */
  lemma WholeFactorSamplesEveryKth(x: nat, k: nat, target: nat)
    requires x < target && k >= 1
    ensures SourceIndex(x, k * target, target) == k * x
  {
    assert (k * x) * target == x * (k * target);
    FloorUnique(x * (k * target), target, k * x);
  }
}
