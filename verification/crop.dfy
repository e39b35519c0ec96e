/** Centred crop (`CropImage` in internal/imageproc/crop.go, duplicated as `cropImage` in
    main.go and internal/imageproc/adjust.go).

    The crop rectangle starts at ((W−tW)/2, (H−tH)/2) with Go's truncating division and
    is `tW` × `tH`. `SubImage` intersects it with the source bounds and returns an empty
    image when the intersection is empty. The result is re-based at (0,0). */
module Crop {
  import opened Arith
  import opened Raster

  /** One axis of the clipped crop rectangle, as (first kept source index, count kept). */
  function Span(size: nat, t: nat): (sp: (nat, nat))
    ensures sp.0 + sp.1 <= size
    ensures t <= size ==> sp == ((size - t) / 2, t)
    ensures t > size ==> sp == (0, size)
  {
    var start := Quo(size - t, 2);
    var end := start + t;
    var lo := if start < 0 then 0 else start;
    var hi := if end > size then size else end;
    assert lo <= hi;
    (lo, hi - lo)
  }

  /** The `w` × `h` block of `img` whose top-left corner is (x0, y0), re-based at (0,0). */
  function Window(img: Image, x0: nat, w: nat, y0: nat, h: nat): (r: Image)
    requires x0 + w <= img.width && y0 + h <= img.height
    ensures r.width == w && r.height == h
    ensures forall y, x :: 0 <= y < h && 0 <= x < w ==> r.rows[y][x] == img.rows[y0 + y][x0 + x]
  {
    var rows := seq(h, y requires 0 <= y < h => seq(w, x requires 0 <= x < w => img.rows[y0 + y][x0 + x]));
    assert forall y, x :: 0 <= y < h && 0 <= x < w ==> rows[y][x] == img.rows[y0 + y][x0 + x];
    Grid(w, h, rows)
  }

  /** The window of `img` the crop keeps; empty when either axis keeps nothing. */
  function CropImage(img: Image, tW: nat, tH: nat): (r: Image)
    ensures r.width <= img.width && r.height <= img.height
    ensures r.width == 0 <==> r.height == 0
    ensures tW == 0 || tH == 0 ==> r == Empty
    ensures 1 <= tW <= img.width && 1 <= tH <= img.height ==>
              && r.width == tW && r.height == tH
              && forall y, x :: 0 <= y < tH && 0 <= x < tW ==>
                   r.rows[y][x] == img.rows[(img.height - tH) / 2 + y][(img.width - tW) / 2 + x]
    ensures tW > img.width && 1 <= tH <= img.height && img.width >= 1 ==>
              && r.width == img.width && r.height == tH
              && forall y, x :: 0 <= y < tH && 0 <= x < img.width ==>
                   r.rows[y][x] == img.rows[(img.height - tH) / 2 + y][x]
    ensures 1 <= tW <= img.width && tH > img.height && img.height >= 1 ==>
              && r.width == tW && r.height == img.height
              && forall y, x :: 0 <= y < img.height && 0 <= x < tW ==>
                   r.rows[y][x] == img.rows[y][(img.width - tW) / 2 + x]
  {
    var (x0, w) := Span(img.width, tW);
    var (y0, h) := Span(img.height, tH);
    if w == 0 || h == 0 then Empty else Window(img, x0, w, y0, h)
  }

  /** The pixels cut away before and after the window: equal when the difference is even,
      and one more after (right or bottom) when it is odd. */
  lemma CropMargins(size: nat, t: nat)
    requires t <= size
    ensures var (start, len) := Span(size, t);
            var after := size - start - len;
            start <= after <= start + 1
  {
  }

  /** Cropping a non-empty image to its own size reproduces it. */
  lemma CropToOwnSizeIsIdentity(img: Image)
    requires img.width >= 1 && img.height >= 1
    ensures CropImage(img, img.width, img.height) == img
  {
    var r := CropImage(img, img.width, img.height);
    forall y | 0 <= y < img.height
      ensures r.rows[y] == img.rows[y]
    {
    }
  }

  /** Crop offsets: 800×600 → 400×300 starts at (200,150), and so does 801×600, whose
      odd extra column is cut on the right; 1280×853 → 1280×720 starts at (0,66). */
  lemma CropOffsetExamples()
    ensures Span(800, 400) == (200, 400) && Span(600, 300) == (150, 300)
    ensures Span(801, 400) == (200, 400)
    ensures Span(1280, 1280) == (0, 1280) && Span(853, 720) == (66, 720)
  {
  }
}
