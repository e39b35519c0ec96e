/** The scale-or-crop decision (`adjustImageToAspectRatio` in main.go, called as
    `AdjustImageToAspectRatio` from internal/imageproc/process.go).

    With `widthDiff = W − tW` and `heightDiff = H − tH`: both within the tolerance means
    scale, exactly one means crop, neither means the image is returned as it is. */
module Adjust {
  import opened Raster
  import opened Geometry
  import Scale
  import Crop

  /** What an adjuster does with the image. */
  datatype Action = ScaleTo(width: nat, height: nat) | CropTo(width: nat, height: nat) | Leave

  function Size(img: Image): Dims
  {
    Dims(img.width, img.height)
  }

  /** Carries out an action: a scaled image has exactly the requested size, a cropped one
      is never larger than the source, and `Leave` returns the source itself. */
  function Apply(img: Image, a: Action): (r: Image)
    ensures a.ScaleTo? ==> r.width == a.width && r.height == a.height
    ensures a.CropTo? ==> r.width <= img.width && r.height <= img.height
    ensures a.Leave? ==> r == img
  {
    match a
    case ScaleTo(w, h) => Scale.ScaleImage(img, w, h)
    case CropTo(w, h) => Crop.CropImage(img, w, h)
    case Leave => img
  }

  /** The branch taken for an image of size `o`: scaling is preferred whenever both axes
      are within the tolerance. */
  function ChooseAdjustment(o: Dims, tW: nat, tH: nat, tolerance: int): (a: Action)
    ensures a == ScaleTo(tW, tH) <==> o.width - tW <= tolerance && o.height - tH <= tolerance
    ensures a == CropTo(tW, tH) <==> (o.width - tW <= tolerance) != (o.height - tH <= tolerance)
    ensures a == Leave <==> o.width - tW > tolerance && o.height - tH > tolerance
  {
    var widthDiff := o.width - tW;
    var heightDiff := o.height - tH;
    if widthDiff <= tolerance && heightDiff <= tolerance then ScaleTo(tW, tH)
    else if widthDiff <= tolerance || heightDiff <= tolerance then CropTo(tW, tH)
    else Leave
  }

  /** The adjusted image: resampled to exactly tW × tH when scaling, cropped when exactly
      one side is within the tolerance, and the source itself otherwise. */
  function AdjustImageToAspectRatio(img: Image, tW: nat, tH: nat, tolerance: int): (r: Image)
    ensures img.width - tW <= tolerance && img.height - tH <= tolerance ==>
              r.width == tW && r.height == tH && r == Scale.ScaleImage(img, tW, tH)
    ensures (img.width - tW <= tolerance) != (img.height - tH <= tolerance) ==>
              r == Crop.CropImage(img, tW, tH)
    ensures img.width - tW > tolerance && img.height - tH > tolerance ==> r == img
  {
    Apply(img, ChooseAdjustment(Size(img), tW, tH, tolerance))
  }

  /** When the adjuster crops to a target inside the source, it keeps exactly the centred
      tW × tH window. */
  lemma AdjustCropsCentredWindow(img: Image, tW: nat, tH: nat, tolerance: int)
    requires (img.width - tW <= tolerance) != (img.height - tH <= tolerance)
    requires 1 <= tW <= img.width && 1 <= tH <= img.height
    ensures var r := AdjustImageToAspectRatio(img, tW, tH, tolerance);
            && r.width == tW && r.height == tH
            && forall y, x :: 0 <= y < tH && 0 <= x < tW ==>
                 r.rows[y][x] == img.rows[(img.height - tH) / 2 + y][(img.width - tW) / 2 + x]
  {
  }

  /** For a target computed from a catalog ratio one side is never cut, so with a
      non-negative tolerance the image is always scaled or cropped, never left alone. */
  lemma CatalogTargetNeverLeft(o: Dims, q: Ratio, tolerance: int)
    requires q.Positive() && tolerance >= 0
    ensures var t := CalculateTargetDimensions(o, q);
            ChooseAdjustment(o, t.width, t.height, tolerance) != Leave
  {
    OneSideKept(o, q);
  }

  /** The boundary cases: losses of 50 and 150 pixels at tolerance 100 crop; 50 and 50 scale. */
  lemma ScaleCropBoundaryExamples()
    ensures ChooseAdjustment(Dims(450, 450), 400, 300, 100) == CropTo(400, 300)
    ensures ChooseAdjustment(Dims(450, 350), 400, 300, 100) == ScaleTo(400, 300)
    ensures ChooseAdjustment(Dims(550, 450), 400, 300, 100) == Leave
  {
  }
}
