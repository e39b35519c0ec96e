/** The second adjuster (`AdjustToAspectRatio` in internal/imageproc/adjust.go).

    It keeps the height of an image wider than the target ratio and the width of any
    other, cuts the remaining side to the ratio, caps the result at the original size,
    and then scales when the aspect-ratio values differ by at most `tolerance` and crops
    otherwise. The float64 ratios of the source are exact rationals here. */
module AltAdjust {
  import opened Arith
  import opened Raster
  import opened Geometry
  import opened Adjust

  /** `calculateAdjustedDimensions`: the image is wider than tW:tH exactly when
      W·tH > tW·H; then the height stays and the width becomes the largest width whose
      ratio to H does not exceed tW:tH. Otherwise the width stays and the height is cut
      the same way. With positive target terms, an image with no height or no width comes
      out 0 × 0, as the infinite or NaN float64 ratio of such an image makes it in the
      source. A zero target term is allowed as long as no 0/0 ratio reaches an integer
      conversion: a zero target width needs a positive target height and a positive
      original width. */
  function CalculateAdjustedDimensions(o: Dims, tW: nat, tH: nat): (a: Dims)
    requires tW >= 1 || (tH >= 1 && o.width >= 1)
    ensures o.width * tH > o.height * tW ==>
              a.height == o.height && a.width * tH <= o.height * tW < (a.width + 1) * tH
    ensures o.width * tH <= o.height * tW ==>
              a.width == o.width && a.height * tW <= o.width * tH < (a.height + 1) * tW
  {
    var wide := o.width * tH;
    var tall := o.height * tW;
    assert wide >= 0 && tall >= 0 by {
      MulLe(0, o.width, tH);
      MulLe(0, o.height, tW);
    }
    assert tW == 0 ==> wide > tall by {
      if tW == 0 {
        MulLe(1, o.width, tH);
      }
    }
    assert tH == 0 ==> wide == 0;
    if wide > tall then Dims(FloorDiv(tall, tH), o.height)
    else Dims(o.width, FloorDiv(wide, tW))
  }

  /** A zero target height makes the target ratio +Inf: the width stays and the height
      becomes 0. A zero target width makes it 0: the height stays and the width becomes 0. */
  lemma ZeroTargetTerm(o: Dims, tW: nat, tH: nat)
    requires tW >= 1 || (tH >= 1 && o.width >= 1)
    ensures tH == 0 ==> CalculateAdjustedDimensions(o, tW, tH) == Dims(o.width, 0)
    ensures tW == 0 ==> CalculateAdjustedDimensions(o, tW, tH) == Dims(0, o.height)
  {
    var a := CalculateAdjustedDimensions(o, tW, tH);
    if tH == 0 {
      assert o.width * tH == 0;
      if a.height >= 1 {
        MulLe(1, a.height, tW);
      }
    }
    if tW == 0 {
      assert o.height * tW == 0;
      MulLe(1, o.width, tH);
      if a.width >= 1 {
        MulLe(1, a.width, tH);
      }
    }
  }

  /** The adjusted size never exceeds the original, so the `scaleDown` guard in
      `AdjustToAspectRatio` never fires. */
  lemma AdjustedWithinOriginal(o: Dims, tW: nat, tH: nat)
    requires tW >= 1 || (tH >= 1 && o.width >= 1)
    ensures var a := CalculateAdjustedDimensions(o, tW, tH);
            a.width <= o.width && a.height <= o.height
  {
    var a := CalculateAdjustedDimensions(o, tW, tH);
    if o.width * tH > o.height * tW {
      if a.width > o.width {
        MulLe(o.width, a.width, tH);
      }
    } else {
      if a.height > o.height {
        MulLe(o.height + 1, a.height, tW);
      }
    }
  }

  /** Only the value tW:tH matters: k·tW : k·tH gives the same adjusted size. */
  lemma AdjustedDependsOnlyOnRatioValue(o: Dims, tW: nat, tH: nat, k: nat)
    requires tW >= 1 || (tH >= 1 && o.width >= 1)
    requires k >= 1
    ensures CalculateAdjustedDimensions(o, k * tW, k * tH) == CalculateAdjustedDimensions(o, tW, tH)
  {
    if tH == 0 {
      assert k * tH == 0;
      assert k * tW >= 1 by { MulLe(1, tW, k); }
    } else if tW == 0 {
      assert k * tW == 0;
      assert k * tH >= 1 by { MulLe(1, tH, k); }
    } else {
      assert k * tW >= 1 by { MulLe(1, tW, k); }
      ScaledRatioSameAdjustment(o, tW, tH, k);
    }
  }

  /** The positive-term case of `AdjustedDependsOnlyOnRatioValue`. */
  lemma ScaledRatioSameAdjustment(o: Dims, tW: nat, tH: nat, k: nat)
    requires tW >= 1 && tH >= 1 && k >= 1
    ensures k * tW >= 1
    ensures CalculateAdjustedDimensions(o, k * tW, k * tH) == CalculateAdjustedDimensions(o, tW, tH)
  {
    assert k * tW >= 1 by { MulLe(1, tW, k); }
    assert o.width * (k * tH) == (o.width * tH) * k;
    assert o.height * (k * tW) == (o.height * tW) * k;
    if o.width * tH > o.height * tW {
      MulLt(o.height * tW, o.width * tH, k);
    } else {
      MulLe(o.width * tH, o.height * tW, k);
    }
    assert o.height * (k * tW) == (o.height * tW) * k;
    assert k * tH == tH * k;
    DivCancel(o.height * tW, tH, k);
    assert o.width * (k * tH) == (o.width * tH) * k;
    assert k * tW == tW * k;
    DivCancel(o.width * tH, tW, k);
  }

  /** `scaleDown`: the componentwise minimum of the adjusted and the original size. */
  function ScaleDown(a: Dims, o: Dims): (r: Dims)
    ensures r.width <= a.width && r.width <= o.width && (r.width == a.width || r.width == o.width)
    ensures r.height <= a.height && r.height <= o.height && (r.height == a.height || r.height == o.height)
  {
    Dims(if a.width < o.width then a.width else o.width, if a.height < o.height then a.height else o.height)
  }

  /** A size already within bounds is left as it is. */
  lemma ScaleDownWithinBoundsIsIdentity(a: Dims, o: Dims)
    requires a.width <= o.width && a.height <= o.height
    ensures ScaleDown(a, o) == a
  {
  }

  function Abs(x: real): real
  {
    if x < 0.0 then -x else x
  }

  /** Multiplying out the denominators of a difference of two quotients: `g` and `m` stand
      for the cross difference and the product of the denominators. */
  lemma CrossMultiplied(x: real, p: real, y: real, q: real, t: real, g: real, m: real)
    requires p > 0.0 && q > 0.0
    requires g == x * q - y * p && m == p * q
    ensures Abs(x / p - y / q) <= t <==> Abs(g) <= t * m
  {
    var d := x / p - y / q;
    assert m > 0.0;
    assert d * m == g by {
      assert (x / p) * p == x;
      assert (y / q) * q == y;
      calc {
        d * m;
        (x / p) * (p * q) - (y / q) * (p * q);
        ((x / p) * p) * q - ((y / q) * q) * p;
      }
    }
    assert Abs(d) * m == Abs(g);
    assert Abs(d) <= t <==> Abs(d) * m <= t * m;
  }

  lemma RealOfProduct(a: int, b: int)
    ensures (a * b) as real == a as real * b as real
  {
  }

  /** Comparing the two ratio values is comparing the cross products. */
  lemma RatioGapCrossMultiplied(w: real, h: real, aw: real, ah: real, t: real)
    requires h > 0.0 && ah > 0.0
    ensures Abs(w / h - aw / ah) <= t <==> Abs(w * ah - aw * h) <= t * (h * ah)
  {
    CrossMultiplied(w, h, aw, ah, t, w * ah - aw * h, h * ah);
  }

  /** `shouldScale`: the two aspect-ratio values W/H and aW/aH differ by at most `tolerance`.
      A zero height makes a float64 ratio infinite or NaN, and the comparison then fails. */
  function ShouldScale(o: Dims, a: Dims, tolerance: real): (b: bool)
    ensures o.height == 0 || a.height == 0 ==> !b
    ensures o.height >= 1 && a.height >= 1 ==>
              var (w, h, aw, ah) := (o.width as real, o.height as real, a.width as real, a.height as real);
              (b <==> Abs(w * ah - aw * h) <= tolerance * (h * ah))
  {
    if o.height == 0 || a.height == 0 then false
    else
      RatioGapCrossMultiplied(o.width as real, o.height as real, a.width as real, a.height as real, tolerance);
      Abs(o.width as real / o.height as real - a.width as real / a.height as real) <= tolerance
  }

  /** Two sizes in the same ratio pass for every non-negative tolerance and fail for every
      negative one. */
  lemma SameRatioScalesIffToleranceNonNegative(o: Dims, a: Dims, tolerance: real)
    requires o.height >= 1 && a.height >= 1
    requires o.width * a.height == a.width * o.height
    ensures ShouldScale(o, a, tolerance) <==> tolerance >= 0.0
  {
    var (w, h, aw, ah) := (o.width as real, o.height as real, a.width as real, a.height as real);
    assert w * ah == aw * h by {
      RealOfProduct(o.width, a.height);
      RealOfProduct(a.width, o.height);
    }
    assert h * ah > 0.0;
  }

  /** A larger tolerance accepts everything a smaller one does. */
  lemma ShouldScaleMonotoneInTolerance(o: Dims, a: Dims, tolerance: real, tolerance': real)
    requires tolerance <= tolerance'
    requires ShouldScale(o, a, tolerance)
    ensures ShouldScale(o, a, tolerance')
  {
  }

  /** The action `AdjustToAspectRatio` takes: always scale or crop, to the adjusted size. */
  function PlanAdjustToAspectRatio(o: Dims, tW: nat, tH: nat, tolerance: real): (act: Action)
    requires tW >= 1 || (tH >= 1 && o.width >= 1)
    ensures act.ScaleTo? || act.CropTo?
    ensures Dims(act.width, act.height) == CalculateAdjustedDimensions(o, tW, tH)
    ensures act.width <= o.width && act.height <= o.height
    ensures act.ScaleTo? <==> ShouldScale(o, CalculateAdjustedDimensions(o, tW, tH), tolerance)
  {
    var adjusted := CalculateAdjustedDimensions(o, tW, tH);
    AdjustedWithinOriginal(o, tW, tH);
    var capped :=
      if adjusted.width > o.width || adjusted.height > o.height then ScaleDown(adjusted, o) else adjusted;
    if ShouldScale(o, capped, tolerance) then ScaleTo(capped.width, capped.height)
    else CropTo(capped.width, capped.height)
  }

  /** The adjusted image is never larger than the source, and has exactly the adjusted size
      whenever that size is not degenerate. */
  function AdjustToAspectRatio(img: Image, tW: nat, tH: nat, tolerance: real): (r: Image)
    requires tW >= 1 || (tH >= 1 && img.width >= 1)
    ensures r.width <= img.width && r.height <= img.height
    ensures img.width == 0 || img.height == 0 ==> r == Empty
    ensures var a := CalculateAdjustedDimensions(Size(img), tW, tH);
            a.width >= 1 && a.height >= 1 ==> r.width == a.width && r.height == a.height
  {
    Apply(img, PlanAdjustToAspectRatio(Size(img), tW, tH, tolerance))
  }
}
