/** Target dimensions for an aspect ratio (`calculateTargetDimensions` in main.go,
    called as `CalculateTargetDimensions` from the imageproc package).

    The source computes `aw/ah` in float64 and truncates; here the same quantities are
    exact floor divisions, which can differ from the float result by one pixel at a
    boundary. */
module Geometry {
  import opened Arith

  /** Width and height of an image, in pixels. */
  datatype Dims = Dims(width: nat, height: nat)

  /** An aspect ratio w:h as written in the catalog; `Ratio(0, 0)` is the "no match" sentinel. */
  datatype Ratio = Ratio(w: nat, h: nat)
  {
    predicate Positive()
    {
      w >= 1 && h >= 1
    }
  }

  /** The largest value not above `limit` whose ratio to `other` does not exceed num:den,
      i.e. `min(limit, ⌊other·num/den⌋)`. */
  function Fit(limit: nat, other: nat, num: nat, den: nat): (f: nat)
    requires num >= 1 && den >= 1
    ensures f <= limit
    ensures f * den <= other * num
    ensures f < limit ==> other * num < (f + 1) * den
  {
    FloorBounds(other * num, den);
    var g := other * num / den;
    if g < limit then g else MulLe(limit, g, den); limit
  }

  /** The target for an aspect ratio: `min(W, ⌊H·aw/ah⌋)` by `min(H, ⌊W·ah/aw⌋)`. Each
      component is the largest value not above the original whose ratio to the other
      original side does not exceed aw:ah (respectively ah:aw). */
  function CalculateTargetDimensions(o: Dims, q: Ratio): (t: Dims)
    requires q.Positive()
    ensures t.width <= o.width && t.height <= o.height
    ensures t.width * q.h <= o.height * q.w
    ensures t.width < o.width ==> o.height * q.w < (t.width + 1) * q.h
    ensures t.height * q.w <= o.width * q.h
    ensures t.height < o.height ==> o.width * q.h < (t.height + 1) * q.w
  {
    Dims(Fit(o.width, o.height, q.w, q.h), Fit(o.height, o.width, q.h, q.w))
  }

  lemma FitScaled(limit: nat, other: nat, num: nat, den: nat, k: nat)
    requires num >= 1 && den >= 1 && k >= 1
    ensures Fit(limit, other, k * num, k * den) == Fit(limit, other, num, den)
  {
    assert other * (k * num) == (other * num) * k;
    assert k * den == den * k;
    DivCancel(other * num, den, k);
  }

  /** At least one side is kept whole: if the width is cut, the height is not. */
  lemma OneSideKept(o: Dims, q: Ratio)
    requires q.Positive()
    ensures var t := CalculateTargetDimensions(o, q);
            t.width == o.width || t.height == o.height
  {
    var t := CalculateTargetDimensions(o, q);
    if t.width < o.width && t.height < o.height {
      MulLe(t.width + 1, o.width, q.h);
      MulLe(t.height + 1, o.height, q.w);
      assert false;
    }
  }

  /** An image already in the ratio (W·ah = H·aw) is its own target. */
  lemma ExactRatioKept(o: Dims, q: Ratio)
    requires q.Positive()
    requires o.width * q.h == o.height * q.w
    ensures CalculateTargetDimensions(o, q) == o
  {
    var t := CalculateTargetDimensions(o, q);
    if t.width < o.width {
      MulLe(t.width + 1, o.width, q.h);
    }
    if t.height < o.height {
      MulLe(t.height + 1, o.height, q.w);
    }
  }

  /** Only the value of the ratio matters: k·aw : k·ah gives the same target. */
  lemma TargetDependsOnlyOnRatioValue(o: Dims, q: Ratio, k: nat)
    requires q.Positive() && k >= 1
    ensures CalculateTargetDimensions(o, Ratio(k * q.w, k * q.h)) == CalculateTargetDimensions(o, q)
  {
    FitScaled(o.width, o.height, q.w, q.h, k);
    FitScaled(o.height, o.width, q.h, q.w, k);
  }

  /** The cases of `TestCalculateTargetDimensions`, each within the one-pixel slack the test allows. */
  lemma TargetTestVectors()
    ensures CalculateTargetDimensions(Dims(1271, 799), Ratio(3, 2)) == Dims(1198, 799)
    ensures CalculateTargetDimensions(Dims(1920, 1080), Ratio(16, 9)) == Dims(1920, 1080)
    ensures CalculateTargetDimensions(Dims(1280, 853), Ratio(16, 9)) == Dims(1280, 720)
    ensures CalculateTargetDimensions(Dims(1400, 1050), Ratio(4, 3)) == Dims(1400, 1050)
    ensures CalculateTargetDimensions(Dims(1000, 500), Ratio(16, 9)) == Dims(888, 500)
    ensures CalculateTargetDimensions(Dims(999, 500), Ratio(2, 1)) == Dims(999, 499)
    ensures CalculateTargetDimensions(Dims(500, 1000), Ratio(1, 2)) == Dims(500, 1000)
    ensures CalculateTargetDimensions(Dims(5000, 3333), Ratio(3, 2)) == Dims(4999, 3333)
  {
  }
}
