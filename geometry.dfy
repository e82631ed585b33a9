/**
 * Axis-aligned rectangles over the reals, standing for CoreGraphics' `CGRect`.
 * Only what the drag-target resolver uses is modelled: the standardized edges,
 * `width * height`, and the area of `a.intersection(b)` (zero when the
 * intersection is the null rectangle). Floating-point rounding is not modelled.
 */
module Geometry {

  datatype Rect = Rect(x: real, y: real, width: real, height: real)

  /** `CGRect.zero`, the frame a view starts with. */
  const Zero := Rect(0.0, 0.0, 0.0, 0.0)

  function Min(a: real, b: real): real { if a <= b then a else b }

  function Max(a: real, b: real): real { if a >= b then a else b }

  // CoreGraphics reads a rectangle with a negative width or height as the
  // standardized one, so every edge below is taken after standardizing.
  function MinX(r: Rect): real { Min(r.x, r.x + r.width) }
  function MaxX(r: Rect): real { Max(r.x, r.x + r.width) }
  function MinY(r: Rect): real { Min(r.y, r.y + r.height) }
  function MaxY(r: Rect): real { Max(r.y, r.y + r.height) }

  /** `CGRect.width` and `CGRect.height`, which are reported standardized, hence never negative. */
  function Width(r: Rect): (w: real)
    ensures w >= 0.0
  {
    MaxX(r) - MinX(r)
  }

  function Height(r: Rect): (h: real)
    ensures h >= 0.0
  {
    MaxY(r) - MinY(r)
  }

  /** `frame.width * frame.height`. */
  function Area(r: Rect): real
  {
    Width(r) * Height(r)
  }

  /** Length of the overlap of the intervals [lo1, hi1] and [lo2, hi2]; zero when they are apart. */
  function Overlap(lo1: real, hi1: real, lo2: real, hi2: real): (d: real)
    requires lo1 <= hi1 && lo2 <= hi2
    ensures 0.0 <= d <= hi1 - lo1 && d <= hi2 - lo2
    ensures hi1 <= lo2 || hi2 <= lo1 ==> d == 0.0
    ensures lo2 <= lo1 && hi1 <= hi2 ==> d == hi1 - lo1
  {
    Max(0.0, Min(hi1, hi2) - Max(lo1, lo2))
  }

  /** The width of `a.intersection(b)`. */
  function OverlapX(a: Rect, b: Rect): real
  {
    Overlap(MinX(a), MaxX(a), MinX(b), MaxX(b))
  }

  /** The height of `a.intersection(b)`. */
  function OverlapY(a: Rect, b: Rect): real
  {
    Overlap(MinY(a), MaxY(a), MinY(b), MaxY(b))
  }

  /** The two frames lie apart, or only touch, along one of the axes. */
  predicate Apart(a: Rect, b: Rect)
  {
    MaxX(a) <= MinX(b) || MaxX(b) <= MinX(a) || MaxY(a) <= MinY(b) || MaxY(b) <= MinY(a)
  }

  /** Frame a lies inside frame b. */
  predicate Inside(a: Rect, b: Rect)
  {
    MinX(b) <= MinX(a) && MaxX(a) <= MaxX(b) && MinY(b) <= MinY(a) && MaxY(a) <= MaxY(b)
  }

  /**
   * The area of `a.intersection(b)`, or 0 when that intersection is null: frames that lie
   * apart (or only touch) on either axis overlap by nothing, and a frame lying inside
   * another overlaps it by its whole area.
   */
  function IntersectionArea(a: Rect, b: Rect): (area: real)
    ensures 0.0 <= area <= Area(a) && area <= Area(b)
    ensures Apart(a, b) ==> area == 0.0
    ensures Inside(a, b) ==> area == Area(a)
  {
    var w, h := OverlapX(a, b), OverlapY(a, b);
    ProductBelow(w, h, a);
    ProductBelow(w, h, b);
    Product(w, h)
  }

  /** The area of a w × h rectangle. */
  function Product(w: real, h: real): real
  {
    w * h
  }

  lemma ProductBelow(w: real, h: real, r: Rect)
    requires 0.0 <= w <= Width(r) && 0.0 <= h <= Height(r)
    ensures 0.0 <= Product(w, h) <= Area(r)
  {
    var wMax, hMax := Width(r), Height(r);
    assert w * h <= wMax * h;
    assert wMax * h <= wMax * hMax;
  }

  /** A rectangle covers all of its own area: a tile lying exactly on another overlaps it completely. */
  lemma SelfIntersection(r: Rect)
    ensures IntersectionArea(r, r) == Area(r)
  {
  }

  /** The overlap does not depend on which rectangle is the moved one. */
  lemma IntersectionSymmetric(a: Rect, b: Rect)
    ensures IntersectionArea(a, b) == IntersectionArea(b, a)
  {
  }
}
