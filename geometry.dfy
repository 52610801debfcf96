/** Pixel rectangles and their normalisation to the unit square, shared by
    the Go WinRT backend and the C++ backend. */
module Geometry {
  import opened Types

  /** `Windows.Foundation.Rect` (`winrt.Rect` on the Go side): a word's
      bounding rectangle in pixels. */
  datatype Rect = Rect(x: real, y: real, width: real, height: real)

  ghost predicate InsideImage(r: Rect, imageWidth: real, imageHeight: real)
  {
    0.0 <= r.x && 0.0 <= r.width && r.x + r.width <= imageWidth
    && 0.0 <= r.y && 0.0 <= r.height && r.y + r.height <= imageHeight
  }

  ghost predicate InUnitSquare(b: BoundingBox)
  {
    0.0 <= b.x && 0.0 <= b.width && b.x + b.width <= 1.0
    && 0.0 <= b.y && 0.0 <= b.height && b.y + b.height <= 1.0
  }

  lemma AtMostOne(x: real, d: real)
    requires d > 0.0 && x * d <= d
    ensures x <= 1.0
  {
    assert (x - 1.0) * d <= 0.0;
  }

  /** An interval [lo, hi] inside [0, d] divided by d lies inside [0, 1]. */
  lemma Ratio(lo: real, hi: real, d: real)
    requires d > 0.0 && 0.0 <= lo <= hi <= d
    ensures 0.0 <= lo / d && 0.0 <= (hi - lo) / d && lo / d + (hi - lo) / d <= 1.0
  {
    var s := lo / d + (hi - lo) / d;
    assert s * d == hi;
    AtMostOne(s, d);
  }
}
