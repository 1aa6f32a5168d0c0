/**
 * Contours as `cv2.findContours` returns them, and the "largest by area"
 * choice `max(contours, key=cv2.contourArea)` that picks the outer and the
 * hole contour.
 */
module Contours {
  import opened Wrappers

  datatype Point = Point(x: int, y: int)

  /**
   * A contour: its points, plus the measures OpenCV derives from them
   * (`contourArea`, the radius of `minEnclosingCircle`, `arcLength` of the
   * closed curve). The model does not compute those measures; it takes them
   * as given.
   */
  datatype Outline = Outline(points: seq<Point>, area: real, radius: real, perimeter: real)

  /** The three measures are never negative. */
  type Contour = c: Outline | c.area >= 0.0 && c.radius >= 0.0 && c.perimeter >= 0.0
    witness Outline([], 0.0, 0.0, 0.0)

  /** Diameter of the minimum enclosing circle (`2 * radius`). */
  function EnclosingDiameter(c: Contour): (d: real)
    ensures d == 2.0 * c.radius
    ensures d >= 0.0 && d >= c.radius
  {
    2.0 * c.radius
  }

  /**
   * Index of the element Python's `max(cs, key=area)` returns: it scans
   * left to right and replaces its candidate only on a strictly larger
   * area, so the result is the FIRST element of maximal area.
   */
  function MaxAreaIndex(cs: seq<Contour>): (k: nat)
    requires |cs| > 0
    ensures k < |cs|
    ensures forall j :: 0 <= j < |cs| ==> cs[j].area <= cs[k].area
    ensures forall j :: 0 <= j < k ==> cs[j].area < cs[k].area
  {
    if |cs| == 1 then 0
    else
      var k := MaxAreaIndex(cs[..|cs| - 1]);
      if cs[|cs| - 1].area > cs[k].area then |cs| - 1 else k
  }

  /**
   * `c` is the element Python's `max(cs, key=area)` returns: it occurs in
   * `cs` at an index `k` where no element has a larger area and every
   * element before `k` has a strictly smaller one.
   */
  predicate IsFirstLargest(cs: seq<Contour>, c: Contour)
  {
    exists k :: 0 <= k < |cs| && cs[k] == c &&
      (forall j :: 0 <= j < |cs| ==> cs[j].area <= c.area) &&
      (forall j :: 0 <= j < k ==> cs[j].area < c.area)
  }

  /** The largest-area contour of the list, or `None` when the list is empty. */
  function LargestByArea(cs: seq<Contour>): (r: Option<Contour>)
    ensures r.None? <==> cs == []
    ensures r.Some? ==> r.value in cs
    ensures r.Some? ==> forall c :: c in cs ==> c.area <= r.value.area
    ensures r.Some? ==> exists k :: 0 <= k < |cs| && cs[k] == r.value &&
                                    forall j :: 0 <= j < k ==> cs[j].area < cs[k].area
    ensures r.Some? ==> IsFirstLargest(cs, r.value)
  {
    if cs == [] then None
    else
      var k := MaxAreaIndex(cs);
      assert 0 <= k < |cs| && cs[k] == cs[k];
      Some(cs[k])
  }
}
