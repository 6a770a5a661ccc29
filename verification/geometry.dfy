/**
 * Integer points, pygame-style rectangles and the two hit tests the drone
 * scripts use. Positions are Python floats in the scripts; here they are
 * exact `real`s, and `int(...)` on a float is truncation toward zero.
 */
module Geometry {

  /** A pixel / grid point `(x, y)`. */
  type Point = (int, int)

  function Last<T>(s: seq<T>): T
    requires |s| > 0
  {
    s[|s| - 1]
  }

  /** Python's `int(r)` on a float: truncation toward zero. */
  function Trunc(r: real): (t: int)
    ensures r >= 0.0 ==> 0 <= t && t as real <= r < t as real + 1.0
    ensures r < 0.0 ==> t <= 0 && t as real - 1.0 < r <= t as real
  {
    if r >= 0.0 then r.Floor else -((-r).Floor)
  }

  /** An axis-aligned pygame `Rect(left, top, width, height)`. */
  datatype Rect = Rect(left: int, top: int, width: int, height: int) {
    function Right(): int { left + width }
    function Bottom(): int { top + height }
  }

  /** pygame's `collidepoint`: the rectangle is half-open on both axes. */
  predicate CollidePoint(r: Rect, p: Point) {
    r.left <= p.0 < r.Right() && r.top <= p.1 < r.Bottom()
  }

  /** pygame's `colliderect`: strict overlap of two rectangles of positive size. */
  predicate CollideRect(a: Rect, b: Rect) {
    && a.width > 0 && a.height > 0 && b.width > 0 && b.height > 0
    && a.left < b.Right() && b.left < a.Right()
    && a.top < b.Bottom() && b.top < a.Bottom()
  }

  /**
   * Two rectangles overlap exactly when some integer point lies inside both,
   * which ties the rectangle test to the point test.
   */
  lemma CollideRectIffSharedPoint(a: Rect, b: Rect)
    ensures CollideRect(a, b) <==> exists p: Point :: CollidePoint(a, p) && CollidePoint(b, p)
  {
    if CollideRect(a, b) {
      var p: Point := (if a.left < b.left then b.left else a.left,
                       if a.top < b.top then b.top else a.top);
      assert CollidePoint(a, p) && CollidePoint(b, p);
    }
    if exists p: Point :: CollidePoint(a, p) && CollidePoint(b, p) {
      var p: Point :| CollidePoint(a, p) && CollidePoint(b, p);
      assert a.width > 0 && b.width > 0;
    }
  }

  /** `DRONE_RADIUS_PX = int(DRONE_RADIUS_CM / PIXEL_TO_CM)` = int(10 / 2.5). */
  const DroneRadiusPx: int := 4

  /** `PIXEL_TO_CM`: velocity is divided by it on every move. */
  const PixelToCm: real := 2.5

  /**
   * The drone's collision box: `Rect(int(x - R), int(y - R), 2R, 2R)`.
   * The truncation is applied to `x - R`, not to `x`.
   */
  function Footprint(x: real, y: real): (r: Rect)
    ensures r.width == 2 * DroneRadiusPx && r.height == 2 * DroneRadiusPx
    ensures x >= DroneRadiusPx as real ==> r.left as real <= x - DroneRadiusPx as real < r.left as real + 1.0
    ensures y >= DroneRadiusPx as real ==> r.top as real <= y - DroneRadiusPx as real < r.top as real + 1.0
    ensures x < DroneRadiusPx as real ==> r.left as real - 1.0 < x - DroneRadiusPx as real <= r.left as real
    ensures y < DroneRadiusPx as real ==> r.top as real - 1.0 < y - DroneRadiusPx as real <= r.top as real
  {
    Rect(Trunc(x - DroneRadiusPx as real), Trunc(y - DroneRadiusPx as real),
         DroneRadiusPx * 2, DroneRadiusPx * 2)
  }
}
