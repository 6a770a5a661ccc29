/**
 * `check_collision`: test the drone's 8x8 footprint against the obstacles,
 * stopping at the first hit. drone.py and map_from_data.py test obstacle
 * points (`collidepoint`); random_map.py and map_test.py test 40x40 obstacle
 * rectangles (`colliderect`). Obstacles are given in iteration order.
 */
module Collision {
  import opened Options
  import opened Geometry
  import opened Vehicle

  /** Index of the first obstacle point inside `box` (the loop's `break`). */
  function FirstPointHit(box: Rect, obs: seq<Point>): (r: Option<nat>)
    ensures r.Some? ==> r.value < |obs| && CollidePoint(box, obs[r.value])
    ensures r.Some? ==> forall k :: 0 <= k < r.value ==> !CollidePoint(box, obs[k])
    ensures r.None? <==> forall k :: 0 <= k < |obs| ==> !CollidePoint(box, obs[k])
  {
    if |obs| == 0 then None
    else if CollidePoint(box, obs[0]) then Some(0)
    else
      match FirstPointHit(box, obs[1..])
      case None => None
      case Some(i) => Some(i + 1)
  }

  /** Index of the first obstacle rectangle overlapping `box`. */
  function FirstRectHit(box: Rect, obs: seq<Rect>): (r: Option<nat>)
    ensures r.Some? ==> r.value < |obs| && CollideRect(box, obs[r.value])
    ensures r.Some? ==> forall k :: 0 <= k < r.value ==> !CollideRect(box, obs[k])
    ensures r.None? <==> forall k :: 0 <= k < |obs| ==> !CollideRect(box, obs[k])
  {
    if |obs| == 0 then None
    else if CollideRect(box, obs[0]) then Some(0)
    else
      match FirstRectHit(box, obs[1..])
      case None => None
      case Some(i) => Some(i + 1)
  }

  /** Some obstacle point lies in the half-open box `[int(x-4), +8) x [int(y-4), +8)`. */
  ghost predicate PointHit(d: Drone, obs: seq<Point>) {
    exists k :: 0 <= k < |obs| && CollidePoint(Footprint(d.x, d.y), obs[k])
  }

  ghost predicate RectHit(d: Drone, obs: seq<Rect>) {
    exists k :: 0 <= k < |obs| && CollideRect(Footprint(d.x, d.y), obs[k])
  }

  /**
   * Point `check_collision`. With `zeroVelocity` (drone.py) a hit also sets
   * vx = vy = 0; without it (map_from_data.py) the velocity is left alone.
   * The boolean is map_from_data.py's `True` / `None` return.
   */
  function CheckPoints(d: Drone, obs: seq<Point>, zeroVelocity: bool): (r: (Drone, bool))
    ensures r.1 <==> PointHit(d, obs)
    ensures r.1 ==> r.0.crashed
    ensures r.1 && zeroVelocity ==> r.0 == d.(crashed := true, vx := 0.0, vy := 0.0)
    ensures r.1 && !zeroVelocity ==> r.0 == d.(crashed := true)
    ensures !r.1 ==> r.0 == d
  {
    match FirstPointHit(Footprint(d.x, d.y), obs)
    case None => (d, false)
    case Some(_) =>
      if zeroVelocity then (d.(crashed := true, vx := 0.0, vy := 0.0), true)
      else (d.(crashed := true), true)
  }

  /** Rectangle `check_collision`: a hit crashes the drone and zeroes its velocity. */
  function CheckRects(d: Drone, obs: seq<Rect>): (r: Drone)
    ensures r.crashed <==> d.crashed || RectHit(d, obs)
    ensures RectHit(d, obs) ==> r == d.(crashed := true, vx := 0.0, vy := 0.0)
    ensures !RectHit(d, obs) ==> r == d
  {
    match FirstRectHit(Footprint(d.x, d.y), obs)
    case None => d
    case Some(_) => d.(crashed := true, vx := 0.0, vy := 0.0)
  }

  /** Checking again changes nothing: a crashed drone stays crashed and still. */
  lemma CheckPointsIdempotent(d: Drone, obs: seq<Point>, zeroVelocity: bool)
    ensures var once := CheckPoints(d, obs, zeroVelocity).0;
      CheckPoints(once, obs, zeroVelocity).0 == once
  {
    var once := CheckPoints(d, obs, zeroVelocity).0;
    assert once.x == d.x && once.y == d.y;
    assert PointHit(once, obs) <==> PointHit(d, obs);
  }

  lemma CheckRectsIdempotent(d: Drone, obs: seq<Rect>)
    ensures CheckRects(CheckRects(d, obs), obs) == CheckRects(d, obs)
  {
    var once := CheckRects(d, obs);
    assert once.x == d.x && once.y == d.y;
    assert RectHit(once, obs) <==> RectHit(d, obs);
  }

  /**
   * Once crashed, a tick of `move` then `check_collision` leaves the drone
   * where it is; in the zeroing copies its velocity reads zero after a hit.
   */
  lemma CrashedStaysPut(c: Copy, d: Drone, obs: seq<Point>, zeroVelocity: bool)
    requires d.crashed
    ensures var r := CheckPoints(Move(c, d), obs, zeroVelocity).0;
      r.crashed && r.x == d.x && r.y == d.y && r.battery == d.battery && r.path == d.path
  {
  }

  /**
   * Scenario: obstacle (110, 100), drone at (100, 100) moving +x at 10 per
   * tick (4 pixels). The first move reaches x = 104 whose box [100, 108)
   * misses 110; the second reaches x = 108 whose box [104, 112) hits it.
   */
  lemma CrashAfterTwoTicks(d: Drone)
    requires d.x == 100.0 && d.y == 100.0 && d.vx == 10.0 && d.vy == 0.0 && !d.crashed
    ensures var one := CheckPoints(Move(DroneScript, d), [(110, 100)], true);
      && !one.1
      && var two := CheckPoints(Move(DroneScript, one.0), [(110, 100)], true);
      && two.1 && two.0.crashed && two.0.vx == 0.0 && two.0.vy == 0.0
  {
    var one := Move(DroneScript, d);
    assert one.x == 104.0;
    assert Footprint(one.x, one.y) == Rect(100, 96, 8, 8);
    var two := Move(DroneScript, one);
    assert two.x == 108.0;
    assert Footprint(two.x, two.y) == Rect(104, 96, 8, 8);
    assert CollidePoint(Footprint(two.x, two.y), (110, 100));
  }
}
