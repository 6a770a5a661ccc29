/**
 * The `Drone` class of the four scripts: its state, `reset`, the per-tick
 * integrator `move` and the `go_home` index walker. The scripts differ only
 * in constants and in whether `move` always extends the trail; `Copy` names
 * the script whose constants apply.
 */
module Vehicle {
  import opened Options
  import opened Geometry
  import opened Neighbourhood
  import Bfs

  /** Which of the four scripts: drone.py, map_from_data.py, random_map.py, map_test.py. */
  datatype Copy = DroneScript | MapFromData | RandomMap | MapTest

  /** `MAX_BATTERY_LIFE_SEC`. */
  function Capacity(c: Copy): real {
    match c
    case DroneScript => 240.0
    case MapFromData => 10.0
    case RandomMap => 10.0
    case MapTest => 100.0
  }

  /** The battery threshold `MAX_BATTERY_LIFE_SEC / 2` that separates manual flight from return. */
  function Half(c: Copy): real {
    Capacity(c) / 2.0
  }

  /** Battery drained by one uncrashed `move`: `1 / SENSOR_UPDATE_RATE` or `0.35 / SENSOR_UPDATE_RATE`. */
  function Drain(c: Copy): (r: real)
    ensures r > 0.0
  {
    match c
    case DroneScript => 1.0 / 10.0
    case MapFromData => 1.0 / 10.0
    case RandomMap => 0.35 / 10.0
    case MapTest => 0.35 / 10.0
  }

  /** The manual speed `MAX_SPEED_MPS * SPEED_FACTOR` (drone.py's factor is 800*600 / (800*600) = 1). */
  function Speed(c: Copy): real {
    match c
    case DroneScript => 10.0 * ((800 * 600) as real / (800 * 600) as real)
    case MapFromData => 10.0 * 1.5
    case RandomMap => 3.0
    case MapTest => 3.0
  }

  /** Copies whose `move` appends to the trail only while the battery is above half. */
  predicate TrailGated(c: Copy) {
    c == MapFromData || c == RandomMap
  }

  /** Copies whose `reset` computes `path_to_home` with the window search. */
  predicate KeepsPathToHome(c: Copy) {
    c == DroneScript || c == MapTest
  }

  /**
   * The drone's attributes. `path` is the trail and, once the return search
   * has run, the remaining route: the scripts reuse one list for both.
   * `pathToHome` stays empty in the copies that have no such attribute;
   * `waypoint` is `current_position`, which only `go_home` sets.
   */
  datatype Drone = Drone(
    x: real, y: real,
    vx: real, vy: real,
    yaw: int,
    battery: real,
    crashed: bool,
    path: seq<Point>,
    home: Point,
    pathToHome: seq<Point>,
    index: int,
    waypoint: Option<Point>)

  /**
   * `Drone(x, y)`, which calls `reset`. In drone.py and map_test.py the reset
   * also runs the window search from the one-point trail to home.
   */
  function Reset(c: Copy, x0: int, y0: int): (d: Drone)
    ensures d.x == x0 as real && d.y == y0 as real && d.home == (x0, y0)
    ensures d.vx == 0.0 && d.vy == 0.0 && d.yaw == 0
    ensures d.battery == Capacity(c) && !d.crashed && d.index == 0
    ensures d.path == [d.home]
    ensures KeepsPathToHome(c) ==> d.pathToHome == [d.home]
  {
    var home := (x0, y0);
    var toHome := if KeepsPathToHome(c) then Bfs.FindPath(Symmetric4, [home], home, home).GetOr([]) else [];
    Drone(x0 as real, y0 as real, 0.0, 0.0, 0, Capacity(c), false, [home], home, toHome, 0, None)
  }

  /** Whether this `move` appends the truncated position to the trail. */
  predicate Records(c: Copy, d: Drone) {
    !TrailGated(c) || d.battery > Half(c)
  }

  /**
   * `move`: unless crashed, advance by the velocity over `PIXEL_TO_CM`,
   * append the truncated position (subject to the copy's battery gate,
   * read before draining) and drain a fixed amount whatever the velocity.
   */
  function Move(c: Copy, d: Drone): (r: Drone)
    ensures d.crashed ==> r == d
    ensures !d.crashed ==>
      && r.x * PixelToCm == d.x * PixelToCm + d.vx
      && r.y * PixelToCm == d.y * PixelToCm + d.vy
      && r.battery == d.battery - Drain(c)
      && r.path == (if Records(c, d) then d.path + [(Trunc(r.x), Trunc(r.y))] else d.path)
      && r == d.(x := r.x, y := r.y, path := r.path, battery := r.battery)
  {
    if d.crashed then d
    else
      var x := d.x + d.vx / PixelToCm;
      var y := d.y + d.vy / PixelToCm;
      d.(x := x, y := y,
         path := if Records(c, d) then d.path + [(Trunc(x), Trunc(y))] else d.path,
         battery := d.battery - Drain(c))
  }

  /** `move` applied `n` times. */
  function Moves(c: Copy, d: Drone, n: nat): Drone
    decreases n
  {
    if n == 0 then d else Moves(c, Move(c, d), n - 1)
  }

  /**
   * Over `n` uncrashed ticks the battery falls by exactly `n` drains, the
   * velocity is untouched, and the trail only grows at its end.
   */
  lemma {:induction false} MovesDrain(c: Copy, d: Drone, n: nat)
    requires !d.crashed
    ensures var r := Moves(c, d, n);
      && r.battery == d.battery - n as real * Drain(c)
      && r.vx == d.vx && r.vy == d.vy && !r.crashed
      && |d.path| <= |r.path| && r.path[..|d.path|] == d.path
    decreases n
  {
    if n > 0 {
      MovesDrain(c, Move(c, d), n - 1);
    }
  }

  /**
   * map_from_data.py's battery (capacity 10, drain 0.1) stays above half
   * for exactly the first 49 uncrashed moves after a reset.
   */
  lemma HalfBatteryAfterFiftyTicks(x0: int, y0: int, n: nat)
    ensures Moves(MapFromData, Reset(MapFromData, x0, y0), n).battery > Half(MapFromData) <==> n < 50
  {
    MovesDrain(MapFromData, Reset(MapFromData, x0, y0), n);
  }

  /**
   * The return step's velocity `(n - x) * PIXEL_TO_CM` makes the next
   * uncrashed `move` land exactly on the waypoint (exact arithmetic).
   */
  lemma WaypointLanding(c: Copy, d: Drone, n: Point)
    requires !d.crashed
    ensures var r := Move(c, d.(vx := (n.0 as real - d.x) * PixelToCm, vy := (n.1 as real - d.y) * PixelToCm));
      r.x == n.0 as real && r.y == n.1 as real
  {
  }

  /**
   * `go_home`: while the index is below the length of a non-empty
   * `path_to_home`, record that entry and advance; otherwise rewind to 0.
   */
  function GoHome(d: Drone): (r: Drone)
    requires 0 <= d.index
    ensures 0 <= r.index <= |r.pathToHome|
    ensures d.index < |d.pathToHome| ==> r.index == d.index + 1 && r.waypoint == Some(d.pathToHome[d.index])
    ensures d.index >= |d.pathToHome| ==> r.index == 0 && r.waypoint == d.waypoint
    ensures r == d.(index := r.index, waypoint := r.waypoint)
  {
    if |d.pathToHome| > 0 && d.index < |d.pathToHome| then
      d.(waypoint := Some(d.pathToHome[d.index]), index := d.index + 1)
    else
      d.(index := 0)
  }

  /** Repeated `go_home` calls walk `path_to_home` in order and then start over. */
  lemma {:induction false} GoHomeWalks(d: Drone, n: nat)
    requires d.index == 0 && n <= |d.pathToHome|
    ensures var r := GoHomeTimes(d, n);
      r.index == n && (n > 0 ==> r.waypoint == Some(d.pathToHome[n - 1]))
    decreases n
  {
    if n > 0 {
      GoHomeWalks(d, n - 1);
    }
  }

  /** After the last entry the next call rewinds, so the walk starts over at entry 0. */
  lemma GoHomeRewinds(d: Drone)
    requires d.index == 0
    ensures GoHomeTimes(d, |d.pathToHome| + 1).index == 0
    ensures |d.pathToHome| > 0 ==> GoHomeTimes(d, |d.pathToHome| + 2).waypoint == Some(d.pathToHome[0])
  {
    GoHomeWalks(d, |d.pathToHome|);
  }

  /** `go_home` applied `n` times. */
  function GoHomeTimes(d: Drone, n: nat): (r: Drone)
    requires 0 <= d.index <= |d.pathToHome|
    ensures 0 <= r.index <= |r.pathToHome| && r.pathToHome == d.pathToHome
    decreases n
  {
    if n == 0 then d else GoHome(GoHomeTimes(d, n - 1))
  }
}
