/**
 * One iteration of each script's `while running` loop, without drawing,
 * event polling, sensor printing or frame pacing. The loop keeps one extra
 * flag, `temp`, that lets the return search run only once; here it is
 * `Sim.searched`.
 */
module Control {
  import opened Options
  import opened Geometry
  import opened Neighbourhood
  import opened Vehicle
  import opened Collision
  import Bfs
  import BfsTheorems

  /** The arrow keys held this tick. */
  datatype Keys = Keys(left: bool, right: bool, up: bool, down: bool)

  /**
   * The manual policy: left wins over right and sets yaw 270 (right: 90);
   * up wins over down and sets yaw 0 (down: 180), overriding the horizontal
   * yaw; an axis with neither key gets velocity 0. Yaw is kept when no key
   * is held.
   */
  function Manual(d: Drone, k: Keys, speed: real): (r: Drone)
    ensures r.vx == (if k.left then -speed else if k.right then speed else 0.0)
    ensures r.vy == (if k.up then -speed else if k.down then speed else 0.0)
    ensures (k.up || k.down) ==> r.yaw == (if k.up then 0 else 180)
    ensures !(k.up || k.down) && (k.left || k.right) ==> r.yaw == (if k.left then 270 else 90)
    ensures !(k.left || k.right || k.up || k.down) ==> r == d.(vx := 0.0, vy := 0.0)
    ensures r == d.(vx := r.vx, vy := r.vy, yaw := r.yaw)
  {
    var h := if k.left then d.(vx := -speed, yaw := 270)
             else if k.right then d.(vx := speed, yaw := 90)
             else d.(vx := 0.0);
    if k.up then h.(vy := -speed, yaw := 0)
    else if k.down then h.(vy := speed, yaw := 180)
    else h.(vy := 0.0)
  }

  /** In drone.py each velocity component is 0 or +-10. */
  lemma ManualComponents(d: Drone, k: Keys)
    ensures var r := Manual(d, k, Speed(DroneScript));
      (r.vx == 0.0 || r.vx == 10.0 || r.vx == -10.0) && (r.vy == 0.0 || r.vy == 10.0 || r.vy == -10.0)
  {
  }

  /** The loop state: the drone and the `temp` flag. */
  datatype Sim = Sim(d: Drone, searched: bool)

  /** Why a loop stopped: no route home, the arrival test, or a Python exception. */
  datatype Exit = NoRoute | Arrived | Raised

  datatype Tick = Running(s: Sim) | Ended(s: Sim, why: Exit)

  /** The route for a return tick: the search's result, `None`, or an exception before any result. */
  datatype Route = Found(route: seq<Point>) | Missing | Fails

  function FromOption(o: Option<seq<Point>>): Route {
    match o
    case Some(r) => Found(r)
    case None => Missing
  }

  /** `[p for p in trail if p not in exclude]`, order kept. */
  function Without(trail: seq<Point>, exclude: seq<Point>): (r: seq<Point>)
    ensures forall p :: p in r <==> p in trail && p !in exclude
  {
    if |trail| == 0 then []
    else (if trail[0] !in exclude then [trail[0]] else []) + Without(trail[1..], exclude)
  }

  /**
   * drone.py's return search: the window search over the trail minus
   * `path_to_home`, from the trail's last point to home. `path[-1]` on an
   * empty trail and a start missing from the point set raise.
   */
  function DroneScriptSearch(d: Drone): Route {
    if |d.path| == 0 then Fails
    else
      var pts := Without(d.path, d.pathToHome);
      var start := Last(d.path);
      if start in pts || start == d.home then FromOption(Bfs.FindPath(Symmetric4, pts, start, d.home))
      else Fails
  }

  /** The method form `bfs_find_path(self)`: from the trail's last point to its first. */
  function TrailSearch(h: Hood, trail: seq<Point>): Route {
    if |trail| == 0 then Fails
    else FromOption(Bfs.FindPath(h, trail, Last(trail), trail[0]))
  }

  /** map_test.py's return search: from the trail's last point to home. */
  function MapTestSearch(d: Drone): Route {
    if |d.path| == 0 then Fails
    else FromOption(Bfs.FindPath(Symmetric4, d.path, Last(d.path), d.home))
  }

  /** The route a return tick works on: the search the first time, the stored list afterwards. */
  function RouteFor(s: Sim, search: Route): Route {
    if s.searched then Found(s.d.path) else search
  }

  /** Pop the next waypoint and aim at it: `v = (n - position) * PIXEL_TO_CM`. */
  function AimAt(d: Drone, route: seq<Point>): Drone
    requires |route| > 0
  {
    d.(path := route[1..],
       vx := (route[0].0 as real - d.x) * PixelToCm,
       vy := (route[0].1 as real - d.y) * PixelToCm)
  }

  /**
   * What a return search should answer, over the points of `trail`, from
   * its last point to `dest`: a shortest walk when one exists and `Missing`
   * exactly when none does; never an exception.
   */
  ghost predicate ShortestReturn(h: Hood, trail: seq<Point>, dest: Point, route: Route)
    requires |trail| > 0
  {
    var pts := Bfs.PointSet(trail);
    var start := Last(trail);
    match route
    case Found(r) =>
      && BfsTheorems.IsWalk(h, pts, start, r) && Last(r) == dest && BfsTheorems.Distinct(r)
      && forall w :: BfsTheorems.IsWalk(h, pts, start, w) && Last(w) == dest ==> |r| <= |w|
    case Missing => forall w :: BfsTheorems.IsWalk(h, pts, start, w) ==> Last(w) != dest
    case Fails => false
  }

  /**
   * The method form of the search, from the trail's end back to its head,
   * answers as it should (map_from_data.py with the skewed window,
   * random_map.py with the symmetric one).
   */
  lemma TrailSearchShortest(h: Hood, trail: seq<Point>)
    requires |trail| > 0
    ensures ShortestReturn(h, trail, trail[0], TrailSearch(h, trail))
  {
    BfsTheorems.FindPathCorrect(h, trail, Last(trail), trail[0]);
  }

  // ---------------------------------------------------------------- drone.py

  /**
   * drone.py, lines 226-270. Manual flight above half battery; below half
   * and above zero a return tick; at exactly half, or at zero or below, or
   * with an empty route, the tick does nothing.
   */
  function DroneScriptTick(s: Sim, k: Keys, obs: seq<Point>): (t: Tick)
    ensures s.d.battery == Half(DroneScript) ==> t == Running(s)
    ensures s.d.battery <= 0.0 ==> t == Running(s)
    ensures s.d.battery < Half(DroneScript) && |s.d.path| == 0 ==> t == Running(s)
    ensures s.d.battery > Half(DroneScript) ==> t.Running? && t.s.searched == s.searched
    ensures 0.0 < s.d.battery < Half(DroneScript) && |s.d.path| > 0 ==> t.s.searched
    ensures s.searched ==> t.s.searched
    ensures t.Ended? ==> t.why != Arrived
  {
    var c := DroneScript;
    var d := s.d;
    if d.battery > Half(c) then
      Running(Sim(CheckPoints(Move(c, Manual(d, k, Speed(c))), obs, true).0, s.searched))
    else if |d.path| > 0 && d.battery < Half(c) && d.battery > 0.0 then
      match RouteFor(s, DroneScriptSearch(d))
      case Fails => Ended(Sim(d, true), Raised)
      case Missing => Ended(Sim(d, true), NoRoute)
      case Found(r) =>
        if |r| == 0 then Ended(Sim(d.(path := r), true), NoRoute)
        else Running(Sim(CheckPoints(Move(c, AimAt(d, r)), obs, true).0, true))
    else Running(s)
  }

  /**
   * Because `path_to_home` is `[home]`, home is never in drone.py's search
   * set: the search answers `[home]` when the trail already ends at home and
   * `None` otherwise.
   */
  lemma DroneScriptSearchExcludesHome(d: Drone)
    requires |d.path| > 0 && d.pathToHome == [d.home]
    ensures DroneScriptSearch(d) == if Last(d.path) == d.home then Found([d.home]) else Missing
  {
    var pts := Without(d.path, d.pathToHome);
    var start := Last(d.path);
    if start != d.home {
      assert start in pts;
      BfsTheorems.FindPathMissingDest(Symmetric4, pts, start, d.home);
    }
  }

  /** So the first return tick away from home ends the loop with no route. */
  lemma DroneScriptReturnStops(s: Sim, k: Keys, obs: seq<Point>)
    requires !s.searched && |s.d.path| > 0 && s.d.pathToHome == [s.d.home]
    requires 0.0 < s.d.battery < Half(DroneScript) && Last(s.d.path) != s.d.home
    ensures DroneScriptTick(s, k, obs) == Ended(Sim(s.d, true), NoRoute)
  {
    DroneScriptSearchExcludesHome(s.d);
  }

  /**
   * A manual tick of drone.py: the keys set each velocity component to 0 or
   * +-10, the drone moves by it, records its truncated position and pays one
   * drain; it is crashed afterwards exactly when its new box holds an
   * obstacle point, and a crash zeroes the velocity.
   */
  lemma DroneScriptManualTick(s: Sim, k: Keys, obs: seq<Point>)
    requires !s.d.crashed && s.d.battery > Half(DroneScript)
    ensures var t := DroneScriptTick(s, k, obs);
      var d := t.s.d;
      var vx := if k.left then -10.0 else if k.right then 10.0 else 0.0;
      var vy := if k.up then -10.0 else if k.down then 10.0 else 0.0;
      && t.Running? && t.s.searched == s.searched
      && d.x * PixelToCm == s.d.x * PixelToCm + vx
      && d.y * PixelToCm == s.d.y * PixelToCm + vy
      && d.battery == s.d.battery - Drain(DroneScript)
      && d.path == s.d.path + [(Trunc(d.x), Trunc(d.y))]
      && (d.crashed <==> PointHit(d, obs))
      && (d.crashed ==> d.vx == 0.0 && d.vy == 0.0)
      && (!d.crashed ==> d.vx == vx && d.vy == vy)
  {
    var m := Move(DroneScript, Manual(s.d, k, Speed(DroneScript)));
    assert Speed(DroneScript) == 10.0;
    var r := CheckPoints(m, obs, true);
    assert PointHit(r.0, obs) == PointHit(m, obs) by {
      assert r.0.x == m.x && r.0.y == m.y;
    }
  }

  /**
   * A return tick of drone.py on a stored route: the drone lands exactly on
   * the route's first point and, because drone.py's `move` always records,
   * that point goes from the head of the list to its end. One drain is paid
   * and the drone is crashed exactly when its box holds an obstacle point.
   */
  lemma DroneScriptRouteTick(s: Sim, k: Keys, obs: seq<Point>)
    requires s.searched && !s.d.crashed && 0.0 < s.d.battery < Half(DroneScript) && |s.d.path| > 0
    ensures var t := DroneScriptTick(s, k, obs);
      var d := t.s.d;
      var n := s.d.path[0];
      && t.Running? && t.s.searched
      && d.x == n.0 as real && d.y == n.1 as real
      && d.path == s.d.path[1..] + [n]
      && d.battery == s.d.battery - Drain(DroneScript)
      && (d.crashed <==> PointHit(d, obs))
  {
    ReturnLanding(s.d, s.d.path, obs);
  }

  /** One drone.py return move toward the head of `route`, as the two lemmas around it use it. */
  lemma ReturnLanding(d: Drone, route: seq<Point>, obs: seq<Point>)
    requires !d.crashed && |route| > 0 && Records(DroneScript, d)
    ensures var r := CheckPoints(Move(DroneScript, AimAt(d, route)), obs, true).0;
      var n := route[0];
      && r.x == n.0 as real && r.y == n.1 as real
      && r.path == route[1..] + [n]
      && r.battery == d.battery - Drain(DroneScript)
      && (r.crashed <==> PointHit(r, obs))
  {
    var a := AimAt(d, route);
    WaypointLanding(DroneScript, d.(path := route[1..]), route[0]);
    var m := Move(DroneScript, a);
    assert m.x == route[0].0 as real && m.y == route[0].1 as real;
    assert Trunc(m.x) == route[0].0 && Trunc(m.y) == route[0].1;
    var r := CheckPoints(m, obs, true);
    assert PointHit(r.0, obs) == PointHit(m, obs) by {
      assert r.0.x == m.x && r.0.y == m.y;
    }
  }

  /**
   * A drone.py drone whose trail already ends at home hovers there: the
   * search answers `[home]`, each return tick lands on home and records it
   * again, so the route stays `[home]` and the tick repeats, paying one drain
   * each time, until the battery reaches zero and the loop idles.
   */
  lemma DroneScriptHoversAtHome(s: Sim, k: Keys, obs: seq<Point>)
    requires !s.d.crashed && 0.0 < s.d.battery < Half(DroneScript) && |s.d.path| > 0
    requires Last(s.d.path) == s.d.home && s.d.pathToHome == [s.d.home]
    requires s.searched ==> s.d.path == [s.d.home]
    ensures var t := DroneScriptTick(s, k, obs);
      var d := t.s.d;
      && t.Running? && t.s.searched
      && d.x == s.d.home.0 as real && d.y == s.d.home.1 as real
      && d.path == [s.d.home] && d.home == s.d.home && d.pathToHome == s.d.pathToHome
      && d.battery == s.d.battery - Drain(DroneScript)
      && (d.crashed <==> PointHit(d, obs))
  {
    if !s.searched {
      DroneScriptSearchExcludesHome(s.d);
    }
    ReturnLanding(s.d, [s.d.home], obs);
    assert [s.d.home][1..] + [s.d.home] == [s.d.home];
  }

  // ---------------------------------------------------------- map_from_data.py

  /** map_from_data.py, lines 273-327. */
  function MapFromDataTick(s: Sim, k: Keys, obs: seq<Point>): (t: Tick)
    ensures s.d.battery > Half(MapFromData) ==> t.Running? && t.s.searched == s.searched
    ensures s.d.battery <= Half(MapFromData) ==> t.s.searched
    ensures t.Ended? ==> s.d.battery <= Half(MapFromData)
  {
    var c := MapFromData;
    var d := s.d;
    if d.battery > Half(c) then
      Running(Sim(CheckPoints(Move(c, Manual(d, k, Speed(c))), obs, false).0, s.searched))
    else
      match RouteFor(s, TrailSearch(Skewed10, d.path))
      case Fails => Ended(Sim(d, true), Raised)
      case Missing => Ended(Sim(d, true), NoRoute)
      case Found(r) =>
        if |r| == 0 then Ended(Sim(d.(path := r), true), NoRoute)
        else
          var d' := CheckPoints(Move(c, AimAt(d, r)), obs, false).0;
          if |d'.path| == 1 || d'.battery < 0.0 then Ended(Sim(d', true), Arrived)
          else Running(Sim(d', true))
  }

  /**
   * A return tick of map_from_data.py on a stored route: the drone lands
   * exactly on the route's first point, the route loses exactly that point
   * (no trail is recorded below half battery), the search does not run again
   * and one drain is paid.
   */
  lemma MapFromDataReturnTick(s: Sim, k: Keys, obs: seq<Point>)
    requires s.searched && !s.d.crashed && s.d.battery <= Half(MapFromData) && |s.d.path| > 0
    ensures var t := MapFromDataTick(s, k, obs);
      var n := s.d.path[0];
      && t.s.searched
      && t.s.d.x == n.0 as real && t.s.d.y == n.1 as real
      && t.s.d.path == s.d.path[1..]
      && t.s.d.battery == s.d.battery - Drain(MapFromData)
      && (t.Ended? <==> |s.d.path| == 2 || s.d.battery - Drain(MapFromData) < 0.0)
  {
    WaypointLanding(MapFromData, s.d.(path := s.d.path[1..]), s.d.path[0]);
  }

  /** A manual tick of map_from_data.py keeps home at the head of the trail. */
  lemma MapFromDataManualKeepsHome(s: Sim, k: Keys, obs: seq<Point>)
    requires |s.d.path| > 0 && s.d.path[0] == s.d.home && s.d.battery > Half(MapFromData)
    ensures var t := MapFromDataTick(s, k, obs);
      t.Running? && |t.s.d.path| > 0 && t.s.d.path[0] == t.s.d.home && t.s.searched == s.searched
  {
  }

  /**
   * A failed first search in map_from_data.py: `bfs_find_path` returns
   * `None`, so the loop stops with no route and the drone stays where it is.
   */
  lemma MapFromDataNoRouteStops(s: Sim, k: Keys, obs: seq<Point>)
    requires !s.searched && s.d.battery <= Half(MapFromData) && |s.d.path| > 0
    ensures Bfs.FindPath(Skewed10, s.d.path, Last(s.d.path), s.d.path[0]).None? ==>
      MapFromDataTick(s, k, obs) == Ended(Sim(s.d, true), NoRoute)
  {
  }

  // ------------------------------------------------------------ random_map.py

  /** The manual half of random_map.py and map_test.py: a crash respawns a fresh drone. */
  function ManualRespawn(c: Copy, d: Drone, k: Keys, obs: seq<Rect>, respawn: Point): (r: Drone)
    ensures !r.crashed
    ensures var m := Move(c, Manual(d, k, Speed(c)));
      (d.crashed || RectHit(m, obs)) ==>
        && r.x == respawn.0 as real && r.y == respawn.1 as real && r.battery == Capacity(c)
        && r.home == respawn && r.path == [respawn]
    ensures var m := Move(c, Manual(d, k, Speed(c)));
      (!d.crashed && !RectHit(m, obs)) ==>
        && r.x * PixelToCm == d.x * PixelToCm + r.vx && r.y * PixelToCm == d.y * PixelToCm + r.vy
        && r.battery == d.battery - Drain(c) && r.home == d.home
        && (|d.path| > 0 ==> |r.path| > 0 && r.path[0] == d.path[0])
  {
    var m := CheckRects(Move(c, Manual(d, k, Speed(c))), obs);
    if m.crashed then Reset(c, respawn.0, respawn.1) else m
  }

  /**
   * random_map.py, lines 256-327. Both halves are plain `if`s, so a manual
   * tick that drains the battery to half runs the return half in the same
   * iteration. A return tick copies the route's LAST entry into the
   * velocity, drops the FIRST entry, checks collision, then moves.
   */
  function RandomMapTick(s: Sim, k: Keys, obs: seq<Rect>, respawn: Point): (t: Tick)
    ensures t.s.searched <==> s.searched || t.s.d.battery <= Half(RandomMap)
    ensures t.Ended? ==> t.s.searched && t.s.d.battery <= Half(RandomMap)
  {
    var c := RandomMap;
    var d1 := if s.d.battery > Half(c) then ManualRespawn(c, s.d, k, obs, respawn) else s.d;
    if d1.battery <= Half(c) then
      match RouteFor(Sim(d1, s.searched), TrailSearch(Symmetric4, d1.path))
      case Fails => Ended(Sim(d1, true), Raised)
      case Missing => Ended(Sim(d1, true), Raised)
      case Found(r) =>
        var d2 := if |r| > 0 then d1.(vx := Last(r).0 as real, vy := Last(r).1 as real, path := r[1..])
                  else d1.(path := r);
        var d3 := Move(c, CheckRects(d2, obs));
        if |d3.path| == 1 && d3.battery < Half(c) then Ended(Sim(d3, true), Arrived)
        else Running(Sim(d3, true))
    else Running(Sim(d1, s.searched))
  }

  /**
   * A return tick of random_map.py on a stored route: the velocity becomes
   * the route's last point, the route loses exactly its first point, and an
   * uncrashed drone that does not hit anything moves by that velocity.
   */
  lemma RandomMapReturnTick(s: Sim, k: Keys, obs: seq<Rect>, respawn: Point)
    requires s.searched && !s.d.crashed && s.d.battery <= Half(RandomMap) && |s.d.path| > 0
    requires !RectHit(s.d, obs)
    ensures var t := RandomMapTick(s, k, obs, respawn);
      var l := Last(s.d.path);
      && t.s.d.vx == l.0 as real && t.s.d.vy == l.1 as real
      && t.s.d.path == s.d.path[1..]
      && t.s.d.x * PixelToCm == s.d.x * PixelToCm + l.0 as real
      && t.s.d.y * PixelToCm == s.d.y * PixelToCm + l.1 as real
      && t.s.d.battery == s.d.battery - Drain(RandomMap)
      && (t.Ended? <==> |s.d.path| == 2)
      && (t.Ended? ==> t.why == Arrived)
  {
    var d2 := s.d.(vx := Last(s.d.path).0 as real, vy := Last(s.d.path).1 as real, path := s.d.path[1..]);
    assert d2.x == s.d.x && d2.y == s.d.y;
    assert !RectHit(d2, obs);
  }

  /** A failed search in random_map.py reaches `len(None)` and raises. */
  lemma RandomMapNoRouteRaises(s: Sim, k: Keys, obs: seq<Rect>, respawn: Point)
    requires !s.searched && s.d.battery <= Half(RandomMap) && |s.d.path| > 0
    ensures Bfs.FindPath(Symmetric4, s.d.path, Last(s.d.path), s.d.path[0]).None? ==>
      RandomMapTick(s, k, obs, respawn) == Ended(Sim(s.d, true), Raised)
  {
  }

  // -------------------------------------------------------------- map_test.py

  /**
   * map_test.py's manual half keeps home at the head of the trail: `reset`
   * starts the trail at home, and a tick without a crash only appends. This
   * is what makes the return search toward `home` a search toward `path[0]`.
   */
  lemma MapTestManualKeepsHome(d: Drone, k: Keys, obs: seq<Rect>, respawn: Point)
    requires |d.path| > 0 && d.path[0] == d.home
    ensures var r := ManualRespawn(MapTest, d, k, obs, respawn);
      |r.path| > 0 && r.path[0] == r.home
  {
  }

  /**
   * map_test.py, lines 197-294. The return half never calls `move`: it pops
   * the route's first point, copies its last point into the velocity and
   * checks collision. A failed search makes line 290's `len(None)` raise.
   */
  function MapTestTick(s: Sim, k: Keys, obs: seq<Rect>, respawn: Point): (t: Tick)
    ensures t.s.searched <==> s.searched || t.s.d.battery <= Half(MapTest)
    ensures t.Ended? ==> t.s.searched && t.s.d.battery <= Half(MapTest)
  {
    var c := MapTest;
    var d1 := if s.d.battery > Half(c) then ManualRespawn(c, s.d, k, obs, respawn) else s.d;
    if d1.battery <= Half(c) then
      match RouteFor(Sim(d1, s.searched), MapTestSearch(d1))
      case Fails => Ended(Sim(d1, true), Raised)
      case Missing => Ended(Sim(CheckRects(d1, obs), true), Raised)
      case Found(r) =>
        var d2 := if |r| > 0 then d1.(vx := Last(r).0 as real, vy := Last(r).1 as real, path := r[1..])
                  else d1.(path := r);
        var d3 := CheckRects(d2, obs);
        if |d3.path| == 1 && d3.battery < Half(c) then Ended(Sim(d3, true), Arrived)
        else Running(Sim(d3, true))
    else Running(Sim(d1, s.searched))
  }

  /** A map_test.py return tick leaves position and battery alone and pops one route point. */
  lemma MapTestReturnTick(s: Sim, k: Keys, obs: seq<Rect>, respawn: Point)
    requires s.searched && s.d.battery <= Half(MapTest) && |s.d.path| > 0
    ensures var t := MapTestTick(s, k, obs, respawn);
      && t.s.d.x == s.d.x && t.s.d.y == s.d.y && t.s.d.battery == s.d.battery
      && t.s.d.path == s.d.path[1..]
      && (t.Ended? <==> |s.d.path| == 2 && s.d.battery < Half(MapTest))
      && (t.Ended? ==> t.why == Arrived)
  {
  }

  /**
   * A failed first search in map_test.py skips the pop (`None` is falsy),
   * still checks collision, and then raises at the stop test's `len(None)`.
   */
  lemma MapTestNoRouteRaises(s: Sim, k: Keys, obs: seq<Rect>, respawn: Point)
    requires !s.searched && s.d.battery <= Half(MapTest) && |s.d.path| > 0
    ensures Bfs.FindPath(Symmetric4, s.d.path, Last(s.d.path), s.d.home).None? ==>
      MapTestTick(s, k, obs, respawn) == Ended(Sim(CheckRects(s.d, obs), true), Raised)
  {
  }

  /**
   * map_test.py's search from the trail's end to home, which need not be on
   * the trail, answers a shortest window walk over the trail whenever one
   * exists and `None` exactly when none does.
   */
  lemma MapTestSearchShortest(d: Drone)
    requires |d.path| > 0
    ensures ShortestReturn(Symmetric4, d.path, d.home, MapTestSearch(d))
  {
    BfsTheorems.FindPathCorrect(Symmetric4, d.path, Last(d.path), d.home);
  }
}
