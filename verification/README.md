# Simulated drone: a Dafny model

The repository is a pygame simulation of a small drone. It comes as four
scripts that share most of their code: `drone.py`, `map_from_data.py`,
`random_map.py` and `map_test.py`. In each script the user flies the drone
with the arrow keys while the battery is above half. `move` records the
drone's truncated position in a trail, `path`: on every move in drone.py
and map_test.py, and only while the battery is above half in
map_from_data.py and random_map.py. Once the battery reaches half, the
script runs a breadth-first search over the trail's points from the
drone back home, once, and then works through the returned route one
point per frame:

- drone.py and map_from_data.py aim the velocity at the route's next
  point and move onto it;
- random_map.py copies the route's last point into the velocity and
  moves by it;
- map_test.py copies the last point too but never moves on the return.

What a crash does also differs: drone.py's drone stops where it hit,
random_map.py and map_test.py respawn a fresh drone, and map_from_data.py
restarts the whole game. The obstacles are either the dark pixels of an image (`drone.py`,
`map_from_data.py`) or the wall cells of a randomly carved 15x20 maze of
40-pixel cells (`random_map.py`, `map_test.py`).

This project models the core of that behaviour:

- the search `bfs_find_path` in its three neighbourhoods:
  - the module-level 4-neighbour search;
  - the window `range(x-4, x+5)`;
  - map_from_data.py's window `range(x-10, x+10)`, which is not symmetric;
- the `Drone` operations `reset`, `move`, `check_collision` (the point and
  rectangle forms) and `go_home`;
- one iteration of each script's main loop;
- the maze carver and the grid-to-rectangle conversion;
- the pixel-obstacle test.

The modules are:

| module | file | contents |
|---|---|---|
| `Options` | options.dfy | the optional value that stands for Python's `None` |
| `Geometry` | geometry.dfy | points, `int()` truncation, pygame's `Rect` with `collidepoint` and `colliderect`, and the drone footprint |
| `Neighbourhood` | neighbourhood.dfy | the ordered candidate lists of `find_neighbors`, plus a reference adjacency predicate |
| `Bfs` | bfs.dfy | the breadth-first search as the source runs it: FIFO queue, visited set, neighbours pushed in candidate order |
| `BfsTheorems` | bfs_theorems.dfy | the search returns a shortest walk, or `None` exactly when no walk reaches the destination |
| `Vehicle` | vehicle.dfy | the drone state and each script's constants, `reset`, `move`, `go_home` |
| `Collision` | collision.dfy | both `check_collision` forms |
| `Control` | control.dfy | one loop iteration per script: the manual key policy, the one-shot return search behind `temp`, waypoint consumption, the stop conditions |
| `Maze` | maze.dfy | `carve_passages_from`, the start cell, the wall-cell rectangles |
| `Pixels` | pixels.dfy | `(r, g, b) < (200, 200, 200)` and the scan below the 50-pixel information strip |

A few conventions hold across the modules:

- Python floats are modelled as `real`, so arithmetic is exact.
- `int()` truncates toward zero.
- Tuple comparison is Python's lexicographic order.
- A Python exception in a loop iteration ends the loop with the `Raised` outcome.

Randomness and key presses are parameters:

- `random.shuffle` is a caller-supplied function that yields a permutation of the four directions.
- `random.randint` is a caller-supplied pick.
- `find_free_position` is a caller-supplied respawn point.
- Key presses are a `Keys` value.

Some of the code's behaviour is not what its overall design suggests; the model follows the code:

- drone.py's return search leaves `path_to_home`, which is always
  `[home]`, out of the searched point set. So that search never reaches
  home unless the trail already ends there (`DroneScriptSearchExcludesHome`).
- The windows are not the same in every copy: map_from_data.py uses
  -10..9, the others -4..4.
- random_map.py and map_test.py copy the route's last point, not the next
  one, into the velocity.
- map_test.py's return half never calls `move`.

## Model

| member | source | states |
|---|---|---|
| Geometry.Trunc | drone.py:169 | `int()` of a float truncates toward zero: below or equal for non-negative values, above or equal for negative ones, within one either way |
| Geometry.Footprint | drone.py:202-203 | the collision box is 8x8 and its corner is the truncation toward zero of the position minus the radius 4: at or below it for positions of at least 4, at or above it below that |
| Geometry.CollideRectIffSharedPoint | random_map.py:156-159 | `colliderect` of two boxes holds exactly when some integer point lies in both half-open boxes |
| Neighbourhood.ColumnsMembers | drone.py:133-140 | the nested `px`/`py` loops enumerate exactly the window's points other than the centre |
| Neighbourhood.CandidatesAreAdjacent | map_from_data.py:152-159 | the candidate list of each neighbourhood holds exactly the points adjacent under the reference definition |
| Neighbourhood.NeverSelf | drone.py:138 | a point is never its own neighbour |
| Neighbourhood.FourIsUnitStep | drone.py:75 | a 4-neighbour step is exactly a step of taxicab length one |
| Neighbourhood.SymmetricWindow | drone.py:136-137 | with the -4..4 window, adjacency is symmetric |
| Neighbourhood.SkewedWindowIsAsymmetric | map_from_data.py:155-156 | with `range(x-10, x+10)` a point 10 to the right is not a neighbour, yet the point 10 to the left is |
| Bfs.Neighbours | drone.py:73-79 | `find_neighbors` keeps exactly the adjacent candidates that are in the point set |
| Bfs.Pushes | drone.py:96-98 | every queued entry is the popped path extended by one listed neighbour that is not yet visited |
| Bfs.PushesComplete | drone.py:96-98 | every listed neighbour not yet visited is queued as the popped path extended by it |
| Bfs.Search | drone.py:84-99 | a returned path is non-empty and ends at the destination |
| Bfs.FindPath | drone.py:130-163 | a search whose start is the destination answers `[start]`; any answer ends at the destination |
| BfsTheorems.SearchCorrect | map_test.py:77-90 | under the queue invariant, the loop returns a distinct walk that is no longer than any walk to the destination, and `None` exactly when no walk reaches it |
| BfsTheorems.FindPathCorrect | random_map.py:92-127 | the answer is a walk from start to destination through the points, with no repeated point and minimal length; `None` comes back exactly when no walk exists |
| BfsTheorems.FindPathMissingDest | drone.py:256-257 | from a start in the point set, a destination outside it is never reached |
| BfsTheorems.FourPathIsUnitSteps | map_from_data.py:81-110 | each hop of a 4-neighbour answer has taxicab length one |
| Vehicle.Drain | random_map.py:135 | every copy drains a positive amount per move |
| Vehicle.Reset | map_test.py:35-48 | reset restores the spawn point and home, zero velocity and yaw, a full battery, uncrashed, a one-point trail; in drone.py and map_test.py `path_to_home` is `[home]` |
| Vehicle.Move | map_from_data.py:184-190 | an uncrashed move advances by velocity / 2.5 and drains once; the trail gains the truncated new position, below half battery only where the copy gates it; nothing else changes, and a crashed drone does not change |
| Vehicle.MovesDrain | random_map.py:129-135 | after n uncrashed moves the battery has fallen by exactly n drains, the velocity is unchanged and the old trail is a prefix of the new one |
| Vehicle.HalfBatteryAfterFiftyTicks | map_from_data.py:19 | with capacity 10 and drain 0.1, after n uncrashed moves from a reset the battery is above half exactly when n < 50 |
| Vehicle.WaypointLanding | drone.py:265-270 | setting velocity to `(next - position) * PIXEL_TO_CM` puts the next move exactly on the waypoint |
| Vehicle.GoHome | drone.py:123-128 | while the index is below the route length, `go_home` records that entry and advances by one; at the end it rewinds to 0; nothing else changes |
| Vehicle.GoHomeWalks | map_test.py:50-55 | n calls from index 0 leave the index at n with the waypoint at entry n-1 |
| Vehicle.GoHomeRewinds | drone.py:123-128 | the call after the last entry rewinds the index to 0, and the next one records the first entry again |
| Vehicle.GoHomeTimes | map_test.py:50-55 | repeated calls keep the index within the route and never alter the route |
| Collision.FirstPointHit | drone.py:204-209 | the loop stops at the first obstacle point inside the box, and finds none exactly when no obstacle point is inside |
| Collision.FirstRectHit | random_map.py:158-163 | the same for obstacle rectangles under `colliderect` |
| Collision.CheckPoints | map_from_data.py:220-226 | the drone crashes exactly when some obstacle point is inside its box; drone.py also zeroes the velocity, map_from_data.py does not; without a hit nothing changes |
| Collision.CheckRects | map_test.py:128-136 | the drone is crashed afterwards exactly when it was already crashed or overlaps an obstacle rectangle; a hit zeroes the velocity; without a hit nothing changes |
| Collision.CheckPointsIdempotent | drone.py:201-209 | checking collision twice gives the same drone as checking once |
| Collision.CheckRectsIdempotent | random_map.py:155-163 | the same for the rectangle form |
| Collision.CrashedStaysPut | drone.py:165-170 | a crashed drone keeps its position, battery and trail through a move and a check |
| Collision.CrashAfterTwoTicks | drone.py:246-247 | a drone 10 pixels left of an obstacle point, moving right at 10, misses it on the first tick and crashes on the second |
| Control.Manual | drone.py:226-243 | left beats right and up beats down; the vertical key's yaw overrides the horizontal one; an axis with neither key gets velocity 0; with no key only the velocity changes |
| Control.ManualComponents | drone.py:229-241 | in drone.py each velocity component is 0 or plus or minus 10 |
| Control.Without | drone.py:257 | the filtered trail holds exactly the trail points not in `path_to_home` |
| Control.DroneScriptTick | drone.py:226-270 | at exactly half battery, at zero or below, or below half with an empty trail, a drone.py iteration changes nothing; above half it flies and leaves `temp` alone; a return iteration sets `temp`, which never clears; the loop never ends by arriving |
| Control.DroneScriptSearchExcludesHome | drone.py:256-257 | because home is filtered out, the search answers `[home]` when the trail ends at home and `None` otherwise |
| Control.DroneScriptReturnStops | drone.py:255-262 | so the first return iteration away from home ends the loop with no route |
| Control.DroneScriptManualTick | drone.py:226-247 | a manual iteration moves by a key velocity of 0 or plus or minus 10, records the truncated position, drains once, is crashed exactly when an obstacle point lies in the new box, and a crash zeroes the velocity |
| Control.DroneScriptRouteTick | drone.py:255-270 | on a stored route a return iteration lands exactly on the route's first point, which moves from the head of the list to its end because `move` records it, and drains once |
| Control.ReturnLanding | drone.py:265-270 | the pop, aim, move and check of one drone.py return iteration land on the popped point and append it to the rest of the route |
| Control.DroneScriptHoversAtHome | drone.py:255-270 | once the trail ends at home the search gives `[home]`, and every return iteration lands on home and leaves the route `[home]`, draining once, so the drone hovers until the battery reaches zero |
| Control.TrailSearchShortest | map_from_data.py:147-182 | the method search from the trail's end to its head answers a shortest walk over the trail, or `None` exactly when there is none, and never raises |
| Control.MapFromDataReturnTick | map_from_data.py:301-327 | on a stored route a return iteration lands exactly on the route's first point, removes only that point, pays one drain, and ends the loop exactly when one point is left after the pop or the battery is negative |
| Control.MapFromDataTick | map_from_data.py:272-327 | above half an iteration flies and leaves `temp` alone; at or below half it sets `temp`; the loop only ends from the return half |
| Control.MapFromDataManualKeepsHome | map_from_data.py:273-296 | a manual iteration keeps home at the head of the trail and does not touch `temp` |
| Control.MapFromDataNoRouteStops | map_from_data.py:300-311 | when the first search from the trail's end to its head finds no walk, the loop ends with no route and the drone unchanged |
| Control.ManualRespawn | random_map.py:255-301 | after the manual half the drone is never crashed: a crash (or a drone already crashed) is replaced by a fresh drone at the respawn point with a full battery whose home and trail are that point, otherwise the drone moved by its velocity, drained once, and kept its home and the head of its trail |
| Control.RandomMapTick | random_map.py:255-327 | `temp` is set after an iteration exactly when it was set before or the battery is at or below half, so the search runs on the first return iteration and never again; the loop only ends at or below half with `temp` set |
| Control.RandomMapReturnTick | random_map.py:303-327 | on a stored route the velocity becomes the route's last point and the route loses its first; without a hit the drone moves by that velocity and drains once, and the loop ends, by arriving, exactly when the route had two points |
| Control.RandomMapNoRouteRaises | random_map.py:303-310 | a failed first search hits `len(None)` and raises |
| Control.MapTestTick | map_test.py:197-294 | `temp` is set after an iteration exactly when it was set before or the battery is at or below half; the loop only ends at or below half with `temp` set |
| Control.MapTestReturnTick | map_test.py:254-294 | a map_test.py return iteration pops one route point and leaves position and battery alone; the loop ends, by arriving, exactly when the route had two points and the battery is strictly below half, so at exactly half it never stops |
| Control.MapTestNoRouteRaises | map_test.py:254-294 | a failed first search skips the pop, still checks collision, and raises at the stop test's `len(None)` |
| Control.MapTestManualKeepsHome | map_test.py:35-48 | if home is the head of the trail, it still is after a manual iteration, with or without a respawn, so the return search toward home searches toward the trail's head |
| Control.MapTestSearchShortest | map_test.py:256-257 | the search from the trail's end to home answers a shortest walk over the trail, or `None` exactly when none exists |
| Maze.ZerosOpen | random_map.py:173-174 | opening a cell removes one wall if it was a wall and none otherwise |
| Maze.OpenPair | random_map.py:172-174 | carving one step sets the cell one step and the wall cell two steps toward the direction to 1, which removes at least one wall and keeps the cells of the other parity |
| Maze.OpenPairChangesOnlyTwo | random_map.py:172-174 | every other cell is unchanged |
| Maze.Carve | random_map.py:166-175 | carving keeps the grid's shape and only turns cells into 1; the wall count never grows; a wall whose row and column both differ in parity from the start stays a wall; afterwards no in-grid cell two steps from the start in any direction is a wall, and if one was, the wall count fell |
| Maze.CarveToward | map_test.py:139-148 | the direction loop keeps the same guarantees over any order of directions: afterwards none of the listed directions leads to a wall two steps away, and the wall count fell if one did before |
| Maze.OddStartAsWrittenBounds | random_map.py:218-222 | the adjusted start is always odd, and it leaves the grid exactly when the pick is the last index and that index is even |
| Maze.OddStartAsWrittenLeavesGrid | map_test.py:171-176 | with 15 rows a row pick of 14 becomes 15, past the last row; a column pick never leaves the 20 columns |
| Maze.OddStart | random_map.py:218-222 | the corrected start is odd and inside the grid, and it equals the pick whenever the pick is odd |
| Maze.OddStartAgrees | random_map.py:218-222 | wherever the as-written start stays inside the grid, the corrected start is the same cell |
| Maze.RowRects | random_map.py:228-230 | one row yields a rectangle for a column exactly when that cell is a wall, and the rectangle count equals the row's walls |
| Maze.GridRects | map_test.py:179-183 | the grid yields a 40x40 rectangle for a cell exactly when that cell is a wall, and the rectangle count equals the wall count |
| Maze.MazeGrid | random_map.py:214-224 | the carved grid of the set-up has only 0 and 1 cells, and every cell even in both coordinates stays a wall |
| Maze.MazeObstaclesAreWalls | random_map.py:213-230 | the set-up yields exactly one rectangle per remaining wall cell, so every cell even in both coordinates has one |
| Pixels.ObstacleColourIff | drone.py:52-54 | the tuple test is true exactly when red is below 200, or red is 200 and green is below 200, or both are 200 and blue is below 200 |
| Pixels.ScanObstacles | map_from_data.py:51-58 | a pixel is an obstacle exactly when it lies in x 0..799 and y 50..599 and its colour passes the tuple test |

## Left out

- Drawing, fonts, message boxes, `update_sensors`, printing and frame pacing are left out: they do not affect the drone state the model tracks.
- `pitch` and `roll` are left out: they are always 0.
- The event loop's quit event is left out.
- Image decoding and resizing are left out; the decoded image is a function from pixel to colour.
- map_from_data.py's pickle save and load are left out; pickling the obstacle set is I/O.
- `random.randint` and `random.shuffle` are caller-supplied values.
- `find_free_position` is left out; the respawn point is a parameter. Its rejection loop is randomised and may not terminate.
- map_from_data.py's restart after a crash calls `start_game` recursively, which starts a whole new game. It is not modelled: the crashed drone simply stays put.
- Floating point is left out: positions, velocities and the battery are exact reals. So `WaypointLanding` lands exactly where Python may be off by rounding.
- The search queue holds paths only, not `(node, path)` pairs: the node is always the path's last point.
- The `neighbors` dictionary is left out: neighbours are computed on demand, in the same order.
- Bfs.FindPath: requires the start to be in the point set or equal to the destination. Otherwise Python's `neighbors[current]` raises `KeyError`. The callers model that case as `Raised`.
- Vehicle.GoHome: requires a non-negative index. Python would read a negative index from the end of the list, but `current_index` starts at 0 and only grows or rewinds to 0.
- Maze.MazeObstaclesAreWalls: the set-up (`MazeGrid`) uses the corrected start `OddStart`. As written, the source raises `IndexError` on a row pick of 14 and agrees with the corrected start on every other pick (`OddStartAgrees`).
- `go_home` is never called by any main loop; it is modelled on its own.

## Findings

| source | as written | input that shows it | evidently intended | confidence | as-written member | corrected member |
|---|---|---|---|---|---|---|
| random_map.py:218-223 (also map_test.py:171-176) | `start_y = randint(0, rows - 1)`, then `+1` when even; with `rows = 15` the pick 14 becomes 15, and `grid[15][start_x]` raises `IndexError` | row pick 14 | an odd start row inside the grid | high; not executed | Maze.OddStartAsWrittenLeavesGrid | Maze.OddStart |
