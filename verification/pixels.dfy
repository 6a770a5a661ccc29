/**
 * `load_maze_from_image` / `compute_save_obstacles`: every pixel of the
 * resized 800x600 image below the 50-pixel information strip whose colour
 * is darker than gray, by Python's tuple ordering, is an obstacle point.
 * The decoded image is a function from `(x, y)` to its `(r, g, b)`.
 */
module Pixels {
  import opened Geometry

  const ScreenWidth: int := 800
  const ScreenHeight: int := 600
  /** `INFO_DISPLAY_HEIGHT`: the rows above it are never scanned. */
  const InfoHeight: int := 50

  type Colour = (int, int, int)

  /** `obstacle_color_threshold`. */
  const Threshold: Colour := (200, 200, 200)

  /**
   * Python's `<` on sequences: the first differing position decides, and a
   * proper prefix is smaller.
   */
  function LexLess(a: seq<int>, b: seq<int>): bool
    decreases |a|
  {
    if |a| == 0 then |b| > 0
    else if |b| == 0 then false
    else if a[0] != b[0] then a[0] < b[0]
    else LexLess(a[1..], b[1..])
  }

  /** `(r, g, b) < obstacle_color_threshold`. */
  predicate IsObstacleColour(c: Colour) {
    LexLess([c.0, c.1, c.2], [Threshold.0, Threshold.1, Threshold.2])
  }

  /**
   * The tuple test spelled out: a red channel below 200 decides alone, so
   * (199, 255, 255) is an obstacle and (255, 0, 0) is not, and only an exact
   * gray (200, 200, 200) in the first two channels defers to blue.
   */
  lemma ObstacleColourIff(c: Colour)
    ensures IsObstacleColour(c) <==>
      c.0 < 200 || (c.0 == 200 && (c.1 < 200 || (c.1 == 200 && c.2 < 200)))
  {
    var a, b := [c.0, c.1, c.2], [200, 200, 200];
    assert a[1..] == [c.1, c.2] && b[1..] == [200, 200];
    assert a[1..][1..] == [c.2] && b[1..][1..] == [200];
    assert LexLess([c.2], [200]) == (c.2 < 200) by {
      assert [c.2][1..] == [] && [200][1..] == [];
    }
    assert LexLess([c.1, c.2], [200, 200]) == (c.1 < 200 || (c.1 == 200 && c.2 < 200));
  }

  /**
   * The double loop over `x in range(SCREEN_WIDTH)` and
   * `y in range(INFO_DISPLAY_HEIGHT, SCREEN_HEIGHT)`.
   */
  method ScanObstacles(image: (int, int) -> Colour) returns (obstacles: set<Point>)
    ensures forall p :: p in obstacles <==>
      0 <= p.0 < ScreenWidth && InfoHeight <= p.1 < ScreenHeight && IsObstacleColour(image(p.0, p.1))
  {
    obstacles := {};
    var x := 0;
    while x < ScreenWidth
      invariant 0 <= x <= ScreenWidth
      invariant forall p :: p in obstacles <==>
        0 <= p.0 < x && InfoHeight <= p.1 < ScreenHeight && IsObstacleColour(image(p.0, p.1))
    {
      var y := InfoHeight;
      while y < ScreenHeight
        invariant InfoHeight <= y <= ScreenHeight
        invariant forall p :: p in obstacles <==>
          ((0 <= p.0 < x && InfoHeight <= p.1 < ScreenHeight) || (p.0 == x && InfoHeight <= p.1 < y))
          && IsObstacleColour(image(p.0, p.1))
      {
        if IsObstacleColour(image(x, y)) {
          obstacles := obstacles + {(x, y)};
        }
        y := y + 1;
      }
      x := x + 1;
    }
  }
}
