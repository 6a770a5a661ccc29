/**
 * The random maze of random_map.py and map_test.py: an int grid of 0 (wall)
 * and 1 (passage), carved by a recursive back-tracker from an odd start
 * cell, then turned into one 40x40 obstacle rectangle per remaining wall
 * cell. `random.shuffle` is a caller-supplied choice of direction order.
 */
module Maze {
  import opened Geometry

  type Grid = seq<seq<int>>

  /** `grid_size`. */
  const CellSize: int := 40
  /** `rows, cols = SCREEN_HEIGHT // grid_size, SCREEN_WIDTH // grid_size`, i.e. 600 // 40 and 800 // 40. */
  const Rows: int := 15
  const Cols: int := 20

  predicate Shaped(g: Grid, rows: int, cols: int) {
    |g| == rows && forall r :: 0 <= r < |g| ==> |g[r]| == cols
  }

  /** `[[0 for _ in range(cols)] for _ in range(rows)]`. */
  function Walls(rows: nat, cols: nat): (g: Grid)
    ensures Shaped(g, rows, cols)
    ensures forall r, c :: 0 <= r < rows && 0 <= c < cols ==> g[r][c] == 0
  {
    seq(rows, _ => seq(cols, _ => 0))
  }

  /** The four entries of `directions`, in their listed order. */
  datatype Dir = Up | Down | Left | Right

  function Delta(d: Dir): (int, int) {
    match d
    case Up => (0, -1)
    case Down => (0, 1)
    case Left => (-1, 0)
    case Right => (1, 0)
  }

  const Directions: seq<Dir> := [Up, Down, Left, Right]

  /** `random.shuffle(directions)` yields some ordering of the four directions. */
  predicate IsShuffle(ds: seq<Dir>) {
    multiset(ds) == multiset(Directions)
  }

  function RowZeros(row: seq<int>): nat {
    if |row| == 0 then 0 else (if row[0] == 0 then 1 else 0) + RowZeros(row[1..])
  }

  /** The number of wall cells. */
  function Zeros(g: Grid): nat {
    if |g| == 0 then 0 else RowZeros(g[0]) + Zeros(g[1..])
  }

  /** `grid[r][c] = 1`. */
  function Open(g: Grid, r: int, c: int): Grid
    requires 0 <= r < |g| && 0 <= c < |g[r]|
  {
    g[r := g[r][c := 1]]
  }

  lemma {:induction false} RowZerosOpen(row: seq<int>, c: int)
    requires 0 <= c < |row|
    ensures RowZeros(row[c := 1]) == RowZeros(row) - (if row[c] == 0 then 1 else 0)
  {
    if c > 0 {
      assert row[c := 1][1..] == row[1..][c - 1 := 1];
      RowZerosOpen(row[1..], c - 1);
    } else {
      assert row[c := 1][1..] == row[1..];
    }
  }

  /** Opening a cell removes one wall if it was a wall and none otherwise. */
  lemma {:induction false} ZerosOpen(g: Grid, r: int, c: int)
    requires 0 <= r < |g| && 0 <= c < |g[r]|
    ensures Zeros(Open(g, r, c)) == Zeros(g) - (if g[r][c] == 0 then 1 else 0)
  {
    if r > 0 {
      assert Open(g, r, c)[1..] == Open(g[1..], r - 1, c);
      ZerosOpen(g[1..], r - 1, c);
    } else {
      assert Open(g, r, c)[1..] == g[1..];
      RowZerosOpen(g[0], c);
    }
  }

  /** Every cell of `h` is the cell of `g` or a freshly opened 1. */
  ghost predicate OnlyOpens(g: Grid, h: Grid) {
    && |h| == |g|
    && forall r :: 0 <= r < |g| ==>
      (|h[r]| == |g[r]| && forall c :: 0 <= c < |g[r]| ==> h[r][c] == g[r][c] || h[r][c] == 1)
  }

  /**
   * Walls of `g` at cells whose row parity differs from `py` and whose
   * column parity differs from `px` are still walls in `h`.
   */
  ghost predicate KeepsPillars(g: Grid, h: Grid, px: int, py: int)
    requires OnlyOpens(g, h)
  {
    forall r, c :: 0 <= r < |g| && 0 <= c < |g[r]| && r % 2 != py && c % 2 != px && g[r][c] == 0 ==> h[r][c] == 0
  }

  /**
   * `carve_passages_from(cx, cy)`. The shuffle for a call is looked up by
   * the number of walls left when the call starts; every call starts with
   * fewer walls than the one before, so this covers any sequence of
   * shuffles.
   */
  function Carve(g: Grid, rows: int, cols: int, cx: int, cy: int, shuffle: nat -> seq<Dir>): (r: Grid)
    requires Shaped(g, rows, cols) && 0 <= cx < cols && 0 <= cy < rows
    requires forall n :: IsShuffle(shuffle(n))
    ensures Shaped(r, rows, cols) && OnlyOpens(g, r) && Zeros(r) <= Zeros(g)
    ensures KeepsPillars(g, r, cx % 2, cy % 2)
    ensures forall d :: !FarWall(r, cx, cy, d)
    ensures (exists d :: FarWall(g, cx, cy, d)) ==> Zeros(r) < Zeros(g)
    decreases Zeros(g), 1, 0
  {
    var ds := shuffle(Zeros(g));
    var r := CarveToward(g, rows, cols, cx, cy, ds, shuffle);
    ShuffleCovers(g, r, cx, cy, ds);
    r
  }

  /**
   * The `for dx, dy in directions` loop: when the cell two steps away is in
   * bounds and still a wall, open it and the cell between, and recurse there.
   */
  function CarveToward(g: Grid, rows: int, cols: int, cx: int, cy: int, ds: seq<Dir>, shuffle: nat -> seq<Dir>)
    : (r: Grid)
    requires Shaped(g, rows, cols) && 0 <= cx < cols && 0 <= cy < rows
    requires forall n :: IsShuffle(shuffle(n))
    ensures Shaped(r, rows, cols) && OnlyOpens(g, r) && Zeros(r) <= Zeros(g)
    ensures KeepsPillars(g, r, cx % 2, cy % 2)
    ensures forall i :: 0 <= i < |ds| ==> !FarWall(r, cx, cy, ds[i])
    ensures (exists i :: 0 <= i < |ds| && FarWall(g, cx, cy, ds[i])) ==> Zeros(r) < Zeros(g)
    decreases Zeros(g), 0, |ds|
  {
    if |ds| == 0 then g
    else
      var nx2, ny2 := cx + 2 * Delta(ds[0]).0, cy + 2 * Delta(ds[0]).1;
      if 0 <= nx2 < cols && 0 <= ny2 < rows && g[ny2][nx2] == 0 then
        var g2 := OpenPair(g, rows, cols, cx, cy, ds[0]);
        var g3 := Carve(g2, rows, cols, nx2, ny2, shuffle);
        var g4 := CarveToward(g3, rows, cols, cx, cy, ds[1..], shuffle);
        OpenedBranch(g, g2, g3, g4, cx, cy, nx2, ny2, ds);
        g4
      else
        var r := CarveToward(g, rows, cols, cx, cy, ds[1..], shuffle);
        SkippedBranch(g, r, rows, cols, cx, cy, ds);
        r
  }

  /** The guarantees of `CarveToward` after carving toward `ds[0]` and then the rest of `ds`. */
  lemma OpenedBranch(g: Grid, g2: Grid, g3: Grid, g4: Grid, cx: int, cy: int, nx2: int, ny2: int, ds: seq<Dir>)
    requires |ds| > 0 && nx2 == cx + 2 * Delta(ds[0]).0 && ny2 == cy + 2 * Delta(ds[0]).1
    requires OnlyOpens(g, g2) && KeepsPillars(g, g2, cx % 2, cy % 2) && !FarWall(g2, cx, cy, ds[0])
    requires OnlyOpens(g2, g3) && KeepsPillars(g2, g3, nx2 % 2, ny2 % 2)
    requires OnlyOpens(g3, g4) && KeepsPillars(g3, g4, cx % 2, cy % 2)
    requires forall i :: 0 <= i < |ds[1..]| ==> !FarWall(g4, cx, cy, ds[1..][i])
    ensures OnlyOpens(g, g4) && KeepsPillars(g, g4, cx % 2, cy % 2)
    ensures forall i :: 0 <= i < |ds| ==> !FarWall(g4, cx, cy, ds[i])
  {
    FarPillars(g2, g3, cx, cy, ds[0]);
    Compose(g, g2, g3, cx % 2, cy % 2);
    Compose(g, g3, g4, cx % 2, cy % 2);
    FarOpenThrough(g2, g3, g4, cx, cy, ds);
  }

  /** The pillars kept from the cell two steps away are the pillars of `(cx, cy)`. */
  lemma FarPillars(g: Grid, h: Grid, cx: int, cy: int, d: Dir)
    requires OnlyOpens(g, h)
    requires KeepsPillars(g, h, (cx + 2 * Delta(d).0) % 2, (cy + 2 * Delta(d).1) % 2)
    ensures KeepsPillars(g, h, cx % 2, cy % 2)
  {
    FarParity(cx, cy, d);
    SameParity(g, h, (cx + 2 * Delta(d).0) % 2, (cy + 2 * Delta(d).1) % 2, cx % 2, cy % 2);
  }

  /** An opened cell toward `ds[0]` survives two later carvings. */
  lemma FarOpenThrough(g2: Grid, g3: Grid, g4: Grid, cx: int, cy: int, ds: seq<Dir>)
    requires |ds| > 0 && !FarWall(g2, cx, cy, ds[0])
    requires OnlyOpens(g2, g3) && OnlyOpens(g3, g4)
    requires forall i :: 0 <= i < |ds[1..]| ==> !FarWall(g4, cx, cy, ds[1..][i])
    ensures forall i :: 0 <= i < |ds| ==> !FarWall(g4, cx, cy, ds[i])
  {
    StaysOpen(g2, g3, cx, cy, ds[0]);
    StaysOpen(g3, g4, cx, cy, ds[0]);
    RestOpen(g4, cx, cy, ds);
  }

  /** The guarantees of `CarveToward` after skipping `ds[0]` and carving toward the rest. */
  lemma SkippedBranch(g: Grid, r: Grid, rows: int, cols: int, cx: int, cy: int, ds: seq<Dir>)
    requires |ds| > 0 && Shaped(g, rows, cols)
    requires !(0 <= cx + 2 * Delta(ds[0]).0 < cols && 0 <= cy + 2 * Delta(ds[0]).1 < rows
               && g[cy + 2 * Delta(ds[0]).1][cx + 2 * Delta(ds[0]).0] == 0)
    requires OnlyOpens(g, r) && Zeros(r) <= Zeros(g)
    requires forall i :: 0 <= i < |ds[1..]| ==> !FarWall(r, cx, cy, ds[1..][i])
    requires (exists i :: 0 <= i < |ds[1..]| && FarWall(g, cx, cy, ds[1..][i])) ==> Zeros(r) < Zeros(g)
    ensures forall i :: 0 <= i < |ds| ==> !FarWall(r, cx, cy, ds[i])
    ensures (exists i :: 0 <= i < |ds| && FarWall(g, cx, cy, ds[i])) ==> Zeros(r) < Zeros(g)
  {
    StaysOpen(g, r, cx, cy, ds[0]);
    RestOpen(r, cx, cy, ds);
    SkippedWall(g, cx, cy, ds);
  }

  /** The cell two steps from `(cx, cy)` toward `d` is inside the grid and a wall. */
  predicate FarWall(g: Grid, cx: int, cy: int, d: Dir) {
    var fx, fy := cx + 2 * Delta(d).0, cy + 2 * Delta(d).1;
    0 <= fy < |g| && 0 <= fx < |g[fy]| && g[fy][fx] == 0
  }

  /** A cell that is no longer a wall stays that way. */
  lemma StaysOpen(g: Grid, h: Grid, cx: int, cy: int, d: Dir)
    requires OnlyOpens(g, h) && !FarWall(g, cx, cy, d)
    ensures !FarWall(h, cx, cy, d)
  {
  }

  lemma RestOpen(r: Grid, cx: int, cy: int, ds: seq<Dir>)
    requires |ds| > 0 && !FarWall(r, cx, cy, ds[0])
    requires forall i :: 0 <= i < |ds| - 1 ==> !FarWall(r, cx, cy, ds[1..][i])
    ensures forall i :: 0 <= i < |ds| ==> !FarWall(r, cx, cy, ds[i])
  {
    forall i | 0 < i < |ds|
      ensures !FarWall(r, cx, cy, ds[i])
    {
      assert ds[i] == ds[1..][i - 1];
    }
  }

  /** A wall toward some later direction is a wall toward some direction of the rest. */
  lemma SkippedWall(g: Grid, cx: int, cy: int, ds: seq<Dir>)
    requires |ds| > 0 && !FarWall(g, cx, cy, ds[0])
    ensures (exists i :: 0 <= i < |ds| && FarWall(g, cx, cy, ds[i])) ==>
      exists i :: 0 <= i < |ds| - 1 && FarWall(g, cx, cy, ds[1..][i])
  {
    if exists i :: 0 <= i < |ds| && FarWall(g, cx, cy, ds[i]) {
      var i :| 0 <= i < |ds| && FarWall(g, cx, cy, ds[i]);
      assert ds[1..][i - 1] == ds[i];
    }
  }

  /** A shuffle lists every direction, so what holds for its entries holds for all four. */
  lemma ShuffleCovers(g: Grid, r: Grid, cx: int, cy: int, ds: seq<Dir>)
    requires IsShuffle(ds)
    requires forall i :: 0 <= i < |ds| ==> !FarWall(r, cx, cy, ds[i])
    ensures forall d :: !FarWall(r, cx, cy, d)
    ensures (exists d :: FarWall(g, cx, cy, d)) ==> exists i :: 0 <= i < |ds| && FarWall(g, cx, cy, ds[i])
  {
    forall d: Dir
      ensures d in ds
    {
      assert d == Up || d == Down || d == Left || d == Right;
      assert d in multiset(Directions);
      assert d in multiset(ds);
    }
    forall d | FarWall(r, cx, cy, d)
      ensures false
    {
      var i :| 0 <= i < |ds| && ds[i] == d;
    }
    if exists d :: FarWall(g, cx, cy, d) {
      var d :| FarWall(g, cx, cy, d);
      var i :| 0 <= i < |ds| && ds[i] == d;
    }
  }

  /** Two steps in any direction keep both coordinates' parity. */
  lemma FarParity(cx: int, cy: int, d: Dir)
    ensures (cx + 2 * Delta(d).0) % 2 == cx % 2 && (cy + 2 * Delta(d).1) % 2 == cy % 2
  {
    match d
    case Up => assert cy + 2 * Delta(d).1 == (cy - 2);
    case Down => assert cy + 2 * Delta(d).1 == (cy + 2);
    case Left => assert cx + 2 * Delta(d).0 == (cx - 2);
    case Right => assert cx + 2 * Delta(d).0 == (cx + 2);
  }

  /** Opening a cell that shares the start's row or column parity keeps the shape and the pillars. */
  lemma OpenKeeps(g: Grid, rows: int, cols: int, r: int, c: int, px: int, py: int)
    requires Shaped(g, rows, cols) && 0 <= r < rows && 0 <= c < cols
    requires r % 2 == py || c % 2 == px
    ensures Shaped(Open(g, r, c), rows, cols) && OnlyOpens(g, Open(g, r, c))
    ensures KeepsPillars(g, Open(g, r, c), px, py)
  {
  }

  /** Opening the cell one step and the wall cell two steps toward `d`. */
  function OpenPair(g: Grid, rows: int, cols: int, cx: int, cy: int, d: Dir): (r: Grid)
    requires Shaped(g, rows, cols) && 0 <= cx < cols && 0 <= cy < rows
    requires 0 <= cx + 2 * Delta(d).0 < cols && 0 <= cy + 2 * Delta(d).1 < rows
    requires g[cy + 2 * Delta(d).1][cx + 2 * Delta(d).0] == 0
    ensures Shaped(r, rows, cols) && OnlyOpens(g, r) && Zeros(r) < Zeros(g)
    ensures KeepsPillars(g, r, cx % 2, cy % 2)
    ensures r[cy + Delta(d).1][cx + Delta(d).0] == 1 && r[cy + 2 * Delta(d).1][cx + 2 * Delta(d).0] == 1
    ensures !FarWall(r, cx, cy, d)
  {
    var dx, dy := Delta(d).0, Delta(d).1;
    var nx, ny := cx + dx, cy + dy;
    var nx2, ny2 := cx + 2 * dx, cy + 2 * dy;
    assert nx == cx || ny == cy;
    FarParity(cx, cy, d);
    var g1 := Open(g, ny, nx);
    OpenKeeps(g, rows, cols, ny, nx, cx % 2, cy % 2);
    ZerosOpen(g, ny, nx);
    assert g1[ny2][nx2] == 0;
    var g2 := Open(g1, ny2, nx2);
    OpenKeeps(g1, rows, cols, ny2, nx2, cx % 2, cy % 2);
    ZerosOpen(g1, ny2, nx2);
    Compose(g, g1, g2, cx % 2, cy % 2);
    OpenBoth(g, ny, nx, ny2, nx2);
    g2
  }

  /** Two cells opened one after the other are both 1. */
  lemma OpenBoth(g: Grid, r1: int, c1: int, r2: int, c2: int)
    requires 0 <= r1 < |g| && 0 <= c1 < |g[r1]| && 0 <= r2 < |g| && 0 <= c2 < |g[r2]|
    ensures Open(Open(g, r1, c1), r2, c2)[r1][c1] == 1 && Open(Open(g, r1, c1), r2, c2)[r2][c2] == 1
  {
  }

  /** Carving one step touches only the two cells toward `d`. */
  lemma OpenPairChangesOnlyTwo(g: Grid, rows: int, cols: int, cx: int, cy: int, d: Dir)
    requires Shaped(g, rows, cols) && 0 <= cx < cols && 0 <= cy < rows
    requires 0 <= cx + 2 * Delta(d).0 < cols && 0 <= cy + 2 * Delta(d).1 < rows
    requires g[cy + 2 * Delta(d).1][cx + 2 * Delta(d).0] == 0
    ensures var r := OpenPair(g, rows, cols, cx, cy, d);
      forall i, j :: (0 <= i < rows && 0 <= j < cols && (j, i) != (cx + Delta(d).0, cy + Delta(d).1)
        && (j, i) != (cx + 2 * Delta(d).0, cy + 2 * Delta(d).1)) ==> r[i][j] == g[i][j]
  {
  }

  lemma SameParity(g: Grid, h: Grid, px: int, py: int, qx: int, qy: int)
    requires OnlyOpens(g, h) && KeepsPillars(g, h, px, py) && px == qx && py == qy
    ensures KeepsPillars(g, h, qx, qy)
  {
  }

  /** Opening cells and keeping pillars both compose. */
  lemma Compose(g: Grid, h: Grid, k: Grid, px: int, py: int)
    requires OnlyOpens(g, h) && OnlyOpens(h, k)
    requires KeepsPillars(g, h, px, py) && KeepsPillars(h, k, px, py)
    ensures OnlyOpens(g, k) && KeepsPillars(g, k, px, py)
  {
  }

  /** `random.randint(0, n - 1)` made odd by adding one, as written. */
  function OddStartAsWritten(pick: int): int {
    if pick % 2 == 0 then pick + 1 else pick
  }

  /**
   * The as-written start is always odd, and leaves the grid exactly when the
   * pick is the last index and that index is even, i.e. when `n` is odd.
   */
  lemma OddStartAsWrittenBounds(pick: int, n: int)
    requires 0 <= pick < n
    ensures OddStartAsWritten(pick) % 2 == 1
    ensures 0 <= OddStartAsWritten(pick) < n <==> !(pick == n - 1 && n % 2 == 1)
  {
  }

  /**
   * The maze has 15 rows: a row pick of 14 gives row 15, one past the grid,
   * so `grid[start_y]` raises. The 20 columns never overflow.
   */
  lemma OddStartAsWrittenLeavesGrid()
    ensures 0 <= 14 < Rows && OddStartAsWritten(14) == Rows
    ensures forall pick :: 0 <= pick < Cols ==> OddStartAsWritten(pick) < Cols
  {
  }

  /** The evidently intended start: an odd index inside the grid. */
  function OddStart(pick: int, n: int): (s: int)
    requires 0 <= pick < n && n >= 2
    ensures 0 <= s < n && s % 2 == 1
    ensures pick % 2 == 1 ==> s == pick
  {
    if pick % 2 == 1 then pick
    else if pick + 1 < n then pick + 1
    else pick - 1
  }

  /** Wherever the as-written start stays inside the grid, the corrected one is the same cell. */
  lemma OddStartAgrees(pick: int, n: int)
    requires 0 <= pick < n && n >= 2 && OddStartAsWritten(pick) < n
    ensures OddStart(pick, n) == OddStartAsWritten(pick)
  {
  }

  /** The obstacle rectangle of cell `(row, col)`. */
  function CellRect(row: int, col: int): Rect {
    Rect(col * CellSize, row * CellSize, CellSize, CellSize)
  }

  /** The inner `for col` loop over `row[c..]`. */
  function RowRects(row: seq<int>, r: int, c: nat): (res: seq<Rect>)
    requires c <= |row|
    ensures |res| == RowZeros(row[c..])
    ensures forall j :: c <= j < |row| ==> (CellRect(r, j) in res <==> row[j] == 0)
    ensures forall e :: e in res ==> exists j :: c <= j < |row| && row[j] == 0 && e == CellRect(r, j)
    decreases |row| - c
  {
    if c == |row| then []
    else
      var rest := RowRects(row, r, c + 1);
      assert row[c..][1..] == row[c + 1..];
      assert forall j :: c < j < |row| ==> CellRect(r, j) != CellRect(r, c);
      (if row[c] == 0 then [CellRect(r, c)] else []) + rest
  }

  /** The outer `for row` loop from row `r` on: one rectangle per wall cell, row by row. */
  function GridRects(g: Grid, r: nat): (res: seq<Rect>)
    requires r <= |g|
    ensures |res| == Zeros(g[r..])
    ensures forall i, j :: r <= i < |g| && 0 <= j < |g[i]| ==> (CellRect(i, j) in res <==> g[i][j] == 0)
    ensures forall e :: e in res ==>
      exists i, j :: r <= i < |g| && 0 <= j < |g[i]| && g[i][j] == 0 && e == CellRect(i, j)
    decreases |g| - r
  {
    if r == |g| then []
    else
      var here := RowRects(g[r], r, 0);
      var rest := GridRects(g, r + 1);
      assert g[r..][1..] == g[r + 1..];
      assert g[r][0..] == g[r];
      assert forall i, j, j' :: r < i < |g| && 0 <= j < |g[i]| && 0 <= j' < |g[r]| ==>
        CellRect(i, j) != CellRect(r, j');
      here + rest
  }

  /**
   * The maze set-up: all walls, an odd in-bounds start, carving, then the
   * obstacle rectangles. Every obstacle is a wall cell's rectangle and every
   * wall cell has one.
   */
  function MazeObstacles(pickX: int, pickY: int, shuffle: nat -> seq<Dir>): (obs: seq<Rect>)
    requires 0 <= pickX < Cols && 0 <= pickY < Rows
    requires forall n :: IsShuffle(shuffle(n))
  {
    GridRects(MazeGrid(pickX, pickY, shuffle), 0)
  }

  /**
   * The carved grid of the set-up, from the corrected odd start: every cell
   * is 0 or 1, and every cell even in both coordinates is still a wall.
   */
  function MazeGrid(pickX: int, pickY: int, shuffle: nat -> seq<Dir>): (g: Grid)
    requires 0 <= pickX < Cols && 0 <= pickY < Rows
    requires forall n :: IsShuffle(shuffle(n))
    ensures Shaped(g, Rows, Cols)
    ensures forall i, j :: 0 <= i < Rows && 0 <= j < Cols ==> g[i][j] == 0 || g[i][j] == 1
    ensures forall i, j :: 0 <= i < Rows && 0 <= j < Cols && i % 2 == 0 && j % 2 == 0 ==> g[i][j] == 0
  {
    var w := Walls(Rows, Cols);
    var sx, sy := OddStart(pickX, Cols), OddStart(pickY, Rows);
    var g := Carve(w, Rows, Cols, sx, sy, shuffle);
    assert sx % 2 == 1 && sy % 2 == 1;
    g
  }

  /**
   * What the set-up produces: exactly one 40x40 rectangle per cell left as
   * wall, and, the start being odd in both coordinates, every cell even in
   * both stays a wall.
   */
  lemma MazeObstaclesAreWalls(pickX: int, pickY: int, shuffle: nat -> seq<Dir>)
    requires 0 <= pickX < Cols && 0 <= pickY < Rows
    requires forall n :: IsShuffle(shuffle(n))
    ensures var g := MazeGrid(pickX, pickY, shuffle);
      var obs := MazeObstacles(pickX, pickY, shuffle);
      && |obs| == Zeros(g)
      && (forall i, j :: 0 <= i < Rows && 0 <= j < Cols ==> (CellRect(i, j) in obs <==> g[i][j] == 0))
      && (forall i, j :: 0 <= i < Rows && 0 <= j < Cols && i % 2 == 0 && j % 2 == 0 ==> CellRect(i, j) in obs)
  {
    var g := MazeGrid(pickX, pickY, shuffle);
    assert g[0..] == g;
  }
}
