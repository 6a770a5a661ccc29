/**
 * The neighbour generators of the breadth-first searches. Each copy of
 * `bfs_find_path` builds, for a point, an ordered list of candidate
 * neighbours and keeps those that belong to the searched point set. The
 * order matters: it decides which of several minimal paths is returned.
 */
module Neighbourhood {
  import opened Geometry

  /**
   * `Four`: the module-level search, `(x+1,y), (x-1,y), (x,y+1), (x,y-1)`.
   * `Window(lo, hi)`: every `(x+dx, y+dy)` with `lo <= dx, dy <= hi`, other
   * than the point itself, `dx` in the outer loop and `dy` in the inner one.
   */
  datatype Hood = Four | Window(lo: int, hi: int)

  /** `range(x - 4, x + 5)` in drone.py, random_map.py and map_test.py. */
  const Symmetric4: Hood := Window(-4, 4)

  /** `range(x - 10, x + 10)` in map_from_data.py: -10 is included, +10 is not. */
  const Skewed10: Hood := Window(-10, 9)

  /** The reference definition of adjacency, independent of enumeration order. */
  predicate Adjacent(h: Hood, u: Point, v: Point) {
    match h
    case Four =>
      (v.1 == u.1 && (v.0 == u.0 + 1 || v.0 == u.0 - 1)) ||
      (v.0 == u.0 && (v.1 == u.1 + 1 || v.1 == u.1 - 1))
    case Window(lo, hi) =>
      lo <= v.0 - u.0 <= hi && lo <= v.1 - u.1 <= hi && v != u
  }

  /** The inner `for py` loop of a window: column `x + dx`, rows `y + dy .. y + hi`. */
  function Column(p: Point, dx: int, dy: int, hi: int): seq<Point>
    decreases hi - dy
  {
    if dy > hi then []
    else
      var q := (p.0 + dx, p.1 + dy);
      (if q != p then [q] else []) + Column(p, dx, dy + 1, hi)
  }

  /** The outer `for px` loop of a window: columns `x + dx .. x + hi`. */
  function Columns(p: Point, dx: int, lo: int, hi: int): seq<Point>
    decreases hi - dx
  {
    if dx > hi then [] else Column(p, dx, lo, hi) + Columns(p, dx + 1, lo, hi)
  }

  /** The ordered candidate list `find_neighbors` tests against the point set. */
  function Candidates(h: Hood, p: Point): seq<Point> {
    match h
    case Four => [(p.0 + 1, p.1), (p.0 - 1, p.1), (p.0, p.1 + 1), (p.0, p.1 - 1)]
    case Window(lo, hi) => Columns(p, lo, lo, hi)
  }

  lemma {:induction false} ColumnMembers(p: Point, dx: int, dy: int, hi: int, q: Point)
    ensures q in Column(p, dx, dy, hi) <==> q.0 == p.0 + dx && dy <= q.1 - p.1 <= hi && q != p
    decreases hi - dy
  {
    if dy <= hi {
      ColumnMembers(p, dx, dy + 1, hi, q);
    }
  }

  lemma {:induction false} ColumnsMembers(p: Point, dx: int, lo: int, hi: int, q: Point)
    ensures q in Columns(p, dx, lo, hi) <==> dx <= q.0 - p.0 <= hi && lo <= q.1 - p.1 <= hi && q != p
    decreases hi - dx
  {
    if dx <= hi {
      ColumnMembers(p, dx, lo, hi, q);
      ColumnsMembers(p, dx + 1, lo, hi, q);
    }
  }

  /** The enumeration lists exactly the points adjacent under the reference definition. */
  lemma CandidatesAreAdjacent(h: Hood, p: Point, q: Point)
    ensures q in Candidates(h, p) <==> Adjacent(h, p, q)
  {
    if h.Window? {
      ColumnsMembers(p, h.lo, h.lo, h.hi, q);
    }
  }

  /** No generator ever offers the point itself. */
  lemma NeverSelf(h: Hood, p: Point)
    ensures p !in Candidates(h, p)
  {
    CandidatesAreAdjacent(h, p, p);
  }

  /** The grid (taxicab) distance between two points. */
  function Manhattan(u: Point, v: Point): nat {
    (if v.0 >= u.0 then v.0 - u.0 else u.0 - v.0) + (if v.1 >= u.1 then v.1 - u.1 else u.1 - v.1)
  }

  /** A Four step is exactly a step of taxicab length one. */
  lemma FourIsUnitStep(u: Point, v: Point)
    ensures Adjacent(Four, u, v) <==> Manhattan(u, v) == 1
  {
  }

  /** A symmetric window gives a symmetric adjacency. */
  lemma SymmetricWindow(r: int, u: Point, v: Point)
    ensures Adjacent(Window(-r, r), u, v) <==> Adjacent(Window(-r, r), v, u)
  {
  }

  /**
   * The -10..9 window of map_from_data.py is lopsided: ten columns to the
   * right is not a neighbour, ten columns to the left is.
   */
  lemma SkewedWindowIsAsymmetric(p: Point)
    ensures (p.0 + 10, p.1) !in Candidates(Skewed10, p)
    ensures p in Candidates(Skewed10, (p.0 + 10, p.1))
  {
    CandidatesAreAdjacent(Skewed10, p, (p.0 + 10, p.1));
    CandidatesAreAdjacent(Skewed10, (p.0 + 10, p.1), p);
  }
}
