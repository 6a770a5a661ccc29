/**
 * The breadth-first search shared by every `bfs_find_path`: a FIFO queue of
 * paths, a point is marked visited only when it is dequeued, and the first
 * dequeued path that ends at `dest` is the answer. A queue entry is the path
 * itself; the Python code also carries the path's last point beside it.
 */
module Bfs {
  import opened Options
  import opened Geometry
  import opened Neighbourhood

  /** `[n for n in candidates if n in points]`, order kept. */
  function Filter(cands: seq<Point>, pts: set<Point>): (r: seq<Point>)
    ensures forall q :: q in r <==> q in cands && q in pts
  {
    if |cands| == 0 then []
    else (if cands[0] in pts then [cands[0]] else []) + Filter(cands[1..], pts)
  }

  /** The entry of the neighbour table for `u`. */
  function Neighbours(h: Hood, pts: set<Point>, u: Point): (r: seq<Point>)
    ensures forall q :: q in r <==> Adjacent(h, u, q) && q in pts
  {
    var r := Filter(Candidates(h, u), pts);
    assert forall q :: q in r <==> Adjacent(h, u, q) && q in pts by {
      forall q ensures q in r <==> Adjacent(h, u, q) && q in pts {
        CandidatesAreAdjacent(h, u, q);
      }
    }
    r
  }

  /** The inner loop: `queue.append(path + [n])` for each listed `n` not yet visited. */
  function Pushes(p: seq<Point>, ns: seq<Point>, visited: set<Point>): (r: seq<seq<Point>>)
    ensures |r| <= |ns|
    ensures forall i :: 0 <= i < |r| ==> |r[i]| == |p| + 1 && r[i] == p + [r[i][|p|]]
    ensures forall i :: 0 <= i < |r| ==> r[i][|p|] in ns && r[i][|p|] !in visited
  {
    if |ns| == 0 then []
    else (if ns[0] !in visited then [p + [ns[0]]] else []) + Pushes(p, ns[1..], visited)
  }

  /** Conversely, every listed neighbour not yet visited is queued. */
  lemma {:induction false} PushesComplete(p: seq<Point>, ns: seq<Point>, visited: set<Point>, n: Point)
    requires n in ns && n !in visited
    ensures p + [n] in Pushes(p, ns, visited)
    decreases |ns|
  {
    if ns[0] != n {
      PushesComplete(p, ns[1..], visited, n);
    }
  }

  /** Every queued path is non-empty and ends inside the point set. */
  ghost predicate QueueInPoints(pts: set<Point>, queue: seq<seq<Point>>) {
    forall i :: 0 <= i < |queue| ==> |queue[i]| > 0 && Last(queue[i]) in pts
  }

  /**
   * The `while queue` loop. Each dequeue either answers, skips an already
   * visited point, or visits a new point of `pts`; so the pair
   * (unvisited points, queue length) decreases.
   */
  function Search(h: Hood, pts: set<Point>, dest: Point, queue: seq<seq<Point>>, visited: set<Point>)
    : (r: Option<seq<Point>>)
    requires QueueInPoints(pts, queue)
    ensures r.Some? ==> |r.value| > 0 && Last(r.value) == dest
    decreases pts - visited, |queue|
  {
    if |queue| == 0 then None
    else
      var p := queue[0];
      var c := Last(p);
      if c == dest then Some(p)
      else if c in visited then Search(h, pts, dest, queue[1..], visited)
      else
        var vis := visited + {c};
        var next := queue[1..] + Pushes(p, Neighbours(h, pts, c), vis);
        assert QueueInPoints(pts, next) by {
          var added := Pushes(p, Neighbours(h, pts, c), vis);
          forall i | 0 <= i < |added| ensures |added[i]| > 0 && Last(added[i]) in pts {
            assert Last(added[i]) == added[i][|p|];
          }
        }
        Search(h, pts, dest, next, vis)
  }

  /**
   * `bfs_find_path(points, start, dest)` with neighbourhood `h`. The first
   * dequeue answers `[start]` when `start == dest` before the neighbour table
   * is consulted; otherwise `neighbors[start]` must exist, so `start` must be
   * one of the points.
   */
  function FindPath(h: Hood, points: seq<Point>, start: Point, dest: Point): (r: Option<seq<Point>>)
    requires start in points || start == dest
    ensures start == dest ==> r == Some([start])
    ensures r.Some? ==> |r.value| > 0 && Last(r.value) == dest
  {
    if start == dest then Some([start])
    else Search(h, PointSet(points), dest, [[start]], {})
  }

  /** The keys of `{point: [] for point in points}`. */
  function PointSet(points: seq<Point>): (s: set<Point>)
    ensures forall p :: p in s <==> p in points
  {
    set p | p in points
  }
}
