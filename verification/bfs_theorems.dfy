/**
 * What `Bfs.FindPath` guarantees: a returned path is a simple walk from
 * `start` to `dest` through the point set with no fewer hops than any other
 * such walk, and `None` means no walk reaches `dest`.
 */
module BfsTheorems {
  import opened Options
  import opened Geometry
  import opened Neighbourhood
  import opened Bfs

  /** One hop of the search graph: an adjacent point that is in the point set. */
  ghost predicate Step(h: Hood, pts: set<Point>, u: Point, v: Point) {
    Adjacent(h, u, v) && v in pts
  }

  /** A walk of the search graph that begins at `start`. */
  ghost predicate IsWalk(h: Hood, pts: set<Point>, start: Point, w: seq<Point>) {
    && |w| > 0
    && w[0] == start
    && forall k :: 0 <= k < |w| - 1 ==> Step(h, pts, w[k], w[k + 1])
  }

  ghost predicate Distinct(w: seq<Point>) {
    forall i, j :: 0 <= i < j < |w| ==> w[i] != w[j]
  }

  /** Every point of `w` except the last has been visited. */
  ghost predicate InteriorVisited(w: seq<Point>, vis: set<Point>) {
    forall k :: 0 <= k < |w| - 1 ==> w[k] in vis
  }

  ghost predicate AllVisited(w: seq<Point>, vis: set<Point>) {
    forall k :: 0 <= k < |w| ==> w[k] in vis
  }

  /** Queued paths are simple walks from `start` whose interiors are visited. */
  ghost predicate QueueWalks(h: Hood, pts: set<Point>, start: Point, q: seq<seq<Point>>, vis: set<Point>) {
    forall i :: 0 <= i < |q| ==>
      IsWalk(h, pts, start, q[i]) && Distinct(q[i]) && InteriorVisited(q[i], vis)
  }

  /** Path lengths never decrease along the queue and span at most one hop. */
  ghost predicate Layered(q: seq<seq<Point>>) {
    && (forall i, j :: 0 <= i < j < |q| ==> |q[i]| <= |q[j]|)
    && (forall j :: 0 <= j < |q| ==> |q[j]| <= |q[0]| + 1)
  }

  /**
   * `wit[u]` is the path with which `u` was dequeued: a walk to `u` through
   * visited points, no longer than anything still queued.
   */
  ghost predicate Witnessed(h: Hood, pts: set<Point>, start: Point, q: seq<seq<Point>>, vis: set<Point>,
                            wit: map<Point, seq<Point>>) {
    && wit.Keys == vis
    && forall u :: u in vis ==>
      && IsWalk(h, pts, start, wit[u]) && Last(wit[u]) == u && AllVisited(wit[u], vis)
      && forall i :: 0 <= i < |q| ==> |wit[u]| <= |q[i]|
  }

  /**
   * The frontier is queued: a walk that leaves the visited set at its last
   * point has a queued path to that point that is no longer.
   */
  ghost predicate FrontierQueued(h: Hood, pts: set<Point>, start: Point, q: seq<seq<Point>>, vis: set<Point>) {
    forall w {:trigger IsWalk(h, pts, start, w)} ::
      |w| > 0 && IsWalk(h, pts, start, w) && InteriorVisited(w, vis) && Last(w) !in vis ==>
      exists i :: 0 <= i < |q| && |q[i]| > 0 && Last(q[i]) == Last(w) && |q[i]| <= |w|
  }

  ghost predicate Inv(h: Hood, pts: set<Point>, start: Point, dest: Point, q: seq<seq<Point>>,
                      vis: set<Point>, wit: map<Point, seq<Point>>) {
    && start in pts
    && QueueInPoints(pts, q)
    && QueueWalks(h, pts, start, q, vis)
    && dest !in vis
    && Layered(q)
    && Witnessed(h, pts, start, q, vis, wit)
    && FrontierQueued(h, pts, start, q, vis)
  }

  lemma FirstOutside(w: seq<Point>, vis: set<Point>) returns (j: nat)
    requires |w| > 0 && Last(w) !in vis
    ensures j < |w| && w[j] !in vis && forall k :: 0 <= k < j ==> w[k] in vis
  {
    j := 0;
    while w[j] in vis
      invariant j < |w| && forall k :: 0 <= k < j ==> w[k] in vis
      decreases |w| - j
    {
      j := j + 1;
    }
  }

  /** Any walk to an unvisited point is at least as long as the queue's head. */
  lemma HeadIsShortest(h: Hood, pts: set<Point>, start: Point, q: seq<seq<Point>>, vis: set<Point>, w: seq<Point>)
    requires Layered(q) && FrontierQueued(h, pts, start, q, vis)
    requires IsWalk(h, pts, start, w) && Last(w) !in vis
    ensures |q| > 0 && |q[0]| <= |w|
  {
    var j := FirstOutside(w, vis);
    var pre := w[..j + 1];
    assert Last(pre) == w[j];
    assert IsWalk(h, pts, start, pre) by {
      forall k | 0 <= k < |pre| - 1 ensures Step(h, pts, pre[k], pre[k + 1]) {
        assert pre[k] == w[k] && pre[k + 1] == w[k + 1];
      }
    }
    assert InteriorVisited(pre, vis);
    var i :| 0 <= i < |q| && |q[i]| > 0 && Last(q[i]) == Last(pre) && |q[i]| <= |pre|;
    assert |q[0]| <= |q[i]|;
  }

  lemma SkipFrontier(h: Hood, pts: set<Point>, start: Point, q: seq<seq<Point>>, vis: set<Point>)
    requires FrontierQueued(h, pts, start, q, vis)
    requires |q| > 0 && |q[0]| > 0 && Last(q[0]) in vis
    ensures FrontierQueued(h, pts, start, q[1..], vis)
  {
    var q' := q[1..];
    forall w | IsWalk(h, pts, start, w) && InteriorVisited(w, vis) && Last(w) !in vis
      ensures exists i :: 0 <= i < |q'| && |q'[i]| > 0 && Last(q'[i]) == Last(w) && |q'[i]| <= |w|
    {
      var i :| 0 <= i < |q| && |q[i]| > 0 && Last(q[i]) == Last(w) && |q[i]| <= |w|;
      assert i != 0;
      assert q'[i - 1] == q[i];
    }
  }

  lemma SkipLayered(q: seq<seq<Point>>)
    requires Layered(q) && |q| > 0
    ensures Layered(q[1..])
  {
    var q' := q[1..];
    forall j | 0 <= j < |q'| ensures |q'[j]| <= |q'[0]| + 1 {
      assert q'[j] == q[j + 1] && q'[0] == q[1];
    }
  }

  lemma SkipWitnessed(h: Hood, pts: set<Point>, start: Point, q: seq<seq<Point>>, vis: set<Point>,
                      wit: map<Point, seq<Point>>)
    requires Witnessed(h, pts, start, q, vis, wit) && |q| > 0
    ensures Witnessed(h, pts, start, q[1..], vis, wit)
  {
    forall u | u in vis ensures forall i :: 0 <= i < |q[1..]| ==> |wit[u]| <= |q[1..][i]| {
      forall i | 0 <= i < |q[1..]| ensures |wit[u]| <= |q[1..][i]| {
        assert q[1..][i] == q[i + 1];
      }
    }
  }

  lemma SkipQueue(h: Hood, pts: set<Point>, start: Point, q: seq<seq<Point>>, vis: set<Point>)
    requires QueueInPoints(pts, q) && QueueWalks(h, pts, start, q, vis) && |q| > 0
    ensures QueueInPoints(pts, q[1..]) && QueueWalks(h, pts, start, q[1..], vis)
  {
    forall i | 0 <= i < |q[1..]| ensures q[1..][i] == q[i + 1] {
    }
  }

  /** Dequeuing an already visited point keeps the invariant. */
  lemma SkipKeepsInv(h: Hood, pts: set<Point>, start: Point, dest: Point, q: seq<seq<Point>>,
                     vis: set<Point>, wit: map<Point, seq<Point>>)
    requires Inv(h, pts, start, dest, q, vis, wit)
    requires |q| > 0 && Last(q[0]) in vis
    ensures Inv(h, pts, start, dest, q[1..], vis, wit)
  {
    SkipFrontier(h, pts, start, q, vis);
    SkipLayered(q);
    SkipWitnessed(h, pts, start, q, vis, wit);
    SkipQueue(h, pts, start, q, vis);
  }

  /** The entries appended while visiting `c` are walks that are simple and one hop longer. */
  lemma PushedAreWalks(h: Hood, pts: set<Point>, start: Point, p: seq<Point>, vis: set<Point>)
    requires IsWalk(h, pts, start, p) && Distinct(p) && AllVisited(p, vis)
    ensures var added := Pushes(p, Neighbours(h, pts, Last(p)), vis);
      forall i :: 0 <= i < |added| ==>
        && IsWalk(h, pts, start, added[i]) && Distinct(added[i]) && InteriorVisited(added[i], vis)
        && |added[i]| == |p| + 1 && |added[i]| > 0 && Last(added[i]) in pts
  {
    var ns := Neighbours(h, pts, Last(p));
    var added := Pushes(p, ns, vis);
    forall i | 0 <= i < |added|
      ensures IsWalk(h, pts, start, added[i]) && Distinct(added[i]) && InteriorVisited(added[i], vis)
    {
      var n := added[i][|p|];
      assert added[i] == p + [n];
      assert Step(h, pts, Last(p), n);
      ExtendWalk(h, pts, start, vis, p, n);
      ExtendDistinct(p, n, vis);
    }
  }

  /** A simple visited path extended by an unvisited point stays simple. */
  lemma ExtendDistinct(p: seq<Point>, n: Point, vis: set<Point>)
    requires Distinct(p) && AllVisited(p, vis) && n !in vis
    ensures Distinct(p + [n])
  {
    var a := p + [n];
    forall i, j | 0 <= i < j < |a| ensures a[i] != a[j] {
      assert a[i] == p[i];
      if j < |p| {
        assert a[j] == p[j];
      }
    }
  }

  /** The queue after dequeuing `q[0]` and queueing its unvisited neighbours. */
  function AfterVisit(h: Hood, pts: set<Point>, q: seq<seq<Point>>, vis: set<Point>): seq<seq<Point>>
    requires |q| > 0 && |q[0]| > 0
  {
    q[1..] + Pushes(q[0], Neighbours(h, pts, Last(q[0])), vis + {Last(q[0])})
  }

  /** Entry `i` of the queue after a visit is an old entry or a freshly pushed one. */
  lemma AfterVisitEntry(h: Hood, pts: set<Point>, q: seq<seq<Point>>, vis: set<Point>, i: int)
    requires |q| > 0 && |q[0]| > 0 && 0 <= i < |AfterVisit(h, pts, q, vis)|
    ensures var added := Pushes(q[0], Neighbours(h, pts, Last(q[0])), vis + {Last(q[0])});
      AfterVisit(h, pts, q, vis)[i] == if i < |q| - 1 then q[i + 1] else added[i - (|q| - 1)]
  {
    var added := Pushes(q[0], Neighbours(h, pts, Last(q[0])), vis + {Last(q[0])});
    assert AfterVisit(h, pts, q, vis) == q[1..] + added;
    DequeueEntry(q, added, i);
  }

  /** Entry `i` after dropping the head of `q` and appending `added`. */
  lemma DequeueEntry<T>(q: seq<T>, added: seq<T>, i: int)
    requires |q| > 0 && 0 <= i < |q| - 1 + |added|
    ensures (q[1..] + added)[i] == if i < |q| - 1 then q[i + 1] else added[i - (|q| - 1)]
  {
  }

  /** After a visit every queued path is again a simple walk with a visited interior. */
  lemma VisitQueueWalks(h: Hood, pts: set<Point>, start: Point, q: seq<seq<Point>>, vis: set<Point>)
    requires QueueInPoints(pts, q) && QueueWalks(h, pts, start, q, vis)
    requires |q| > 0 && Last(q[0]) !in vis
    ensures QueueWalks(h, pts, start, AfterVisit(h, pts, q, vis), vis + {Last(q[0])})
  {
    var p := q[0];
    var vis' := vis + {Last(p)};
    var added := Pushes(p, Neighbours(h, pts, Last(p)), vis');
    var q' := AfterVisit(h, pts, q, vis);
    assert AllVisited(p, vis');
    PushedAreWalks(h, pts, start, p, vis');
    forall i | 0 <= i < |q'|
      ensures IsWalk(h, pts, start, q'[i]) && Distinct(q'[i]) && InteriorVisited(q'[i], vis')
    {
      AfterVisitEntry(h, pts, q, vis, i);
      if i < |q| - 1 {
        assert InteriorVisited(q[i + 1], vis);
      }
    }
  }

  /** After a visit every queued path ends in the point set and has |p| or |p| + 1 points. */
  lemma VisitQueueBounds(h: Hood, pts: set<Point>, q: seq<seq<Point>>, vis: set<Point>)
    requires QueueInPoints(pts, q) && Layered(q) && |q| > 0
    ensures var q' := AfterVisit(h, pts, q, vis);
      && QueueInPoints(pts, q')
      && forall i :: 0 <= i < |q'| ==> |q[0]| <= |q'[i]| <= |q[0]| + 1
  {
    var p := q[0];
    var added := Pushes(p, Neighbours(h, pts, Last(p)), vis + {Last(p)});
    var q' := AfterVisit(h, pts, q, vis);
    forall i | 0 <= i < |q'|
      ensures |q'[i]| > 0 && Last(q'[i]) in pts && |p| <= |q'[i]| <= |p| + 1
    {
      AfterVisitEntry(h, pts, q, vis, i);
      if i >= |q| - 1 {
        var a := added[i - (|q| - 1)];
        assert Last(a) == a[|p|];
      }
    }
  }

  lemma VisitLayered(h: Hood, pts: set<Point>, q: seq<seq<Point>>, vis: set<Point>)
    requires |q| > 0 && |q[0]| > 0 && Layered(q)
    requires var q' := AfterVisit(h, pts, q, vis);
      forall i :: 0 <= i < |q'| ==> |q[0]| <= |q'[i]| <= |q[0]| + 1
    ensures Layered(AfterVisit(h, pts, q, vis))
  {
    var p := q[0];
    var added := Pushes(p, Neighbours(h, pts, Last(p)), vis + {Last(p)});
    var q' := AfterVisit(h, pts, q, vis);
    forall i, j | 0 <= i < j < |q'| ensures |q'[i]| <= |q'[j]| {
      AfterVisitEntry(h, pts, q, vis, j);
      if j < |q| - 1 {
        AfterVisitEntry(h, pts, q, vis, i);
        assert q'[i] == q[i + 1] && q'[j] == q[j + 1];
      } else {
        assert |q'[j]| == |p| + 1;
      }
    }
  }

  lemma VisitWitnessed(h: Hood, pts: set<Point>, start: Point, q: seq<seq<Point>>, vis: set<Point>,
                       wit: map<Point, seq<Point>>)
    requires |q| > 0 && |q[0]| > 0 && Last(q[0]) !in vis
    requires IsWalk(h, pts, start, q[0]) && InteriorVisited(q[0], vis)
    requires Witnessed(h, pts, start, q, vis, wit)
    requires var q' := AfterVisit(h, pts, q, vis);
      forall i :: 0 <= i < |q'| ==> |q[0]| <= |q'[i]| <= |q[0]| + 1
    ensures Witnessed(h, pts, start, AfterVisit(h, pts, q, vis), vis + {Last(q[0])}, wit[Last(q[0]) := q[0]])
  {
    var p := q[0];
    var c := Last(p);
    var vis' := vis + {c};
    var wit' := wit[c := p];
    var q' := AfterVisit(h, pts, q, vis);
    assert AllVisited(p, vis');
    forall u | u in vis'
      ensures IsWalk(h, pts, start, wit'[u]) && Last(wit'[u]) == u && AllVisited(wit'[u], vis')
      ensures forall i :: 0 <= i < |q'| ==> |wit'[u]| <= |q'[i]|
    {
      if u != c {
        assert wit'[u] == wit[u];
        assert |wit[u]| <= |p|;
        assert AllVisited(wit[u], vis');
      }
    }
  }

  /** A walk through the head's point at index `k` has at least as many points as the head path. */
  lemma ThroughHeadIsLonger(h: Hood, pts: set<Point>, start: Point, q: seq<seq<Point>>, vis: set<Point>,
                            w: seq<Point>, k: int)
    requires |q| > 0 && |q[0]| > 0 && Last(q[0]) !in vis
    requires Layered(q) && FrontierQueued(h, pts, start, q, vis)
    requires IsWalk(h, pts, start, w) && 0 <= k < |w| && w[k] == Last(q[0])
    ensures |q[0]| <= k + 1
  {
    var pre := w[..k + 1];
    assert IsWalk(h, pts, start, pre) by {
      forall m | 0 <= m < |pre| - 1 ensures Step(h, pts, pre[m], pre[m + 1]) {
        assert pre[m] == w[m] && pre[m + 1] == w[m + 1];
      }
    }
    assert Last(pre) == Last(q[0]);
    HeadIsShortest(h, pts, start, q, vis, pre);
  }

  /** A walk that avoids the newly visited point keeps its old queued entry. */
  lemma FrontierUntouched(h: Hood, pts: set<Point>, start: Point, q: seq<seq<Point>>, vis: set<Point>, w: seq<Point>)
    requires |q| > 0 && |q[0]| > 0
    requires FrontierQueued(h, pts, start, q, vis)
    requires IsWalk(h, pts, start, w) && InteriorVisited(w, vis) && Last(w) !in vis + {Last(q[0])}
    ensures var q' := AfterVisit(h, pts, q, vis);
      exists i :: 0 <= i < |q'| && |q'[i]| > 0 && Last(q'[i]) == Last(w) && |q'[i]| <= |w|
  {
    var q' := AfterVisit(h, pts, q, vis);
    var i :| 0 <= i < |q| && |q[i]| > 0 && Last(q[i]) == Last(w) && |q[i]| <= |w|;
    assert i != 0;
    AfterVisitEntry(h, pts, q, vis, i - 1);
    assert q'[i - 1] == q[i];
  }

  /** Where `p + [v]` sits among the pushed paths. */
  lemma PushedIndex(p: seq<Point>, ns: seq<Point>, vis: set<Point>, v: Point) returns (j: nat)
    requires v in ns && v !in vis
    ensures j < |Pushes(p, ns, vis)| && Pushes(p, ns, vis)[j] == p + [v]
  {
    var added := Pushes(p, ns, vis);
    Bfs.PushesComplete(p, ns, vis, v);
    j :| 0 <= j < |added| && added[j] == p + [v];
  }

  /** A hop from the newly visited point to an unvisited one is covered by a fresh push. */
  lemma FrontierFromHead(h: Hood, pts: set<Point>, q: seq<seq<Point>>, vis: set<Point>, v: Point)
    returns (i: nat)
    requires |q| > 0 && |q[0]| > 0
    requires Step(h, pts, Last(q[0]), v) && v !in vis + {Last(q[0])}
    ensures var q' := AfterVisit(h, pts, q, vis);
      i < |q'| && |q'[i]| > 0 && Last(q'[i]) == v && |q'[i]| <= |q[0]| + 1
  {
    var j := HeadPushIndex(h, pts, q[0], vis + {Last(q[0])}, v);
    i := |q| - 1 + j;
    AfterVisitEntry(h, pts, q, vis, i);
    assert AfterVisit(h, pts, q, vis)[i] == q[0] + [v];
  }

  /** Where `p + [v]` sits among the paths pushed when `p`'s last point is visited. */
  lemma HeadPushIndex(h: Hood, pts: set<Point>, p: seq<Point>, vis: set<Point>, v: Point) returns (j: nat)
    requires |p| > 0 && Step(h, pts, Last(p), v) && v !in vis
    ensures j < |Pushes(p, Neighbours(h, pts, Last(p)), vis)| && Pushes(p, Neighbours(h, pts, Last(p)), vis)[j] == p + [v]
  {
    assert v in Neighbours(h, pts, Last(p));
    j := PushedIndex(p, Neighbours(h, pts, Last(p)), vis, v);
  }

  /** A fully visited walk extended by one hop is a walk whose interior is visited. */
  lemma ExtendWalk(h: Hood, pts: set<Point>, start: Point, vis: set<Point>, wu: seq<Point>, v: Point)
    requires IsWalk(h, pts, start, wu) && AllVisited(wu, vis) && Step(h, pts, Last(wu), v)
    ensures IsWalk(h, pts, start, wu + [v]) && InteriorVisited(wu + [v], vis)
  {
    var w2 := wu + [v];
    forall m | 0 <= m < |w2| - 1 ensures Step(h, pts, w2[m], w2[m + 1]) {
      if m < |wu| - 1 {
        assert w2[m] == wu[m] && w2[m + 1] == wu[m + 1];
      } else {
        assert w2[m] == Last(wu) && w2[m + 1] == v;
      }
    }
    forall m | 0 <= m < |w2| - 1 ensures w2[m] in vis {
      assert w2[m] == wu[m];
    }
  }

  /** A walk whose last hop leaves an earlier visited point is covered through that point's witness. */
  lemma FrontierFromOld(h: Hood, pts: set<Point>, start: Point, q: seq<seq<Point>>, vis: set<Point>,
                        wit: map<Point, seq<Point>>, w: seq<Point>)
    requires |q| > 0 && |q[0]| > 0
    requires FrontierQueued(h, pts, start, q, vis) && Witnessed(h, pts, start, q, vis, wit)
    requires IsWalk(h, pts, start, w) && |w| >= 2 && w[|w| - 2] in vis
    requires Last(w) !in vis + {Last(q[0])} && |q[0]| + 1 <= |w|
    ensures var q' := AfterVisit(h, pts, q, vis);
      exists i :: 0 <= i < |q'| && |q'[i]| > 0 && Last(q'[i]) == Last(w) && |q'[i]| <= |w|
  {
    var u := w[|w| - 2];
    var v := Last(w);
    var q' := AfterVisit(h, pts, q, vis);
    assert Step(h, pts, u, v);
    var wu := wit[u];
    assert IsWalk(h, pts, start, wu) && Last(wu) == u && AllVisited(wu, vis) && |wu| <= |q[0]|;
    ExtendWalk(h, pts, start, vis, wu, v);
    var i := QueuedFor(h, pts, start, q, vis, wu + [v]);
    assert i != 0;
    AfterVisitEntry(h, pts, q, vis, i - 1);
    assert q'[i - 1] == q[i];
  }

  /** The queued path that the frontier invariant promises for `w`. */
  lemma QueuedFor(h: Hood, pts: set<Point>, start: Point, q: seq<seq<Point>>, vis: set<Point>, w: seq<Point>)
    returns (i: nat)
    requires FrontierQueued(h, pts, start, q, vis)
    requires IsWalk(h, pts, start, w) && InteriorVisited(w, vis) && Last(w) !in vis
    ensures i < |q| && |q[i]| > 0 && Last(q[i]) == Last(w) && |q[i]| <= |w|
  {
    i :| 0 <= i < |q| && |q[i]| > 0 && Last(q[i]) == Last(w) && |q[i]| <= |w|;
  }

  /** The frontier part of a visit, for one walk. */
  lemma VisitFrontier(h: Hood, pts: set<Point>, start: Point, q: seq<seq<Point>>,
                      vis: set<Point>, wit: map<Point, seq<Point>>, w: seq<Point>)
    requires |q| > 0 && |q[0]| > 0 && Last(q[0]) !in vis
    requires Layered(q) && FrontierQueued(h, pts, start, q, vis)
    requires Witnessed(h, pts, start, q, vis, wit)
    requires var vis' := vis + {Last(q[0])};
      IsWalk(h, pts, start, w) && InteriorVisited(w, vis') && Last(w) !in vis'
    ensures var q' := AfterVisit(h, pts, q, vis);
      exists i :: 0 <= i < |q'| && |q'[i]| > 0 && Last(q'[i]) == Last(w) && |q'[i]| <= |w|
  {
    var c := Last(q[0]);
    if InteriorVisited(w, vis) {
      FrontierUntouched(h, pts, start, q, vis, w);
    } else {
      var k :| 0 <= k < |w| - 1 && w[k] !in vis;
      ThroughHeadIsLonger(h, pts, start, q, vis, w, k);
      if w[|w| - 2] == c {
        assert Step(h, pts, w[|w| - 2], w[|w| - 1]);
        var i := FrontierFromHead(h, pts, q, vis, Last(w));
      } else {
        FrontierFromOld(h, pts, start, q, vis, wit, w);
      }
    }
  }

  /** Dequeuing an unvisited point other than `dest` and queueing its neighbours keeps the invariant. */
  lemma VisitKeepsInv(h: Hood, pts: set<Point>, start: Point, dest: Point, q: seq<seq<Point>>,
                      vis: set<Point>, wit: map<Point, seq<Point>>)
    requires Inv(h, pts, start, dest, q, vis, wit)
    requires |q| > 0 && Last(q[0]) !in vis && Last(q[0]) != dest
    ensures Inv(h, pts, start, dest, AfterVisit(h, pts, q, vis), vis + {Last(q[0])}, wit[Last(q[0]) := q[0]])
  {
    var vis' := vis + {Last(q[0])};
    var q' := AfterVisit(h, pts, q, vis);
    VisitQueueWalks(h, pts, start, q, vis);
    VisitQueueBounds(h, pts, q, vis);
    VisitLayered(h, pts, q, vis);
    VisitWitnessed(h, pts, start, q, vis, wit);
    forall w {:trigger IsWalk(h, pts, start, w)}
      | |w| > 0 && IsWalk(h, pts, start, w) && InteriorVisited(w, vis') && Last(w) !in vis'
      ensures exists i :: 0 <= i < |q'| && |q'[i]| > 0 && Last(q'[i]) == Last(w) && |q'[i]| <= |w|
    {
      VisitFrontier(h, pts, start, q, vis, wit, w);
    }
  }

  /** The search's answer, given the invariant. */
  lemma {:induction false} SearchCorrect(h: Hood, pts: set<Point>, start: Point, dest: Point,
                                         q: seq<seq<Point>>, vis: set<Point>, wit: map<Point, seq<Point>>)
    requires Inv(h, pts, start, dest, q, vis, wit)
    ensures var r := Search(h, pts, dest, q, vis);
      && (r.Some? ==>
        && IsWalk(h, pts, start, r.value) && Last(r.value) == dest && Distinct(r.value)
        && forall w :: IsWalk(h, pts, start, w) && Last(w) == dest ==> |r.value| <= |w|)
      && (r.None? ==> forall w :: IsWalk(h, pts, start, w) ==> Last(w) != dest)
    decreases pts - vis, |q|
  {
    if |q| == 0 {
      forall w | IsWalk(h, pts, start, w) ensures Last(w) != dest {
        if Last(w) == dest {
          HeadIsShortest(h, pts, start, q, vis, w);
        }
      }
    } else {
      var p := q[0];
      var c := Last(p);
      if c == dest {
        forall w | IsWalk(h, pts, start, w) && Last(w) == dest ensures |p| <= |w| {
          HeadIsShortest(h, pts, start, q, vis, w);
        }
      } else if c in vis {
        SkipKeepsInv(h, pts, start, dest, q, vis, wit);
        SearchCorrect(h, pts, start, dest, q[1..], vis, wit);
      } else {
        VisitKeepsInv(h, pts, start, dest, q, vis, wit);
        SearchCorrect(h, pts, start, dest, AfterVisit(h, pts, q, vis), vis + {c}, wit[c := p]);
      }
    }
  }

  /** The search state before the first dequeue satisfies the invariant. */
  lemma InitialInv(h: Hood, pts: set<Point>, start: Point, dest: Point)
    requires start in pts && start != dest
    ensures Inv(h, pts, start, dest, [[start]], {}, map[])
  {
    forall w | IsWalk(h, pts, start, w) && InteriorVisited(w, {}) && Last(w) !in {}
      ensures exists i :: 0 <= i < 1 && |[[start]][i]| > 0 && Last([[start]][i]) == Last(w) && |[[start]][i]| <= |w|
    {
      assert |w| == 1;
      assert Last([[start]][0]) == Last(w);
    }
  }

  /**
   * `FindPath` returns a simple walk from `start` to `dest` whose later points
   * are all in the point set, with the fewest hops of any such walk; it
   * returns `None` exactly when no such walk exists.
   */
  lemma FindPathCorrect(h: Hood, points: seq<Point>, start: Point, dest: Point)
    requires start in points || start == dest
    ensures var pts := PointSet(points);
      var r := FindPath(h, points, start, dest);
      && (r.Some? ==>
        && IsWalk(h, pts, start, r.value) && Last(r.value) == dest && Distinct(r.value)
        && forall w :: IsWalk(h, pts, start, w) && Last(w) == dest ==> |r.value| <= |w|)
      && (r.None? <==> forall w :: IsWalk(h, pts, start, w) ==> Last(w) != dest)
  {
    var pts := PointSet(points);
    if start == dest {
      assert IsWalk(h, pts, start, [start]);
    } else {
      InitialInv(h, pts, start, dest);
      SearchCorrect(h, pts, start, dest, [[start]], {}, map[]);
    }
  }

  /** A destination outside the point set is never reached from a different start. */
  lemma FindPathMissingDest(h: Hood, points: seq<Point>, start: Point, dest: Point)
    requires start in points && start != dest && dest !in points
    ensures FindPath(h, points, start, dest) == None
  {
    var pts := PointSet(points);
    FindPathCorrect(h, points, start, dest);
    forall w | IsWalk(h, pts, start, w) ensures Last(w) != dest {
      if |w| > 1 {
        assert Step(h, pts, w[|w| - 2], w[|w| - 1]);
      }
    }
  }

  /**
   * The module-level 4-neighbour search: each hop of a returned path moves
   * one unit along one axis, and `None` means `dest` is unreachable.
   */
  lemma FourPathIsUnitSteps(points: seq<Point>, start: Point, dest: Point)
    requires start in points || start == dest
    ensures var r := FindPath(Four, points, start, dest);
      r.Some? ==> forall k :: 0 <= k < |r.value| - 1 ==> Manhattan(r.value[k], r.value[k + 1]) == 1
  {
    FindPathCorrect(Four, points, start, dest);
    var r := FindPath(Four, points, start, dest);
    if r.Some? {
      forall k | 0 <= k < |r.value| - 1
        ensures Manhattan(r.value[k], r.value[k + 1]) == 1
      {
        assert Step(Four, PointSet(points), r.value[k], r.value[k + 1]);
        FourIsUnitStep(r.value[k], r.value[k + 1]);
      }
    }
  }
}
