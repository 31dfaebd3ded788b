/**
 * The breadth-first search behind findShortestPath, as states of its two
 * tables. `d` is the distance table (INT_MAX for "not reached yet") and `par`
 * the parent table (-1 for "none"), both indexed by user ID; `seen` is the
 * set of users whose distance has been set, `done` those taken off the queue,
 * and `level` the distance of the user taken off last.
 */
module ShortestPaths {
  import opened ConnectionLists
  import opened Graphs

  /** INT_MAX of a 32-bit int: the "not reached" mark in the distance table. */
  const IntMax: int := 0x7fff_ffff

  /**
   * The tables agree with `seen`: exactly the seen users have a distance, the
   * others have no parent, `start` is at distance 0 with no parent, every seen
   * user is reachable from `start`, and every other seen user hangs one hop
   * below its parent. Distances stay below the number of seen users.
   */
  ghost predicate Marked(g: Adjacency, start: int, d: seq<int>, par: seq<int>, seen: set<int>) {
    && Closed(g) && |d| == |par| <= IntMax
    && start in seen && seen <= g.Keys
    && (forall v :: v in seen ==> 0 <= v < |d| && Reachable(g, start, v))
    && (forall v :: 0 <= v < |d| ==> (d[v] != IntMax <==> v in seen))
    && (forall v :: 0 <= v < |d| && v !in seen ==> par[v] == -1)
    && d[start] == 0 && par[start] == -1
    && (forall v :: v in seen ==> 0 <= d[v] < |seen|)
    && (forall v {:trigger par[v]} :: v in seen && v != start ==>
          && par[v] in seen && v in g[par[v]] && d[v] == d[par[v]] + 1)
  }

  /**
   * The queue discipline between two steps: the seen users are those done
   * and those queued; the queue holds each user once, in nondecreasing
   * distance, all at `level` or `level + 1`; done users are no farther than
   * `level`.
   */
  ghost predicate Layered(d: seq<int>, seen: set<int>, done: set<int>, queue: seq<int>, level: int) {
    && (forall v :: v in seen ==> 0 <= v < |d|)
    && 0 <= level
    && (forall v :: v in seen <==> v in done || v in queue)
    && NoDup(queue) && (forall v :: v in queue ==> v !in done)
    && (forall i, j :: 0 <= i < j < |queue| ==> queue[i] in seen && queue[j] in seen && d[queue[i]] <= d[queue[j]])
    && (forall v :: v in queue ==> v in seen && level <= d[v] <= level + 1)
    && (forall v :: v in done ==> v in seen && d[v] <= level)
  }

  /**
   * Scanning a done user's list has given each neighbour a distance at most
   * one above the done user's. The list of `pivot` has only been scanned as
   * far as `scanned`; between scans the pivot is -1, which is no user.
   */
  ghost predicate Settled(g: Adjacency, d: seq<int>, seen: set<int>, done: set<int>, pivot: int, scanned: seq<int>) {
    && (forall v :: v in seen ==> 0 <= v < |d|)
    && (forall v :: v in done ==> v in seen)
    && (forall x, y :: x in done && x in g && y in g[x] && (x == pivot ==> y in scanned) ==>
          y in seen && d[y] <= d[x] + 1)
  }

  /** The state after the start user has been queued at distance 0. */
  lemma SearchStart(g: Adjacency, start: int, d: seq<int>, par: seq<int>)
    requires Closed(g) && start in g
    requires 0 <= start < |d| == |par| <= IntMax
    requires d[start] == 0 && forall v :: 0 <= v < |d| && v != start ==> d[v] == IntMax
    requires forall v :: 0 <= v < |par| ==> par[v] == -1
    ensures Marked(g, start, d, par, {start})
    ensures Layered(d, {start}, {}, [start], 0)
    ensures Settled(g, d, {start}, {}, -1, [])
  {
    ReachableSelf(g, start);
  }

  /**
   * Taking the head off the queue: it joins the done users and its distance
   * becomes the level.
   */
  lemma PopLayered(d: seq<int>, seen: set<int>, done: set<int>, queue: seq<int>, level: int)
    requires Layered(d, seen, done, queue, level) && queue != []
    ensures queue[0] in seen && queue[0] !in done
    ensures Layered(d, seen, done + {queue[0]}, queue[1..], d[queue[0]])
  {
    var cur := queue[0];
    assert cur in queue;
    var rest := queue[1..];
    forall v | v in rest ensures d[cur] <= d[v] {
      var i :| 0 <= i < |rest| && rest[i] == v;
      assert queue[i + 1] == v;
    }
    forall v ensures v in seen <==> v in done + {cur} || v in rest {
      if v in queue && v != cur {
        var i :| 0 <= i < |queue| && queue[i] == v;
        assert rest[i - 1] == v;
      }
    }
  }

  /** The user taken off the queue has not had its list scanned yet. */
  lemma PopSettled(g: Adjacency, d: seq<int>, seen: set<int>, done: set<int>, cur: int)
    requires Settled(g, d, seen, done, -1, []) && cur in seen
    ensures Settled(g, d, seen, done + {cur}, cur, [])
  {
  }

  /**
   * Taking the head off the queue: it joins the done users, its distance
   * becomes the level, and its list is about to be scanned.
   */
  lemma PopStep(g: Adjacency, start: int, d: seq<int>, par: seq<int>, seen: set<int>,
                done: set<int>, queue: seq<int>, level: int)
    requires Marked(g, start, d, par, seen)
    requires Layered(d, seen, done, queue, level)
    requires Settled(g, d, seen, done, -1, [])
    requires queue != []
    ensures queue[0] in g && 0 <= queue[0] < |d| && Reachable(g, start, queue[0])
    ensures Layered(d, seen, done + {queue[0]}, queue[1..], d[queue[0]])
    ensures Settled(g, d, seen, done + {queue[0]}, queue[0], [])
  {
    PopLayered(d, seen, done, queue, level);
    PopSettled(g, d, seen, done, queue[0]);
  }

  /** Scanning a neighbour that already has a distance keeps the scan settled. */
  lemma SkipSettled(g: Adjacency, d: seq<int>, seen: set<int>, done: set<int>, queue: seq<int>,
                    level: int, cur: int, k: nat)
    requires cur in g && k < |g[cur]|
    requires Settled(g, d, seen, done, cur, g[cur][..k])
    requires Layered(d, seen, done, queue, level)
    requires cur in done && d[cur] == level && g[cur][k] in seen
    ensures Settled(g, d, seen, done, cur, g[cur][..k + 1])
  {
    assert g[cur][..k + 1] == g[cur][..k] + [g[cur][k]];
  }

  /** The discovered neighbour's parent is the current user, one step closer. */
  lemma DiscoverParents(g: Adjacency, start: int, d: seq<int>, par: seq<int>, seen: set<int>, cur: int, n: int)
    requires Marked(g, start, d, par, seen)
    requires cur in seen && n in g[cur] && n !in seen && 0 <= n < |d|
    ensures var d', par' := d[n := d[cur] + 1], par[n := cur];
      forall v {:trigger par'[v]} :: v in seen + {n} && v != start ==>
        && par'[v] in seen + {n} && v in g[par'[v]] && d'[v] == d'[par'[v]] + 1
  {
    var d', par', seen' := d[n := d[cur] + 1], par[n := cur], seen + {n};
    forall v | v in seen' && v != start
      ensures par'[v] in seen' && v in g[par'[v]] && d'[v] == d'[par'[v]] + 1
    {
      if v != n {
        assert par[v] in seen;
      }
    }
  }

  /**
   * A neighbour without a distance gets the current user's distance plus one
   * and the current user as parent; the tables stay consistent.
   */
  lemma DiscoverMarked(g: Adjacency, start: int, d: seq<int>, par: seq<int>, seen: set<int>, cur: int, n: int)
    requires Marked(g, start, d, par, seen)
    requires cur in seen && n in g[cur] && n !in seen && 0 <= n < |d|
    ensures d[cur] + 1 < IntMax
    ensures Marked(g, start, d[n := d[cur] + 1], par[n := cur], seen + {n})
  {
    RangeBound(seen + {n}, |d|);
    ReachableStep(g, start, cur, n);
    DiscoverParents(g, start, d, par, seen, cur, n);
  }

  /** The discovered neighbour joins the tail of the queue at `level + 1`. */
  lemma DiscoverLayered(d: seq<int>, seen: set<int>, done: set<int>, queue: seq<int>, level: int, n: int)
    requires Layered(d, seen, done, queue, level)
    requires n !in seen && 0 <= n < |d|
    ensures Layered(d[n := level + 1], seen + {n}, done, queue + [n], level)
  {
    NoDupAppend(queue, n);
    var d', seen', queue' := d[n := level + 1], seen + {n}, queue + [n];
    forall i, j | 0 <= i < j < |queue'|
      ensures queue'[i] in seen' && queue'[j] in seen' && d'[queue'[i]] <= d'[queue'[j]]
    {
      assert queue'[i] == queue[i] && queue[i] in queue;
      if j < |queue| {
        assert queue'[j] == queue[j] && queue[j] in queue;
      }
    }
  }

  /** Discovering the neighbour keeps the scan settled, one more list entry on. */
  lemma DiscoverSettled(g: Adjacency, d: seq<int>, seen: set<int>, done: set<int>, level: int, cur: int, k: nat)
    requires cur in g && k < |g[cur]|
    requires Settled(g, d, seen, done, cur, g[cur][..k])
    requires cur in done && d[cur] == level
    requires g[cur][k] !in seen && 0 <= g[cur][k] < |d|
    ensures Settled(g, d[g[cur][k] := level + 1], seen + {g[cur][k]}, done, cur, g[cur][..k + 1])
  {
    var n := g[cur][k];
    assert g[cur][..k + 1] == g[cur][..k] + [n];
    var d', seen' := d[n := level + 1], seen + {n};
    forall x, y | x in done && x in g && y in g[x] && (x == cur ==> y in g[cur][..k + 1])
      ensures y in seen' && d'[y] <= d'[x] + 1
    {
      if x != cur || y != n {
        assert x == cur ==> y in g[cur][..k];
      }
    }
  }

  /**
   * Scanning a neighbour still at INT_MAX: it is given distance `level + 1`
   * and parent `cur` and queued, and the search state holds one list entry
   * further on.
   */
  lemma DiscoverStep(g: Adjacency, start: int, d: seq<int>, par: seq<int>, seen: set<int>,
                     done: set<int>, queue: seq<int>, level: int, cur: int, k: nat)
    requires cur in g && k < |g[cur]|
    requires Marked(g, start, d, par, seen)
    requires Layered(d, seen, done, queue, level)
    requires Settled(g, d, seen, done, cur, g[cur][..k])
    requires cur in done && d[cur] == level && 0 <= g[cur][k] < |d| && d[g[cur][k]] == IntMax
    ensures level + 1 < IntMax
    ensures var n := g[cur][k];
      && Marked(g, start, d[n := level + 1], par[n := cur], seen + {n})
      && Layered(d[n := level + 1], seen + {n}, done, queue + [n], level)
      && Settled(g, d[n := level + 1], seen + {n}, done, cur, g[cur][..k + 1])
  {
    var n := g[cur][k];
    assert n in g[cur];
    assert cur in seen;
    DiscoverMarked(g, start, d, par, seen, cur, n);
    DiscoverLayered(d, seen, done, queue, level, n);
    DiscoverSettled(g, d, seen, done, level, cur, k);
  }

  /** Scanning a neighbour that already has a distance changes nothing but the scan position. */
  lemma SkipStep(g: Adjacency, start: int, d: seq<int>, par: seq<int>, seen: set<int>,
                 done: set<int>, queue: seq<int>, level: int, cur: int, k: nat)
    requires cur in g && k < |g[cur]|
    requires Marked(g, start, d, par, seen)
    requires Layered(d, seen, done, queue, level)
    requires Settled(g, d, seen, done, cur, g[cur][..k])
    requires cur in done && d[cur] == level && 0 <= g[cur][k] < |d| && d[g[cur][k]] != IntMax
    ensures Settled(g, d, seen, done, cur, g[cur][..k + 1])
  {
    SkipSettled(g, d, seen, done, queue, level, cur, k);
  }

  /** Once the whole list of the pivot is scanned, no list is half-scanned. */
  lemma ScanFinished(g: Adjacency, d: seq<int>, seen: set<int>, done: set<int>, cur: int)
    requires cur in g
    requires Settled(g, d, seen, done, cur, g[cur][..|g[cur]|])
    ensures Settled(g, d, seen, done, -1, [])
  {
    assert g[cur][..|g[cur]|] == g[cur];
  }

  /** No queued user is nearer than the head of the queue. */
  lemma HeadNearest(d: seq<int>, seen: set<int>, done: set<int>, queue: seq<int>, level: int)
    requires Layered(d, seen, done, queue, level) && queue != []
    ensures queue[0] in seen && forall v :: v in queue ==> v in seen && d[queue[0]] <= d[v]
  {
    assert queue[0] in queue;
    forall v | v in queue ensures v in seen && d[queue[0]] <= d[v] {
      var i :| 0 <= i < |queue| && queue[i] == v;
      if i > 0 {
        assert queue[0] in seen && queue[i] in seen && d[queue[0]] <= d[queue[i]];
      }
    }
  }

  /**
   * When the target reaches the head of the queue its distance is final: no
   * path from `start` to it is shorter.
   */
  lemma SearchReachesTarget(g: Adjacency, start: int, d: seq<int>, par: seq<int>, seen: set<int>,
                            done: set<int>, queue: seq<int>, level: int, target: int)
    requires Marked(g, start, d, par, seen)
    requires Layered(d, seen, done, queue, level)
    requires Settled(g, d, seen, done, -1, [])
    requires queue != [] && queue[0] == target
    ensures target in seen && 0 <= target < |d|
    ensures forall p :: PathFrom(g, p, start, target) ==> d[target] <= |p| - 1
  {
    assert target in queue;
    HeadNearest(d, seen, done, queue, level);
    forall p | PathFrom(g, p, start, target) ensures d[target] <= |p| - 1 {
      if |p| - 1 < d[target] {
        FrontierBound(g, start, p, seen, done, d, d[target]);
      }
    }
  }

  /**
   * When the queue runs dry before the target came up, the target is not
   * reachable from `start` and has no parent.
   */
  lemma SearchExhausted(g: Adjacency, start: int, d: seq<int>, par: seq<int>, seen: set<int>,
                        done: set<int>, level: int, target: int)
    requires Marked(g, start, d, par, seen)
    requires Layered(d, seen, done, [], level)
    requires Settled(g, d, seen, done, -1, [])
    requires target !in done
    ensures !Reachable(g, start, target)
    ensures 0 <= target < |d| ==> par[target] == -1
  {
    if Reachable(g, start, target) {
      ClosedSetHoldsReachable(g, done, start, target);
    }
  }
}
