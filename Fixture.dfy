/**
 * The network the interactive program seeds before its menu starts
 * (SocialNetwork/Main.cpp): users 1 to 10 and nine connections forming a
 * tree rooted at 1. Built through the class, it pins down the concrete
 * outcomes of the breadth-first traversal and of the path search.
 */
module Fixture {
  import opened ConnectionLists
  import opened Graphs
  import opened Network

  /** The connection lists after the nine addConnection calls, newest first. */
  function ExampleGraph(): Adjacency {
    map[1 := [4, 3, 2], 2 := [5, 1], 3 := [6, 1], 4 := [8, 7, 1], 5 := [9, 2],
        6 := [10, 3], 7 := [4], 8 := [4], 9 := [5], 10 := [6]]
  }

  /** `g` holds users 1 to 10 with exactly the seeded connection lists. */
  ghost predicate Seeded(g: Adjacency) {
    && Closed(g) && (forall u :: u in g <==> 1 <= u <= 10)
    && g[1] == [4, 3, 2] && g[2] == [5, 1] && g[3] == [6, 1] && g[4] == [8, 7, 1] && g[5] == [9, 2]
    && g[6] == [10, 3] && g[7] == [4] && g[8] == [4] && g[9] == [5] && g[10] == [6]
  }

  /** The literal graph is the seeded one, and it is the only one. */
  lemma ExampleGraphSeeded(g: Adjacency)
    ensures Seeded(ExampleGraph())
    ensures Seeded(g) ==> g == ExampleGraph()
  {
    var e := ExampleGraph();
    assert forall u :: u in e <==> 1 <= u <= 10;
    forall u, v | u in e && v in e[u] ensures 1 <= v <= 10 {
    }
    if Seeded(g) {
      assert g.Keys == e.Keys;
      assert forall u :: u in g ==> g[u] == e[u];
    }
  }

  /** Sorting a two-entry list given in descending order. */
  lemma Sort2(a: int, b: int)
    requires a < b
    ensures SortAscending([b, a]) == [a, b]
  {
    assert [b, a][1..] == [a];
    assert [a][1..] == [];
    assert SortAscending([a]) == [a];
    assert Insert(b, []) == [b];
  }

  /** Sorting a three-entry list given in descending order. */
  lemma Sort3(a: int, b: int, c: int)
    requires a < b < c
    ensures SortAscending([c, b, a]) == [a, b, c]
  {
    assert [c, b, a][1..] == [b, a];
    Sort2(a, b);
    assert [a, b][1..] == [b];
    assert [b][1..] == [];
    assert Insert(c, []) == [c];
    assert Insert(c, [b]) == [b, c];
  }

  /** Scanning an unmarked ID marks and appends it. */
  lemma ScanFresh(x: int, ns: seq<int>, pending: seq<int>, seen: set<int>)
    requires x !in seen
    ensures AddUnvisited([x] + ns, pending, seen) == AddUnvisited(ns, pending + [x], seen + {x})
  {
    assert ([x] + ns)[1..] == ns;
  }

  /** Scanning a marked ID skips it. */
  lemma ScanSeen(x: int, ns: seq<int>, pending: seq<int>, seen: set<int>)
    requires x in seen
    ensures AddUnvisited([x] + ns, pending, seen) == AddUnvisited(ns, pending, seen)
  {
    assert ([x] + ns)[1..] == ns;
  }

  /** A one-entry scan of a marked ID changes nothing. */
  lemma Scan1(rest: seq<int>, seen: set<int>, a: int)
    requires a in seen
    ensures AddUnvisited([a], rest, seen) == (rest, seen)
  {
    ScanSeen(a, [], rest, seen);
    assert [a] + [] == [a];
  }

  /** A scan of one marked and one unmarked ID. */
  lemma Scan2(rest: seq<int>, seen: set<int>, a: int, b: int)
    requires a in seen && b !in seen
    ensures AddUnvisited([a, b], rest, seen) == (rest + [b], seen + {b})
  {
    ScanSeen(a, [b], rest, seen);
    ScanFresh(b, [], rest, seen);
    assert [a] + [b] == [a, b];
    assert [b] + [] == [b];
  }

  /** A scan of one marked and two unmarked IDs. */
  lemma Scan3Seen(rest: seq<int>, seen: set<int>, a: int, b: int, c: int)
    requires a in seen && b !in seen && c !in seen && b != c
    ensures AddUnvisited([a, b, c], rest, seen) == (rest + [b, c], seen + {b, c})
  {
    assert [a] + [b, c] == [a, b, c];
    assert [b] + [c] == [b, c];
    assert [c] + [] == [c];
    ScanSeen(a, [b, c], rest, seen);
    ScanFresh(b, [c], rest, seen);
    ScanFresh(c, [], rest + [b], seen + {b});
    assert rest + [b] + [c] == rest + [b, c];
    assert seen + {b} + {c} == seen + {b, c};
  }

  /** A scan of three unmarked IDs. */
  lemma Scan3Fresh(rest: seq<int>, seen: set<int>, a: int, b: int, c: int)
    requires a !in seen && b !in seen && c !in seen && a != b && b != c && a != c
    ensures AddUnvisited([a, b, c], rest, seen) == (rest + [a, b, c], seen + {a, b, c})
  {
    assert [a] + [b, c] == [a, b, c];
    assert [b] + [c] == [b, c];
    assert [c] + [] == [c];
    ScanFresh(a, [b, c], rest, seen);
    ScanFresh(b, [c], rest + [a], seen + {a});
    ScanFresh(c, [], rest + [a] + [b], seen + {a} + {b});
    assert rest + [a] + [b] + [c] == rest + [a, b, c];
    assert seen + {a} + {b} + {c} == seen + {a, b, c};
  }

  /** One round of the traversal: take `u`, scan its sorted list, continue with the new queue. */
  lemma Step(g: Adjacency, queue: seq<int>, u: int, rest: seq<int>, seen: set<int>, sorted: seq<int>, next: seq<int>, seen': set<int>)
    requires Closed(g) && seen <= g.Keys && seen' <= g.Keys
    requires queue == [u] + rest && u in g && (forall x :: x in rest ==> x in g) && (forall x :: x in next ==> x in g)
    requires SortAscending(g[u]) == sorted
    requires AddUnvisited(sorted, rest, seen) == (next, seen')
    ensures BfsRun(g, queue, seen) == [u] + BfsRun(g, next, seen')
  {
    assert queue[0] == u && queue[1..] == rest;
  }

  /** A user whose one neighbour is already marked. */
  lemma StepSeen(g: Adjacency, queue: seq<int>, u: int, rest: seq<int>, seen: set<int>, a: int)
    requires Closed(g) && seen <= g.Keys && u in g && (forall x :: x in rest ==> x in g)
    requires queue == [u] + rest && g[u] == [a] && a in seen
    ensures BfsRun(g, queue, seen) == [u] + BfsRun(g, rest, seen)
  {
    assert [a][1..] == [];
    assert Insert(a, []) == [a];
    Scan1(rest, seen, a);
    Step(g, queue, u, rest, seen, [a], rest, seen);
  }

  /** A user with a marked neighbour `a` and an unmarked one `b > a`. */
  lemma StepSeenFresh(g: Adjacency, queue: seq<int>, u: int, rest: seq<int>, seen: set<int>, a: int, b: int, next: seq<int>, seen': set<int>)
    requires Closed(g) && seen <= g.Keys && u in g && b in g && (forall x :: x in rest ==> x in g)
    requires queue == [u] + rest && g[u] == [b, a] && a < b && a in seen && b !in seen
    requires next == rest + [b] && seen' == seen + {b}
    ensures BfsRun(g, queue, seen) == [u] + BfsRun(g, next, seen')
  {
    Sort2(a, b);
    Scan2(rest, seen, a, b);
    Step(g, queue, u, rest, seen, [a, b], next, seen');
  }

  /** A user with neighbours `a < b < c` of which only `a` is marked. */
  lemma StepSeenFresh2(g: Adjacency, queue: seq<int>, u: int, rest: seq<int>, seen: set<int>, a: int, b: int, c: int, next: seq<int>, seen': set<int>)
    requires Closed(g) && seen <= g.Keys && u in g && b in g && c in g && (forall x :: x in rest ==> x in g)
    requires queue == [u] + rest && g[u] == [c, b, a] && a < b < c && a in seen && b !in seen && c !in seen
    requires next == rest + [b, c] && seen' == seen + {b, c}
    ensures BfsRun(g, queue, seen) == [u] + BfsRun(g, next, seen')
  {
    Sort3(a, b, c);
    Scan3Seen(rest, seen, a, b, c);
    Step(g, queue, u, rest, seen, [a, b, c], next, seen');
  }

  /** A user with three unmarked neighbours `a < b < c`. */
  lemma StepFresh3(g: Adjacency, queue: seq<int>, u: int, rest: seq<int>, seen: set<int>, a: int, b: int, c: int, next: seq<int>, seen': set<int>)
    requires Closed(g) && seen <= g.Keys && u in g && a in g && b in g && c in g && (forall x :: x in rest ==> x in g)
    requires queue == [u] + rest && g[u] == [c, b, a] && a < b < c && a !in seen && b !in seen && c !in seen
    requires next == rest + [a, b, c] && seen' == seen + {a, b, c}
    ensures BfsRun(g, queue, seen) == [u] + BfsRun(g, next, seen')
  {
    Sort3(a, b, c);
    Scan3Fresh(rest, seen, a, b, c);
    Step(g, queue, u, rest, seen, [a, b, c], next, seen');
  }

  // The traversal from user 1, one queue state at a time, from the end back to the start.

  lemma VisitLeaves(g: Adjacency)
    requires Seeded(g)
    ensures BfsRun(g, [7, 8, 9, 10], {1, 2, 3, 4, 5, 6, 7, 8, 9, 10}) == [7, 8, 9, 10]
  {
    var all := {1, 2, 3, 4, 5, 6, 7, 8, 9, 10};
    StepSeen(g, [7, 8, 9, 10], 7, [8, 9, 10], all, 4);
    StepSeen(g, [8, 9, 10], 8, [9, 10], all, 4);
    StepSeen(g, [9, 10], 9, [10], all, 5);
    StepSeen(g, [10], 10, [], all, 6);
  }

  lemma VisitFrom6(g: Adjacency)
    requires Seeded(g)
    ensures BfsRun(g, [6, 7, 8, 9], {1, 2, 3, 4, 5, 6, 7, 8, 9}) == [6, 7, 8, 9, 10]
  {
    VisitLeaves(g);
    StepSeenFresh(g, [6, 7, 8, 9], 6, [7, 8, 9], {1, 2, 3, 4, 5, 6, 7, 8, 9}, 3, 10, [7, 8, 9, 10], {1, 2, 3, 4, 5, 6, 7, 8, 9, 10});
  }

  lemma VisitFrom5(g: Adjacency)
    requires Seeded(g)
    ensures BfsRun(g, [5, 6, 7, 8], {1, 2, 3, 4, 5, 6, 7, 8}) == [5, 6, 7, 8, 9, 10]
  {
    VisitFrom6(g);
    StepSeenFresh(g, [5, 6, 7, 8], 5, [6, 7, 8], {1, 2, 3, 4, 5, 6, 7, 8}, 2, 9, [6, 7, 8, 9], {1, 2, 3, 4, 5, 6, 7, 8, 9});
  }

  lemma VisitFrom4(g: Adjacency)
    requires Seeded(g)
    ensures BfsRun(g, [4, 5, 6], {1, 2, 3, 4, 5, 6}) == [4, 5, 6, 7, 8, 9, 10]
  {
    VisitFrom5(g);
    StepSeenFresh2(g, [4, 5, 6], 4, [5, 6], {1, 2, 3, 4, 5, 6}, 1, 7, 8, [5, 6, 7, 8], {1, 2, 3, 4, 5, 6, 7, 8});
  }

  lemma VisitFrom3(g: Adjacency)
    requires Seeded(g)
    ensures BfsRun(g, [3, 4, 5], {1, 2, 3, 4, 5}) == [3, 4, 5, 6, 7, 8, 9, 10]
  {
    VisitFrom4(g);
    StepSeenFresh(g, [3, 4, 5], 3, [4, 5], {1, 2, 3, 4, 5}, 1, 6, [4, 5, 6], {1, 2, 3, 4, 5, 6});
  }

  lemma VisitFrom2(g: Adjacency)
    requires Seeded(g)
    ensures BfsRun(g, [2, 3, 4], {1, 2, 3, 4}) == [2, 3, 4, 5, 6, 7, 8, 9, 10]
  {
    VisitFrom3(g);
    StepSeenFresh(g, [2, 3, 4], 2, [3, 4], {1, 2, 3, 4}, 1, 5, [3, 4, 5], {1, 2, 3, 4, 5});
  }

  /** Breadth-first from user 1 visits the users in ID order. */
  lemma ExampleBfsOrder(g: Adjacency)
    requires Seeded(g)
    ensures BfsOrder(g, 1) == [1, 2, 3, 4, 5, 6, 7, 8, 9, 10]
  {
    VisitFrom2(g);
    StepFresh3(g, [1], 1, [], {1}, 2, 3, 4, [2, 3, 4], {1, 2, 3, 4});
  }

  /** The path 9, 5, 2, 1, 3, 6, 10 has six hops, and no path from 9 to 10 has fewer. */
  lemma ExampleDistance(g: Adjacency)
    requires Seeded(g)
    ensures PathFrom(g, [9, 5, 2, 1, 3, 6, 10], 9, 10)
    ensures forall p :: PathFrom(g, p, 9, 10) ==> |p| - 1 >= 6
  {
    var p := [9, 5, 2, 1, 3, 6, 10];
    assert forall i :: 0 <= i < |p| - 1 ==> p[i + 1] in g[p[i]];
    var f := map[9 := 0, 5 := 1, 2 := 2, 1 := 3, 3 := 4, 4 := 4, 6 := 5, 7 := 5, 8 := 5, 10 := 6];
    forall p | PathFrom(g, p, 9, 10) ensures |p| - 1 >= 6 {
      PotentialBound(g, f, p);
    }
  }

  /** The seeding loop: users 1 to 10, none of them connected yet. */
  method SeedUsers() returns (net: SocialNetwork)
    ensures fresh(net) && net.Valid()
    ensures net.users == [1, 2, 3, 4, 5, 6, 7, 8, 9, 10]
    ensures forall j :: j in net.connections <==> 1 <= j <= 10
    ensures forall j :: 1 <= j <= 10 ==> net.connections[j] == []
  {
    net := new SocialNetwork();
    for i := 1 to 11
      invariant net.Valid()
      invariant net.users == seq(i - 1, j => j + 1)
      invariant forall j :: j in net.connections <==> 1 <= j < i
      invariant forall j :: 1 <= j < i ==> net.connections[j] == []
    {
      var ok := net.AddUser(i);
      assert net.users == seq(i, j => j + 1);
    }
  }

  /** `g` holds users 1 to 10, and user `u` has the list `ls[u - 1]`. */
  ghost predicate Lists(g: Adjacency, ls: seq<seq<int>>) {
    && |ls| == 10 && (forall u :: u in g <==> 1 <= u <= 10)
    && forall u :: 1 <= u <= 10 ==> g[u] == ls[u - 1]
  }

  /**
   * One addConnection call of the seeding, between two users not yet
   * connected: their lists become `la` and `lb`, and all the lists go from
   * `ls` to `ls'`.
   */
  method Connect(net: SocialNetwork, a: int, b: int, la: seq<int>, lb: seq<int>, ls: seq<seq<int>>, ls': seq<seq<int>>)
    requires net.Valid() && net.users == [1, 2, 3, 4, 5, 6, 7, 8, 9, 10]
    requires 1 <= a <= 10 && 1 <= b <= 10 && a != b
    requires Lists(net.connections, ls) && b !in ls[a - 1]
    requires la == [b] + ls[a - 1] && lb == [a] + ls[b - 1] && ls' == ls[a - 1 := la][b - 1 := lb]
    modifies net
    ensures net.Valid() && net.users == old(net.users)
    ensures Lists(net.connections, ls')
  {
    var ok := net.AddConnection(a, b);
  }

  /** The first three addConnection calls: user 1 to users 2, 3 and 4. */
  method ConnectRoot(net: SocialNetwork)
    requires net.Valid() && net.users == [1, 2, 3, 4, 5, 6, 7, 8, 9, 10]
    requires Lists(net.connections, [[], [], [], [], [], [], [], [], [], []])
    modifies net
    ensures net.Valid() && net.users == old(net.users)
    ensures Lists(net.connections, [[4, 3, 2], [1], [1], [1], [], [], [], [], [], []])
  {
    Connect(net, 1, 2, [2], [1],
            [[], [], [], [], [], [], [], [], [], []],
            [[2], [1], [], [], [], [], [], [], [], []]);
    Connect(net, 1, 3, [3, 2], [1],
            [[2], [1], [], [], [], [], [], [], [], []],
            [[3, 2], [1], [1], [], [], [], [], [], [], []]);
    Connect(net, 1, 4, [4, 3, 2], [1],
            [[3, 2], [1], [1], [], [], [], [], [], [], []],
            [[4, 3, 2], [1], [1], [1], [], [], [], [], [], []]);
  }

  /** The next three: 2 to 5, 3 to 6 and 4 to 7. */
  method ConnectMiddle(net: SocialNetwork)
    requires net.Valid() && net.users == [1, 2, 3, 4, 5, 6, 7, 8, 9, 10]
    requires Lists(net.connections, [[4, 3, 2], [1], [1], [1], [], [], [], [], [], []])
    modifies net
    ensures net.Valid() && net.users == old(net.users)
    ensures Lists(net.connections, [[4, 3, 2], [5, 1], [6, 1], [7, 1], [2], [3], [4], [], [], []])
  {
    Connect(net, 2, 5, [5, 1], [2],
            [[4, 3, 2], [1], [1], [1], [], [], [], [], [], []],
            [[4, 3, 2], [5, 1], [1], [1], [2], [], [], [], [], []]);
    Connect(net, 3, 6, [6, 1], [3],
            [[4, 3, 2], [5, 1], [1], [1], [2], [], [], [], [], []],
            [[4, 3, 2], [5, 1], [6, 1], [1], [2], [3], [], [], [], []]);
    Connect(net, 4, 7, [7, 1], [4],
            [[4, 3, 2], [5, 1], [6, 1], [1], [2], [3], [], [], [], []],
            [[4, 3, 2], [5, 1], [6, 1], [7, 1], [2], [3], [4], [], [], []]);
  }

  /** The last three: 4 to 8, 5 to 9 and 6 to 10. */
  method ConnectLeaves(net: SocialNetwork)
    requires net.Valid() && net.users == [1, 2, 3, 4, 5, 6, 7, 8, 9, 10]
    requires Lists(net.connections, [[4, 3, 2], [5, 1], [6, 1], [7, 1], [2], [3], [4], [], [], []])
    modifies net
    ensures net.Valid() && net.users == old(net.users)
    ensures Lists(net.connections, [[4, 3, 2], [5, 1], [6, 1], [8, 7, 1], [9, 2], [10, 3], [4], [4], [5], [6]])
  {
    Connect(net, 4, 8, [8, 7, 1], [4],
            [[4, 3, 2], [5, 1], [6, 1], [7, 1], [2], [3], [4], [], [], []],
            [[4, 3, 2], [5, 1], [6, 1], [8, 7, 1], [2], [3], [4], [4], [], []]);
    Connect(net, 5, 9, [9, 2], [5],
            [[4, 3, 2], [5, 1], [6, 1], [8, 7, 1], [2], [3], [4], [4], [], []],
            [[4, 3, 2], [5, 1], [6, 1], [8, 7, 1], [9, 2], [3], [4], [4], [5], []]);
    Connect(net, 6, 10, [10, 3], [6],
            [[4, 3, 2], [5, 1], [6, 1], [8, 7, 1], [9, 2], [3], [4], [4], [5], []],
            [[4, 3, 2], [5, 1], [6, 1], [8, 7, 1], [9, 2], [10, 3], [4], [4], [5], [6]]);
  }

  /** Before any connection, every one of the ten lists is empty. */
  lemma NoListsYet(g: Adjacency)
    requires forall j :: j in g <==> 1 <= j <= 10
    requires forall j :: 1 <= j <= 10 ==> g[j] == []
    ensures Lists(g, [[], [], [], [], [], [], [], [], [], []])
  {
    var none: seq<seq<int>> := [[], [], [], [], [], [], [], [], [], []];
    assert none == seq(10, i => []);
  }

  /** After the nine connections, the lists are the seeded ones. */
  lemma ListsSeeded(g: Adjacency, users: seq<int>)
    requires WellFormed(users, g)
    requires Lists(g, [[4, 3, 2], [5, 1], [6, 1], [8, 7, 1], [9, 2], [10, 3], [4], [4], [5], [6]])
    ensures Seeded(g)
  {
    WellFormedClosed(users, g);
    assert g[1] == [4, 3, 2] && g[2] == [5, 1] && g[3] == [6, 1] && g[4] == [8, 7, 1] && g[5] == [9, 2];
    assert g[6] == [10, 3] && g[7] == [4] && g[8] == [4] && g[9] == [5] && g[10] == [6];
  }

  /** The seeding loop followed by the nine addConnection calls, in program order. */
  method ExampleNetwork() returns (net: SocialNetwork)
    ensures net.Valid()
    ensures net.users == [1, 2, 3, 4, 5, 6, 7, 8, 9, 10] && Seeded(net.connections)
    ensures net.connections == ExampleGraph()
  {
    net := SeedUsers();
    NoListsYet(net.connections);
    ConnectRoot(net);
    ConnectMiddle(net);
    ConnectLeaves(net);
    ListsSeeded(net.connections, net.users);
    ExampleGraphSeeded(net.connections);
  }

  /** BFS from user 1 lists 1 to 10 in order; the shortest path from 9 to 10 has six hops. */
  method ExampleRuns() returns (order: seq<int>, dist: int, path: seq<int>)
    ensures order == [1, 2, 3, 4, 5, 6, 7, 8, 9, 10]
    ensures dist == 6 && |path| == 7 && PathFrom(ExampleGraph(), path, 9, 10)
  {
    var net := ExampleNetwork();
    ghost var g := net.connections;
    forall u | Reachable(g, 1, u) || Reachable(g, 9, u) ensures 1 <= u <= 10 {
      if Reachable(g, 1, u) {
        ReachableEnds(g, 1, u);
      } else {
        ReachableEnds(g, 9, u);
      }
    }
    var ok;
    ok, order := net.Bfs(1);
    ExampleBfsOrder(g);
    ExampleDistance(g);
    dist, path := net.FindShortestPath(9, 10);
  }
}
