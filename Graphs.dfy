/**
 * The social graph as values: the user list, the per-user connection lists,
 * the invariant the network keeps between them, paths and reachability, and
 * the visiting orders of the two traversals.
 */
module Graphs {
  import opened ConnectionLists

  /** Each user ID mapped to its connection list, newest connection first. */
  type Adjacency = map<int, seq<int>>

  /**
   * The network invariant: user IDs are distinct and are exactly the keys of
   * the connection map; no list names its owner or repeats an ID; every
   * listed ID is a user; and b is in a's list iff a is in b's list.
   */
  ghost predicate WellFormed(users: seq<int>, g: Adjacency) {
    && NoDup(users)
    && (forall u :: u in g <==> u in users)
    && (forall u :: u in g ==> NoDup(g[u]) && u !in g[u])
    && (forall u, v :: u in g && v in g[u] ==> v in g && u in g[v])
  }

  /** Every listed ID has a connection list of its own. */
  ghost predicate Closed(g: Adjacency) {
    forall u, v :: u in g && v in g[u] ==> v in g
  }

  lemma WellFormedClosed(users: seq<int>, g: Adjacency)
    requires WellFormed(users, g)
    ensures Closed(g)
  {
  }

  /** The summed length of the connection lists of `users`. */
  function TotalDegree(users: seq<int>, g: Adjacency): nat
    requires forall u :: u in users ==> u in g
  {
    if users == [] then 0
    else
      var u := users[0];
      assert u in users;
      |g[u]| + TotalDegree(users[1..], g)
  }

  /** The degree sum only looks at the lists of the users it sums over. */
  lemma {:induction false} TotalDegreeAgree(users: seq<int>, g: Adjacency, h: Adjacency)
    requires forall u :: u in users ==> u in g && u in h && |g[u]| == |h[u]|
    ensures TotalDegree(users, g) == TotalDegree(users, h)
  {
    if users != [] {
      var u := users[0];
      assert u in users;
      TotalDegreeAgree(users[1..], g, h);
    }
  }

  /** Replacing the list of one user changes the degree sum by the difference in length. */
  lemma {:induction false} TotalDegreeUpdate(users: seq<int>, g: Adjacency, k: int, s: seq<int>)
    requires NoDup(users) && k in users
    requires forall u :: u in users ==> u in g
    ensures TotalDegree(users, g[k := s]) == TotalDegree(users, g) - |g[k]| + |s|
  {
    if users[0] == k {
      assert k !in users[1..];
      TotalDegreeAgree(users[1..], g[k := s], g);
    } else {
      TotalDegreeUpdate(users[1..], g, k, s);
    }
  }

  // ----- the invariant under the four mutations -----

  /** Appending a fresh ID keeps a list duplicate-free. */
  lemma NoDupAppend(s: seq<int>, x: int)
    requires NoDup(s) && x !in s
    ensures NoDup(s + [x])
  {
    var t := s + [x];
    forall i, j | 0 <= i < j < |t| ensures t[i] != t[j] {
      if j == |s| {
        assert t[i] == s[i] && s[i] in s;
      } else {
        assert t[i] == s[i] && t[j] == s[j];
      }
    }
  }

  /** Prepending a fresh ID keeps a list duplicate-free. */
  lemma NoDupPrepend(x: int, s: seq<int>)
    requires NoDup(s) && x !in s
    ensures NoDup([x] + s)
  {
    var t := [x] + s;
    forall i, j | 0 <= i < j < |t| ensures t[i] != t[j] {
      if i == 0 {
        assert t[j] == s[j - 1] && s[j - 1] in s;
      } else {
        assert t[i] == s[i - 1] && t[j] == s[j - 1];
      }
    }
  }

  /** addUser: a new user with an empty connection list keeps the invariant. */
  lemma AddUserWellFormed(users: seq<int>, g: Adjacency, id: int)
    requires WellFormed(users, g) && id !in users
    ensures WellFormed(users + [id], g[id := []])
  {
    NoDupAppend(users, id);
  }

  /** addConnection: prepending each endpoint to the other's list keeps the invariant. */
  lemma AddEdgeWellFormed(users: seq<int>, g: Adjacency, a: int, b: int)
    requires WellFormed(users, g)
    requires a in g && b in g && a != b && b !in g[a]
    ensures WellFormed(users, g[a := [b] + g[a]][b := [a] + g[b]])
  {
    assert a !in g[b];
    NoDupPrepend(b, g[a]);
    NoDupPrepend(a, g[b]);
  }

  /** removeConnection: unlinking each endpoint from the other's list keeps the invariant. */
  lemma RemoveEdgeWellFormed(users: seq<int>, g: Adjacency, a: int, b: int)
    requires WellFormed(users, g)
    requires a in g && b in g && a != b && b in g[a]
    ensures WellFormed(users, g[a := RemoveFirst(g[a], b)][b := RemoveFirst(g[b], a)])
  {
    var h := g[a := RemoveFirst(g[a], b)][b := RemoveFirst(g[b], a)];
    RemoveFirstIsRemoveAll(g[a], b);
    RemoveFirstIsRemoveAll(g[b], a);
    RemoveAllNoDup(g[a], b);
    RemoveAllNoDup(g[b], a);
    forall u, v | u in h && v in h[u] ensures v in h && u in h[v] && u != v {
      if u == a {
        RemoveAllMembers(g[a], b, v);
      } else if u == b {
        RemoveAllMembers(g[b], a, v);
      }
      if v == a {
        RemoveAllMembers(g[a], b, u);
      } else if v == b {
        RemoveAllMembers(g[b], a, u);
      }
    }
    forall u | u in h ensures u !in h[u] {
      if u == a {
        RemoveAllMembers(g[a], b, a);
      } else if u == b {
        RemoveAllMembers(g[b], a, b);
      }
    }
  }

  /** The user list with entry `i` unlinked stays duplicate-free and loses exactly that ID. */
  lemma UnlinkUserEntry(users: seq<int>, i: nat)
    requires NoDup(users) && i < |users|
    ensures var rest := users[..i] + users[i + 1..];
      && NoDup(rest)
      && forall u :: u in rest <==> u in users && u != users[i]
  {
    var rest := users[..i] + users[i + 1..];
    forall j, k | 0 <= j < k < |rest| ensures rest[j] != rest[k] {
      var j' := if j < i then j else j + 1;
      var k' := if k < i then k else k + 1;
      assert rest[j] == users[j'] && rest[k] == users[k'];
    }
    forall u ensures u in rest <==> u in users && u != users[i] {
      if u in rest {
        var j :| 0 <= j < |rest| && rest[j] == u;
        var j' := if j < i then j else j + 1;
        assert users[j'] == u;
      }
      if u in users && u != users[i] {
        var j :| 0 <= j < |users| && users[j] == u;
        assert j != i;
        if j < i {
          assert rest[j] == u;
        } else {
          assert rest[j - 1] == u;
        }
      }
    }
  }

  /**
   * removeUser: when `id` leaves the user list and every remaining user's
   * list is `id`-free, the invariant holds again.
   */
  lemma UnlinkedListsWellFormed(users: seq<int>, g: Adjacency, id: int, rest: seq<int>, h: Adjacency)
    requires WellFormed(users, g)
    requires NoDup(rest) && forall u :: u in rest <==> u in users && u != id
    requires forall u :: u in h <==> u in rest
    requires forall u :: u in h ==> h[u] == RemoveAll(g[u], id)
    ensures WellFormed(rest, h)
  {
    forall u | u in h ensures NoDup(h[u]) && u !in h[u] {
      RemoveAllNoDup(g[u], id);
      RemoveAllMembers(g[u], id, u);
    }
    forall u, v | u in h && v in h[u] ensures v in h && u in h[v] {
      RemoveAllMembers(g[u], id, v);
      RemoveAllMembers(g[v], id, u);
    }
  }

  /** addConnection adds one entry to each endpoint's list: two to the degree sum. */
  lemma AddEdgeDegree(users: seq<int>, g: Adjacency, a: int, b: int)
    requires WellFormed(users, g)
    requires a in g && b in g && a != b
    ensures TotalDegree(users, g[a := [b] + g[a]][b := [a] + g[b]]) == TotalDegree(users, g) + 2
  {
    var g1 := g[a := [b] + g[a]];
    TotalDegreeUpdate(users, g, a, [b] + g[a]);
    TotalDegreeUpdate(users, g1, b, [a] + g[b]);
  }

  /** removeConnection takes one entry from each endpoint's list: two from the degree sum. */
  lemma RemoveEdgeDegree(users: seq<int>, g: Adjacency, a: int, b: int)
    requires WellFormed(users, g)
    requires a in g && b in g && a != b && b in g[a]
    ensures TotalDegree(users, g[a := RemoveFirst(g[a], b)][b := RemoveFirst(g[b], a)]) == TotalDegree(users, g) - 2
  {
    var g1 := g[a := RemoveFirst(g[a], b)];
    TotalDegreeUpdate(users, g, a, RemoveFirst(g[a], b));
    TotalDegreeUpdate(users, g1, b, RemoveFirst(g[b], a));
  }

  /** The undirected connections: one two-element set per pair of connected users. */
  ghost function Edges(g: Adjacency): set<set<int>> {
    set u, v | u in g && v in g[u] :: {u, v}
  }

  /** The degree sum is zero exactly when every list of `users` is empty. */
  lemma {:induction false} DegreeZero(users: seq<int>, g: Adjacency)
    requires forall u :: u in users ==> u in g
    ensures TotalDegree(users, g) == 0 <==> forall u :: u in users ==> g[u] == []
  {
    if users != [] {
      var u := users[0];
      assert u in users;
      DegreeZero(users[1..], g);
      assert forall v :: v in users <==> v == u || v in users[1..];
    }
  }

  /** The connection lists after `a` and `b` are unlinked from each other. */
  function Unlinked(g: Adjacency, a: int, b: int): Adjacency
    requires a in g && b in g
  {
    g[a := RemoveFirst(g[a], b)][b := RemoveFirst(g[b], a)]
  }

  /** Unlinking adds no pair and leaves `{a, b}` out. */
  lemma EdgesRemoveSub(users: seq<int>, g: Adjacency, a: int, b: int)
    requires WellFormed(users, g)
    requires a in g && b in g && a != b && b in g[a]
    ensures forall e :: e in Edges(Unlinked(g, a, b)) ==> e in Edges(g) && e != {a, b}
  {
    var h := Unlinked(g, a, b);
    RemoveFirstIsRemoveAll(g[a], b);
    RemoveFirstIsRemoveAll(g[b], a);
    forall e | e in Edges(h) ensures e in Edges(g) && e != {a, b} {
      var u, v :| u in h && v in h[u] && e == {u, v};
      if u == a {
        RemoveAllMembers(g[a], b, v);
        assert b !in e;
      } else if u == b {
        RemoveAllMembers(g[b], a, v);
        assert a !in e;
      } else {
        assert u !in {a, b};
      }
    }
  }

  /** Unlinking keeps every pair other than `{a, b}`. */
  lemma EdgesRemoveSup(users: seq<int>, g: Adjacency, a: int, b: int)
    requires WellFormed(users, g)
    requires a in g && b in g && a != b && b in g[a]
    ensures forall e :: e in Edges(g) && e != {a, b} ==> e in Edges(Unlinked(g, a, b))
  {
    var h := Unlinked(g, a, b);
    RemoveFirstIsRemoveAll(g[a], b);
    RemoveFirstIsRemoveAll(g[b], a);
    forall e | e in Edges(g) && e != {a, b} ensures e in Edges(h) {
      var u, v :| u in g && v in g[u] && e == {u, v};
      if u == a {
        RemoveAllMembers(g[a], b, v);
      } else if u == b {
        RemoveAllMembers(g[b], a, v);
      }
    }
  }

  /** Unlinking a connection from both lists takes exactly that pair out of the edge set. */
  lemma EdgesRemove(users: seq<int>, g: Adjacency, a: int, b: int)
    requires WellFormed(users, g)
    requires a in g && b in g && a != b && b in g[a]
    ensures {a, b} in Edges(g)
    ensures Edges(g[a := RemoveFirst(g[a], b)][b := RemoveFirst(g[b], a)]) == Edges(g) - {{a, b}}
  {
    EdgesRemoveSub(users, g, a, b);
    EdgesRemoveSup(users, g, a, b);
    assert Edges(Unlinked(g, a, b)) == Edges(g) - {{a, b}};
  }

  /**
   * Every connection is listed once at each of its two ends, so the degree
   * sum is twice the number of undirected connections.
   */
  lemma {:induction false} DegreeIsTwiceEdges(users: seq<int>, g: Adjacency)
    requires WellFormed(users, g)
    ensures TotalDegree(users, g) == 2 * |Edges(g)|
    decreases TotalDegree(users, g)
  {
    DegreeZero(users, g);
    if TotalDegree(users, g) == 0 {
      assert forall u :: u in g ==> g[u] == [];
      assert forall e :: e !in Edges(g);
      assert Edges(g) == {};
    } else {
      var a :| a in users && g[a] != [];
      var b := g[a][0];
      assert b in g[a];
      var h := g[a := RemoveFirst(g[a], b)][b := RemoveFirst(g[b], a)];
      RemoveEdgeWellFormed(users, g, a, b);
      RemoveEdgeDegree(users, g, a, b);
      EdgesRemove(users, g, a, b);
      DegreeIsTwiceEdges(users, h);
    }
  }

  /** A successful addConnection adds exactly one undirected connection. */
  lemma AddEdgeCount(users: seq<int>, g: Adjacency, a: int, b: int)
    requires WellFormed(users, g)
    requires a in g && b in g && a != b && b !in g[a]
    ensures |Edges(g[a := [b] + g[a]][b := [a] + g[b]])| == |Edges(g)| + 1
  {
    AddEdgeWellFormed(users, g, a, b);
    AddEdgeDegree(users, g, a, b);
    DegreeIsTwiceEdges(users, g);
    DegreeIsTwiceEdges(users, g[a := [b] + g[a]][b := [a] + g[b]]);
  }

  /** A successful removeConnection takes away exactly one undirected connection. */
  lemma RemoveEdgeCount(users: seq<int>, g: Adjacency, a: int, b: int)
    requires WellFormed(users, g)
    requires a in g && b in g && a != b && b in g[a]
    ensures |Edges(g[a := RemoveFirst(g[a], b)][b := RemoveFirst(g[b], a)])| == |Edges(g)| - 1
  {
    EdgesRemove(users, g, a, b);
  }

  // ----- paths and reachability -----

  /** A walk along connections: every entry a user, each next entry in the previous one's list. */
  ghost predicate IsPath(g: Adjacency, p: seq<int>) {
    && |p| >= 1
    && (forall i :: 0 <= i < |p| ==> p[i] in g)
    && (forall i :: 0 <= i < |p| - 1 ==> p[i + 1] in g[p[i]])
  }

  ghost predicate PathFrom(g: Adjacency, p: seq<int>, a: int, b: int) {
    IsPath(g, p) && p[0] == a && p[|p| - 1] == b
  }

  /** `b` can be reached from `a` by following connections (zero or more hops). */
  ghost predicate Reachable(g: Adjacency, a: int, b: int) {
    exists p :: PathFrom(g, p, a, b)
  }

  lemma ReachableSelf(g: Adjacency, a: int)
    requires a in g
    ensures Reachable(g, a, a)
  {
    assert PathFrom(g, [a], a, a);
  }

  /** Following one more connection from a reachable user reaches its neighbour. */
  lemma ReachableStep(g: Adjacency, a: int, b: int, c: int)
    requires Closed(g)
    requires Reachable(g, a, b) && b in g && c in g[b]
    ensures Reachable(g, a, c)
  {
    var p :| PathFrom(g, p, a, b);
    var q := p + [c];
    assert q[|q| - 2] == b;
    assert PathFrom(g, q, a, c);
  }

  /** Both ends of a path are users. */
  lemma ReachableEnds(g: Adjacency, a: int, b: int)
    requires Reachable(g, a, b)
    ensures a in g && b in g
  {
    var p :| PathFrom(g, p, a, b);
    assert p[|p| - 1] in g;
  }

  /** A set closed under following connections holds every entry of a path that starts in it. */
  lemma {:induction false} PathStaysInClosedSet(g: Adjacency, s: set<int>, p: seq<int>)
    requires IsPath(g, p) && p[0] in s
    requires forall x, y :: x in s && x in g && y in g[x] ==> y in s
    ensures p[|p| - 1] in s
  {
    if |p| > 1 {
      var q := p[..|p| - 1];
      assert IsPath(g, q);
      PathStaysInClosedSet(g, s, q);
      assert p[|p| - 1] in g[q[|q| - 1]];
    }
  }

  /** A set closed under following connections holds everything reachable from its members. */
  lemma ClosedSetHoldsReachable(g: Adjacency, s: set<int>, a: int, b: int)
    requires a in s && Reachable(g, a, b)
    requires forall x, y :: x in s && x in g && y in g[x] ==> y in s
    ensures b in s
  {
    var p :| PathFrom(g, p, a, b);
    PathStaysInClosedSet(g, s, p);
  }

  /**
   * Lower bound on path length by a potential: if `f` changes by at most one
   * along every connection, a path from a to b has at least f[b] - f[a] hops.
   */
  lemma {:induction false} PotentialBound(g: Adjacency, f: map<int, int>, p: seq<int>)
    requires IsPath(g, p)
    requires forall u :: u in g ==> u in f
    requires forall u, v :: u in g && v in g[u] && v in f ==> f[v] <= f[u] + 1
    ensures var a, b := p[0], p[|p| - 1]; a in f && b in f && f[b] - f[a] <= |p| - 1
  {
    if |p| > 1 {
      var q := p[..|p| - 1];
      assert IsPath(g, q);
      PotentialBound(g, f, q);
      assert p[|p| - 1] in g[q[|q| - 1]];
    }
  }

  /** Prepending a user whose list holds the first entry extends a path. */
  lemma PathCons(g: Adjacency, v: int, p: seq<int>)
    requires IsPath(g, p) && v in g && p[0] in g[v]
    ensures IsPath(g, [v] + p)
  {
    var q := [v] + p;
    forall i | 0 <= i < |q| - 1 ensures q[i + 1] in g[q[i]] {
      if i > 0 {
        assert q[i] == p[i - 1] && q[i + 1] == p[i];
      }
    }
  }

  /** A set of IDs drawn from 0 .. n - 1 has at most n elements. */
  lemma {:induction false} RangeBound(s: set<int>, n: nat)
    requires forall v :: v in s ==> 0 <= v < n
    ensures |s| <= n
  {
    if n == 0 {
      assert forall v :: v !in s;
      assert s == {};
    } else {
      var t := s - {n - 1};
      RangeBound(t, n - 1);
      SubsetSmaller(s, t + {n - 1});
    }
  }

  /**
   * Breadth-first layering. Let `d` be the distance table of a breadth-first
   * search from `start`, `seen` the users it has discovered and `done` those
   * whose lists it has scanned. If every discovered user closer than `level`
   * has been scanned and scanning never skips a neighbour nor sets a distance
   * more than one above the scanned user's, then every path from `start` of
   * at most `level` hops ends at a discovered user, no farther than the path
   * is long.
   */
  lemma {:induction false} FrontierBound(g: Adjacency, start: int, p: seq<int>, seen: set<int>, done: set<int>, d: seq<int>, level: int)
    requires IsPath(g, p) && p[0] == start
    requires start in seen && forall v :: v in done ==> v in seen
    requires forall v :: v in seen ==> 0 <= v < |d|
    requires d[start] == 0
    requires forall v :: v in seen && d[v] < level ==> v in done
    requires forall x, y :: x in done && x in g && y in g[x] ==> y in seen && d[y] <= d[x] + 1
    requires |p| - 1 <= level
    ensures p[|p| - 1] in seen && d[p[|p| - 1]] <= |p| - 1
  {
    if |p| > 1 {
      var q := p[..|p| - 1];
      assert IsPath(g, q);
      FrontierBound(g, start, q, seen, done, d, level);
      var x, y := q[|q| - 1], p[|p| - 1];
      assert x == p[|p| - 2];
      assert x in done;
    }
  }

  // ----- traversal orders -----

  /** One user's list contributes only IDs that are users. */
  lemma SortedNeighboursAreUsers(g: Adjacency, u: int)
    requires Closed(g) && u in g
    ensures forall v :: v in SortAscending(g[u]) ==> v in g
  {
    SortAscendingSorts(g[u]);
    forall v | v in SortAscending(g[u]) ensures v in g {
      assert multiset(SortAscending(g[u]))[v] > 0;
      assert v in g[u];
    }
  }

  /**
   * Scan `ns` in order; every ID not yet marked is marked and appended to
   * `pending` (the traversal queue or stack). Marks are set when an ID is
   * appended, not when it is taken out.
   */
  function AddUnvisited(ns: seq<int>, pending: seq<int>, seen: set<int>): (seq<int>, set<int>) {
    if ns == [] then (pending, seen)
    else if ns[0] in seen then AddUnvisited(ns[1..], pending, seen)
    else AddUnvisited(ns[1..], pending + [ns[0]], seen + {ns[0]})
  }

  /**
   * A scan only adds: the marks grow by scanned IDs, the pending sequence
   * keeps its prefix and gains scanned IDs, and when it gains anything its
   * first new entry was unmarked before.
   */
  lemma {:induction false} ScanExtends(ns: seq<int>, pending: seq<int>, seen: set<int>)
    ensures var r := AddUnvisited(ns, pending, seen);
      && seen <= r.1
      && (forall x :: x in r.1 ==> x in seen || x in ns)
      && |pending| <= |r.0| && r.0[..|pending|] == pending
      && (forall x :: x in r.0 ==> x in pending || x in ns)
      && (r.0 != pending ==> |r.0| > |pending| && r.0[|pending|] in r.1 && r.0[|pending|] !in seen)
  {
    if ns != [] {
      assert ns == [ns[0]] + ns[1..];
      if ns[0] in seen {
        ScanExtends(ns[1..], pending, seen);
      } else {
        var x := ns[0];
        ScanExtends(ns[1..], pending + [x], seen + {x});
        var r := AddUnvisited(ns[1..], pending + [x], seen + {x});
        assert r.0[..|pending|] == (pending + [x])[..|pending|];
        assert r.0[|pending|] == (pending + [x])[|pending|];
      }
    }
  }

  /**
   * What one scan adds: it keeps a duplicate-free pending sequence
   * duplicate-free and inside the marks, every ID it appends was unmarked
   * before, every new mark belongs to an appended ID, and afterwards every
   * scanned ID is marked.
   */
  lemma {:induction false} AddUnvisitedFacts(ns: seq<int>, pending: seq<int>, seen: set<int>)
    requires NoDup(pending) && forall v :: v in pending ==> v in seen
    ensures var r := AddUnvisited(ns, pending, seen);
      && NoDup(r.0)
      && (forall v :: v in r.0 ==> v in r.1)
      && (forall v :: v in r.0 ==> v in pending || v !in seen)
      && (forall v :: v in r.1 ==> v in seen || v in r.0)
      && (forall v :: v in ns ==> v in r.1)
  {
    ScanExtends(ns, pending, seen);
    if ns != [] {
      assert ns == [ns[0]] + ns[1..];
      if ns[0] in seen {
        AddUnvisitedFacts(ns[1..], pending, seen);
      } else {
        var x := ns[0];
        NoDupAppend(pending, x);
        AddUnvisitedFacts(ns[1..], pending + [x], seen + {x});
        ScanExtends(ns[1..], pending + [x], seen + {x});
        var r := AddUnvisited(ns[1..], pending + [x], seen + {x});
        assert AddUnvisited(ns, pending, seen) == r;
        assert x in r.1;
        assert forall v :: v in r.0 ==> v in pending || v !in seen by {
          forall v | v in r.0 ensures v in pending || v !in seen {
            assert v in pending + [x] || v !in seen + {x};
          }
        }
      }
    }
  }

  /** A subset of a finite set is no larger. */
  lemma SubsetSmaller(a: set<int>, b: set<int>)
    requires a <= b
    ensures |a| <= |b|
  {
    assert b * a == a;
    assert a + (b - a) == b;
  }

  /**
   * Scanning a list of users keeps the pending sequence and the marks inside
   * the user set, and either leaves the pending sequence as it was or marks a
   * new user, so that fewer users are left unmarked.
   */
  lemma ScanMarksOrKeeps(users: set<int>, ns: seq<int>, pending: seq<int>, seen: set<int>)
    requires seen <= users
    requires forall x :: x in ns ==> x in users
    requires forall x :: x in pending ==> x in users
    ensures var next := AddUnvisited(ns, pending, seen);
      && next.1 <= users
      && (forall x :: x in next.0 ==> x in users)
      && |users - next.1| <= |users - seen|
      && (next.0 == pending || |users - next.1| < |users - seen|)
  {
    var next := AddUnvisited(ns, pending, seen);
    ScanExtends(ns, pending, seen);
    forall x | x in next.0 ensures x in users {
      assert x in pending || x in ns;
    }
    forall x | x in next.1 ensures x in users {
      assert x in seen || x in ns;
    }
    SubsetSmaller(users - next.1, users - seen);
    if next.0 != pending {
      var x := next.0[|pending|];
      SubsetSmaller(users - next.1, (users - seen) - {x});
    }
  }

  /**
   * The state of a traversal from `start` between two steps: `order` has been
   * visited, `pending` (queue or stack) waits, and `seen` holds the marked
   * users. Marks are exactly the visited and waiting users, nothing is
   * visited or waiting twice, every mark is reachable from `start`, and every
   * neighbour of a visited user is marked.
   */
  ghost predicate Traversal(g: Adjacency, start: int, order: seq<int>, pending: seq<int>, seen: set<int>) {
    && Closed(g) && seen <= g.Keys
    && (forall v :: v in seen ==> Reachable(g, start, v))
    && (forall v :: v in seen <==> v in order || v in pending)
    && NoDup(order) && NoDup(pending)
    && (forall v :: v in order ==> v !in pending)
    && (forall x, y :: x in order && y in g[x] ==> y in seen)
    && (order == [] ==> pending == [start])
    && (|order| > 0 ==> order[0] == start)
  }

  /** The state before the first step: only `start` waits and is marked. */
  lemma TraversalStart(g: Adjacency, start: int)
    requires Closed(g) && start in g
    ensures Traversal(g, start, [], [start], {start})
  {
    ReachableSelf(g, start);
  }

  /**
   * One step: take `cur` out of `pending` (leaving `rest`), visit it, and
   * scan `ns`, a list holding exactly `cur`'s neighbours, onto `rest`.
   */
  lemma TraversalStep(g: Adjacency, start: int, order: seq<int>, pending: seq<int>, seen: set<int>,
                      cur: int, rest: seq<int>, ns: seq<int>)
    requires Traversal(g, start, order, pending, seen)
    requires cur in pending && cur !in rest && NoDup(rest)
    requires forall v :: v in pending <==> v == cur || v in rest
    requires forall v :: v in ns <==> v in g[cur]
    requires order == [] ==> cur == start
    ensures var next := AddUnvisited(ns, rest, seen);
      Traversal(g, start, order + [cur], next.0, next.1)
  {
    var next := AddUnvisited(ns, rest, seen);
    ScanExtends(ns, rest, seen);
    AddUnvisitedFacts(ns, rest, seen);
    NoDupAppend(order, cur);
    var order' := order + [cur];
    forall v | v in next.1 ensures Reachable(g, start, v) {
      if v !in seen {
        ReachableStep(g, start, cur, v);
      }
    }
    forall v ensures v in next.1 <==> v in order' || v in next.0 {
      if v in next.1 && v !in next.0 {
        assert v in seen;
      }
    }
    if order == [] {
      assert order'[0] == cur;
    } else {
      assert order'[0] == order[0];
    }
  }

  /** When nothing waits any more, the visited users are exactly those reachable from `start`. */
  lemma TraversalEnd(g: Adjacency, start: int, order: seq<int>, seen: set<int>)
    requires Traversal(g, start, order, [], seen)
    ensures |order| > 0 && order[0] == start && NoDup(order)
    ensures forall v :: v in order <==> Reachable(g, start, v)
  {
    var visited := set v | v in order;
    forall v ensures v in order <==> Reachable(g, start, v) {
      if Reachable(g, start, v) {
        ClosedSetHoldsReachable(g, visited, start, v);
      }
    }
  }

  /**
   * Breadth-first order: take the head of the queue, then append its
   * unmarked neighbours in ascending ID order.
   */
  function BfsRun(g: Adjacency, queue: seq<int>, seen: set<int>): (r: seq<int>)
    requires Closed(g) && seen <= g.Keys
    requires forall x :: x in queue ==> x in g
    decreases |g.Keys - seen|, |queue|
  {
    if queue == [] then []
    else
      var u, rest := queue[0], queue[1..];
      assert u in queue;
      SortedNeighboursAreUsers(g, u);
      ScanMarksOrKeeps(g.Keys, SortAscending(g[u]), rest, seen);
      var next := AddUnvisited(SortAscending(g[u]), rest, seen);
      [u] + BfsRun(g, next.0, next.1)
  }

  /**
   * Stack-based depth-first order (top of the stack at the end): pop the
   * top, then push its unmarked neighbours in connection-list order.
   */
  function DfsRun(g: Adjacency, stack: seq<int>, seen: set<int>): (r: seq<int>)
    requires Closed(g) && seen <= g.Keys
    requires forall x :: x in stack ==> x in g
    decreases |g.Keys - seen|, |stack|
  {
    if stack == [] then []
    else
      var u, rest := stack[|stack| - 1], stack[..|stack| - 1];
      assert u in stack;
      ScanMarksOrKeeps(g.Keys, g[u], rest, seen);
      var next := AddUnvisited(g[u], rest, seen);
      [u] + DfsRun(g, next.0, next.1)
  }

  /** The order the breadth-first traversal visits users in, starting from `start`. */
  function BfsOrder(g: Adjacency, start: int): seq<int>
    requires Closed(g)
  {
    if start in g then BfsRun(g, [start], {start}) else []
  }

  /** The order the stack-based depth-first traversal visits users in, starting from `start`. */
  function DfsOrder(g: Adjacency, start: int): seq<int>
    requires Closed(g)
  {
    if start in g then DfsRun(g, [start], {start}) else []
  }

  /**
   * One breadth-first step keeps the traversal state: take the head of the
   * queue, scan its neighbours in ascending order.
   */
  lemma BfsAdvance(g: Adjacency, start: int, order: seq<int>, queue: seq<int>, seen: set<int>)
    requires Traversal(g, start, order, queue, seen) && queue != []
    ensures var cur := queue[0];
      var next := AddUnvisited(SortAscending(g[cur]), queue[1..], seen);
      Traversal(g, start, order + [cur], next.0, next.1)
  {
    var cur := queue[0];
    assert cur in queue;
    SortKeepsIds(g[cur]);
    TraversalStep(g, start, order, queue, seen, cur, queue[1..], SortAscending(g[cur]));
  }

  /**
   * One depth-first step keeps the traversal state: pop the top of the stack
   * (its last entry), scan its connection list in list order.
   */
  lemma DfsAdvance(g: Adjacency, start: int, order: seq<int>, stack: seq<int>, seen: set<int>)
    requires Traversal(g, start, order, stack, seen) && stack != []
    ensures var cur, rest := stack[|stack| - 1], stack[..|stack| - 1];
      var next := AddUnvisited(g[cur], rest, seen);
      Traversal(g, start, order + [cur], next.0, next.1)
  {
    var cur, rest := stack[|stack| - 1], stack[..|stack| - 1];
    assert cur in stack;
    assert stack == rest + [cur];
    TraversalStep(g, start, order, stack, seen, cur, rest, g[cur]);
  }

  /** The breadth-first order unfolded once, and the measure it decreases by. */
  lemma BfsRunUnfold(g: Adjacency, queue: seq<int>, seen: set<int>)
    requires Closed(g) && seen <= g.Keys && queue != []
    requires forall x :: x in queue ==> x in g
    ensures var cur := queue[0];
      var next := AddUnvisited(SortAscending(g[cur]), queue[1..], seen);
      && next.1 <= g.Keys && (forall x :: x in next.0 ==> x in g)
      && BfsRun(g, queue, seen) == [cur] + BfsRun(g, next.0, next.1)
      && (|g.Keys - next.1| < |g.Keys - seen| || (|g.Keys - next.1| == |g.Keys - seen| && |next.0| < |queue|))
  {
    var cur := queue[0];
    assert cur in queue;
    SortedNeighboursAreUsers(g, cur);
    ScanMarksOrKeeps(g.Keys, SortAscending(g[cur]), queue[1..], seen);
  }

  /** The depth-first order unfolded once, and the measure it decreases by. */
  lemma DfsRunUnfold(g: Adjacency, stack: seq<int>, seen: set<int>)
    requires Closed(g) && seen <= g.Keys && stack != []
    requires forall x :: x in stack ==> x in g
    ensures var cur, rest := stack[|stack| - 1], stack[..|stack| - 1];
      var next := AddUnvisited(g[cur], rest, seen);
      && next.1 <= g.Keys && (forall x :: x in next.0 ==> x in g)
      && DfsRun(g, stack, seen) == [cur] + DfsRun(g, next.0, next.1)
      && (|g.Keys - next.1| < |g.Keys - seen| || (|g.Keys - next.1| == |g.Keys - seen| && |next.0| < |stack|))
  {
    var cur, rest := stack[|stack| - 1], stack[..|stack| - 1];
    assert cur in stack;
    ScanMarksOrKeeps(g.Keys, g[cur], rest, seen);
  }
}
