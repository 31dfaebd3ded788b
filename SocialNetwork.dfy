/**
 * The SocialNetwork class: a list of user nodes, each heading its own list of
 * connection nodes. The user chain is kept as `users` (insertion order), the
 * connection chains as `connections` (one list per user, newest first), and
 * the user counter as `numOfUsers`. Console output is not modelled: each
 * operation returns whether it succeeded, and the traversals and the path
 * search return what they print.
 */
module Network {
  import opened ConnectionLists
  import opened Graphs
  import opened ShortestPaths

  datatype Option<T> = None | Some(value: T)

  /** std::max on two IDs. */
  function Max(a: int, b: int): (m: int)
    ensures a <= m && b <= m && (m == a || m == b)
  {
    if a < b then b else a
  }

  /**
   * The connection-list pass of removeUser: walk the remaining users in
   * chain order and unlink every node naming `id` from each one's list. The
   * removed user's own list is not visited.
   */
  method UnlinkFromLists(g: Adjacency, rest: seq<int>, id: int) returns (r: Adjacency)
    requires NoDup(rest) && forall u :: u in rest ==> u in g
    ensures forall u :: u in r <==> u in g
    ensures forall u :: u in r ==> r[u] == if u in rest then RemoveAll(g[u], id) else g[u]
  {
    r := g;
    var k := 0;
    while k < |rest|
      invariant 0 <= k <= |rest|
      invariant forall u :: u in r <==> u in g
      invariant forall u :: u in r ==> r[u] == if u in rest[..k] then RemoveAll(g[u], id) else g[u]
    {
      var u := rest[k];
      assert u in rest && u !in rest[..k];
      var list := UnlinkAll(r[u], id);
      r := r[u := list];
      assert rest[..k + 1] == rest[..k] + [u];
      k := k + 1;
    }
    assert rest[..k] == rest;
  }

  /**
   * After every remaining user's list has been filtered, dropping the removed
   * user's own entry leaves exactly the filtered lists of the remaining users.
   */
  lemma RemovedUserLists(g0: Adjacency, g: Adjacency, id: int, rest: seq<int>)
    requires forall u :: u in rest ==> u in g0 && u != id
    requires forall u :: u in g0 && u != id ==> u in rest
    requires forall u :: u in g <==> u in g0
    requires forall u :: u in g ==> g[u] == if u in rest then RemoveAll(g0[u], id) else g0[u]
    ensures g - {id} == map u | u in rest :: RemoveAll(g0[u], id)
  {
    var h := map u | u in rest :: RemoveAll(g0[u], id);
    assert forall u :: u in g - {id} <==> u in h;
    forall u | u in h ensures (g - {id})[u] == h[u] {
      assert u in g;
    }
  }

  /**
   * The inner loop shared by both traversals: walk `ns` and append every
   * ID whose visited mark is not yet set, setting the mark as it is appended.
   * `seen` is the set the marks stand for.
   */
  method AppendUnvisited(visited: array<bool>, ns: seq<int>, pending: seq<int>, ghost seen: set<int>)
    returns (r: seq<int>, ghost marked: set<int>)
    requires forall v :: v in ns ==> 0 <= v < visited.Length
    requires forall v :: 0 <= v < visited.Length ==> (visited[v] <==> v in seen)
    modifies visited
    ensures (r, marked) == AddUnvisited(ns, pending, seen)
    ensures forall v :: 0 <= v < visited.Length ==> (visited[v] <==> v in marked)
  {
    r, marked := pending, seen;
    var k := 0;
    while k < |ns|
      invariant 0 <= k <= |ns|
      invariant AddUnvisited(ns[k..], r, marked) == AddUnvisited(ns, pending, seen)
      invariant forall v :: 0 <= v < visited.Length ==> (visited[v] <==> v in marked)
    {
      var id := ns[k];
      assert id in ns;
      assert ns[k..][1..] == ns[k + 1..];
      if !visited[id] {
        r := r + [id];
        visited[id] := true;
        marked := marked + {id};
      }
      k := k + 1;
    }
    assert ns[k..] == [];
  }

  /** Every neighbour of a reached user is reached, so lies in the range the caller guarantees. */
  lemma NeighboursInRange(g: Adjacency, start: int, cur: int, n: int)
    requires Closed(g) && Reachable(g, start, cur) && cur in g
    requires forall u :: Reachable(g, start, u) ==> 0 <= u < n
    ensures forall v :: v in g[cur] ==> 0 <= v < n
  {
    forall v | v in g[cur] ensures 0 <= v < n {
      ReachableStep(g, start, cur, v);
    }
  }

  /**
   * Regrouping a concatenation. The traversal loops call it to move the
   * visited user from the front of the remaining order to the end of `order`;
   * asserted inline, the same fact puts those loops out of resource.
   */
  lemma ConcatAssoc(a: seq<int>, b: seq<int>, c: seq<int>)
    ensures (a + b) + c == a + (b + c)
  {
  }

  /**
   * The queue loop of findShortestPath: starting from `start` alone at
   * distance 0, take users off the queue until `target` comes off or the
   * queue runs dry, scanning each other user's list.
   */
  method Search(g: Adjacency, start: int, target: int, distance: array<int>, parent: array<int>)
    returns (ghost seen: set<int>, ghost reached: bool)
    requires distance != parent && Closed(g) && start in g
    requires 0 <= start < distance.Length == parent.Length <= IntMax
    requires distance[start] == 0 && forall v :: 0 <= v < distance.Length && v != start ==> distance[v] == IntMax
    requires forall v :: 0 <= v < parent.Length ==> parent[v] == -1
    requires forall u :: Reachable(g, start, u) ==> 0 <= u < distance.Length
    modifies distance, parent
    ensures Marked(g, start, distance[..], parent[..], seen)
    ensures reached ==> target in seen && forall p :: PathFrom(g, p, start, target) ==> distance[target] <= |p| - 1
    ensures !reached ==> !Reachable(g, start, target) && (0 <= target < distance.Length ==> parent[target] == -1)
  {
    SearchStart(g, start, distance[..], parent[..]);
    var queue := [start];
    seen := {start};
    ghost var done: set<int> := {};
    ghost var level := 0;
    reached := false;
    while queue != []
      invariant Marked(g, start, distance[..], parent[..], seen)
      invariant Layered(distance[..], seen, done, queue, level)
      invariant Settled(g, distance[..], seen, done, -1, [])
      invariant target !in done
      decreases |g.Keys - done|
    {
      var cur := queue[0];
      ghost var queue0 := queue;
      queue := queue[1..];
      if cur == target {
        SearchReachesTarget(g, start, distance[..], parent[..], seen, done, queue0, level, target);
        reached := true;
        return;
      }
      PopStep(g, start, distance[..], parent[..], seen, done, queue0, level);
      assert cur in g.Keys - done;
      SubsetSmaller(g.Keys - (done + {cur}), (g.Keys - done) - {cur});
      done := done + {cur};
      level := distance[cur];
      queue, seen := ScanNeighbours(g, start, cur, distance, parent, queue, seen, done, level);
    }
    SearchExhausted(g, start, distance[..], parent[..], seen, done, level, target);
  }

  /**
   * The inner loop of findShortestPath: walk the connection list of `cur`
   * and give every neighbour still at INT_MAX the distance of `cur` plus one
   * and `cur` as parent, queueing it.
   */
  method ScanNeighbours(g: Adjacency, start: int, cur: int, distance: array<int>, parent: array<int>,
                        queue: seq<int>, ghost seen: set<int>, ghost done: set<int>, ghost level: int)
    returns (queue': seq<int>, ghost seen': set<int>)
    requires distance != parent && cur in g
    requires Marked(g, start, distance[..], parent[..], seen)
    requires Layered(distance[..], seen, done, queue, level)
    requires Settled(g, distance[..], seen, done, cur, [])
    requires cur in done && distance[cur] == level
    requires forall u :: Reachable(g, start, u) ==> 0 <= u < distance.Length
    modifies distance, parent
    ensures Marked(g, start, distance[..], parent[..], seen')
    ensures Layered(distance[..], seen', done, queue', level)
    ensures Settled(g, distance[..], seen', done, -1, [])
  {
    NeighboursInRange(g, start, cur, distance.Length);
    assert g[cur][..0] == [];
    queue', seen' := queue, seen;
    ghost var d, p := distance[..], parent[..];
    var k := 0;
    while k < |g[cur]|
      invariant 0 <= k <= |g[cur]|
      invariant distance[..] == d && parent[..] == p
      invariant Marked(g, start, d, p, seen')
      invariant Layered(d, seen', done, queue', level)
      invariant Settled(g, d, seen', done, cur, g[cur][..k])
      invariant d[cur] == level
    {
      var n := g[cur][k];
      assert n in g[cur];
      if distance[n] == IntMax {
        DiscoverStep(g, start, d, p, seen', done, queue', level, cur, k);
        distance[n] := distance[cur] + 1;
        parent[n] := cur;
        d, p := d[n := level + 1], p[n := cur];
        queue' := queue' + [n];
        seen' := seen' + {n};
      } else {
        SkipStep(g, start, d, p, seen', done, queue', level, cur, k);
      }
      k := k + 1;
    }
    ScanFinished(g, d, seen', done, cur);
  }

  /**
   * Read the path back from `target` along the parent table until -1, and
   * put it in order from `start`.
   */
  method TracePath(g: Adjacency, start: int, target: int, parent: array<int>, ghost d: seq<int>, ghost seen: set<int>)
    returns (path: seq<int>)
    requires Marked(g, start, d, parent[..], seen) && target in seen
    ensures PathFrom(g, path, start, target) && |path| == d[target] + 1
  {
    path := [];
    var v := target;
    while v != -1
      invariant v == -1 || (v in seen && 0 <= v < |d|)
      invariant v != -1 ==> |path| == d[target] - d[v] && (path == [] ==> v == target)
      invariant v != -1 && path != [] ==> IsPath(g, path) && path[0] in g[v] && path[|path| - 1] == target
      invariant v == -1 ==> PathFrom(g, path, start, target) && |path| == d[target] + 1
      decreases if v == -1 then 0 else d[v] + 1
    {
      if path != [] {
        PathCons(g, v, path);
      }
      path := [v] + path;
      v := parent[v];
    }
  }

  /** One block of the network printout: a user, its connection count and its connections. */
  datatype UserReport = UserReport(id: int, count: nat, connectedTo: seq<int>)

  class SocialNetwork {
    /** The user chain, head first: new users are appended at the tail. */
    var users: seq<int>
    /** Each user's connection chain, head first: new connections are pushed at the head. */
    var connections: Adjacency
    /** The user counter. */
    var numOfUsers: int

    /** The invariant every public operation keeps. */
    ghost predicate Valid()
      reads this
    {
      WellFormed(users, connections) && numOfUsers == |users|
    }

    /** An empty network: no user chain and a zero counter. */
    constructor ()
      ensures Valid()
      ensures users == [] && connections == map[] && numOfUsers == 0
    {
      users := [];
      connections := map[];
      numOfUsers := 0;
    }

    /** Linear search of the user chain; the position of the user's node, if any. */
    method FindUser(id: int) returns (r: Option<nat>)
      ensures r.Some? <==> id in users
      ensures r.Some? ==> r.value < |users| && users[r.value] == id && id !in users[..r.value]
    {
      var i := 0;
      while i < |users|
        invariant 0 <= i <= |users|
        invariant id !in users[..i]
      {
        if users[i] == id {
          return Some(i);
        }
        assert users[..i + 1] == users[..i] + [users[i]];
        i := i + 1;
      }
      assert users[..i] == users;
      return None;
    }

    /** The network is empty when the user chain is. */
    function IsEmpty(): (b: bool)
      reads this
      requires Valid()
      ensures b <==> numOfUsers == 0
      ensures b ==> connections == map[]
    {
      if users == [] then
        assert forall u :: u !in connections;
        true
      else
        var u := users[0];
        assert u in users;
        false
    }

    /** The user counter, which always equals the length of the user chain. */
    function NumberOfUsers(): (n: int)
      reads this
      requires Valid()
      ensures n == |users| && (n == 0 <==> IsEmpty())
    {
      numOfUsers
    }

    /**
     * Whether `id2` is in `id1`'s connection list. An empty network answers
     * false; equal IDs answer true (even for an ID that is no user); a missing
     * user answers false.
     */
    method IsConnected(id1: int, id2: int) returns (b: bool)
      requires Valid()
      ensures b <==> users != [] && (id1 == id2 || (id1 in users && id2 in users && id2 in connections[id1]))
      ensures id1 != id2 && id1 in users && id2 in users ==> (b <==> id1 in connections[id2])
    {
      if users == [] {
        return false;
      }
      if id1 == id2 {
        return true;
      }
      var user1 := FindUser(id1);
      var user2 := FindUser(id2);
      if user1.None? || user2.None? {
        return false;
      }
      var list := connections[id1];
      var i := 0;
      while i < |list|
        invariant 0 <= i <= |list|
        invariant id2 !in list[..i]
      {
        if list[i] == id2 {
          return true;
        }
        assert list[..i + 1] == list[..i] + [list[i]];
        i := i + 1;
      }
      assert list[..i] == list;
      return false;
    }

    /** Append a new user with no connections; an existing ID changes nothing. */
    method AddUser(id: int) returns (ok: bool)
      requires Valid()
      modifies this
      ensures Valid()
      ensures ok <==> id !in old(users)
      ensures ok ==> users == old(users) + [id] && connections == old(connections)[id := []]
      ensures ok ==> numOfUsers == old(numOfUsers) + 1
      ensures !ok ==> users == old(users) && connections == old(connections) && numOfUsers == old(numOfUsers)
    {
      var found := FindUser(id);
      if found.Some? {
        return false;
      }
      AddUserWellFormed(users, connections, id);
      users := users + [id];
      connections := connections[id := []];
      numOfUsers := numOfUsers + 1;
      return true;
    }

    /**
     * Unlink a user's node from the user chain, then unlink every node naming
     * it from the connection lists of the users that remain.
     */
    method RemoveUser(id: int) returns (ok: bool)
      requires Valid()
      modifies this
      ensures Valid()
      ensures ok <==> id in old(users)
      ensures ok ==> users == RemoveFirst(old(users), id)
      ensures ok ==> forall u :: u in users <==> u in old(users) && u != id
      ensures ok ==> connections == map u | u in users :: RemoveAll(old(connections)[u], id)
      ensures ok ==> numOfUsers == old(numOfUsers) - 1
      ensures !ok ==> users == old(users) && connections == old(connections) && numOfUsers == old(numOfUsers)
    {
      if users == [] {
        return false;
      }
      var found := FindUser(id);
      if found.None? {
        return false;
      }
      var i := found.value;
      ghost var users0, g0 := users, connections;
      var rest := users[..i] + users[i + 1..];
      UnlinkUserEntry(users0, i);
      var g := UnlinkFromLists(connections, rest, id);
      RemovedUserLists(g0, g, id, rest);
      UnlinkedListsWellFormed(users0, g0, id, rest, g - {id});
      assert IndexOf(users0, id) == i;
      RemoveFirstSplits(users0, id);
      users := rest;
      connections := g - {id};
      numOfUsers := numOfUsers - 1;
      return true;
    }

    /**
     * Connect two distinct users that are not yet connected: each is pushed
     * at the head of the other's connection list.
     */
    method AddConnection(id1: int, id2: int) returns (ok: bool)
      requires Valid()
      modifies this
      ensures Valid()
      ensures ok <==> id1 != id2 && id1 in old(users) && id2 in old(users) && id2 !in old(connections)[id1]
      ensures ok ==> connections == old(connections)[id1 := [id2] + old(connections)[id1]][id2 := [id1] + old(connections)[id2]]
      ensures ok ==> |Edges(connections)| == |Edges(old(connections))| + 1
      ensures !ok ==> connections == old(connections)
      ensures users == old(users) && numOfUsers == old(numOfUsers)
    {
      if id1 == id2 {
        return false;
      }
      var linked := IsConnected(id1, id2);
      if linked {
        return false;
      }
      var user1 := FindUser(id1);
      var user2 := FindUser(id2);
      if user1.None? || user2.None? {
        return false;
      }
      AddEdgeWellFormed(users, connections, id1, id2);
      AddEdgeCount(users, connections, id1, id2);
      connections := connections[id1 := [id2] + connections[id1]];
      connections := connections[id2 := [id1] + connections[id2]];
      return true;
    }

    /**
     * Disconnect two connected users: the first node naming the other is
     * unlinked from each one's connection list.
     */
    method RemoveConnection(id1: int, id2: int) returns (ok: bool)
      requires Valid()
      modifies this
      ensures Valid()
      ensures ok <==> id1 != id2 && id1 in old(users) && id2 in old(users) && id2 in old(connections)[id1]
      ensures ok ==> connections == old(connections)[id1 := RemoveFirst(old(connections)[id1], id2)][id2 := RemoveFirst(old(connections)[id2], id1)]
      ensures ok ==> |Edges(connections)| == |Edges(old(connections))| - 1
      ensures !ok ==> connections == old(connections)
      ensures users == old(users) && numOfUsers == old(numOfUsers)
    {
      if users == [] {
        return false;
      }
      var user1 := FindUser(id1);
      var user2 := FindUser(id2);
      if user1.None? || user2.None? {
        return false;
      }
      if id1 == id2 {
        return false;
      }
      var linked := IsConnected(id1, id2);
      if !linked {
        return false;
      }
      RemoveEdgeWellFormed(users, connections, id1, id2);
      RemoveEdgeCount(users, connections, id1, id2);
      var list1 := UnlinkFirst(connections[id1], id2);
      connections := connections[id1 := list1];
      var list2 := UnlinkFirst(connections[id2], id1);
      connections := connections[id2 := list2];
      return true;
    }

    /**
     * Count every node of every connection list and halve the total: each
     * connection is listed once at each end.
     */
    method NumberOfConnections() returns (n: int)
      requires Valid()
      ensures n == TotalDegree(users, connections) / 2
      ensures n == |Edges(connections)|
    {
      DegreeIsTwiceEdges(users, connections);
      var total := 0;
      var i := 0;
      while i < |users|
        invariant 0 <= i <= |users|
        invariant total + TotalDegree(users[i..], connections) == TotalDegree(users, connections)
      {
        var u := users[i];
        assert u in users;
        assert users[i..][1..] == users[i + 1..];
        var list := connections[u];
        var j := 0;
        while j < |list|
          invariant 0 <= j <= |list|
          invariant total - j + TotalDegree(users[i..], connections) == TotalDegree(users, connections)
        {
          total := total + 1;
          j := j + 1;
        }
        i := i + 1;
      }
      n := total / 2;
    }

    /** Delete every user and connection; an already empty network is left as it is. */
    method ClearNetwork()
      requires Valid()
      modifies this
      ensures Valid()
      ensures users == [] && connections == map[] && numOfUsers == 0
    {
      if IsEmpty() {
        return;
      }
      users := [];
      connections := map[];
      numOfUsers := 0;
    }

    /**
     * What printNetwork prints for each user, in user-chain order: the ID,
     * the number of connection nodes counted by walking the list, and the
     * connected IDs in list order.
     */
    method Report() returns (rows: seq<UserReport>)
      requires Valid()
      ensures |rows| == |users|
      ensures forall i :: 0 <= i < |rows| ==>
        rows[i].id == users[i] && rows[i].connectedTo == connections[users[i]]
        && rows[i].count == |connections[users[i]]|
    {
      rows := [];
      var i := 0;
      while i < |users|
        invariant 0 <= i <= |users|
        invariant |rows| == i
        invariant forall j :: 0 <= j < i ==>
          rows[j].id == users[j] && users[j] in connections && rows[j].connectedTo == connections[users[j]]
          && rows[j].count == |connections[users[j]]|
      {
        var u := users[i];
        assert u in users;
        var list := connections[u];
        var count := 0;
        while count < |list|
          invariant 0 <= count <= |list|
        {
          count := count + 1;
        }
        rows := rows + [UserReport(u, count, list)];
        i := i + 1;
      }
    }

    /**
     * Breadth-first traversal from `start`: a queue, visited marks set when a
     * user is enqueued, and each user's neighbour IDs sorted ascending before
     * they are enqueued. Returns the users in the order they are printed. The
     * marks live in a vector sized by the user counter and indexed by ID, so
     * every ID reachable from `start` has to lie in 0 .. numOfUsers.
     */
    method Bfs(start: int) returns (ok: bool, order: seq<int>)
      requires Valid()
      requires forall u :: Reachable(connections, start, u) ==> 0 <= u <= numOfUsers
      ensures ok <==> start in users
      ensures order == BfsOrder(connections, start)
      ensures ok ==> |order| > 0 && order[0] == start
      ensures NoDup(order)
      ensures forall v :: v in order <==> Reachable(connections, start, v)
    {
      var g := connections;
      var found := FindUser(start);
      if found.None? {
        forall v ensures !Reachable(g, start, v) {
          if Reachable(g, start, v) {
            ReachableEnds(g, start, v);
          }
        }
        return false, [];
      }
      WellFormedClosed(users, g);
      TraversalStart(g, start);
      var visited := new bool[numOfUsers + 1](_ => false);
      var queue := [start];
      visited[start] := true;
      ghost var seen: set<int> := {start};
      order := [];
      assert BfsOrder(g, start) == [] + BfsRun(g, queue, seen);
      while queue != []
        invariant Traversal(g, start, order, queue, seen)
        invariant forall v :: 0 <= v < visited.Length ==> (visited[v] <==> v in seen)
        invariant order + BfsRun(g, queue, seen) == BfsOrder(g, start)
        decreases |g.Keys - seen|, |queue|
      {
        var cur := queue[0];
        ghost var next := AddUnvisited(SortAscending(g[cur]), queue[1..], seen);
        BfsAdvance(g, start, order, queue, seen);
        BfsRunUnfold(g, queue, seen);
        ConcatAssoc(order, [cur], BfsRun(g, next.0, next.1));
        order := order + [cur];
        var ns := SortAscending(g[cur]);
        NeighboursInRange(g, start, cur, visited.Length);
        SortKeepsIds(g[cur]);
        queue, seen := AppendUnvisited(visited, ns, queue[1..], seen);
      }
      TraversalEnd(g, start, order, seen);
      return true, order;
    }

    /**
     * Stack-based depth-first traversal from `start`: visited marks set when a
     * user is pushed, and each popped user's connection list walked in list
     * order, pushing every unmarked neighbour. Returns the users in the order
     * they are printed. The marks vector is sized by the user counter and
     * indexed by ID, as in Bfs.
     */
    method Dfs(start: int) returns (ok: bool, order: seq<int>)
      requires Valid()
      requires forall u :: Reachable(connections, start, u) ==> 0 <= u <= numOfUsers
      ensures ok <==> start in users
      ensures order == DfsOrder(connections, start)
      ensures ok ==> |order| > 0 && order[0] == start
      ensures NoDup(order)
      ensures forall v :: v in order <==> Reachable(connections, start, v)
    {
      var g := connections;
      var visited := new bool[numOfUsers + 1](_ => false);
      var found := FindUser(start);
      if found.None? {
        forall v ensures !Reachable(g, start, v) {
          if Reachable(g, start, v) {
            ReachableEnds(g, start, v);
          }
        }
        return false, [];
      }
      WellFormedClosed(users, g);
      TraversalStart(g, start);
      var stack := [start];
      visited[start] := true;
      ghost var seen: set<int> := {start};
      order := [];
      assert DfsOrder(g, start) == [] + DfsRun(g, stack, seen);
      while stack != []
        invariant Traversal(g, start, order, stack, seen)
        invariant forall v :: 0 <= v < visited.Length ==> (visited[v] <==> v in seen)
        invariant order + DfsRun(g, stack, seen) == DfsOrder(g, start)
        decreases |g.Keys - seen|, |stack|
      {
        var cur := stack[|stack| - 1];
        ghost var next := AddUnvisited(g[cur], stack[..|stack| - 1], seen);
        DfsAdvance(g, start, order, stack, seen);
        DfsRunUnfold(g, stack, seen);
        ConcatAssoc(order, [cur], DfsRun(g, next.0, next.1));
        order := order + [cur];
        NeighboursInRange(g, start, cur, visited.Length);
        stack, seen := AppendUnvisited(visited, g[cur], stack[..|stack| - 1], seen);
      }
      TraversalEnd(g, start, order, seen);
      return true, order;
    }

    /**
     * Breadth-first search from `id1` with a distance table (INT_MAX for not
     * reached) and a parent table (-1 for none), both sized by the larger of
     * the two IDs plus one and indexed by ID. The search stops when `id2`
     * comes off the queue; the path is read back along the parent table.
     * Returns -1 and no path when `id1` is no user, when `id2` got no parent
     * (which includes `id1 == id2`), and otherwise the distance and the path.
     */
    method FindShortestPath(id1: int, id2: int) returns (dist: int, path: seq<int>)
      requires Valid()
      requires -1 <= Max(id1, id2) < IntMax
      requires id1 in users ==> 0 <= id2
      requires forall u :: Reachable(connections, id1, u) ==> 0 <= u <= Max(id1, id2)
      ensures dist == -1 <==> id1 !in users || id1 == id2 || !Reachable(connections, id1, id2)
      ensures dist == -1 ==> path == []
      ensures dist != -1 ==> PathFrom(connections, path, id1, id2) && dist == |path| - 1
      ensures dist != -1 ==> forall p :: PathFrom(connections, p, id1, id2) ==> |path| <= |p|
    {
      var g := connections;
      var hi := Max(id1, id2);
      var distance := new int[hi + 1](_ => IntMax);
      var parent := new int[hi + 1](_ => -1);
      var found := FindUser(id1);
      if found.None? {
        forall v ensures !Reachable(g, id1, v) {
          if Reachable(g, id1, v) {
            ReachableEnds(g, id1, v);
          }
        }
        return -1, [];
      }
      WellFormedClosed(users, g);
      ReachableSelf(g, id1);
      distance[id1] := 0;
      ghost var seen, reached := Search(g, id1, id2, distance, parent);
      if parent[id2] == -1 {
        return -1, [];
      }
      path := TracePath(g, id1, id2, parent, distance[..], seen);
      dist := distance[id2];
    }
  }
}
