# SocialNetwork in Dafny

A model of the `SocialNetwork` class of the SocialNetwork repository. The class holds
an undirected graph of integer user IDs. It keeps a singly linked list of user nodes,
and each user node heads a singly linked list of connection nodes naming its
neighbours, newest first. The model proves what the class does to that structure:
- adding and removing users and connections;
- the invariant those mutations keep;
- the connection count;
- the breadth-first and stack-based depth-first traversals;
- the breadth-first shortest-path search.

The modules follow the program's structure:

- `ConnectionLists` (ConnectionLists.dfy) holds one connection list as a `seq<int>` in
  list order. It contains:
  - the two unlink loops: every node naming an ID for `removeUser`, the first such
    node for `removeConnection`;
  - the ascending sort that `BFS` applies before enqueueing.
- `Graphs` (Graphs.dfy) works on values. It holds:
  - the network invariant `WellFormed`: IDs are distinct and are exactly the keys;
    lists are symmetric, hold no duplicates and never name their owner;
  - the degree sum and the undirected edge set;
  - paths and reachability;
  - the visiting orders of the two traversals, as functions `BfsOrder` and `DfsOrder`.
- `ShortestPaths` (ShortestPaths.dfy) states how the distance and parent tables of
  `findShortestPath` evolve, and proves them step by step.
- `Network` (SocialNetwork.dfy) holds the class `SocialNetwork`, with three fields:
  - `users`: the user chain in insertion order;
  - `connections`: one list per user, head first;
  - `numOfUsers`: the user counter.

  Every public member function is a method or function of the class. These
  `while` loops of the source stay loops:
  - the searches of `findUser` and `isConnected`;
  - the unlink loops of `removeUser` and `removeConnection`;
  - the counting loops of `numberOfConnections` and `printNetwork`;
  - the queue and stack loops of `BFS`, `DFS` and `findShortestPath`, which keep
    their `visited`, `distance` and `parent` vectors as arrays.

  Three walks over the user chain become sequence operations instead:
  - the walk to the tail in `addUser` (SocialNetwork/SocialNetwork.cpp:43-46) is an
    append;
  - the walk to the predecessor in `removeUser` (SocialNetwork/SocialNetwork.cpp:77-81)
    is a cut around the user's position;
  - the deletion loops of `clearNetwork` (SocialNetwork/SocialNetwork.cpp:605-621) are a
    reset of the fields.
- `Fixture` (Fixture.dfy) replays the network that `SocialNetwork/Main.cpp` seeds before
  its menu starts. It builds that network through the class and proves the concrete
  outcomes: BFS from user 1 visits users 1 to 10 in order, and the shortest path from 9
  to 10 has six hops.

Console output is replaced by return values:
- each mutation returns whether it took effect;
- `Bfs` and `Dfs` return the users in printed order;
- `FindShortestPath` returns the distance (or -1) and the path it prints;
- `Report` returns what `printNetwork` prints for each user.

Three behaviours of the code are reproduced as written:
- `DFS` marks a user when it is pushed, not when it is popped. The visiting order is
  defined that way.
- `findShortestPath(a, a)` returns -1 because the start never gets a parent. Its doc
  comment (SocialNetwork/SocialNetwork.cpp:279) promises -1 only when no path exists.
- `isConnected` answers false on an empty network before it looks at the IDs. On a
  non-empty network it answers true for two equal IDs even when that ID is no user.

## Model

| member | source | states |
|---|---|---|
| Network.SocialNetwork.constructor | SocialNetwork/SocialNetwork.cpp:10 | a new network has no users, no connection lists, a zero counter, and satisfies the invariant |
| Network.SocialNetwork.FindUser | SocialNetwork/SocialNetwork.cpp:448-464 | finds the user iff the ID is in the user chain; the position returned is its first occurrence |
| Network.SocialNetwork.IsEmpty | SocialNetwork/SocialNetwork.cpp:516-518 | empty iff the counter is zero, and then there are no connection lists either |
| Network.SocialNetwork.NumberOfUsers | SocialNetwork/SocialNetwork.cpp:525-527 | the counter equals the length of the user chain; zero iff the network is empty |
| Network.SocialNetwork.IsConnected | SocialNetwork/SocialNetwork.cpp:559-591 | false on an empty network; true for equal IDs; false if either user is missing; otherwise true iff id2 is in id1's list, and (by symmetry) iff id1 is in id2's list |
| Network.SocialNetwork.AddUser | SocialNetwork/SocialNetwork.cpp:26-53 | succeeds iff the ID is new; then the ID is appended to the chain with an empty list and the counter grows by one; otherwise nothing changes; the invariant is kept |
| Network.SocialNetwork.RemoveUser | SocialNetwork/SocialNetwork.cpp:60-134 | succeeds iff the ID is a user; then the user chain loses its entry (the others keep their order), each remaining list loses every node naming it, and the counter drops by one; otherwise nothing changes; the invariant is kept |
| Network.SocialNetwork.AddConnection | SocialNetwork/SocialNetwork.cpp:142-182 | succeeds iff the IDs differ, both are users and they are not yet connected; then each is pushed at the head of the other's list, nothing else changes, and the edge count grows by exactly one |
| Network.SocialNetwork.RemoveConnection | SocialNetwork/SocialNetwork.cpp:189-273 | succeeds iff both are users (so the network is not empty), the IDs differ and they are connected; then the first node naming the other is unlinked from each list, and the edge count drops by exactly one; otherwise nothing changes |
| Network.SocialNetwork.NumberOfConnections | SocialNetwork/SocialNetwork.cpp:534-550 | the result is half the summed list lengths and equals the number of undirected connections |
| Network.SocialNetwork.ClearNetwork | SocialNetwork/SocialNetwork.cpp:597-626 | afterwards there are no users, no lists and a zero counter, from any valid state, the empty one included |
| Network.SocialNetwork.Report | SocialNetwork/SocialNetwork.cpp:469-511 | one row per user in chain order, with the user's ID, its counted number of connections and its list in list order |
| Network.SocialNetwork.Bfs | SocialNetwork/SocialNetwork.cpp:350-393 | fails iff the start is no user; otherwise returns BfsOrder: the start first, every user reachable from it exactly once, and nothing else |
| Network.SocialNetwork.Dfs | SocialNetwork/SocialNetwork.cpp:399-440 | fails iff the start is no user; otherwise returns DfsOrder: the start first, every user reachable from it exactly once, and nothing else |
| Network.SocialNetwork.FindShortestPath | SocialNetwork/SocialNetwork.cpp:281-343 | -1 and no path iff the start is no user, the IDs are equal or the target is unreachable; otherwise the path runs from id1 to id2, has dist hops, and no path between them is shorter |
| Network.UnlinkFromLists | SocialNetwork/SocialNetwork.cpp:93-130 | the loop over the remaining users leaves each of their lists without the removed ID and every other list untouched |
| Network.RemovedUserLists | SocialNetwork/SocialNetwork.cpp:93-131 | after the loop, dropping the removed user's own list leaves exactly the filtered lists of the remaining users |
| Network.AppendUnvisited | SocialNetwork/SocialNetwork.cpp:380-385 | the enqueue loop computes AddUnvisited, and afterwards the visited marks stand for exactly the new set of seen users |
| Network.NeighboursInRange | SocialNetwork/SocialNetwork.cpp:310 | each neighbour of a reached user indexes the vectors in range |
| Network.Search | SocialNetwork/SocialNetwork.cpp:294-318 | on a stop at the target, the target's distance is no more than the length of any path to it; on an empty queue, the target is unreachable and has no parent; the tables stay consistent |
| Network.ScanNeighbours | SocialNetwork/SocialNetwork.cpp:305-317 | one scan of the current user's list keeps the tables consistent and the queue layered by distance, and leaves every neighbour at most one hop further than the current user |
| Network.TracePath | SocialNetwork/SocialNetwork.cpp:326-334 | following parents back from the target and reversing gives a path from the start to the target with distance + 1 entries |
| Network.Max | SocialNetwork/SocialNetwork.cpp:282 | `std::max` on the two IDs: at least both, and equal to one of them |
| Graphs.WellFormed | SocialNetwork/SocialNetwork.h:116-131 | the network invariant: distinct user IDs that are exactly the keys of the connection map; no list names its owner or repeats an ID; lists are symmetric and name only users |
| Graphs.TotalDegree | SocialNetwork/SocialNetwork.cpp:538-547 | the summed length of the users' connection lists, as the counting loop adds them up; its properties are TotalDegreeUpdate, DegreeZero and DegreeIsTwiceEdges |
| Graphs.AddUnvisited | SocialNetwork/SocialNetwork.cpp:380-385 | the scan of one list: each ID not yet marked is marked and appended to the queue or stack, in scan order; shared by both traversals (also SocialNetwork/SocialNetwork.cpp:430-436); its properties are ScanExtends and AddUnvisitedFacts |
| Graphs.BfsRun | SocialNetwork/SocialNetwork.cpp:363-390 | the breadth-first loop: take the head of the queue, emit it, scan its neighbours in ascending order; BfsRunUnfold and BfsAdvance state its step |
| Graphs.BfsOrder | SocialNetwork/SocialNetwork.cpp:357-390 | the breadth-first order from a start: BfsRun from the start alone, queued and marked; empty for a start that is no user |
| Graphs.DfsRun | SocialNetwork/SocialNetwork.cpp:416-437 | the stack loop: pop the top, emit it, push its unmarked neighbours in list order, marking them at push; DfsRunUnfold and DfsAdvance state its step |
| Graphs.DfsOrder | SocialNetwork/SocialNetwork.cpp:400-437 | the depth-first order from a start: DfsRun from the start alone, pushed and marked; empty for a start that is no user |
| ConnectionLists.Insert | SocialNetwork/SocialNetwork.cpp:377 | one step of the ascending sort: insert an ID before the first element not below it; InsertSorts states its meaning |
| ConnectionLists.SortAscending | SocialNetwork/SocialNetwork.cpp:377 | the ascending sort of the neighbour IDs; SortAscendingSorts proves it an ascending permutation, the only result `std::sort` can give on integers |
| ConnectionLists.RemoveAll | SocialNetwork/SocialNetwork.cpp:99-127 | the list keeps every other ID with its count and loses every occurrence of the removed ID |
| ConnectionLists.RemoveFirst | SocialNetwork/SocialNetwork.cpp:226-245 | one entry fewer when the ID occurs; the list unchanged when it does not |
| ConnectionLists.IndexOf | SocialNetwork/SocialNetwork.cpp:226-244 | the position where the walk finds the first node holding the ID |
| ConnectionLists.RemoveAllMembers | SocialNetwork/SocialNetwork.cpp:99-127 | an ID survives the unlinking iff it was listed and is not the removed ID |
| ConnectionLists.RemoveAllNoDup | SocialNetwork/SocialNetwork.cpp:99-127 | unlinking keeps a duplicate-free list duplicate-free |
| ConnectionLists.RemoveAllAbsent | SocialNetwork/SocialNetwork.cpp:99-127 | a list that does not name the ID is left as it is |
| ConnectionLists.RemoveFirstSplits | SocialNetwork/SocialNetwork.cpp:226-245 | unlinking the first node cuts the list at the first occurrence and keeps the rest in order |
| ConnectionLists.RemoveFirstIsRemoveAll | SocialNetwork/SocialNetwork.cpp:226-245 | on a duplicate-free list, unlinking the first occurrence is unlinking all of them |
| ConnectionLists.UnlinkAll | SocialNetwork/SocialNetwork.cpp:96-127 | the loop over one list that keeps the previous node computes RemoveAll |
| ConnectionLists.UnlinkFirst | SocialNetwork/SocialNetwork.cpp:223-245 | the loop that stops at the first match computes RemoveFirst |
| ConnectionLists.InsertSorts | SocialNetwork/SocialNetwork.cpp:377 | inserting into an ascending list keeps it ascending and adds exactly the inserted ID |
| ConnectionLists.SortAscendingSorts | SocialNetwork/SocialNetwork.cpp:377 | the sorted neighbour IDs are ascending and a permutation of the list |
| ConnectionLists.SortKeepsIds | SocialNetwork/SocialNetwork.cpp:369-377 | the sorted vector holds exactly the IDs of the connection list |
| Graphs.AddUserWellFormed | SocialNetwork/SocialNetwork.cpp:34-51 | appending a new user with an empty list keeps the invariant |
| Graphs.AddEdgeWellFormed | SocialNetwork/SocialNetwork.cpp:169-178 | pushing each endpoint onto the other's list keeps the invariant |
| Graphs.RemoveEdgeWellFormed | SocialNetwork/SocialNetwork.cpp:221-270 | unlinking each endpoint from the other's list keeps the invariant |
| Graphs.UnlinkUserEntry | SocialNetwork/SocialNetwork.cpp:73-92 | bypassing the user's node leaves a duplicate-free chain holding exactly the other users |
| Graphs.UnlinkedListsWellFormed | SocialNetwork/SocialNetwork.cpp:93-132 | the remaining users with their filtered lists satisfy the invariant again |
| Graphs.TotalDegreeUpdate | SocialNetwork/SocialNetwork.cpp:538-547 | replacing one user's list changes the degree sum by the difference in length |
| Graphs.AddEdgeDegree | SocialNetwork/SocialNetwork.cpp:169-178 | a new connection adds two to the degree sum |
| Graphs.RemoveEdgeDegree | SocialNetwork/SocialNetwork.cpp:221-270 | a removed connection takes two from the degree sum |
| Graphs.DegreeZero | SocialNetwork/SocialNetwork.cpp:538-547 | the degree sum is zero iff every list is empty |
| Graphs.EdgesRemoveSub | SocialNetwork/SocialNetwork.cpp:221-270 | unlinking adds no connection and leaves the removed one out |
| Graphs.EdgesRemoveSup | SocialNetwork/SocialNetwork.cpp:221-270 | unlinking keeps every other connection |
| Graphs.EdgesRemove | SocialNetwork/SocialNetwork.cpp:221-270 | unlinking both nodes takes exactly that one pair out of the set of connections |
| Graphs.DegreeIsTwiceEdges | SocialNetwork/SocialNetwork.cpp:548-549 | each connection is listed once at each end: the degree sum is twice the number of connections |
| Graphs.AddEdgeCount | SocialNetwork/SocialNetwork.cpp:169-178 | a successful addConnection adds exactly one connection |
| Graphs.RemoveEdgeCount | SocialNetwork/SocialNetwork.cpp:221-270 | a successful removeConnection removes exactly one connection |
| Graphs.PotentialBound | SocialNetwork/SocialNetwork.cpp:276-279 | a path is at least as long as the rise of any potential that grows by at most one per hop |
| Graphs.FrontierBound | SocialNetwork/SocialNetwork.cpp:297-318 | during the search, every path of at most `level` hops from the start ends at a discovered user that is no farther than the path is long |
| Graphs.ScanExtends | SocialNetwork/SocialNetwork.cpp:380-385 | a scan only adds: the marks and the queue grow by scanned IDs, the old queue stays a prefix, and the first new entry was unmarked |
| Graphs.AddUnvisitedFacts | SocialNetwork/SocialNetwork.cpp:380-385 | after a scan, every scanned ID is marked, each appended ID was unmarked before, and the queue stays duplicate-free |
| Graphs.ScanMarksOrKeeps | SocialNetwork/SocialNetwork.cpp:363-390 | a scan either leaves the queue as it was or marks a new user, so the loop terminates |
| Graphs.TraversalStart | SocialNetwork/SocialNetwork.cpp:357-360 | after the start is queued and marked, the traversal state holds |
| Graphs.TraversalStep | SocialNetwork/SocialNetwork.cpp:363-390 | taking a user out and scanning its neighbours keeps the traversal state: marks are exactly the visited and waiting users, all reachable, each once |
| Graphs.TraversalEnd | SocialNetwork/SocialNetwork.cpp:363-392 | once nothing waits, the visited users are exactly those reachable from the start, start first, each once |
| Graphs.BfsAdvance | SocialNetwork/SocialNetwork.cpp:364-385 | one breadth-first step (the head of the queue, neighbours in ascending order) keeps the traversal state |
| Graphs.DfsAdvance | SocialNetwork/SocialNetwork.cpp:417-436 | one depth-first step (the top of the stack, neighbours in list order) keeps the traversal state |
| Graphs.BfsRunUnfold | SocialNetwork/SocialNetwork.cpp:363-385 | the breadth-first order is the head followed by the order from the scanned queue, and the measure decreases |
| Graphs.DfsRunUnfold | SocialNetwork/SocialNetwork.cpp:416-436 | the depth-first order is the top followed by the order from the scanned stack, and the measure decreases |
| ShortestPaths.SearchStart | SocialNetwork/SocialNetwork.cpp:284-295 | the tables as first set up satisfy the search invariants |
| ShortestPaths.PopLayered | SocialNetwork/SocialNetwork.cpp:298-299 | taking the head off keeps the queue layered, with the head's distance as the new level |
| ShortestPaths.PopStep | SocialNetwork/SocialNetwork.cpp:298-299 | the head is a reachable user in range, and the invariants hold with it done |
| ShortestPaths.PopSettled | SocialNetwork/SocialNetwork.cpp:298-299 | the user taken off the queue becomes done with none of its list scanned yet, and every earlier done user stays settled |
| ShortestPaths.SkipSettled | SocialNetwork/SocialNetwork.cpp:308-310 | an already reached neighbour needs no update: its distance is at most one above the current user's |
| ShortestPaths.DiscoverSettled | SocialNetwork/SocialNetwork.cpp:310-313 | the newly reached neighbour gets distance level + 1, one above the current user's |
| ShortestPaths.DiscoverParents | SocialNetwork/SocialNetwork.cpp:310-313 | the newly reached neighbour hangs one hop below the current user |
| ShortestPaths.DiscoverMarked | SocialNetwork/SocialNetwork.cpp:310-313 | giving a neighbour at INT_MAX distance + 1 and parent `cur` keeps the tables consistent, with no overflow |
| ShortestPaths.DiscoverLayered | SocialNetwork/SocialNetwork.cpp:311-313 | the queued neighbour at level + 1 keeps the queue layered |
| ShortestPaths.DiscoverStep | SocialNetwork/SocialNetwork.cpp:308-316 | one discovering scan step keeps all three search invariants |
| ShortestPaths.SkipStep | SocialNetwork/SocialNetwork.cpp:308-316 | one scan step over an already reached neighbour keeps the search invariants |
| ShortestPaths.ScanFinished | SocialNetwork/SocialNetwork.cpp:305-317 | after the whole list is scanned, every neighbour of a done user is reached and at most one hop further |
| ShortestPaths.HeadNearest | SocialNetwork/SocialNetwork.cpp:298 | no queued user is nearer than the head of the queue |
| ShortestPaths.SearchReachesTarget | SocialNetwork/SocialNetwork.cpp:301-303 | when the target comes off the queue, its distance is no more than any path to it |
| ShortestPaths.SearchExhausted | SocialNetwork/SocialNetwork.cpp:297-323 | when the queue runs dry first, the target is unreachable and has no parent, so -1 is returned |
| Fixture.ExampleGraphSeeded | SocialNetwork/Main.cpp:10-21 | the literal graph has users 1 to 10 and the seeded lists, and is the only graph that does |
| Fixture.ExampleNetwork | SocialNetwork/Main.cpp:10-21 | the ten addUser calls and the nine addConnection calls build exactly that graph |
| Fixture.ExampleBfsOrder | SocialNetwork/Main.cpp:10-21 | BFS from user 1 visits 1, 2, 3, 4, 5, 6, 7, 8, 9, 10 |
| Fixture.ExampleDistance | SocialNetwork/Main.cpp:10-21 | 9, 5, 2, 1, 3, 6, 10 is a path from 9 to 10, and no path between them has fewer than six hops |
| Fixture.ExampleRuns | SocialNetwork/Main.cpp:10-21 | on the seeded network, Bfs(1) returns 1 to 10 in order and FindShortestPath(9, 10) returns 6 with a seven-entry path from 9 to 10 |

## Left out

- Console output is left out: the messages and the text layout of `printNetwork`. Each outcome is returned instead.
- The interactive menu of `SocialNetwork/Main.cpp` is left out. Only its seeded network is modelled.
- `new`/`delete` and node addresses are left out. The user chain and the connection chains are sequences, so freeing nodes, the destructor (`SocialNetwork/SocialNetwork.cpp:17-19`) and aliasing between nodes are not modelled.
- Network.SocialNetwork.AddUser: the walk to the tail of the user chain (SocialNetwork/SocialNetwork.cpp:43-46) is not a loop of the model. The new user is appended to the sequence `users`, and the rewiring of the last node's `next` is not modelled.
- Network.SocialNetwork.RemoveUser: the walk to the predecessor (SocialNetwork/SocialNetwork.cpp:77-81) is not a loop of the model. `users` is cut around the position `FindUser` returns, and the bypassing of the node is not modelled.
- Network.SocialNetwork.ClearNetwork: the loops that delete every connection node and user node (SocialNetwork/SocialNetwork.cpp:605-621) are not modelled. The three fields are reset at once.
- The branch at `SocialNetwork/SocialNetwork.cpp:88-91` is left out. It handles a found user without a predecessor, which cannot happen once the user has been found.
- 32-bit overflow is not modelled. Counters and list lengths are unbounded integers. The one arithmetic bound that matters, a distance below INT_MAX, is proved.
- Network.SocialNetwork.Bfs: requires that every user reachable from the start lies in 0 .. numOfUsers. Outside that range the source indexes its `visited` vector out of bounds, which is undefined behaviour.
- Network.SocialNetwork.Dfs: requires the same range as Bfs, for the same reason.
- Network.SocialNetwork.FindShortestPath: requires that every user reachable from id1 lies in 0 .. max(id1, id2). This bound is conservative. The search stops as soon as id2 comes off the queue (SocialNetwork/SocialNetwork.cpp:301-303), so a larger ID is indexed only when a list naming it is scanned before that. Example: users 1, 2 and 3 with connections 1-2 and 2-3. `findShortestPath(1, 2)` returns 1 and never touches index 3, but the precondition excludes this call.
- Network.SocialNetwork.FindShortestPath: requires that id2 is non-negative when id1 is a user. `parent[id2]` is read at SocialNetwork/SocialNetwork.cpp:320.
- Network.SocialNetwork.FindShortestPath: requires max(id1, id2) below INT_MAX, because max + 1 would overflow at SocialNetwork/SocialNetwork.cpp:284-285.
- Network.SocialNetwork.FindShortestPath: requires -1 <= max(id1, id2). Below -1 the vectors at SocialNetwork/SocialNetwork.cpp:284-285 get a negative size and their constructor throws. That exception is not modelled.
- Network.SocialNetwork.FindShortestPath: the exact path is not pinned down when several shortest paths exist. The contract says only that it is a shortest one.
- Fixture.ExampleRuns: does not state the exact path printed for 9 to 10. It states only that the path has six hops from 9 to 10.
