# Verified models of the hard data structures and algorithms

This project models the complete, hand-written algorithms of the repository in Dafny and
proves what they are for. `dafny verify dfyconfig.toml` checks all of it.

Code that changes state is modelled as code that changes state: classes with the same fields
(`Dsu`, `RobinHoodMap`, `CuckooMap`, `DependencyResolver`, `AvlNode`, `Trie`), arrays that are
sorted in place, loops with the source's branches in the source's order. Two programs are
concurrent; they are transition systems in which every access to shared memory is one step and
any schedule of steps is a run.

| module | program | main results |
|---|---|---|
| `HazardPointer`, `HazardInvariant`, `HazardCalls`, `HazardResults`, `HazardProgress` | lock-free stack with hazard pointers | no use after free and no double free in any schedule, linearizability, lock freedom, conservation of values, bounded garbage |
| `Partition`, `DisjointSets`, `SpanningForest`, `Kruskal`, `Prim`, `MinimumTrees` | minimum spanning trees over union-find | both algorithms return spanning trees of least weight, so their totals agree; on any graph, Kruskal's a least spanning forest and Prim's the tree of one component |
| `Masking`, `RobinHoodTable`, `RobinHood`, `CuckooSlots`, `CuckooTables`, `Cuckoo` | open-addressing hash maps | both refine a finite map for every hash function; a cuckoo table grows exactly when its keys cannot be placed, and exactly when insertion returns |
| `Walks`, `Predecessors`, `Parts`, `BellmanFord`, `FloydInvariant`, `FloydParts`, `FloydWarshall`, `DijkstraInvariant`, `Dijkstra` | shortest paths | exact distances wherever no negative cycle interferes, exact detection of negative cycles, exactly when Dijkstra's search ends, shortest-path trees and lightest paths, cycles of weight zero included |
| `Graphs`, `DepthFirst`, `Bipartite`, `FirstCome`, `Dependencies` | graph search | iterative equals recursive DFS, components, 2-colouring, the one install order or a cycle |
| `Rearranging`, `HeapSort`, `Introsort`, `LinearSorts` | sorting | sorted permutations, a bound on the last insertion pass, LSD radix order through stability |
| `SpscQueue` | single-producer single-consumer ring | first in, first out in every interleaving, calls that end with the right outcome, and when `size()` is right |
| `AvlTree`, `AvlNodes` | AVL tree | search order, heights, balance and key set over every run, exactly when `remove` dereferences null; pointers refine values |
| `Words`, `TrieLinks`, `Tries` | trie with pruning and autocompletion | a set of words, no useless node, the first words in lexicographic order |
| `Counting`, `Edges`, `Options`, `PriorityQueues` | shared vocabulary | |

The steps of the lock-free stack are the shared accesses of `hazard_pointer.cpp`: a push reads
the head (line 98) and compares and exchanges it (line 99); a pop reads the head (107), may
register the thread (31), publishes the node (39), rereads the head (114), reads the successor
(119), compares and exchanges (120), retracts the hazard (48), reads the value (124) and retires
the node (57), and a scan reads the thread count (63), one slot at a time (65) and frees or keeps
one node at a time (72-79).

Six expectations about the code are not met by it, and the exact condition is proved instead.

* A successful compare-exchange in `pop` does not mean that the head stayed at the node since it
  was revalidated: another thread may push and pop in between (`HeadMayLeaveAndReturn` is such a
  run). The head stayed there if and only if no push took effect (`HeadStayedIffNoPush`). What a
  pop needs holds always: the node never left the stack, and the stack is again the revalidated
  one (`CasFindsRevalidatedStack`).
* `radix_sort` is documented for non-negative numbers. For any 32-bit numbers its result is in
  ascending order if and only if no negative number stands beside a non-negative one
  (`RadixOrder`). The numbers -1 and 0 are not sorted (`NegativesComeLast`).
* `size()` of the ring buffer reads two indices one after the other. It returns the number of
  values pushed by the first read and not popped by the second if and only if the consumer has
  not meanwhile popped beyond the head that was read; otherwise it is that difference modulo the
  capacity (`SizeUnlessOvertaken`). The producer and the consumer can rely on it
  (`SizeForProducer`, `SizeForConsumer`): only a third thread can see a wrong value, as in
  `ThirdThreadMiscounts`, which reports 1 on a ring that was empty at both reads.
* `remove` of the AVL tree hands the link that replaces a deleted node to `rebalance`, which
  dereferences it, although it is null for a node without children. A call does so if and only
  if the node it takes out - the one with the key, or its successor if that has two children -
  is childless, and does what is intended in all other cases (`RemoveFaultsExactly`, over whole
  runs `RunFaultsExactly`). Removing the only key is a failing call (`LastKeyFaults`).
* `insert` of the cuckoo map need not return. It returns if and only if no three keys, the new
  one included, have the same hash value (`CuckooMap.Insert`); `ThreeAlike` is a failing series
  of calls. The number of its turns is never too small: the eviction loop fails if and only if
  the keys cannot be placed at the present capacity and seed (`CuckooMap.Evict`), so the table
  ends at the first doubling at which they can. The two hash functions are not independent: at a
  capacity that is a power of two, as 16 and all it grows to, they tell the same keys apart
  (`SameSlots`), and the first such doubling is the least capacity modulo which no three keys
  agree (`LeastCapacity`).
* `dijkstra` is announced to be wrong on a graph with a negative edge, yet finds the right
  distance there (`DemonstrateNegativeEdge`): it expands a vertex again when it comes closer.
  When the sums along paths stay below INF its loop ends if and only if no negative cycle can be
  reached, and then all distances are exact (`Dijkstra.Dijkstra`, `DistancesAreExact`). What
  negative edges cost is that a vertex may be expanded more than once.

## Model

| member | source | states |
|---|---|---|
| HazardResults.NoRunFaults | hazard_pointer.cpp:36-132 | In every schedule of any number of threads, with freed addresses handed out again by the allocator, no thread touches an address that is not allocated and none is freed twice; that it is still the same node is `UsedNodeIsNeverFreed`. |
| HazardResults.UsedNodeIsNeverFreed | hazard_pointer.cpp:36-132 | As long as a thread is about to link a node, protects it or has popped it and not yet retired it, through any schedule, that node stays allocated with its value: its address is never freed, and so never handed out again, meanwhile. |
| HazardResults.OnlyHolderFrees | hazard_pointer.cpp:70-79 | A node is freed only by the scan of the thread that popped it, and no step changes the value of a node that stays. |
| HazardResults.StepIsSafe | hazard_pointer.cpp:55-132 | Every single step keeps the invariant that relates stack nodes, popped nodes, retire lists, published hazards and half-finished scans. |
| HazardResults.RunKeepsInv | hazard_pointer.cpp:36-132 | So does every run, which never ends in a fault. |
| HazardInvariant.FreedOther | hazard_pointer.cpp:62-79 | When a scan frees a node, everything another thread relies on still holds: a node it has validated is in the hazards of every scan that could free it. |
| HazardResults.Linearizable | hazard_pointer.cpp:95-132 | The log of effects is a history of a sequential LIFO stack that ends in the values linked from the head; each thread's part of it answers that thread's calls in order, a push with the very argument of the call, and what the thread was told is a prefix of it, all of it when idle. |
| HazardResults.RealTimeOrder | hazard_pointer.cpp:95-132 | Whatever a thread that is idle now will do takes effect after all that is in the log now, which contains all that any thread has been told. |
| HazardCalls.RunKeepsCalls | hazard_pointer.cpp:95-132 | In every run the reports of each thread answer its calls one for one, all but the call in progress. |
| HazardCalls.StepMoves | hazard_pointer.cpp:95-132 | A step takes up a call, goes on with it, or reports it: a push its argument, a pop some result. |
| HazardCalls.ArgumentsArePushed | hazard_pointer.cpp:95-103 | Reports that answer the calls push exactly the arguments of the push calls. |
| HazardResults.LogGrows | hazard_pointer.cpp:95-132 | The log of a run only extends the log it started from. |
| HazardResults.StepLog | hazard_pointer.cpp:95-132 | A step logs at most one operation, by the thread that moved. |
| HazardResults.LegalConserves | hazard_pointer.cpp:86-132 | In a legal history the values pushed are the values popped and the values left, as multisets. |
| HazardResults.Conserved | hazard_pointer.cpp:86-132 | Once all threads are idle, the arguments of all push calls equal the values popped and the values still linked from the head, as multisets. |
| HazardResults.CasFindsRevalidatedStack | hazard_pointer.cpp:110-122 | No ABA: when the compare-exchange of a pop succeeds, the whole stack is the one revalidated, and the successor read is the current one. |
| HazardResults.HeadStayedIffNoPush | hazard_pointer.cpp:110-122 | The head stayed at the node throughout exactly when no push took effect since revalidation. |
| HazardResults.HeadMayLeaveAndReturn | hazard_pointer.cpp:110-122 | A reachable state in which the compare-exchange succeeds although the head had left the node and come back. |
| HazardResults.GarbageIsBounded | hazard_pointer.cpp:55-83 | Allocated nodes never exceed the values on the stack by more than 64 per thread. |
| HazardProgress.PopReturns | hazard_pointer.cpp:105-132 | From every reachable state, a pop that moves alone returns what is on top of the stack within 109 steps: registration, a scan of all hazard slots and the sweep of a full retire list included. |
| HazardProgress.PushReturns | hazard_pointer.cpp:95-103 | A push that moves alone returns within three steps, with its argument on the stack. |
| HazardProgress.Returns | hazard_pointer.cpp:95-132 | Lock freedom: from any point of an operation and in any schedule, the operation returns within 112 steps of its own unless another thread's exchange takes effect meanwhile. |
| HazardProgress.PopFinishes | hazard_pointer.cpp:122-128 | A pop whose exchange has succeeded is wait-free: within 102 steps of its own it reports the value it popped, whatever the others do. |
| HazardProgress.OwnStep | hazard_pointer.cpp:95-132 | Every own step without spurious failure brings an operation closer to its end. |
| HazardResults.Destroy | hazard_pointer.cpp:134-139 | The destructor of a quiescent stack frees exactly the linked nodes; what remains are the nodes in retire lists. |
| Partition.LabelsAreConnectivity | kruskal_mst.cpp:25-35 | The labels that successive unions produce are equal exactly for vertices joined by a walk over the edges. |
| Partition.RankCountsBlocks | kruskal_mst.cpp:25-33 | Effective unions and remaining blocks add up to the number of vertices. |
| Partition.RankMonotone | kruskal_mst.cpp:44-57 | Edges that only join what other edges join have at most their rank. |
| DisjointSets.Dsu.constructor | kruskal_mst.cpp:15-17 | Every element starts as its own set. |
| DisjointSets.Dsu.Find | kruskal_mst.cpp:19-23 | Returns the representative, points exactly the elements on the way up at it, changes no set, and follows at most log2(n) links. |
| DisjointSets.Dsu.Compress | kruskal_mst.cpp:21 | Linking an element straight to its root changes no set, no bound and no other link. |
| DisjointSets.Dsu.Unite | kruskal_mst.cpp:25-33 | True exactly when the two elements were in different sets, which are then one, under the root of greater rank or, at equal ranks, of the first element, whose rank then grows by one. |
| DisjointSets.Dsu.Same | kruskal_mst.cpp:35 | True exactly for elements of one set. |
| DisjointSets.Dsu.Hang | kruskal_mst.cpp:28-31 | Hanging the lower-ranked root under the other merges their sets, keeps the rank bounds and changes no other link or rank. |
| SpanningForest.MinimumBySpanningThresholds | kruskal_mst.cpp:44-83 | A spanning forest that spans every weight threshold weighs no more than any other spanning forest. |
| SpanningForest.LighterByThresholds | kruskal_mst.cpp:44-83 | A list with at least as many entries below every threshold as another of the same length weighs no more. |
| SpanningForest.TreesAreSpanningForests | kruskal_mst.cpp:44-57 | On a connected graph spanning forests are exactly the spanning trees. |
| Kruskal.Kruskal | kruskal_mst.cpp:44-57 | Returns a spanning forest of least weight on every graph, and a spanning tree on every connected one; it is the list of the edges that join what the edges kept before them do not, in the order of the sorted edges, with or without the early break. |
| Kruskal.Minimum | kruskal_mst.cpp:50-56 | Scanning the edges in ascending order and keeping those that join new blocks gives a minimum spanning forest. |
| Prim.Prim | kruskal_mst.cpp:63-83 | Returns a least spanning tree of the component of vertex 0 on every graph, hence a spanning tree of least weight on a connected one; it has V - 1 edges exactly if the graph is connected, and each edge is the first, in the order of the queue, that leaves the vertices reached before it. |
| Prim.SameTree | kruskal_mst.cpp:73-82 | This determines the edges and their order. |
| Prim.ComponentResult | kruskal_mst.cpp:73-82 | A tree grown until no arc leaves it, over lightest arcs, is a spanning forest of least weight of vertex 0's component. |
| Prim.ArcSpanned | kruskal_mst.cpp:74-81 | The cut property: the tree joins the ends of every arc by edges no heavier than it. |
| Prim.PushAll | kruskal_mst.cpp:71 | The queue holds exactly the arcs of a vertex, parallel ones as often as they are listed. |
| Prim.PushOutside | kruskal_mst.cpp:79-80 | Adds exactly the arcs that lead to vertices outside the tree, parallel ones as often as they are listed. |
| PriorityQueues.PopLeast | kruskal_mst.cpp:75 | Takes out one least entry and leaves all others. |
| MinimumTrees.CompareTotals | kruskal_mst.cpp:97-125 | The two totals agree and are the least weight of any spanning tree. |
| MinimumTrees.SameSpanningForests | kruskal_mst.cpp:107-112 | The adjacency lists have the same spanning forests as the edge list. |
| Masking.MaskIsRemainder | robin_hood.cpp:105-108 | `& (n - 1)` is the remainder modulo n when n is a power of two. |
| Masking.NextPowerOfTwo | robin_hood.cpp:110-114 | The smallest power of two that is at least n. |
| RobinHood.RobinHoodMap.constructor | robin_hood.cpp:22-23 | An empty map in a table whose size is a power of two. |
| RobinHood.RobinHoodMap.Find | robin_hood.cpp:51-61 | Terminates, even on a full table, and returns exactly what the finite map holds for the key. |
| RobinHood.RobinHoodMap.Insert | robin_hood.cpp:25-49 | The finite map updated at the key, in the same table, or in one of twice the size exactly if the table was overloaded. |
| RobinHood.RobinHoodMap.Place | robin_hood.cpp:28-48 | The probe loop with displacement terminates, keeps every probe length equal to the distance from home and at most one more than its predecessor's, and stores the binding. |
| RobinHood.RobinHoodMap.Grow | robin_hood.cpp:116-121 | The same map in a new table of twice the size, which is not overloaded. |
| RobinHood.RobinHoodMap.Erase | robin_hood.cpp:63-87 | The map without the key; true exactly if the key was there. |
| RobinHood.RobinHoodMap.ShiftBack | robin_hood.cpp:70-82 | Backward shifting terminates, even on a full table, and removes just the key. |
| RobinHood.RobinHoodMap.FullTableHasEntryAtHome | robin_hood.cpp:51-87 | A full table has an entry of probe length 0 in its own home slot. |
| RobinHoodTable.ProbeStops | robin_hood.cpp:56 | Early exit is right: behind an empty slot or a smaller probe length the key cannot be. |
| RobinHoodTable.FullCircle | robin_hood.cpp:51-87 | An entry that has been displaced all around the ring means that every slot is full. |
| Cuckoo.CuckooMap.constructor | cuckoo_hashing.cpp:20-21 | An empty map. |
| Cuckoo.CuckooMap.Find | cuckoo_hashing.cpp:58-61 | Two probes return exactly what the finite map holds for the key. |
| Cuckoo.CuckooMap.Insert | cuckoo_hashing.cpp:23-56 | Whenever it returns, the contents are the old map updated at the key, and capacity and seed are the first, doubling and counting up from the old ones, at which all keys can be placed. It returns exactly if no three keys, the new one included, have one hash value; a nesting of as many rehashes as lead to that capacity suffices, and 64 always do. |
| Cuckoo.CuckooMap.Evict | cuckoo_hashing.cpp:27-51 | The eviction loop stores the entry exactly if all keys can be placed at this capacity and seed; otherwise it ends with tables that hold everything but the entry in hand. |
| Cuckoo.CuckooMap.Overwrite | cuckoo_hashing.cpp:25 | A key that is there gets the new value, and nothing else changes. |
| Cuckoo.CuckooMap.SwapFirst | cuckoo_hashing.cpp:33-40 | A turn in the first table stores the entry in hand in its slot, takes out what was there, and conserves entries and hand together. |
| Cuckoo.CuckooMap.SwapSecond | cuckoo_hashing.cpp:43-50 | The same in the second table. |
| Cuckoo.CuckooMap.Rehash | cuckoo_hashing.cpp:126-137 | It always returns, with the contents unchanged, at the first capacity and seed after the present ones at which all keys can be placed. |
| Cuckoo.CuckooMap.Reset | cuckoo_hashing.cpp:127-134 | Empty tables of twice the capacity under the next seed. |
| Cuckoo.CuckooMap.Reinsert | cuckoo_hashing.cpp:135-136 | Inserting an old table's entries adds exactly these, rehashing only where they cannot be placed, and returns whenever they can be placed soon enough. |
| Cuckoo.CuckooMap.Erase | cuckoo_hashing.cpp:63-77 | The map without the key; true exactly if the key was there. |
| CuckooTables.Evicted | cuckoo_hashing.cpp:39-50 | One eviction conserves the table entries together with the entry in hand. |
| CuckooTables.EntriesAreAll | cuckoo_hashing.cpp:135-136 | The entries of both tables are the whole map. |
| CuckooTables.NoRoomForThree | cuckoo_hashing.cpp:116-124 | Three keys of one hash value cannot be held at any capacity and seed. |
| Cuckoo.ThreeAlike | cuckoo_hashing.cpp:23-56 | An empty map takes two keys of one hash value; inserting a third never returns, at any capacity and nesting. |
| CuckooTables.FirstEviction | cuckoo_hashing.cpp:31-51 | Compared with any way to place all keys, every eviction brings the loop closer to its end: once the key in hand goes where the placement wants it, so does every key evicted after it, and until then every key evicted was where the placement wants it. |
| CuckooTables.SecondEviction | cuckoo_hashing.cpp:43-50 | The same in the second table. |
| CuckooTables.LeftAtStart | cuckoo_hashing.cpp:27 | At first no more than two moves for each of the slots are left, which is what the number of turns allows. |
| CuckooSlots.PlaceableIffRoomy | cuckoo_hashing.cpp:116-124 | At a power of two keys can be placed exactly if no three of them agree modulo the capacity. |
| CuckooSlots.SameSlots | cuckoo_hashing.cpp:116-124 | At a power of two, and at capacities beyond all words, two keys share their first slot exactly if they share their second, whatever the seed. |
| CuckooSlots.XorAgrees | cuckoo_hashing.cpp:122-123 | With the seed's word fixed, exclusive or neither separates nor merges numbers modulo a power of two. |
| CuckooSlots.RoomInTheEnd | cuckoo_hashing.cpp:126-137 | At most 64 rehashes lead to a capacity at which the keys can be placed, unless three have the same hash value. |
| CuckooSlots.LeastCapacity | cuckoo_hashing.cpp:126-137 | From a power of two on, the capacity at which rehashing ends is the least modulo which no three keys agree. |
| CuckooSlots.RehashedTwice | cuckoo_hashing.cpp:126-137 | Nested rehashes that some of the keys made necessary skip no capacity at which all keys could be placed. |
| BellmanFord.BellmanFord | bellman_ford.cpp:21-50 | When path sums stay below INF, and whatever the flag: the distance of every vertex that no negative cycle lies before is the least weight of all walks, INF exactly if there is none; every other distance is the weight of a walk and no heavier than any path; and the predecessors form a tree on the way to each vertex of the first kind. The flag is set exactly if a negative cycle can be reached. Early exit included.Distances and predecessors are, for every vertex, those of V - 1 full rounds over the edges in order. |
| BellmanFord.RelaxAll | bellman_ford.cpp:31-37 | One round covers all walks of one more edge, and if it updates nothing no edge can be relaxed. |
| BellmanFord.QuietForever | bellman_ford.cpp:38 | The early exit changes nothing: after a round without an update all further rounds change nothing. |
| BellmanFord.HasRelaxable | bellman_ford.cpp:42-47 | True exactly if some edge can still be relaxed. |
| BellmanFord.TightIsExact | bellman_ford.cpp:38 | When no edge can be relaxed the distances are exact. |
| BellmanFord.RelaxableMeansCycle | bellman_ford.cpp:41-47 | An edge that can still be relaxed after V - 1 rounds shows a negative cycle. |
| BellmanFord.PrevIsTight | bellman_ford.cpp:32-34 | The predecessor of a vertex ends a lightest walk to it. |
| BellmanFord.PrevIsShortestTree | bellman_ford.cpp:32-34 | From any reachable vertex that no negative cycle lies before, following `prev` leads to the start in at most V - 1 steps, along a path of weight dist[v], even with cycles of weight zero, and negative ones elsewhere. |
| BellmanFord.CoveredIsExact | bellman_ford.cpp:29-47 | Covering all paths is enough for exact distances where no negative cycle lies before. |
| Parts.RelaxPart | bellman_ford.cpp:31-37 | Relaxing an edge does to the part of the graph that leads to a vertex what relaxing it there would do, or nothing. |
| Predecessors.RelaxTree | bellman_ford.cpp:31-37 | Relaxing an edge keeps the predecessors a tree unless it closes a negative cycle. |
| Predecessors.NotAnAncestor | bellman_ford.cpp:31-37 | A vertex never becomes the successor of one of its own descendants, unless a negative cycle can be reached. |
| Predecessors.PrevLeadsToStart | bellman_ford.cpp:32-34 | From every vertex of finite distance the predecessors lead to the start along a path that is no heavier than the distance. |
| FloydWarshall.FloydWarshall | bellman_ford.cpp:59-86 | The diagonal turns negative exactly if there is a negative cycle; for every pair of vertices that no negative cycle lies between the distance is exact, though the matrix is updated in place and negative cycles may be elsewhere; every other entry is the weight of a walk and no heavier than any path.The tables are, for every pair, what the phases in order make of the lightest edges. |
| FloydWarshall.Pivot | bellman_ford.cpp:77-83 | Phase k admits vertex k as an intermediate stop, in place. |
| FloydWarshall.LoadEdges | bellman_ford.cpp:61-73 | The initial tables satisfy the invariant of phase 0: every entry is an edge, and no edge between its vertices is lighter. |
| FloydInvariant.DiagonalShowsCycles | bellman_ford.cpp:154-158 | A negative diagonal entry shows exactly a negative cycle. |
| FloydInvariant.PhaseAcyclic | bellman_ford.cpp:79-83 | No phase makes the `next` pointers run in a circle, even with cycles of weight zero. |
| FloydWarshall.FwPath | bellman_ford.cpp:88-96 | For every pair that no negative cycle lies between it terminates with the path along `next`, without repeated vertices and of weight dist[u][v]; empty exactly if u = v or v cannot be reached. |
| FloydParts.TryInPart | bellman_ford.cpp:79-83 | Trying an entry through a pivot does to the part of the graph between two vertices what running the algorithm on that part would do. |
| FloydParts.ExactInPart | bellman_ford.cpp:76-83 | Exact in the part between two vertices is exact in the graph. |
| Dijkstra.Dijkstra | dijkstra.cpp:18-47 | For weights of either sign: the loop ends whenever the walks it can follow are bounded below, and then every distance is the least weight of these walks. When path sums stay below INF it ends exactly if no negative cycle can be reached. Without negative weights it ends within E + 1 turns and expands exactly the vertices of finite distance, each once. The predecessors form a tree.Distances and predecessors are, turn by turn, those of taking the first entry of the queue and relaxing the arcs of its vertex in order. |
| Dijkstra.RelaxArcs | dijkstra.cpp:37-43 | Relaxes all arcs of the vertex just expanded and keeps the invariant, for weights of either sign, also when the vertex itself comes closer. |
| Dijkstra.DistancesAreExact | dijkstra.cpp:18-47 | When path sums stay below INF the distances are exact and no negative cycle can be reached, for weights of either sign. |
| Dijkstra.DistancesAreCapped | dijkstra.cpp:18-47 | Without negative weights every distance below INF is exact, and INF means that no walk weighs less. |
| Dijkstra.EndsOnlyIfBounded | dijkstra.cpp:30-45 | The loop ends only if there is a bound below which no walk that stays below INF gets. |
| Dijkstra.NoneBelow | dijkstra.cpp:37-43 | Where walks are bounded below, a vertex never becomes the successor of one of its own descendants. |
| Dijkstra.RoundAndRound | dijkstra.cpp:30-45 | A negative cycle that a walk below INF can go round once, it can go round any number of times. |
| Dijkstra.NoCycleIsBounded | dijkstra.cpp:30-45 | Without a reachable negative cycle there is such a bound, computed from the graph. |
| Dijkstra.DemonstrateNegativeEdge | dijkstra.cpp:57-73 | On the graph of the demonstration the distance found is -2, the right one. |
| DijkstraInvariant.RelaxSettled | dijkstra.cpp:37-43 | After any update every finite vertex still waits in the queue under its distance or has no arc that leads nearer. |
| DijkstraInvariant.DegreesBelow | dijkstra.cpp:30-45 | Vertices expanded once have no more arcs than the graph. |
| Dijkstra.GetPath | dijkstra.cpp:49-55 | Follows `prev` from the target to where it ends: a real path of weight dist[target] for every vertex of finite distance, for weights of either sign; the target alone for any other. |
| DepthFirst.DfsRecursive | dfs.cpp:14-23 | Appends the recursive visit order and marks exactly the vertices visited. |
| DepthFirst.DfsIterative | dfs.cpp:27-44 | The explicit stack, with duplicates and stale entries, produces exactly the order of the recursive search. |
| DepthFirst.PushFresh | dfs.cpp:40-41 | Pushes the unvisited neighbours so that the first one in list order is on top. |
| DepthFirst.WorkOffSplits | dfs.cpp:34-43 | A stack is worked off from its top as the recursion would, then the rest. |
| DepthFirst.FreshDecides | dfs.cpp:37 | Entries visited since they were pushed do not matter. |
| DepthFirst.VisitIsReachability | dfs.cpp:14-44 | The search visits exactly the vertices that can be reached, each once. |
| DepthFirst.CountComponents | dfs.cpp:48-60 | The number of connected blocks of an undirected graph. |
| Bipartite.IsBipartite | bfs.cpp:79-101 | On every symmetric graph true exactly if some 2-colouring gives the ends of every edge different colours. |
| Bipartite.CheckArcs | bfs.cpp:90-97 | Colours or checks all neighbours of a vertex, or finds a conflict that rules out every 2-colouring. |
| Bipartite.Conflict | bfs.cpp:90-97 | An edge with two ends of one colour rules out every 2-colouring. |
| Dependencies.DependencyResolver.AddPackage | topo_sort.cpp:18-27 | Registers a name once and keeps all others. |
| Dependencies.DependencyResolver.AddDependency | topo_sort.cpp:29-34 | Adds exactly that dependency behind the others of its package, registering unknown names, the dependent first. |
| Dependencies.DependencyResolver.InstallOrder | topo_sort.cpp:36-71 | Every package once, after all its dependencies, in the order in which they become ready, by number where they become ready together; it reports a cycle exactly if there is one. Duplicate and self dependencies are allowed. |
| FirstCome.TurnIsUnique | topo_sort.cpp:52-66 | This determines the order. |
| Dependencies.ReverseDeps | topo_sort.cpp:42-50 | Counts the dependencies of every package and lists every package with its dependents by ascending number. |
| Dependencies.ReadyPackages | topo_sort.cpp:53-55 | The queue starts with exactly the packages without dependencies. |
| Dependencies.ReleaseDependents | topo_sort.cpp:61-64 | Exactly the packages whose last dependency was installed join the queue, by ascending number. |
| Dependencies.OrderedIsAcyclic | topo_sort.cpp:58-68 | A complete order in which dependencies come first rules out cycles. |
| Dependencies.StuckIsCyclic | topo_sort.cpp:69-70 | Packages that all wait for one another contain a cycle. |
| Dependencies.Leftover | topo_sort.cpp:69-70 | The order is complete exactly if there is no cycle. |
| Introsort.Introsort | introsort.cpp:114-123 | For every depth limit the result is a sorted permutation, and no insertion of the last pass moves an element by more than 16 places. |
| Introsort.IntrosortImpl | introsort.cpp:92-112 | Rearranges the range into consecutive ordered blocks, each sorted or at most 17 long. |
| Introsort.BlocksBoundInsertion | introsort.cpp:121-122 | In such blocks every element has at most 16 greater ones before it. |
| Introsort.Partition | introsort.cpp:69-87 | The pivot ends at p between smaller and greater elements, and the unguarded scans compare only elements inside [left, right]. |
| Introsort.MedianOfThree | introsort.cpp:70-75 | Leaves the pivot at right - 1 between two elements that stop the scans. |
| HeapSort.HeapSortRange | introsort.cpp:36-66 | Sorts the range as a permutation and touches nothing else. |
| HeapSort.SiftDown | introsort.cpp:43-51 | Extends the heap by one root. |
| HeapSort.RootIsGreatest | introsort.cpp:54-56 | The root of a heap is its greatest element. |
| Introsort.InsertionSortRange | introsort.cpp:12-22 | Sorts the range as a permutation and moves every element past exactly the greater ones before it. |
| Introsort.Insert | introsort.cpp:14-20 | One insertion moves the element below exactly the greater ones of the sorted prefix. |
| Introsort.GreaterInSorted | introsort.cpp:16-19 | The elements an insertion shifts are all the greater ones. |
| Rearranging.GreaterSamePermuted | introsort.cpp:121-122 | A permutation of what lies before does not change how many are greater. |
| LinearSorts.CountingSort | linear_sorts.cpp:12-25 | Ascending permutation of numbers from 0 to the maximum. |
| LinearSorts.RadixSort | linear_sorts.cpp:28-52 | Non-negative 32-bit numbers come out as an ascending permutation. |
| LinearSorts.PlaceByBucket | linear_sorts.cpp:37-49 | Counting, prefix sums and placement from the back put the buckets one after the other, each in its old order. |
| LinearSorts.CountBuckets | linear_sorts.cpp:37-40 | The size of every bucket. |
| LinearSorts.PrefixSums | linear_sorts.cpp:43 | The place behind the last element of every bucket. |
| LinearSorts.Stable | linear_sorts.cpp:45-49 | A pass leaves the elements of each bucket in their order. |
| LinearSorts.BucketsPermute | linear_sorts.cpp:39-49 | A pass loses nothing and makes nothing up. |
| LinearSorts.PassSorts | linear_sorts.cpp:36-51 | A stable pass by the next digit turns order by the low bits into order by eight more. |
| LinearSorts.PassesSort | linear_sorts.cpp:36-51 | After k passes the array is a permutation in the order of its low 8k bits. |
| LinearSorts.RadixOrder | linear_sorts.cpp:35-51 | For 32-bit numbers the result ascends exactly if no negative number stands beside a non-negative one. |
| LinearSorts.NegativesComeLast | linear_sorts.cpp:35-51 | The four passes do not sort -1 and 0. |
| LinearSorts.DigitIsRemainder | linear_sorts.cpp:40-47 | Shift and mask select the base-256 digit, for negative numbers too. |
| SpscQueue.FirstInFirstOut | disruptor_lite.cpp:33-63 | In every interleaving the values popped, then those buffered, are the values pushed, in order; at most capacity - 1 are buffered. |
| SpscQueue.NoOverlap | disruptor_lite.cpp:42-61 | The producer never writes the cell that the consumer is reading, and what was read is still there when the cell is given back. |
| SpscQueue.FailsOnlyWhenFullOrEmpty | disruptor_lite.cpp:38-56 | The second read of a push finds no room exactly on a full ring, and that of a pop no value exactly on an empty one. |
| SpscQueue.PopOutcome | disruptor_lite.cpp:49-62 | In every interleaving a pop fails with its second access exactly if the ring is empty then; otherwise it ends with its fourth and gets the oldest value that was not popped. |
| SpscQueue.PopSucceeds | disruptor_lite.cpp:49-62 | So a pop that starts on a ring that is not empty, full or wrapped included, returns that value after four accesses, whatever the producer does in between. |
| SpscQueue.PushOutcome | disruptor_lite.cpp:33-46 | A push fails with its second access exactly if the ring is full then; otherwise it ends with its fourth and adds its argument. |
| SpscQueue.PushSucceeds | disruptor_lite.cpp:33-46 | So a push that starts on a ring that is not full adds its argument after four accesses, whatever the consumer does in between. |
| SpscQueue.RunKeepsInv | disruptor_lite.cpp:33-63 | The ring invariant holds in every run, despite indices that are stale when acted on. |
| SpscQueue.SizeUnlessOvertaken | disruptor_lite.cpp:70-74 | size() is the number pushed by its first read less the number popped by its second, modulo the capacity; exactly that number if and only if the consumer has not overtaken the head that was read. |
| SpscQueue.SizeForProducer | disruptor_lite.cpp:70-74 | If only the consumer moves between the two reads, size() is the number of values buffered at the second. |
| SpscQueue.SizeForConsumer | disruptor_lite.cpp:70-74 | If only the producer moves between the two reads, size() is the number of values buffered at the first. |
| SpscQueue.ThirdThreadMiscounts | disruptor_lite.cpp:70-74 | On a ring of capacity 2 that is empty at both reads, a push and a pop between them make size() report 1. |
| AvlTree.RunIsAvl | avl_tree.cpp:75-105 | Every run of insert and the intended remove keeps strict search order, right heights and balance, holds exactly the set of keys, and has at least Fib(h + 2) - 1 of them. So does every run of the code as written that does not fault (`RunFaultsExactly`). |
| AvlTree.InsertAdds | avl_tree.cpp:75-82 | insert keeps search order and adds exactly its key. |
| AvlTree.RemoveTakes | avl_tree.cpp:89-105 | The intended remove keeps search order and takes out exactly its key; the code agrees with it unless it faults (`RemoveFaultsExactly`). |
| AvlTree.RemoveFaultsExactly | avl_tree.cpp:89-105 | As written, remove dereferences null exactly if the node it takes out is childless, and otherwise gives the intended tree. |
| AvlTree.RunFaultsExactly | avl_tree.cpp:75-105 | A run of the code as written dereferences null exactly if some remove in it meets a tree whose node to take out is childless; otherwise it gives the tree of the intended run. |
| AvlTree.LastKeyFaults | avl_tree.cpp:95-98 | Removing the only key of a tree dereferences null. |
| AvlTree.FoundIffKey | avl_tree.cpp:89-94 | The search of remove reaches a node exactly if the key is in the tree. |
| AvlTree.RebalanceBalances | avl_tree.cpp:48-73 | A node out of balance by two becomes balanced, with a height that differs by at most one. |
| AvlTree.RebalanceKeeps | avl_tree.cpp:48-73 | Rotations keep the keys and the search order. |
| AvlTree.InsertBalances | avl_tree.cpp:75-82 | insert keeps balance and raises the height by at most one. |
| AvlTree.RemoveBalances | avl_tree.cpp:89-105 | The intended remove keeps balance and lowers the height by at most one; the code agrees with it unless it faults. |
| AvlTree.FewestKeys | avl_tree.cpp:14-20 | A balanced tree of height h has at least Fib(h + 2) - 1 keys. |
| AvlTree.InorderAscends | avl_tree.cpp:107-112 | inorder lists exactly the keys in strictly ascending order. |
| AvlNodes.Insert | avl_tree.cpp:75-82 | In place, the linked nodes come to stand for the tree after insertion, with at most new nodes added. |
| AvlNodes.Remove | avl_tree.cpp:89-105 | In place, the linked nodes come to stand for the tree after the intended removal, among the old nodes; tells exactly whether the source would have dereferenced null on the way. |
| AvlNodes.RemoveSparse | avl_tree.cpp:95-99 | A node with at most one child gives way to that child; the source dereferences null exactly if it has none. |
| AvlNodes.ReplaceBySuccessor | avl_tree.cpp:100-104 | A node with two children takes its successor's key, and the successor is removed; tells exactly whether the source would have dereferenced null. |
| AvlNodes.RebalanceOrNull | avl_tree.cpp:98 | The intended rebalancing of a link that may be null; tells that the source dereferences it exactly if it is. |
| AvlNodes.Rebalance | avl_tree.cpp:48-73 | In place, the nodes come to stand for the rebalanced tree, all of them still linked. |
| AvlNodes.UpdateHeight | avl_tree.cpp:17-19 | Stores the height that the children's stored heights imply. |
| AvlNodes.DoubleRight | avl_tree.cpp:57-60 | The two rotations of the left-right case. |
| AvlNodes.DoubleLeft | avl_tree.cpp:67-70 | The two rotations of the right-left case. |
| AvlNodes.RotateRight | avl_tree.cpp:22-32 | Relinking two nodes is the right rotation of the tree. |
| AvlNodes.RotateLeft | avl_tree.cpp:35-45 | Relinking two nodes is the left rotation of the tree. |
| AvlNodes.FindMin | avl_tree.cpp:84-87 | Reaches the node of the least key. |
| AvlNodes.PushInorder | avl_tree.cpp:107-112 | Appends the inorder list. |
| Tries.Trie.constructor | trie.cpp:46 | The empty set of words. |
| Tries.Trie.Insert | trie.cpp:49-59 | Adds exactly the word; every node but the root still leads to a stored word. |
| Tries.Trie.Descend | trie.cpp:53-55 | The child for a letter, made if it is missing, and no other change. |
| Tries.Trie.Search | trie.cpp:61-69 | True exactly for stored words. |
| Tries.Trie.Walk | trie.cpp:62-67 | The node of a word, or null exactly if it has none. |
| Tries.Trie.StartsWith | trie.cpp:71-79 | True exactly for the empty prefix and the prefixes of stored words. |
| Tries.Trie.Remove | trie.cpp:81-107 | Removes exactly its word, says whether it was there, and prunes: every node but the root still leads to a stored word. |
| Tries.Trie.PruneUpwards | trie.cpp:95-105 | Going back up, every node that no word needs any more is deleted and no other. |
| Tries.Trie.HasChildren | trie.cpp:99-100 | True exactly if some longer prefix has a node. |
| Tries.Trie.Unlink | trie.cpp:102-103 | Removes one childless node that ends no word, and no word. |
| Tries.Trie.Autocomplete | trie.cpp:110-121 | The first `limit` stored words with the prefix in lexicographic order; all of them for a negative limit. |
| Tries.Trie.Collect | trie.cpp:26-37 | Depth first, appends the words below a node in order until the limit is reached. |
| Words.ListedAscends | trie.cpp:109 | The list of a set of words ascends strictly and contains exactly its words. |
| Words.ListedUnion | trie.cpp:30-36 | Sets of words that follow one another are listed one after the other. |
| TrieLinks.StillNeeded | trie.cpp:98-104 | A node that ends a word or has a child keeps all nodes above it useful. |

## Left out

- HazardResults.NoRunFaults: atomics are sequentially consistent steps; the weaker C++ memory orders of the source are not modelled. A spurious failure of a weak compare-exchange is a possible step.
- HazardResults.StepIsSafe: a thread beyond MAX_THREADS blocks instead of writing past the hazard table, and threads do not exit, so their retire lists stay.
- HazardProgress.Returns: under contention a single operation may retry forever, and nothing is claimed about that; it is shown that others make progress then. A thread that finds all hazard slots taken waits.
- Cuckoo.CuckooMap.Insert: the recursion of insert and rehash is bounded by a parameter, because it need not end; running out of it stands for not having returned, and nothing is promised of the contents then. Capacities are unbounded: the conversion of twice the capacity to `int` is not modelled.
- Dijkstra.Dijkstra: the number of turns is bounded by a parameter, because the loop need not end; the contract says how large a bound is large enough. Distances are unbounded integers, so the sum of a distance and a weight does not overflow.
- Prim.Prim: the empty graph is excluded because the source indexes vertex 0.
- Bipartite.IsBipartite: graphs in which an edge is listed at one end only are excluded.
- AvlNodes.Remove: where the source dereferences null the model goes on with the intended result, null, and reports the fault; what a C++ program does after the dereference is not modelled.
- AvlNodes.PushInorder: the result vector is a value that is passed on, not an object shared by the calls.
- Introsort.IntrosortImpl: the branch for ranges shorter than 3 cannot be reached inside the loop and is not modelled; the depth limit is any natural number instead of twice a floating-point logarithm.
- Tries.Trie.Insert: the counter in each node is not modelled, because nothing reads it; other characters than a..z are excluded.
- BellmanFord.BellmanFord: integers are unbounded, so the assumption on path sums stands for the absence of overflow.
- Integer overflow, allocation failure, and deallocation itself (outside the lock-free stack) are not modelled.
- `std::hash` is an arbitrary function, into 64-bit words for the cuckoo map, and so is the word that the seed is made into before the exclusive or; `std::sort` appears as an argument that is a sorted permutation, `std::priority_queue` as a multiset that hands out a least element.
- `bfs`, `bfs_shortest`, `reconstruct_path`, `has_cycle` and the depth-first `topological_sort` would repeat the search arguments above for simpler claims.
- `merge_sort.cpp`, `doubly_linked_list.cpp`, `object_pool.cpp`, `arena_allocator.cpp` and `tree_traversal.cpp` would add easier members.
- `bucket_sort`, SIMD, timing, printing, the demonstrations of language features and all `main` functions, except for the comparison of the two spanning trees.
