# python-tools core, modelled in Dafny

This project models the algorithmic core of the `python-tools` repository, in the repository's own terms:

- **Binary-heap `PriorityQueue`** (`queues.dfy`). A class whose `container` is a sequence changed in place by append, pop and swaps. `key` and `reverse` turn every comparison into a max-heap test on a priority: the key, or minus the key when `reverse` is set.
- **Graph entities** (`graph_info.dfy`).
  - `UndirectedEdge` is a value whose equality is the repository's reversed-endpoint test.
  - `Vertex` is a class with a `value` and an edge set that its `AddEdge` grows.
- **`UndirectedGraph`** (`graphs.dfy`). A class holding the value→vertex map and the root vertex.
  - Its queries work on the adjacency map `Adj()` (value → edges stored at that vertex), through the functions in `adjacency.dfy`: lookup, `edges()`, `edge_count`, `has_edge`, reachability.
  - The two depth-first searches are in `graph_search.dfy`.
  - The two shortest-path algorithms are in `shortest_paths.dfy`, with `Inf | Fin(n)` labels in place of `math.inf`. Beside the Bellman-Ford method as written there is a variant that relaxes both directions of every edge (see Findings).
- **k-th smallest selection** (`selection.dfy`).
  - Partition-based `_base_select`, with the pivot chooser as a parameter.
  - `brute_force_select`, with Python's negative indexing.
  - The grouping step of `deterministic_select`.
- **In-place sorts.**
  - `comparison_sorting.dfy`: `swap`, `merge`, `selection_sort`, `insertion_sort`.
  - `address_sorting.dfy`: `counting_sort`, `bucket_sort`, with the index arithmetic and the errors they raise.
- **Banker's algorithm** (`banker.dfy`): the `ResourceVector` operators, `calculate_need`, `is_sequence_safe` and `safe_state`.
- **Counting-table `MultiSet`** (`hash_tables.dfy`): a class whose count table and size field are updated in place.

Python exceptions are modelled as `Err`/`Fail` results (`Wrappers.Result`, `Wrappers.Outcome`). Every operation states its error cases alongside its normal result.

## Model

| member | source | states |
|---|---|---|
| Queues.Greater | data_structures/queues.py:246-250 | `_compare`: `key(x) > key(y)`, or `key(x) < key(y)` with `reverse`. `GreaterIsHigherPriority` states what it means. |
| Queues.GreaterIsHigherPriority | data_structures/queues.py:125-130 | Without `reverse`, "greater" means a larger key (a max-heap). With `reverse`, it means a smaller key (a min-heap). Either way it is exactly a larger priority. |
| Queues.ParentOf | data_structures/queues.py:306-311 | The parent `p` of index `i` satisfies `2p+1 <= i <= 2p+2`, which is floor((i-1)/2). |
| Queues.ChildrenHaveParent | data_structures/queues.py:306-327 | Both children of `i` have `i` as parent. The parent of 0 is -1, outside the heap. Every positive index has its parent below it. |
| Queues.RootIsMax | data_structures/queues.py:253-294 | In a heap, no element has a higher priority than the element at index 0. |
| Queues.ViewIsNotSorted | data_structures/queues.py:219-228 | `[3, 1, 2]` is a valid max-heap whose storage order is not priority order, so `view` does not return sorted order. |
| Queues.IndexOf | data_structures/queues.py:231-243 | -1 exactly when the item is absent; otherwise the smallest index holding it. |
| Queues.Swapped | data_structures/queues.py:253-284 | The swap used by sifting exchanges two positions, leaves the others alone and keeps the multiset. |
| Queues.LastMovedTo | data_structures/queues.py:197-216 | The removal step (the last element overwrites the removed one and the list shrinks) removes exactly that one element from the multiset. Every other position is unchanged. |
| Queues.SwapUpReady | data_structures/queues.py:253-262 | When the child rises, swapping it with its parent leaves at most the parent's position out of heap order. |
| Queues.StayUpIsHeap | data_structures/queues.py:253-262 | When sift-up stops because the element does not rise, the whole container is a heap. |
| Queues.SwapDownReady | data_structures/queues.py:265-284 | Swapping with the higher-priority child moves the only heap violation down to that child. |
| Queues.StayDownIsHeap | data_structures/queues.py:265-284 | When sift-down stops because no child is higher, the container is a heap from the sifted range on. |
| Queues.HeapIsDownReady | data_structures/queues.py:265-284 | A heap is ready to be sifted down at any index. |
| Queues.PlacedIsReady | data_structures/queues.py:197-216 | After the last element is moved into a removed slot, one of the two sifts restores the heap from there. |
| Queues.AppendKeepsOrder | data_structures/queues.py:142-145 | Appending an item of no higher priority than the last one keeps a popped sequence in priority order. |
| Queues.RemainingWereQueued | data_structures/queues.py:182-194 | What is left after a pop was in the queue before. |
| Queues.PriorityQueue.Len | data_structures/queues.py:43-47 | The length is the number of stored items. |
| Queues.PriorityQueue.constructor | data_structures/queues.py:102-135 | The new queue keeps `key` and `reverse`, is a heap, and holds exactly the items of `iterable`. |
| Queues.PriorityQueue.New | data_structures/queues.py:125-135 | The intended constructor: a non-callable key is a ValueError, and only then. Otherwise the result is a fresh heap holding exactly the iterable's items. As written, every construction raises ValueError (see Left out). |
| Queues.PriorityQueue.Top | data_structures/queues.py:160-169 | ValueError exactly when the queue is empty. Otherwise the result is a stored item of the highest priority. |
| Queues.PriorityQueue.View | data_structures/queues.py:219-228 | The raw storage order, with the highest priority at index 0. |
| Queues.PriorityQueue.Find | data_structures/queues.py:231-243 | -1 exactly when no equal item is stored; otherwise the smallest index of an equal item. |
| Queues.PriorityQueue.SiftUp | data_structures/queues.py:253-262 | Keeps the multiset and the length, changes nothing when the element does not rise, and restores the heap invariant. |
| Queues.PriorityQueue.SiftDown | data_structures/queues.py:265-284 | Keeps the multiset and the length, and establishes heap order from the sifted range on. |
| Queues.PriorityQueue.Heapify | data_structures/queues.py:287-294 | Turns any container into a heap with the same multiset. |
| Queues.PriorityQueue.Push | data_structures/queues.py:172-179 | Keeps the heap invariant. The length grows by one and the contents gain exactly the pushed item. |
| Queues.PriorityQueue.Remove | data_structures/queues.py:197-216 | ValueError when empty. IndexError when the index is outside [0, len), negative indices included, with nothing changed. Otherwise exactly the element at the index is removed and the heap invariant is kept. |
| Queues.PriorityQueue.Pop | data_structures/queues.py:182-194 | ValueError when empty. Otherwise it returns `container[0]`, which has the highest priority, removes exactly that element and keeps the heap invariant. |
| Queues.PriorityQueue.PopAll | data_structures/queues.py:142-145 | Popping until empty yields every item once, in priority order: greatest first, or least first with `reverse`. |
| GraphInfo.EdgeEquals | data_structures/graphs/info.py:124-128 | Two undirected edges are equal when each one's origin is the other's destination and the weights agree. `SameDirectionCopy` and `EqualEdgesHashEqual` state its consequences. |
| GraphInfo.Reversed | data_structures/graphs/info.py:124-128 | The reverse copy swaps the endpoints and keeps the weight. |
| GraphInfo.EqualEdgesHashEqual | data_structures/graphs/info.py:124-136 | Edges equal under the reversed-endpoint equality hash equal, because the hash is a sum. An edge equals its reverse. The equality is symmetric. |
| GraphInfo.SameDirectionCopy | data_structures/graphs/info.py:124-128 | An edge equals its same-direction copy exactly when it is a loop. |
| GraphInfo.WithWeight | data_structures/graphs/info.py:110-116 | The weight setter changes the weight only; origin and destination are unchanged. |
| GraphInfo.EdgeSetAdd | data_structures/graphs/info.py:62-64 | Adding to an edge set leaves it unchanged when an equal edge is stored; otherwise it appends the edge. |
| GraphInfo.AddKeepsNoEqualPair | data_structures/graphs/info.py:62-64 | After an add, no two stored edges are equal. |
| GraphInfo.SameDirectionNotFound | data_structures/graphs/info.py:62-64 | Among edges that all leave one vertex, an edge leaving that vertex finds an equal one only when it is a loop. |
| GraphInfo.Vertex.constructor | data_structures/graphs/info.py:5-7 | A new vertex holds its value and no edges. |
| GraphInfo.Vertex.OutgoingEdges | data_structures/graphs/info.py:40-42 | The outgoing edges of an undirected vertex are its edge set. |
| GraphInfo.Vertex.IncomingEdges | data_structures/graphs/info.py:45-47 | The incoming edges of an undirected vertex are its edge set. |
| GraphInfo.Vertex.Degree | data_structures/graphs/info.py:58-59 | The degree is the size of the edge set. |
| GraphInfo.Vertex.OutDegree | data_structures/graphs/info.py:50-51 | The outdegree equals the degree. |
| GraphInfo.Vertex.InDegree | data_structures/graphs/info.py:54-55 | The indegree equals the degree and the outdegree. |
| GraphInfo.Vertex.AddEdge | data_structures/graphs/info.py:62-64 | Adds `UndirectedEdge(self, dst, w)` to this vertex's own set only. A non-loop edge is always appended, even when a same-direction copy is stored. The set never gains an equal pair. |
| GraphInfo.Vertex.IsTruthy | data_structures/graphs/info.py:13-14 | A vertex is truthy exactly when its integer value is non-zero. |
| GraphInfo.VertexEquals | data_structures/graphs/info.py:21-22 | Vertices are equal exactly when their values are equal. |
| GraphInfo.VertexHash | data_structures/graphs/info.py:17-18 | The vertex hash depends on the value alone; the hash of the value's text is a parameter. |
| GraphInfo.EqualVerticesHashEqual | data_structures/graphs/info.py:17-22 | Vertices equal by value hash equal; the hash depends on the value alone. |
| Adjacency.Lookup | data_structures/graphs/graph.py:62-65 | An absent value is a VertexNotFound error, and only then. Otherwise the result is the vertex's edges. |
| Adjacency.ReachableFromItself | data_structures/graphs/graph.py:275-277 | Every vertex is reachable from itself. |
| Adjacency.ClosedHoldsReachable | data_structures/graphs/graph.py:266-287 | A set of vertices closed under edges holds everything reachable from its members. A search that stops exploring therefore has found everything reachable. |
| Adjacency.Minimum | data_structures/graphs/graph.py:213-214 | The least vertex value of a non-empty set. |
| Adjacency.SortedValues | data_structures/graphs/graph.py:213-214 | The vertex values, each once, in strictly ascending order: the `sorted(..., key=value)` that `edges()` iterates. |
| Adjacency.UnionIntoFacts | data_structures/graphs/graph.py:213-214 | A set union adds each edge unless an equal one is present. It keeps the result without equal pairs, only grows, and covers every added edge. |
| Adjacency.Edges | data_structures/graphs/graph.py:213-214 | `edges()`: the union of the edge sets, vertex by vertex in ascending value order, under the reversed-endpoint equality. `EdgesIsUnion` and `TriangleUnion` state what it holds. |
| Adjacency.EdgesIsUnion | data_structures/graphs/graph.py:213-214 | `edges()` has no two equal edges, holds only stored edges, and covers every stored edge itself or by its reverse. |
| Adjacency.EdgeCount | data_structures/graphs/graph.py:198-210 | `edge_count(True)` is the size of the union of the edge sets; `edge_count(False)` is the sum of their sizes. `UniqueCountAtMostTotal` and `TriangleCounts` relate the two. |
| Adjacency.UniqueCountAtMostTotal | data_structures/graphs/graph.py:198-210 | `edge_count(True)` never exceeds `edge_count(False)`. |
| Adjacency.TriangleCounts | data_structures/graphs/graph.py:198-210 | For the triangle built by three `add_edge` calls, the unique count is 3 and the total count is 6. |
| Adjacency.TriangleUnion | data_structures/graphs/graph.py:213-214 | For the triangle, `edges()` keeps one copy of each undirected edge, taken from the lower-valued endpoint first. |
| Adjacency.HasEdge | data_structures/graphs/graph.py:180-195 | A missing origin, then a missing destination, is a VertexNotFound error, checked before the lookup. Nothing else is an error. |
| Adjacency.HasEdgeFindsOnlyLoops | data_structures/graphs/graph.py:193-195 | Stored copies run in the lookup's direction, so `has_edge` is true only for a loop. For a loop it is true exactly when that loop with that weight is stored. |
| Adjacency.AddEdgeTo | data_structures/graphs/graph.py:217-229 | Adding an edge changes only the two endpoints' edge sets; the vertex set is unchanged. |
| Adjacency.AddEdgeToAppends | data_structures/graphs/graph.py:217-229 | Between distinct vertices, `o→d` is appended to `o`'s set and `d→o` to `d`'s. For a loop, the edge is added once. The result stays well formed. |
| Adjacency.RepeatedAddEdgeAppends | data_structures/graphs/graph.py:228-229 | Adding the same non-loop edge twice stores two copies at the origin and raises `edge_count(False)`. The "does nothing if it exists" docstring does not hold. |
| GraphSearch.DfsIsConnected | data_structures/graphs/graph.py:266-272 | The explored set grows to the root, plus everything reachable from it outside the initially explored set. The returned count is its size. |
| GraphSearch.DfsIsReachable | data_structures/graphs/graph.py:275-287 | True only when the destination is reachable. When false, the explored set holds the root, not the destination, and is closed apart from what was explored before. |
| GraphSearch.IsReachable | data_structures/graphs/graph.py:255-263 | A missing origin, then a missing destination, is an error. Otherwise the result is true exactly when the destination is reachable, which includes origin == destination. |
| GraphSearch.FullSearchCount | data_structures/graphs/graph.py:250-252 | The count from a full search equals the number of vertices exactly when every vertex is reachable from the root. |
| Graphs.UndirectedGraph.constructor | data_structures/graphs/graph.py:12-22 | A new graph has no vertices and no root. |
| Graphs.UndirectedGraph.Get | data_structures/graphs/graph.py:62-65 | An absent value is a GraphError; otherwise the result is the vertex stored under it, with that vertex's edges. |
| Graphs.UndirectedGraph.Length | data_structures/graphs/graph.py:50-51 | The number of vertices; zero exactly when there is no root. |
| Graphs.UndirectedGraph.NonEmpty | data_structures/graphs/graph.py:54-55 | The graph is true exactly when it has a root, that is, a vertex. |
| Graphs.UndirectedGraph.Contains | data_structures/graphs/graph.py:58-59 | A value is in the graph exactly when lookup finds it. |
| Graphs.UndirectedGraph.Vertices | data_structures/graphs/graph.py:68-69 | Every stored vertex, each the one stored under its own value. |
| Graphs.UndirectedGraph.AddEdge | data_structures/graphs/graph.py:217-229 | Both endpoints are looked up before anything changes, and a missing one is an error that changes nothing. Otherwise the adjacency becomes `AddEdgeTo` of the old one; vertices and root are kept. |
| Graphs.UndirectedGraph.AddVertex | data_structures/graphs/graph.py:77-90 | The root is set only when the graph was empty. The value (and `dst`) become keys. Re-adding with no `dst` keeps the vertex and its edges. With `dst`, `dst`'s entry is reset to a vertex with no edges before the edge is added. |
| Graphs.UndirectedGraph.Store | data_structures/graphs/graph.py:82-85 | Storing a vertex sets the root only when the graph was empty, and maps its value to it, which updates just that entry of the adjacency map. |
| Graphs.UndirectedGraph.Place | data_structures/graphs/graph.py:83-87 | Reuses the vertex already stored under the value or stores a new one with no edges, setting the root of an empty graph. |
| Graphs.UndirectedGraph.Reset | data_structures/graphs/graph.py:89 | The destination's entry is replaced by a fresh vertex with no edges, even when it existed. |
| Graphs.UndirectedGraph.Attach | data_structures/graphs/graph.py:88-90 | The destination is reset, then the edge is added between the two. |
| Graphs.UndirectedGraph.IsConnected | data_structures/graphs/graph.py:242-252 | False on an empty graph, true on one vertex. Otherwise true exactly when every vertex is reachable from the root. |
| ShortestPaths.Add | data_structures/graphs/graph.py:113 | Infinity plus a weight is infinity; a finite label plus a weight is finite. |
| ShortestPaths.OrderFacts | data_structures/graphs/graph.py:114 | The label order is total and transitive, with infinity above every finite label. |
| ShortestPaths.InitialLabels | data_structures/graphs/graph.py:99-104 | Every vertex is labelled infinity except the origin, labelled 0. |
| ShortestPaths.NoParents | data_structures/graphs/graph.py:99-103 | Every vertex starts with no parent. |
| ShortestPaths.InitiallySound | data_structures/graphs/graph.py:99-104 | The initial labels and parents satisfy the soundness invariant: a finite label belongs to the origin or to a vertex whose parent has a finite label and is linked to it. |
| ShortestPaths.LeastLabelExists | data_structures/graphs/graph.py:105-108 | A non-empty queue always has a vertex of least label to pop. |
| ShortestPaths.RelaxEdge | data_structures/graphs/graph.py:110-118 | Relaxing one edge keeps the relaxation invariants, never makes a finite label infinite, and makes the end finite when the start is finite. |
| ShortestPaths.RelaxNeighbours | data_structures/graphs/graph.py:109-118 | Labels only decrease, and only vertices still in the queue change. Soundness, parent ranks, infinity-last and settled-closure are kept. |
| ShortestPaths.Dijkstra | data_structures/graphs/graph.py:98-125 | A missing origin, then a missing destination, is an error. Otherwise the path ends at the destination and consecutive vertices are joined by edges. It starts at the origin exactly when the destination is reachable, and is `[dst]` when it is not. When no weight is negative and the destination is reachable, the path traces a shortest walk: one weighing no more than any other walk from the origin. |
| ShortestPaths.SettleWeights | data_structures/graphs/graph.py:107-118 | After a pop and its relaxations, parent edges stay tight. When no weight is negative, popped labels stay no larger than queued ones, and no edge of a popped vertex can lower its destination's label. |
| ShortestPaths.RelaxEdgeWeights | data_structures/graphs/graph.py:109-118 | Relaxing one more edge of the popped vertex keeps the parent edges tight. When no weight is negative, it keeps queued labels no smaller than the popped one, and the relaxed edges cannot lower their destinations' labels. |
| ShortestPaths.CalmBound | data_structures/graphs/graph.py:148 | When no edge can lower a label, the label at the end of any walk is at most the start's label plus the walk's weight. |
| ShortestPaths.ParentWalk | data_structures/graphs/graph.py:120-125 | The parent edges along a parent chain form a walk through exactly the chain's vertices, weighing the difference of the end labels. |
| ShortestPaths.ParentChainIsShortest | data_structures/graphs/graph.py:120-125 | With calm labels and tight parent edges, the parent chain from a finite label traces a shortest walk. |
| ShortestPaths.ShortestWalksWeighTheSame | data_structures/graphs/graph.py:98-156 | Two shortest walks between the same vertices weigh the same, so the paths from the two algorithms, where both are shortest, have equal total weight. |
| ShortestPaths.ExampleShortestWalk | data_structures/graphs/graph.py:98-125 | In the graph with edges A-B 1, B-C 2, A-C 4 and C-D 1, every shortest walk from A to D weighs 4 and passes A, B, C, D. |
| ShortestPaths.DijkstraExample | data_structures/graphs/graph.py:98-125 | On that graph, the path from A to D is A, B, C, D. |
| ShortestPaths.SettleNearest | data_structures/graphs/graph.py:107-118 | One pass of the queue loop removes a vertex, keeping the labels sound, the parents ranked, infinite labels last in the queue, and the settled vertices closed under finite edges. |
| ShortestPaths.RelaxEdges | data_structures/graphs/graph.py:109-118 | Relaxing every edge of the popped vertex keeps the relaxation invariants; when its label is finite, every neighbour ends with a finite label. |
| ShortestPaths.FiniteExactlyReachable | data_structures/graphs/graph.py:107-125 | Once every vertex is settled, a label is finite exactly when the vertex is reachable from the origin. |
| ShortestPaths.FollowParents | data_structures/graphs/graph.py:120-125 | Following parents from the destination gives a path ending there. It starts at the origin when the label is finite and is `[dst]` when it is infinite. |
| ShortestPaths.Relax | data_structures/graphs/graph.py:140-145 | Relaxing one edge never raises a label. It changes the labels exactly when the edge is tense, and changes nothing otherwise. |
| ShortestPaths.Round | data_structures/graphs/graph.py:139-145 | One round over `edges()` keeps the vertex set. |
| ShortestPaths.Rounds | data_structures/graphs/graph.py:135-146 | `len-1` rounds keep the vertex set. |
| ShortestPaths.FinalState | data_structures/graphs/graph.py:129-146 | The labels and parents after the `len-1` rounds cover every vertex. |
| ShortestPaths.RoundNeverRaises | data_structures/graphs/graph.py:139-145 | A round never raises a label. |
| ShortestPaths.RoundFixedIff | data_structures/graphs/graph.py:139-148 | A round changes nothing when no edge is tense. When an edge is tense, it strictly lowers some label. |
| ShortestPaths.RoundsKeepSound | data_structures/graphs/graph.py:135-146 | Any number of rounds keep the labels sound. |
| ShortestPaths.FinalStateSound | data_structures/graphs/graph.py:128-146 | The final labels and parents are sound. |
| ShortestPaths.RelaxRound | data_structures/graphs/graph.py:139-145 | The loop over `edges()` computes exactly one `Round`, keeping soundness and the parent timestamps. |
| ShortestPaths.CalmParentsOrdered | data_structures/graphs/graph.py:148-153 | When no edge is tense, every parent was last improved before its child, so the parent chain followed at the end terminates. |
| ShortestPaths.BellmanFord | data_structures/graphs/graph.py:128-156 | A missing origin is an error. After `len-1` rounds, the result is a negative-weight-cycle error exactly when some edge is still tense. Otherwise a missing destination is an error, and else the path ends at the destination, starts at the origin exactly when its label is finite, and is `[dst]` when infinite. |
| ShortestPaths.RunRounds | data_structures/graphs/graph.py:135-146 | The `while` loop returns the state after `n` rounds, the last entry of a history of the states round by round. The labels stay sound, with parent timestamps recorded. |
| ShortestPaths.HistoryIsRounds | data_structures/graphs/graph.py:135-146 | The `n`-th entry of a round history is the state after `n` rounds. |
| ShortestPaths.RecordRounds | data_structures/graphs/graph.py:135-146 | The states before the first round and after each of `n` rounds form a round history. |
| ShortestPaths.RoundsThenCheck | data_structures/graphs/graph.py:135-156 | The rounds, then the check, over a list of stored edges: the final state is the last entry of the round history, and the outcome is the one `CheckAndTrace` describes. |
| ShortestPaths.CheckAndTrace | data_structures/graphs/graph.py:148-156 | A negative-weight-cycle error exactly when an edge is still tense. Otherwise a missing destination is an error, and else the parent path ends at the destination, starts at the origin exactly when its label is finite, and is `[dst]` when infinite. When the list holds every stored direction, success also means no negative closed walk is reachable from the origin, and the path to a reachable destination traces a shortest walk. |
| ShortestPaths.CalmWhenNoTense | data_structures/graphs/graph.py:148 | When no edge of a list holding every stored direction is tense, no stored edge can lower a label. |
| ShortestPaths.CalmNoNegativeCycle | data_structures/graphs/graph.py:148-156 | Such labels, finite at the origin, rule out a negative closed walk through any vertex reachable from the origin. |
| ShortestPaths.CalmParentsTight | data_structures/graphs/graph.py:148-154 | With such labels, every parent edge is tight: the child's label is the parent's plus the edge weight. |
| ShortestPaths.TwoVertexEdges | data_structures/graphs/graph.py:213-214 | For vertices 1 and 2 joined by one edge, `edges()` holds that edge once, from 1 to 2. |
| ShortestPaths.ReverseDirectionNeverRelaxed | data_structures/graphs/graph.py:135-148 | With edge 1-2 of weight 5 and origin 2, vertex 1 is reachable but keeps an infinite label, and no edge is left tense. |
| ShortestPaths.ReverseDirectionExample | data_structures/graphs/graph.py:128-156 | `bellman_ford(2, 1)` on that graph returns `[1]`, although 1 is reachable from 2. |
| ShortestPaths.NegativeEdgeNotDetected | data_structures/graphs/graph.py:148-156 | With edge 1-2 of weight -1 and origin 1, no edge of `edges()` is tense after the rounds. |
| ShortestPaths.NegativeClosedWalk | data_structures/graphs/graph.py:148-156 | Crossing that edge and coming back is a closed walk of weight -2 at the origin. |
| ShortestPaths.NegativeEdgeExample | data_structures/graphs/graph.py:128-156 | `bellman_ford(1, 2)` on that graph returns a path although a negative closed walk is reachable. |
| ShortestPaths.AllIncidences | data_structures/graphs/graph.py:139 | The list the corrected rounds relax: every stored edge in both directions, and nothing else. |
| ShortestPaths.FinalStateAllDirections | data_structures/graphs/graph.py:129-146 | The labels and parents after the rounds over both directions cover every vertex. |
| ShortestPaths.BellmanFordAllDirections | data_structures/graphs/graph.py:128-156 | Errors as in `BellmanFord`, decided on both directions. A reachable negative closed walk always gives the negative-cycle error. Otherwise the path ends at the destination, starts at the origin exactly when the destination is reachable, is `[dst]` when it is not, and traces a shortest walk when it is. |
| ShortestPaths.NegativeEdgeAllDirectionsExample | data_structures/graphs/graph.py:128-156 | Relaxing both directions, the edge of weight -1 gives the negative-cycle error. |
| ShortestPaths.ReverseDirectionAllDirectionsExample | data_structures/graphs/graph.py:128-156 | Relaxing both directions, the path from 2 to 1 over the edge of weight 5 starts at 2 and traces a shortest walk. |
| Selection.KthSmallestUnique | algorithms/selection.py:1-12 | The k-th smallest value (1-indexed) of a list is unique. |
| Selection.SortedPositionIsKth | algorithms/selection.py:21-26 | Position `i` of the sorted list is the (i+1)-th smallest. |
| Selection.CountPermutation | algorithms/selection.py:25 | Sorting does not change how many elements lie below a value. |
| Selection.Partition | algorithms/selection.py:95-105 | `less` holds input values below the median and `greater` input values above it; `|less| + equal_count + |greater| = n`. |
| Selection.PartitionCounts | algorithms/selection.py:95-105 | Counting below any value is the same on the input and on the three parts. |
| Selection.MedianCounted | algorithms/selection.py:42-45 | A pivot drawn from the input is counted at least once, so both recursive inputs are strictly shorter. |
| Selection.SelectMedian | algorithms/selection.py:109-110 | When `|L| < k <= |L| + |E|`, the median is the k-th smallest. |
| Selection.SelectFromLess | algorithms/selection.py:107-108 | The k-th smallest of `less` is the k-th smallest of the input. |
| Selection.SelectFromGreater | algorithms/selection.py:111-112 | The (k-|L|-|E|)-th smallest of `greater` is the k-th smallest of the input. |
| Selection.QuickSelect | algorithms/selection.py:29-45 | For any pivot drawn from the input, `1 <= k <= n` gives the k-th smallest. Any other k fails on an empty range. |
| Selection.BruteForceSelect | algorithms/selection.py:21-26 | Returns `sorted(xs)[k]`: the (k+1)-th smallest for `0 <= k < n` and the (n+k+1)-th for negative k. Otherwise an index error. |
| Selection.CeilDiv | algorithms/selection.py:115-117 | The integer ceiling of `n / d`: the least multiple of `d` not below `n`. |
| Selection.DivideIntoGroups | algorithms/selection.py:60-72 | For n > 5 there are `ceil(n/5)` groups, all of size 5 except the last, which has size `n % 5` (or 5). Element i is at slot `i % 5` of group `i // 5`. |
| ComparisonSorting.Swap | algorithms/sorting/comparison_based_sorting.py:1-2 | Exchanges exactly two positions and leaves every other one unchanged. |
| ComparisonSorting.MergeFrom | algorithms/sorting/comparison_based_sorting.py:5-28 | The merged output has as many elements as the two runs left to merge. |
| ComparisonSorting.MergePermutes | algorithms/sorting/comparison_based_sorting.py:5-28 | The merge output is a permutation of the array. |
| ComparisonSorting.MergeSorted | algorithms/sorting/comparison_based_sorting.py:5-28 | When both halves are sorted, the merge output is sorted. |
| ComparisonSorting.MergeHeads | algorithms/sorting/comparison_based_sorting.py:11-21 | The two-run loop writes the merge's first `counter` outputs, taking from the left on ties, until one run is used up. |
| ComparisonSorting.CopyRun | algorithms/sorting/comparison_based_sorting.py:23-28 | Copies the rest of a run to consecutive positions and touches nothing else. |
| ComparisonSorting.Merge | algorithms/sorting/comparison_based_sorting.py:5-28 | Every position is rewritten with the merge of the two halves. |
| ComparisonSorting.MaxWithIndex | algorithms/sorting/comparison_based_sorting.py:62-71 | The maximum of the `(value, index)` pairs of the prefix before `i`: its largest element, at the last position holding it. |
| ComparisonSorting.SelectionSort | algorithms/sorting/comparison_based_sorting.py:58-76 | The array ends ascending and a permutation of the input. |
| ComparisonSorting.InsertionSort | algorithms/sorting/comparison_based_sorting.py:79-105 | The array ends ascending and a permutation of the input. |
| ComparisonSorting.InsertBack | algorithms/sorting/comparison_based_sorting.py:102-105 | Swapping the threshold element back past every larger left neighbour turns an ascending prefix of length `threshold` into one of length `threshold+1`, keeping the array a permutation and leaving every position after `threshold` unchanged. |
| Banker.Sum | playground/banker.py:16-21 | Componentwise sum over the zipped positions (as long as the shorter vector). |
| Banker.Difference | playground/banker.py:27-29 | Componentwise difference over the zipped positions. |
| Banker.Plus | playground/banker.py:16-25 | A non-list operand is a TypeError, and only then. Otherwise the result is the componentwise sum. |
| Banker.Minus | playground/banker.py:27-33 | A non-list operand is a TypeError, and only then. Otherwise the result is the componentwise difference. |
| Banker.MinusUndoesPlus | playground/banker.py:16-33 | Subtracting what was added gives back the vector, cut to the zipped length. |
| Banker.PlusGrows | playground/banker.py:13-21 | Adding a non-negative vector gives a vector that the original is `<=`. |
| Banker.CalculateNeed | playground/banker.py:64-67 | `need[i][j] = max[i][j] - allocation[i][j]`, over the zipped rows and columns. |
| Banker.RowIndex | playground/banker.py:120 | Python indexing of the need rows: defined exactly for `-n <= i < n`, counting from the end when negative. |
| Banker.Processes | playground/banker.py:73 | The process indices `0..n-1`. |
| Banker.IsSequenceSafe | playground/banker.py:114-126 | The loop computes the replay of the sequence. A repeated or unfitting index answers false; an index past the end is an IndexError; after the whole sequence, it answers whether every process finished. |
| Banker.CheckOrder | playground/banker.py:117-126 | The loop over the sequence, given the need rows, returns exactly the verdict on the replay of the sequence. |
| Banker.PrefixStops | playground/banker.py:119-124 | Once the replay stops, later entries do not change the answer. |
| Banker.ReplayNamesEachOnce | playground/banker.py:119-122 | A completed replay names only valid processes, each at most once, and its finished set is exactly the named ones. |
| Banker.AcceptedOrderIsComplete | playground/banker.py:114-126 | An accepted sequence names every process exactly once. |
| Banker.ReplayWork | playground/banker.py:119-122 | After a completed replay, `work` equals `available` plus the allocation rows of the finished processes. |
| Banker.SafeState | playground/banker.py:70-86 | When the loop stops, the order it found is replayed to completion. If every process finished, the result is exactly that order and `is_sequence_safe` accepts it. Otherwise the result is empty and no need row fits the final `work`. When no need row fits `available`, the result is empty. `None` (the fuel ran out) comes only while the loop guard holds; with `fuel >= n * n + n` it comes only when every unfinished process needs more than the work although some row fits, so the Python loop never ends. |
| Banker.SearchOrder | playground/banker.py:73-86 | The sweep, given the need rows: when it stops, its order replays to completion. It returns that order, accepted by the sequence check, when every process finished, and otherwise the empty order with no need row fitting the final `work`. It answers `None` only with the loop guard still true, and with `fuel >= n * n + n` only when the sweep is spinning: no unfinished process can ever finish. |
| Banker.SweepStep | playground/banker.py:77-83 | One step of the sweep finishes row `i` exactly when it is unfinished and fits, moves to the next row cyclically, and keeps the sweep invariant: the order replays to the work, and every row looked at since the last finish is finished or too needy. |
| Banker.SweepSpent | playground/banker.py:77 | When the fuel runs out with the guard true, the order is unfinished; after `n * n + n` steps the sweep has gone a whole round without finishing anything, so it is spinning. |
| Banker.ExtendReplay | playground/banker.py:78-81 | Finishing one more fitting process adds its allocation to `work` and the process to the finished set. |
| AddressSorting.Largest | algorithms/sorting/address_based_sorting.py:6-7 | `max` of an empty list is a ValueError, and only then. Otherwise it is an element no smaller than any other. |
| AddressSorting.MaxOf | algorithms/sorting/address_based_sorting.py:6-7 | The given maximum, or else the largest element. |
| AddressSorting.NotAboveStep | algorithms/sorting/address_based_sorting.py:12-13 | The prefix-sum recurrence: the count of elements `<= v` is the count `<= v-1` plus the occurrences of `v`. |
| AddressSorting.NotAboveEnds | algorithms/sorting/address_based_sorting.py:12-13 | The count below 0 is 0. The count up to the maximum is the list's length. |
| AddressSorting.ExpandSorts | algorithms/sorting/address_based_sorting.py:15-18 | The counting-sort output is ascending and a permutation of the input. |
| AddressSorting.ExpandBlock | algorithms/sorting/address_based_sorting.py:15-18 | Value `w` fills exactly the slots from `locator[w-1]` to `locator[w]`. |
| AddressSorting.Count | algorithms/sorting/address_based_sorting.py:9-11 | A value above the maximum is an IndexError, and only then. Otherwise `locator[v]` is the number of occurrences of `v`. |
| AddressSorting.PrefixSums | algorithms/sorting/address_based_sorting.py:12-13 | After the prefix loop, `locator[v]` is the number of elements `<= v`. |
| AddressSorting.Place | algorithms/sorting/address_based_sorting.py:15-18 | Every write index is in range, no slot is written twice, and the array ends as the expanded sorted output. |
| AddressSorting.PlaceOne | algorithms/sorting/address_based_sorting.py:16-18 | One placement writes below its value's block end and keeps every block's filled part correct. |
| AddressSorting.CountingSort | algorithms/sorting/address_based_sorting.py:5-18 | An empty list without a maximum is a ValueError. A value above the given maximum is an IndexError, with the array unchanged. Otherwise the array ends ascending and a permutation of the input. |
| AddressSorting.SortUpTo | algorithms/sorting/address_based_sorting.py:9-18 | With maximum `m`: an IndexError, with the array unchanged, exactly when some value exceeds `m`; otherwise the array becomes the ascending expansion of the value counts. |
| AddressSorting.FlattenSorted | algorithms/sorting/address_based_sorting.py:37-41 | The bucket index is non-decreasing in the value, so laying sorted buckets end to end gives ascending output. |
| AddressSorting.FlattenSameCounts | algorithms/sorting/address_based_sorting.py:33-41 | Sorting each bucket keeps the multiset of the combined output. |
| AddressSorting.QuotientMonotone | algorithms/sorting/address_based_sorting.py:29 | `x <= y` implies `x // range <= y // range`. |
| AddressSorting.BucketIndexInRange | algorithms/sorting/address_based_sorting.py:26-30 | The range is zero exactly when the maximum is zero. For a positive maximum, a value's bucket index reaches the bucket count exactly when the count divides the maximum and the value is the maximum. |
| AddressSorting.BucketOutcomeCases | algorithms/sorting/address_based_sorting.py:21-30 | `bucket_sort` divides by zero with no buckets, or with a zero maximum and a non-empty list. It raises IndexError exactly when the bucket count divides a positive maximum that occurs in the list. Otherwise it succeeds. |
| AddressSorting.Distribute | algorithms/sorting/address_based_sorting.py:27-30 | ZeroDivisionError exactly when there is a value and the range is 0. IndexError exactly when some quotient reaches the bucket count. Otherwise every value is in its quotient's bucket and the multiset is kept. |
| AddressSorting.PlaceValue | algorithms/sorting/address_based_sorting.py:29-30 | Placing one value: ZeroDivisionError exactly when the range is 0, IndexError exactly when its quotient reaches the bucket count, and otherwise the value joins the bucket of its quotient, with every other value kept. |
| AddressSorting.SortBuckets | algorithms/sorting/address_based_sorting.py:33-34 | Each bucket is sorted in place: ascending, same multiset, same bucket. |
| AddressSorting.Combine | algorithms/sorting/address_based_sorting.py:37-41 | The array is overwritten with the buckets laid end to end. |
| AddressSorting.BucketSort | algorithms/sorting/address_based_sorting.py:21-41 | The outcome is the one `BucketOutcomeCases` describes. On an error the array is unchanged; otherwise it ends ascending and a permutation of the input. |
| HashTables.Increment | data_structures/hash_tables.py:40-42 | `add` raises that item's count by one and no other count; every count stays positive. |
| HashTables.Decrement | data_structures/hash_tables.py:44-50 | `discard` lowers a present item's count by one and deletes the key at zero. Absent items leave the table unchanged, and counts stay positive. |
| HashTables.DecrementUndoesIncrement | data_structures/hash_tables.py:40-50 | Adding then discarding an item gives back the same table. |
| HashTables.MultiSet.constructor | data_structures/hash_tables.py:11-13 | A new multiset is empty: the constructor ignores `iterable`. |
| HashTables.MultiSet.Length | data_structures/hash_tables.py:32-33 | `len` is the number of stored items, repeats included. |
| HashTables.MultiSet.Contains | data_structures/containers.py:32-33 | Membership is exactly "stored at least once". |
| HashTables.MultiSet.Add | data_structures/hash_tables.py:40-42 | The item's count and the size rise by one; the contents gain one copy. |
| HashTables.MultiSet.Discard | data_structures/hash_tables.py:44-50 | Absent: nothing changes. Present: one copy goes, its count drops (the key goes at zero) and the size drops by one. |
| HashTables.MultiSet.Remove | data_structures/hash_tables.py:52-56 | A KeyError exactly when the item is absent, with nothing changed; otherwise it behaves like `discard`. |
| HashTables.MultiSet.Items | data_structures/hash_tables.py:35-38 | Iteration yields each item exactly its count times, and `len` items in all. |
| HashTables.MultiSet.OperandItems | data_structures/hash_tables.py:58-77 | A set yields its items once and a multiset with their counts. Anything else is a TypeError. |
| HashTables.MultiSet.Union | data_structures/hash_tables.py:58-66 | A TypeError exactly for a non-set operand. Otherwise a fresh multiset holding exactly the operand's items; the receiver's items are not included. |
| HashTables.MultiSet.Intersection | data_structures/hash_tables.py:68-77 | A TypeError exactly for a non-set operand. Otherwise a fresh multiset holding each operand item that is stored here, once per time the operand yields it. |
| HashTables.CollectStored | data_structures/hash_tables.py:72-77 | The new multiset holds each item of the operand that is a stored key, with its multiplicity in the operand, and nothing else. |
| HashTables.SetItems | data_structures/hash_tables.py:63-64 | Iterating a set yields each of its items once. |

## Left out

- Python's dictionary and set iteration order is not modelled. `vertices` is a set, and `edge_count(True)` unions the edge sets in ascending vertex order, as `edges()` does. Iterating a `MultiSet` or a set operand picks an unspecified order.
- Vertex objects referenced by stale edges are not modelled. Edges name their endpoints by value and every search looks vertices up by value. `add_vertex` with an existing `dst` replaces that vertex object (data_structures/graphs/graph.py:88-90) while other vertices' edges still lead to the old object, which the model does not follow. After `add_vertex(1, 2)` then `add_vertex(3, 2)`, the source's `is_connected()` and `is_reachable(1, 3)` answer False and `dijkstra(1, 3)`, with a working queue, returns `[3]`; the model answers true, true and `[1, 2, 3]`.
- Graphs.UndirectedGraph.IsConnected: the root is kept as a vertex value, not as the vertex object `_root` holds. When `add_vertex` replaces the root's vertex object (data_structures/graphs/graph.py:88-89), `_root` still holds the old object and its old edges, and the search at data_structures/graphs/graph.py:252 starts from them. After `add_vertex(1)` then `add_vertex(2, 1)`, the old vertex 1 has no edges, so the source's `is_connected()` answers False, while the model looks up vertex 1's current edges and answers true.
- Queues.PriorityQueue.New: as written, every construction raises ValueError. `__init__` calls the base constructor (data_structures/queues.py:127), which assigns `container_type` (data_structures/queues.py:15), and the queue's own setter raises (data_structures/queues.py:97-99). So every `dijkstra` call with a present origin raises where it builds its queue (data_structures/graphs/graph.py:105). The model follows the evident intent, a queue that is built. The `_BaseQueue` container-type machinery, `gt`/`lt` arguments other than the built-in comparisons, `copy`, `__repr__`/`__str__` and `__contains__`/`__iter__`/`__eq__` are not modelled. The queue starts from a plain sequence.
- Queues.PriorityQueue.View: `view` returns a tuple copy; the model returns the sequence itself.
- ShortestPaths.Dijkstra: the priority queue keyed by the live labels is abstracted to "pop any vertex of least label". Which of several equal-label vertices is popped is not fixed. With a negative weight the path is proved only to be a walk of stored edges ending at `dst`: Dijkstra's algorithm promises no more there.
- ShortestPaths.Dijkstra: a missing destination is reported where the path is built, after the search; the model checks it at the same point.
- ShortestPaths.BellmanFord: `edges()` is computed once instead of once per round; it is the same list each time. Each undirected edge is relaxed in one direction only, as the deduplicated `edges()` dictates, so the path is proved to be a walk ending at `dst` and not a shortest path: with one direction missing, it need not be one, and a negative edge can go unreported (see Findings). `BellmanFordAllDirections` proves both properties for the corrected rounds.
- ShortestPaths.BellmanFordAllDirections: the converse of the cycle property, that without a reachable negative closed walk the rounds leave no edge tense, is not proved.
- Weights and labels are integers; floating-point weights and `math.inf` arithmetic are not modelled.
- GraphInfo.EqualEdgesHashEqual: the concrete hash values of `hash(repr(...))` are parameters (hash functions), so only "equal implies equal hash" is stated.
- `DigraphVertex`, `DirectedEdge`, `readable_string`, `print`, `is_complete` (a stub) and the abstract type properties are not part of this model.
- Graphs.UndirectedGraph.AddVertex is split into `Place`, `Reset` and `Attach`, which together are the one Python method.
- Selection.QuickSelect: the random pivot index is a parameter `choose`, so the result holds for every choice of pivot.
- `deterministic_select` end to end is not modelled. Its size-1 last group reaches `brute_force_select` with an index one past the end, because `brute_force_select` reads `sorted(xs)[k]`. The grouping step and both selectors are modelled.
- Selection.CeilDiv: `_ceil` and `math.ceil` apply to float division in the source; the model uses integer ceiling division, which agrees only below 2**53. Above that the float quotient rounds: with `max_value = 2**53 + 1` and `n = 1`, the float ceiling is 2**53 while `CeilDiv` gives 2**53 + 1.
- Banker.SafeState and Banker.SearchOrder: `None` means the loop had not finished within `fuel` steps. The guard tests every need row, including those of finished processes, so the Python loop can run forever; the model bounds it by `fuel` instead. With fewer than `n * n + n` steps for `n` processes, `None` is promised only to come with an unfinished order and a fitting need row; from `n * n + n` steps on, it means the loop spins forever.
- `rsafe_state` is not modelled: it depends on `random.randrange` and `print`.
- `to_resource_vector` is the identity on the typed nested sequences the model uses, so it has no member. `ResourceVector.__lt__` and `ResourceVector.find` are not used by the safety checks and are not modelled.
- AddressSorting.CountingSort: values must be non-negative. A negative value indexes `locator` from the end in Python, which the model does not follow.
- AddressSorting.BucketSort: values and the maximum must be non-negative, and the bucket count is a natural number. `sort_bucket` is fixed to an in-place insertion sort instead of an arbitrary callable.
- ComparisonSorting.InsertionSort: elements are integers, so the documented stability (equal values keep their order) cannot be observed and is not stated. The sorts and the selectors are fixed to `int` elements compared with `<`.
- HashTables.MultiSet.Union: the result is built by repeated `add` into a new multiset; `__str__`, `__repr__`, `__eq__` and `copy` are not modelled.
- The `__main__` demonstration blocks, `merge_sort`/`quick_sort` (marked broken) and `partition` are not part of this model.

## Findings

| source | as written | input that shows it | evidently intended | confidence | as-written member | corrected member |
|---|---|---|---|---|---|---|
| data_structures/graphs/graph.py:138-146 | The rounds relax the edges of `edges()`, which keeps one direction of each undirected edge, the copy stored at the lower-valued endpoint. | Vertices 1 and 2 joined by an edge of weight 5, `bellman_ford(2, 1)`: vertex 1 keeps label `inf`, no edge is tense, and the result is `[1]`. `dijkstra(2, 1)`, with a working queue, gives `[2, 1]`. | Relax both directions of every edge, so that every reachable vertex gets a finite label and the path is a shortest walk. | high; not executed | ShortestPaths.ReverseDirectionNeverRelaxed | ShortestPaths.BellmanFordAllDirections |
| data_structures/graphs/graph.py:148-156 | The negative-cycle test checks each edge of `edges()` in one direction only. | Vertices 1 and 2 joined by an edge of weight -1, `bellman_ford(1, 2)`: label 2 becomes -1, the one listed edge is not tense, and a path is returned, although 1, 2, 1 is a closed walk of weight -2. | Report `GraphError('negative-weight cycle')` whenever a negative closed walk is reachable from the origin. | high; not executed | ShortestPaths.NegativeEdgeNotDetected | ShortestPaths.BellmanFordAllDirections |
