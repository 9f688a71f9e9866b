# Graph traversal, generation and shortest paths

A Dafny model of the `GraphTraversal` Ruby module (`ruby/graph_traversal.rb`).
A graph is a map from a vertex to its ordered list of outgoing
`(target, weight)` edges. The model covers four parts:

- **Traversal** (`seq_graph`, `seq_graph_dfs`, `seq_graph_bfs`). One loop is parameterised by how the frontier gives up a vertex. An Array pops from the end, which is depth-first. A Queue shifts from the front, which is breadth-first. The traversal is proved to begin at the start vertex and to emit exactly the vertices reachable from it. When no adjacency list names a target twice, no vertex is emitted twice. The orders the repository's tests expect are proved on its example graphs.
- **Random graph synthesis** (`random_graph_generation`, `count_edges`). The argument check fails exactly for infeasible counts. Otherwise the result has keys "1".."n", exactly `s` edges, no self-loops, no repeated target in a list, and weights in 1..10. Every vertex is reachable from "1".
- **Shortest distances** (`dijkstra`). The search pops a least entry from a priority queue and relaxes each outgoing edge. On an improvement it records the new distance and predecessor and queues the target. Stale entries are not skipped. On exit, each recorded distance is the least walk weight from the source vertex, and it is infinite exactly for the vertices the source vertex cannot reach. Each predecessor link is an edge that accounts for the distance.
- **Path reconstruction** (`shortest_path`). It follows predecessor links back from the destination. The result is `nil` exactly when the destination is unreachable. Otherwise it is a walk from start to destination whose weight is least.

Modules:

- `Graphs` (`graphs.dfy`): edges, walks, reachability and the edge count.
- `Traversals` (`traversal.dfy`).
- `TraversalExamples` (`traversal_examples.dfy`).
- `ShortestPaths` (`shortest_paths.dfy`).
- `RandomGraph` (`random_graph.dfy`).

Each Ruby loop is a Dafny `method` with a `while` or `for` loop. Its contract ties the result to a specification function, or states the property outright. Lemmas prove the properties of those functions.

The repository's tests list bare target names (`"1" => ["2", "3"]`). Here every edge is a `(target, weight)` pair, as in the code; the traversals ignore the weight.

## Model

| member | source | states |
|---|---|---|
| `Traversals.SeqGraph` | ruby/graph_traversal.rb:5-21 | The emitted sequence is the traversal `Traversal(d, g, s)`. It starts with `s`. It holds exactly the vertices reachable from `s`. It has no repeats when no list names a target twice. |
| `Traversals.SeqGraphDfs` | ruby/graph_traversal.rb:60-62 | The same properties for the Array (pop from the end) frontier. |
| `Traversals.SeqGraphBfs` | ruby/graph_traversal.rb:64-66 | The same properties for the Queue (shift from the front) frontier. |
| `Traversals.Next` | ruby/graph_traversal.rb:12 | A stack gives up its last element and a queue its first. The rest keeps its order. |
| `Traversals.Neighbours` | ruby/graph_traversal.rb:13 | The targets of v's edges in stored order, and none when v is not a key. |
| `Traversals.Unexplored` | ruby/graph_traversal.rb:15 | Array difference keeps exactly the neighbours that are not explored. It adds no repeats. |
| `Traversals.Discover` | ruby/graph_traversal.rb:15-17 | Each discovered neighbour is added to `explored` and appended to the frontier, in order. |
| `Traversals.Traversal` | ruby/graph_traversal.rb:7-9 | The emitted sequence starts with `s`. A start that is not a key yields exactly `[s]`. |
| `Traversals.Explore` | ruby/graph_traversal.rb:11-18 | What the loop emits from (explored, frontier) until the frontier is empty; its properties are ExploreStep, ExploreReach and ExploreDistinct. |
| `Traversals.FoundShrinks` | ruby/graph_traversal.rb:11-18 | Each pass either marks a new vertex explored or shortens the frontier. So the loop ends on cyclic graphs too. |
| `Traversals.LoopStep` | ruby/graph_traversal.rb:11-18 | One pass keeps "emitted so far + what remains = the whole traversal". It lowers the termination measure. |
| `Traversals.ExploreStep` | ruby/graph_traversal.rb:12-17 | The one-step unfolding of Explore: from a non-empty frontier it emits the removed vertex, then continues from the updated state. |
| `Traversals.ReachInvariantStep` | ruby/graph_traversal.rb:12-17 | One pass keeps three facts. Explored is emitted or pending. Emitted vertices have explored neighbours. Explored vertices are reachable. |
| `Traversals.ReachInvariantDone` | ruby/graph_traversal.rb:11 | With an empty frontier, the emitted vertices are exactly the reachable ones. |
| `Traversals.ExploreReach` | ruby/graph_traversal.rb:11-18 | From any state keeping the reachability invariant, the loop emits exactly the reachable vertices. |
| `Traversals.DistinctInvariantStep` | ruby/graph_traversal.rb:12-17 | With no repeated targets, one pass keeps the emitted vertices followed by the frontier free of repeats. |
| `Traversals.ExploreDistinct` | ruby/graph_traversal.rb:11-18 | With no repeated targets, the loop never emits a vertex twice. |
| `Traversals.TraversalReach` | ruby/graph_traversal.rb:5-21 | Either traversal emits exactly the vertices reachable from the start. |
| `Traversals.TraversalDistinct` | ruby/graph_traversal.rb:15-17 | Either traversal emits each vertex at most once when no list names a target twice. |
| `Traversals.DisciplinesAgreeOnVertices` | ruby/graph_traversal.rb:12 | Depth-first and breadth-first emit the same set of vertices. |
| `TraversalExamples.DfsDiamondFromOne` | ruby/spec/graph_traversal_spec.rb:16 | Depth-first from "1" on the test graph gives `["1","3","4","2"]`. |
| `TraversalExamples.BfsDiamondFromOne` | ruby/spec/graph_traversal_spec.rb:25 | Breadth-first from "1" on the test graph gives `["1","2","3","4"]`. |
| `TraversalExamples.BothDiamondFromTwo` | ruby/spec/graph_traversal_spec.rb:17 | From "2" both disciplines give `["2","4"]`. |
| `TraversalExamples.BothDiamondFromThree` | ruby/spec/graph_traversal_spec.rb:18 | From "3" both disciplines give `["3","4"]`. |
| `TraversalExamples.BothDiamondFromFour` | ruby/spec/graph_traversal_spec.rb:19 | From "4" both disciplines give `["4"]`. |
| `TraversalExamples.BothDisconnectedFromOne` | ruby/spec/graph_traversal_spec.rb:45-46 | On the disconnected graph, from "1" both give `["1","2"]`. |
| `TraversalExamples.BothDisconnectedFromThree` | ruby/spec/graph_traversal_spec.rb:47 | On the disconnected graph, from "3" both give `["3","4"]`. |
| `TraversalExamples.BothDisconnectedFromFive` | ruby/spec/graph_traversal_spec.rb:48 | On the disconnected graph, from "5" both give `["5"]`. |
| `TraversalExamples.BothCycleFromOne` | ruby/spec/graph_traversal_spec.rb:56-57 | On the 3-cycle both give `["1","2","3"]` and stop. |
| `TraversalExamples.BothDoubledFromOne` | ruby/graph_traversal.rb:15-17 | A target listed twice is emitted twice (`["1","2","2"]`). This is why no-repeats needs lists without repeated targets. |
| `Graphs.Adj` | ruby/graph_traversal.rb:89 | The edges listed for v, and none when v is not a key. |
| `Graphs.CountEdges` | ruby/graph_traversal.rb:56-58 | The number of (vertex, position) slots over all adjacency lists, i.e. the sum of the list sizes (CountEdgesSplit). |
| `Graphs.CountEdgesSplit` | ruby/graph_traversal.rb:56-58 | The edge count is one list's size plus the count of the other lists, i.e. the sum of the list sizes. |
| `Graphs.CountEdgesNone` | ruby/graph_traversal.rb:56-58 | A graph of empty lists has edge count 0. |
| `Graphs.CountEdgesAppend` | ruby/graph_traversal.rb:56-58 | Appending one edge to one list raises the count by exactly one. |
| `Graphs.CountEdgesAtLeast` | ruby/graph_traversal.rb:56-58 | If every list has at least `m` edges, the count is at least the number of vertices times `m`. |
| `RandomGraph.RandomGraphGeneration` | ruby/graph_traversal.rb:23-54 | The result is an error exactly when `n < 2`, `s < n-1` or `s > n(n-1)`, and the error carries those bounds. Otherwise the graph has keys "1".."n", edge count `s`, no self-loops, no repeated target in a list, and weights 1..10. Every vertex is reachable from "1". |
| `RandomGraph.PickEdge` | ruby/graph_traversal.rb:34-43 | While a vertex is unconnected, the draw is an edge from a connected vertex to an unconnected one; the first edge starts at "1". After that, it is any pair of distinct vertices not yet joined. The weight is in 1..10. |
| `RandomGraph.EmptyGraph` | ruby/graph_traversal.rb:29 | The graph whose keys are exactly the labels "1".."n", each with an empty list. |
| `RandomGraph.HasTarget` | ruby/graph_traversal.rb:46 | Some edge of the list leads to the given vertex (the guard against a repeated edge). |
| `RandomGraph.AddEdgeStep` | ruby/graph_traversal.rb:46-50 | Recording the drawn edge keeps the loop invariant with one more edge and the target no longer unvisited. |
| `RandomGraph.InitialState` | ruby/graph_traversal.rb:29-31 | The initial graph has keys "1".."n" and no edges. The unvisited set is the other `n-1` labels. "1" is reachable from itself. |
| `RandomGraph.FreePair` | ruby/graph_traversal.rb:42-46 | A simple graph on `n` keys with fewer than `n(n-1)` edges still has two distinct keys that are not joined. So a draw that the guard accepts exists. |
| `RandomGraph.FullRow` | ruby/graph_traversal.rb:46 | A vertex joined to every other key has at least `n-1` edges. |
| `RandomGraph.AddKeepsSimple` | ruby/graph_traversal.rb:46-47 | Appending an edge to a not-yet-listed, distinct target with weight 1..10 keeps the graph simple. |
| `RandomGraph.AddKeepsNoEdgeInto` | ruby/graph_traversal.rb:47-49 | After the append, no edge leads into a vertex still unvisited. |
| `RandomGraph.AddKeepsReach` | ruby/graph_traversal.rb:47-49 | After the append, the previously connected vertices and the new target are reachable from "1". |
| `RandomGraph.LabelInjective` | ruby/graph_traversal.rb:29 | Distinct numbers have distinct decimal labels. |
| `RandomGraph.LabelsCard` | ruby/graph_traversal.rb:29 | There are exactly `n` labels "1".."n". |
| `RandomGraph.Label` | ruby/graph_traversal.rb:29 | The decimal form of i, at least one digit; Parse reads it back (ParseLabel). |
| `RandomGraph.Message` | ruby/graph_traversal.rb:27 | The text of the raised ArgumentError, with the two bounds written in decimal. |
| `ShortestPaths.Dijkstra` | ruby/graph_traversal.rb:81-100 | Distances are keyed by the graph's keys and the source, and the source's distance is 0. A distance is finite exactly when the vertex is reachable, and then it is the least walk weight. Every edge out of a finite vertex is relaxed. Exactly the finite non-source vertices have a predecessor, joined by an edge with `d[u] + w <= d[v]`. |
| `ShortestPaths.ShortestPath` | ruby/graph_traversal.rb:68-79 | `None` exactly when the destination is unreachable. Otherwise the path starts at `start`, ends at the destination, and is a walk of least total weight. It is `[start]` when the destination is the start. |
| `ShortestPaths.RelaxEdges` | ruby/graph_traversal.rb:89-96 | Relaxing the popped vertex's edges keeps the search invariant and settles every vertex. Distances only go down, and the queue changes only if they do. |
| `ShortestPaths.RelaxInvUpdate` | ruby/graph_traversal.rb:91-94 | A strict improvement records the new distance and predecessor and queues the target. This keeps the inner-loop invariant. |
| `ShortestPaths.RelaxInvSkip` | ruby/graph_traversal.rb:91 | A non-improving edge leaves the state unchanged and the invariant kept. |
| `ShortestPaths.Shorter` | ruby/graph_traversal.rb:91 | The candidate distance beats the recorded one, with infinity above every finite distance. |
| `ShortestPaths.RelaxDistOk` | ruby/graph_traversal.rb:90-92 | A new distance is the weight of a real walk, and distances only decrease. The source's 0 is never overwritten. |
| `ShortestPaths.RelaxPredOk` | ruby/graph_traversal.rb:93 | The new predecessor is joined by the relaxed edge and accounts for the new distance. |
| `ShortestPaths.RelaxQueueOk` | ruby/graph_traversal.rb:94 | Every queued entry is the weight of a walk and is no better than the recorded distance. |
| `ShortestPaths.MinEntry` | ruby/graph_traversal.rb:85-88 | A non-empty queue holds an entry of least distance, so the pop is well defined. |
| `ShortestPaths.PopOk` | ruby/graph_traversal.rb:88 | Removing the popped entry leaves the state the relaxation loop expects. |
| `ShortestPaths.InitOk` | ruby/graph_traversal.rb:82-85 | The start state (all keys Inf, source 0, queue `[[source, 0]]`) satisfies the search invariant. |
| `ShortestPaths.ImprovesProgress` | ruby/graph_traversal.rb:87-97 | A proper decrease of distances lowers (number of Inf keys, sum of finite distances) lexicographically. So the loop ends whatever the extraction order. |
| `ShortestPaths.RelaxedLowerBound` | ruby/graph_traversal.rb:87-97 | Once every finite vertex is relaxed, no walk from the source weighs less than the distance of its end. |
| `ShortestPaths.DoneOk` | ruby/graph_traversal.rb:99 | With an empty queue, the distances are exactly the least walk weights and are finite exactly for reachable vertices. The predecessor links are edges that account for the distance. |

## Left out

- Enumerator laziness (ruby/graph_traversal.rb:6, 14): the model returns the sequence one complete enumeration emits, starting from a fresh frontier.
- `Traversals.SeqGraph`: starts from the empty frontier that both wrappers pass. It does not capture a non-empty Array supplied by a caller, whose entries would sit ahead of `s` (lines 8-9). Nor does it capture that a Queue frontier is used itself rather than copied (line 8), so one Queue is shared by every enumeration of the same Enumerator. After an early stop, entries left in it change what a later enumeration emits.
- Thread safety of `Queue` (line 65): it is used only as a sequential first-in first-out list.
- The `pqueue` gem (line 85): the queue is a multiset, and the pop takes any entry of least distance. Tie-breaking among equal distances is left open.
- Randomness (`sample`, `rand`, lines 35-43): each draw is a nondeterministic choice (`:|`).
- `RandomGraph.PickEdge`: once every vertex is connected, it draws only pairs that line 46 accepts. A draw the Ruby code rejects and retries leaves the state unchanged. So the model does not capture the number of retries, or that the retry loop may go on drawing duplicates indefinitely.
- `Float::INFINITY` is a sentinel only; it is the `Inf` case of `Dist`.
- Weights are natural numbers. Negative weights are outside the model.
- `ShortestPaths.Dijkstra` requires every edge target to be a key. This asks for more than the Ruby code needs. Line 91 raises only when a popped vertex, one reachable from the source vertex, has an edge into a non-key. A non-key target reached only from unreachable vertices is never compared. `ShortestPaths.ShortestPath` inherits the same precondition.
- `ShortestPaths.ShortestPath` requires the destination to be a key or the start. Otherwise line 70 sees no distance rather than infinity, and the loop at lines 74-77 follows missing predecessors forever.
- `make_graph` (lines 102-104) only forwards to `random_graph_generation`.
- The error is the `InvalidInput` value with its two bounds. `Message` renders the Ruby code's text, but no property is proved about it.
- Eccentricity, radius and diameter have no code in the repository.
