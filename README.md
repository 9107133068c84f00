# Graphs — a verified model

This project models the two graph classes of the Graphs repository in Dafny
and proves what their methods compute.

- `DirectedGraph` (`d_graph.py`) is a directed graph with positive weights.
  Its vertices are the integers `0 .. v_count - 1`. It is stored as a square
  adjacency matrix in which `0` means "no edge".
- `UndirectedGraph` (`ud_graph.py`) is an undirected graph without weights,
  loops or parallel edges. It is stored as a dict from each vertex to the
  list of its neighbours.

The model has four modules:

- `Lists` (`lists.dfy`): the sequence facts both classes rely on. These are
  `list.remove`, the reversal that popping a sorted list onto a stack
  performs, the least element that `heapq.heappop` returns, and the position
  of a key in a dict's iteration order (`IndexOf`).
- `Traversal` (`traversal.dfy`): what a graph is, independent of storage. A
  graph is a map from each vertex to its set of successors. The module
  defines paths, reachability and cycles, and pins down the exact visiting
  order of a depth-first and a breadth-first search (`TraversalOf`). It also
  defines connected components.
- `DirectedGraphs` (`d_graph.dfy`): the class `DirectedGraph`, with fields
  `vCount` and `adj : seq<seq<int>>` (the list of rows). The loops of the
  source become methods with invariants.
- `UndirectedGraphs` (`ud_graph.dfy`): the class `UndirectedGraph`, with
  fields `adj : map<int, seq<int>>` and `order : seq<int>`. `order` is the
  insertion order in which a Python dict iterates its keys.

Both classes expose a successor view (`View()`) of what they store.
- The `dfs` and `bfs` of both classes are proved to return exactly
  `TraversalOf(View(), …)`.
- `TraversalFacts` derives what a caller needs from that: the start comes
  first, there are no repeats, and every vertex returned is reachable.
  Unless the search stopped at `v_end`, every reachable vertex is returned.
  When `v_end` is returned, it is last.
- `TraversalUnique` shows that this order is fully determined.

## Model

| member | source | states |
|---|---|---|
| Lists.RemoveFirst | ud_graph.py:90-91 | `list.remove(x)` drops one occurrence of `x`: the length falls by one, the multiset loses one `x`, and a list without duplicates stays without duplicates and loses exactly `x` |
| Lists.MinIndex | ud_graph.py:256 | the position `heappop` takes from is a least element of the heap |
| Lists.IndexOf | ud_graph.py:125-128 | the position of a key in the dict's iteration order: below the number of keys exactly when `x` is a key, and no earlier key is `x` |
| Lists.Reverse | ud_graph.py:184-185 | the list back to front, with the same length and the same multiset: what popping the sorted neighbours one by one onto the stack leaves on it |
| Traversal.TraversalFacts | d_graph.py:150-209 | a traversal returns `[]` exactly when the start is not a vertex; otherwise it starts at the start and has no repeats; every vertex in it is reachable from the start; an `end` that was visited is the last vertex; when `end` was not visited, every reachable vertex was |
| Traversal.TraversalUnique | ud_graph.py:155-219 | two results of the same traversal on the same graph, start and end are equal: the visiting order is deterministic |
| Traversal.ReturnsToIffOnCycle | d_graph.py:222-246 | some vertex reachable from `v` has an edge back into `v` exactly when `v` lies on a cycle |
| Traversal.ComponentsPartition | ud_graph.py:221-238 | in a symmetric graph every vertex lies in its own component; two components that share a vertex are equal; components are non-empty sets of vertices |
| Traversal.ComponentsOfAppend | ud_graph.py:233-235 | a new root reachable from an earlier root adds no component; one reachable from none adds its own component, which was not counted before |
| Traversal.TraversalComponent | ud_graph.py:236 | a complete search from a vertex visits exactly the component of that vertex |
| Traversal.CoverStep | ud_graph.py:233-237 | one iteration of the component count: a vertex already covered leaves the cover and the component set unchanged; an uncovered one adds its component to the cover and one to the count |
| DirectedGraphs.Zero | d_graph.py:23-33 | the matrix of `n` vertices without edges satisfies the matrix invariant and has every cell `0` |
| DirectedGraphs.Grow | d_graph.py:62-69 | adding a vertex gives a square matrix one larger, keeps the invariant and every old cell, and makes the new row and column zero |
| DirectedGraphs.GrowZero | d_graph.py:32-33 | growing an edgeless matrix gives an edgeless matrix one larger |
| DirectedGraphs.AddEdgeTo | d_graph.py:80-89 | add_edge writes the weight into cell (src, dst) when the weight is at least 1, the endpoints differ and both are in range; otherwise no cell changes; the invariant is kept |
| DirectedGraphs.RemoveEdgeFrom | d_graph.py:98-101 | remove_edge clears cell (src, dst) when both are in range; every other cell is unchanged; the invariant is kept |
| DirectedGraphs.AddEdgeOverwrites | d_graph.py:89 | adding an accepted edge twice leaves the second weight: there is one edge per ordered pair |
| DirectedGraphs.AddEdgesTo | d_graph.py:34-35 | adding the start edges in order keeps the matrix square and valid |
| DirectedGraphs.AddEdgesToZero | d_graph.py:34-35 | after adding the start edges to an edgeless matrix, a cell is an edge exactly when an accepted start edge names that cell |
| DirectedGraphs.Max3 | d_graph.py:31 | `max(v_count, u, v)`: at least each argument, and equal to one of them |
| DirectedGraphs.Accepts | d_graph.py:80-87 | the three guards of add_edge: a weight of at least 1, distinct endpoints, and both endpoints in range |
| DirectedGraphs.MaxEndpoint | d_graph.py:29-31 | the vertex count loop yields a number that is at least 0 and at least every endpoint, and is 0 or some endpoint |
| DirectedGraphs.LargestEndpoint | d_graph.py:29-31 | the loop computes `MaxEndpoint` of the start edges |
| DirectedGraphs.MatrixRow | d_graph.py:175-177 | the successors of a vertex in the view are the columns of the non-zero cells of its row |
| DirectedGraphs.PushDescending | d_graph.py:175-178 | the dfs push loop appends to the stack, in strictly descending order (so each once), exactly the columns of the non-zero cells of the row |
| DirectedGraphs.EnqueueAscending | d_graph.py:205-208 | the bfs enqueue loop appends to the queue, in strictly ascending order (so each once), exactly the columns of the non-zero cells of the row |
| DirectedGraphs.ScanRow | d_graph.py:241-245 | the inner loop of detect_cycle returns true exactly when the start vertex is visited and has an edge into it from this row; otherwise the stack gains exactly the unvisited successors |
| DirectedGraphs.PyIndex | d_graph.py:146 | Python's list indexing maps every index in `-n .. n - 1` to a position in range, and a non-negative index to itself |
| DirectedGraphs.WrappedStepsInRange | d_graph.py:143-148 | for a path of vertices in range, the cells is_valid_path looks up are all edges exactly when the sequence is a path |
| DirectedGraphs.NegativeVertexAccepted | d_graph.py:143-148 | with the single edge 1 -> 0, the loop of is_valid_path reads only indices Python accepts and accepts `[-1, 0]`, which is not a path |
| DirectedGraphs.EarlyFailureReadsInRange | d_graph.py:143-147 | with the single edge 0 -> 1, the path `[1, 0, 5]` fails at its first step, so the loop never reads the out-of-range `5` and the precondition of `IsValidPath` admits it |
| DirectedGraphs.DirectedGraph.constructor | d_graph.py:18-35 | without start edges the graph is empty; with them it has one more vertex than the largest endpoint, and its matrix is the edgeless matrix with the start edges added in order |
| DirectedGraphs.DirectedGraph.AddVertex | d_graph.py:56-70 | the count grows by one and is returned, and the matrix becomes `Grow` of the old one |
| DirectedGraphs.DirectedGraph.AddEdge | d_graph.py:72-89 | the matrix becomes `AddEdgeTo` of the old one, and the count is unchanged |
| DirectedGraphs.DirectedGraph.RemoveEdge | d_graph.py:91-101 | the matrix becomes `RemoveEdgeFrom` of the old one, and the count is unchanged |
| DirectedGraphs.DirectedGraph.GetVertices | d_graph.py:103-107 | the list `0 .. v_count - 1` in order |
| DirectedGraphs.DirectedGraph.GetEdges | d_graph.py:109-125 | a triple is listed exactly when it names a non-zero cell and its weight; the list is in strict row-major order (so there are no duplicates); no triple is a loop, and every weight is at least 1 |
| DirectedGraphs.DirectedGraph.IsValidPath | d_graph.py:127-148 | as written: a path of fewer than two vertices is valid exactly when it is empty or a vertex; a longer one is valid exactly when every step finds an edge at the cell Python's indexing reads; required only is that every step the loop reaches reads indices Python accepts |
| DirectedGraphs.DirectedGraph.IsValidPathChecked | d_graph.py:127-148 | with a range check: valid exactly when the path is empty or is a path of the graph |
| DirectedGraphs.DirectedGraph.Dfs | d_graph.py:150-179 | returns the depth-first visiting order from `v_start`, trying successors in ascending order and stopping once `v_end` is visited |
| DirectedGraphs.DirectedGraph.Bfs | d_graph.py:182-209 | returns the breadth-first visiting order from `v_start`, trying successors in ascending order and stopping once `v_end` is visited |
| DirectedGraphs.DirectedGraph.HasCycle | d_graph.py:211-220 | true exactly when the graph has a directed cycle |
| DirectedGraphs.DirectedGraph.DetectCycle | d_graph.py:222-246 | true exactly when some vertex reachable from `vertex` has an edge back into it, which by `ReturnsToIffOnCycle` is when `vertex` lies on a cycle |
| UndirectedGraphs.Without | ud_graph.py:105-106 | removing `x` where present keeps a list duplicate-free and removes exactly `x` |
| UndirectedGraphs.ListViewSymmetric | ud_graph.py:66-69 | under the class invariant, the view is well formed and symmetric: every edge is recorded at both ends |
| UndirectedGraphs.Link | ud_graph.py:71-78 | add_edge's update adds `u` and `v` as vertices and the pairs (u, v) and (v, u) as adjacencies, and nothing else |
| UndirectedGraphs.LinkSteps | ud_graph.py:71-78 | creating the missing endpoints and then appending to both lists, in the source's order, is `Link` |
| UndirectedGraphs.Enrol | ud_graph.py:71-75 | the key order after add_edge creates its missing endpoints: the old order is kept as a prefix, and exactly the endpoints that were not yet keys are added |
| UndirectedGraphs.AfterAddEdge | ud_graph.py:58-78 | add_edge on values: a loop or an edge already present changes nothing; otherwise the map becomes `Link` and the key order `Enrol`; what this does to the invariant, the vertices and the adjacencies is stated by `AfterAddEdgeFacts` |
| UndirectedGraphs.Build | ud_graph.py:27-29 | the constructor's loop on values: add_edge applied to each start edge in turn on the empty graph; its meaning is stated by `BuildStep` and `BuildFacts` |
| UndirectedGraphs.AfterAddEdgeFacts | ud_graph.py:58-78 | add_edge on values keeps the class invariant, and the vertices and adjacencies grow by exactly the new edge unless it is a loop |
| UndirectedGraphs.BuildStep | ud_graph.py:28-29 | building from one more start edge is one more add_edge |
| UndirectedGraphs.BuildFacts | ud_graph.py:27-29 | the graph built from the start edges keeps the class invariant, its vertices are the endpoints of start edges between distinct vertices, and two vertices are adjacent exactly when a start edge joins them |
| UndirectedGraphs.BuildValid | ud_graph.py:27-29 | the graph built from the start edges keeps the class invariant |
| UndirectedGraphs.BuildVertices | ud_graph.py:27-29 | the vertices built from the start edges are the endpoints of the start edges that are not loops |
| UndirectedGraphs.BuildAdjacent | ud_graph.py:27-29 | two vertices built from the start edges are adjacent exactly when a start edge joins them in either direction |
| UndirectedGraphs.LinkValid | ud_graph.py:58-78 | joining two distinct vertices that are not yet adjacent keeps the class invariant |
| UndirectedGraphs.SameElements | ud_graph.py:183 | the sorted neighbour list holds exactly the successors of the vertex |
| UndirectedGraphs.Detach | ud_graph.py:102-106 | remove_vertex's update keeps every vertex except `v` |
| UndirectedGraphs.RemoveFromLists | ud_graph.py:104-106 | the loop over the keys takes `v` out of every list that holds it |
| UndirectedGraphs.DetachValid | ud_graph.py:93-106 | removing a vertex keeps the class invariant and drops exactly the adjacencies at `v` |
| UndirectedGraphs.RemovedValid | ud_graph.py:102-106 | a map and key order that are the old ones without `v` and its adjacencies keep the class invariant |
| UndirectedGraphs.ListEdges | ud_graph.py:119-130 | get_edges lists each pair (a, b) of adjacent vertices where `a` was added before `b`, and no pair twice; its loop keeps the `seen` set equal to the keys at positions before the current one |
| UndirectedGraphs.EdgesOnce | ud_graph.py:114-130 | every edge of the graph is listed in one orientation and never in both |
| UndirectedGraphs.AppendUnseen | ud_graph.py:127-129 | the inner loop adds (key, val) for exactly the neighbours not yet seen, without creating duplicates |
| UndirectedGraphs.ExtractMin | ud_graph.py:255-256 | moving a least element of the heap to the end of the output keeps the heap sort invariant: the output is sorted, is no larger than what is left, and together with it is a rearrangement of the input |
| UndirectedGraphs.PushPopped | ud_graph.py:183-185 | popping the sorted neighbours from their end onto the stack appends them in descending order, as the same multiset |
| UndirectedGraphs.UndirectedGraph.constructor | ud_graph.py:18-29 | the map and the key order are those of add_edge applied to each start edge in turn (`Build`), so the key order is the order in which the endpoints first appear; the vertices are the endpoints of start edges between distinct vertices, and two vertices are adjacent exactly when a start edge joins them in either direction; the class invariant holds |
| UndirectedGraphs.EdgesStep | ud_graph.py:28-29 | one more start edge adds its endpoints and its two orientations, unless it is a loop |
| UndirectedGraphs.UndirectedGraph.AddVertex | ud_graph.py:45-56 | a new vertex is added last with no neighbours; an existing one changes nothing |
| UndirectedGraphs.UndirectedGraph.AddEdge | ud_graph.py:58-78 | a loop or an existing edge changes nothing; otherwise the map becomes `Link` and the new endpoints are enrolled, `u` first (together, `AfterAddEdge`); the vertices and adjacencies grow by exactly that edge |
| UndirectedGraphs.UndirectedGraph.RemoveEdge | ud_graph.py:80-91 | when both vertices exist and are adjacent, each is removed from the other's list; otherwise nothing changes; the vertices stay, and exactly the two orientations of the edge disappear |
| UndirectedGraphs.UndirectedGraph.RemoveVertex | ud_graph.py:93-106 | an absent vertex changes nothing; otherwise `v` leaves the key order and the map, and exactly the adjacencies at `v` disappear |
| UndirectedGraphs.UndirectedGraph.GetVertices | ud_graph.py:108-112 | every vertex once, in insertion order |
| UndirectedGraphs.UndirectedGraph.GetEdges | ud_graph.py:114-130 | no duplicates; a pair is listed exactly when its vertices are adjacent and the first was added before the second |
| UndirectedGraphs.UndirectedGraph.IsValidPath | ud_graph.py:133-153 | valid exactly when the path is empty or is a path of the graph |
| UndirectedGraphs.UndirectedGraph.HeapSort | ud_graph.py:245-256 | the result is in ascending order and is a rearrangement of the input |
| UndirectedGraphs.UndirectedGraph.Dfs | ud_graph.py:155-187 | returns the depth-first visiting order from `v_start`, trying neighbours in ascending order and stopping once `v_end` is visited |
| UndirectedGraphs.UndirectedGraph.Bfs | ud_graph.py:190-219 | returns the breadth-first visiting order from `v_start`, trying neighbours in ascending order and stopping once `v_end` is visited |
| UndirectedGraphs.UndirectedGraph.CountConnectedComponents | ud_graph.py:221-238 | the number of connected components of the graph |

## Left out

- `DirectedGraph.dijkstra` (d_graph.py:248-252) has no implementation in the source; it only holds `pass`. So neither it nor a shortest-path property is modelled.
- `UndirectedGraph.has_cycle` (ud_graph.py:240-243) has a docstring and no body. It returns `None`, and it is not modelled.
- The two `__str__` methods and the demonstration code under `if __name__ == '__main__'` only print. They are not modelled.
- Vertex names of the undirected graph are strings in the source; the model uses `int`. The ascending neighbour order of `dfs`/`bfs` is therefore integer order, not string order.
- `heapq.heapify` and `heappop` are modelled by repeatedly taking out a least element (`HeapSort`), not through the heap layout. A `deque` is modelled as a sequence.
- The source mutates the neighbour lists, the matrix rows and the stacks in place. The model keeps them as values: `seq` and `map` fields that the methods reassign, and helper methods on values for inner loops. Aliasing between those lists is not modelled; the source never shares them.
- DirectedGraphs.DirectedGraph.IsValidPath: the source raises `IndexError` when its loop reaches a step whose vertex lies outside `-v_count .. v_count - 1`. The model does not model that exception. It requires instead that every step the loop reaches, because the earlier steps found edges, reads indices Python accepts (`ReadsInRange`). A path whose earlier step already fails, such as `[1, 0, 5]`, is admitted and returns False, as in the source.
- DirectedGraphs.DirectedGraph.DetectCycle: requires `0 <= vertex < v_count`. For a larger vertex the source raises `IndexError`, and for a negative one it indexes from the end of the matrix. Its only caller, `has_cycle` (d_graph.py:217-218), passes vertices in range, and those other cases are not modelled.
- The `v_end=None` default: `v_end not in seen` is always true for `None`, so a search without `v_end` is modelled by `Option.None`.
- DirectedGraphs.DirectedGraph.AddEdge: weights are `int`. The source also accepts fractional weights: one below 1 is rejected and a larger one is stored and returned by `get_edges` (d_graph.py:80-89, 124). Such weights are not modelled.
- Python integers are unbounded, as Dafny's are: no width or overflow issue arises.
- The constructors take `Option<seq<…>>` for `start_edges=None`. For the directed graph, an empty edge list gives one vertex (`max(0) + 1`), as the source does. The maximum starts at 0, so negative endpoints never lower the count.

## Findings

| source | as written | input that shows it | evidently intended | confidence | as-written member | corrected member |
|---|---|---|---|---|---|---|
| d_graph.py:143-148 | each step reads `adj_matrix[prev][cur]` without checking that `prev` and `cur` are vertices, so a negative entry is read from the end of the matrix | two vertices with the single edge 1 -> 0 and the path `[-1, 0]`: the loop finds weight 1 and returns True, although -1 is not a vertex (a step that reaches an entry of `v_count` or more raises `IndexError` instead of returning False) | a path through something that is not a vertex is invalid, as the single-vertex case and the undirected `is_valid_path` already treat it | medium, not executed | DirectedGraphs.DirectedGraph.IsValidPath, DirectedGraphs.NegativeVertexAccepted | DirectedGraphs.DirectedGraph.IsValidPathChecked |
