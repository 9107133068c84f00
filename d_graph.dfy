/**
 * A directed graph with positive integer weights over the vertices
 * 0 .. vCount - 1, kept as a square adjacency matrix in which 0 means
 * "no edge" (the DirectedGraph class of d_graph.py).
 */
module DirectedGraphs {
  import opened Lists
  import opened Traversal

  /** An initial edge: source, destination, weight. */
  type Edge = (int, int, int)

  ghost predicate Square(m: seq<seq<int>>, n: nat) {
    |m| == n && forall i :: 0 <= i < n ==> |m[i]| == n
  }

  /** The class invariant on the matrix: square, no self-loop, no negative weight. */
  ghost predicate ValidMatrix(m: seq<seq<int>>, n: nat) {
    Square(m, n) &&
    (forall i :: 0 <= i < n ==> m[i][i] == 0) &&
    (forall i, j :: 0 <= i < n && 0 <= j < n ==> m[i][j] >= 0)
  }

  /** Two square matrices with the same cells are the same matrix. */
  lemma SameCells(m: seq<seq<int>>, m': seq<seq<int>>, n: nat)
    requires Square(m, n) && Square(m', n)
    requires forall i, j :: 0 <= i < n && 0 <= j < n ==> m[i][j] == m'[i][j]
    ensures m == m'
  {
    forall i | 0 <= i < n ensures m[i] == m'[i] {
      assert forall j :: 0 <= j < n ==> m[i][j] == m'[i][j];
    }
  }

  /** `n` vertices and no edge. */
  function Zero(n: nat): (m: seq<seq<int>>)
    ensures ValidMatrix(m, n)
    ensures forall i, j :: 0 <= i < n && 0 <= j < n ==> m[i][j] == 0
  {
    seq(n, _ => seq(n, _ => 0))
  }

  /** The matrix after add_vertex: every row gains a 0 column, and a zero row is appended. */
  function Grow(m: seq<seq<int>>, n: nat): (r: seq<seq<int>>)
    requires Square(m, n)
    ensures Square(r, n + 1)
    ensures ValidMatrix(m, n) ==> ValidMatrix(r, n + 1)
    ensures forall i, j :: 0 <= i < n && 0 <= j < n ==> r[i][j] == m[i][j]
    ensures forall k :: 0 <= k <= n ==> r[n][k] == 0 && r[k][n] == 0
  {
    seq(n + 1, i requires 0 <= i <= n => if i < n then m[i] + [0] else seq(n + 1, _ => 0))
  }

  /** Growing the matrix of a graph without edges gives a larger one without edges. */
  lemma GrowZero(n: nat)
    ensures Grow(Zero(n), n) == Zero(n + 1)
  {
    SameCells(Grow(Zero(n), n), Zero(n + 1), n + 1);
  }

  /** The guard of add_edge: a positive weight between two distinct vertices in range. */
  predicate Accepts(n: nat, src: int, dst: int, weight: int) {
    weight >= 1 && src != dst && 0 <= src < n && 0 <= dst < n
  }

  /** The matrix after add_edge(src, dst, weight): one cell overwritten, or nothing. */
  function AddEdgeTo(m: seq<seq<int>>, n: nat, src: int, dst: int, weight: int): (r: seq<seq<int>>)
    requires Square(m, n)
    ensures Square(r, n)
    ensures ValidMatrix(m, n) ==> ValidMatrix(r, n)
    ensures forall i, j :: 0 <= i < n && 0 <= j < n ==>
      r[i][j] == if Accepts(n, src, dst, weight) && i == src && j == dst then weight else m[i][j]
  {
    if Accepts(n, src, dst, weight) then m[src := m[src][dst := weight]] else m
  }

  /** The matrix after remove_edge(src, dst): one cell cleared, or nothing. */
  function RemoveEdgeFrom(m: seq<seq<int>>, n: nat, src: int, dst: int): (r: seq<seq<int>>)
    requires Square(m, n)
    ensures Square(r, n)
    ensures ValidMatrix(m, n) ==> ValidMatrix(r, n)
    ensures forall i, j :: 0 <= i < n && 0 <= j < n ==>
      r[i][j] == if i == src && j == dst then 0 else m[i][j]
  {
    if 0 <= src < n && 0 <= dst < n then m[src := m[src][dst := 0]] else m
  }

  /** The matrix after add_edge of every edge, in order. */
  function AddEdgesTo(m: seq<seq<int>>, n: nat, edges: seq<Edge>): (r: seq<seq<int>>)
    requires Square(m, n)
    ensures Square(r, n)
    ensures ValidMatrix(m, n) ==> ValidMatrix(r, n)
  {
    if edges == [] then m
    else
      var e := Last(edges);
      AddEdgeTo(AddEdgesTo(m, n, DropLast(edges)), n, e.0, e.1, e.2)
  }

  lemma AddEdgesStep(m: seq<seq<int>>, n: nat, edges: seq<Edge>, k: nat)
    requires Square(m, n) && k < |edges|
    ensures AddEdgesTo(m, n, edges[..k + 1]) ==
      AddEdgeTo(AddEdgesTo(m, n, edges[..k]), n, edges[k].0, edges[k].1, edges[k].2)
  {
    assert DropLast(edges[..k + 1]) == edges[..k];
  }

  /** Adding an edge that is already there replaces its weight: there is one edge per ordered pair. */
  lemma AddEdgeOverwrites(m: seq<seq<int>>, n: nat, src: int, dst: int, w1: int, w2: int)
    requires Square(m, n) && Accepts(n, src, dst, w2)
    ensures AddEdgeTo(AddEdgeTo(m, n, src, dst, w1), n, src, dst, w2) == AddEdgeTo(m, n, src, dst, w2)
  {
    SameCells(AddEdgeTo(AddEdgeTo(m, n, src, dst, w1), n, src, dst, w2), AddEdgeTo(m, n, src, dst, w2), n);
  }

  /** Starting from no edges, a cell is an edge exactly when some accepted start edge wrote it. */
  lemma {:induction false} AddEdgesToZero(n: nat, edges: seq<Edge>, i: int, j: int)
    requires 0 <= i < n && 0 <= j < n
    ensures AddEdgesTo(Zero(n), n, edges)[i][j] != 0 <==>
      exists k :: 0 <= k < |edges| && Accepts(n, edges[k].0, edges[k].1, edges[k].2) &&
        edges[k].0 == i && edges[k].1 == j
  {
    if edges != [] {
      var init := DropLast(edges);
      AddEdgesToZero(n, init, i, j);
      assert forall k :: 0 <= k < |init| ==> init[k] == edges[k];
    }
  }

  function Max3(a: int, b: int, c: int): (r: int)
    ensures r >= a && r >= b && r >= c
    ensures r == a || r == b || r == c
  {
    if a >= b && a >= c then a else if b >= c then b else c
  }

  /**
   * What the vertex count loop of the constructor leaves: the largest
   * endpoint of any edge, or 0 when every endpoint is smaller.
   */
  function MaxEndpoint(edges: seq<Edge>): (r: int)
    ensures r >= 0
    ensures forall k :: 0 <= k < |edges| ==> edges[k].0 <= r && edges[k].1 <= r
    ensures r == 0 || exists k :: 0 <= k < |edges| && (edges[k].0 == r || edges[k].1 == r)
  {
    if edges == [] then 0
    else
      var e := Last(edges);
      Max3(MaxEndpoint(DropLast(edges)), e.0, e.1)
  }

  /** The constructor's first loop: `max` over the running count and both endpoints of each edge. */
  method LargestEndpoint(edges: seq<Edge>) returns (count: int)
    ensures count == MaxEndpoint(edges)
  {
    count := 0;
    for k := 0 to |edges|
      invariant count == MaxEndpoint(edges[..k])
    {
      var (u, v, _) := edges[k];
      assert DropLast(edges[..k + 1]) == edges[..k];
      count := Max3(count, u, v);
    }
    assert edges[..|edges|] == edges;
  }

  /** The successor view of a matrix: an edge wherever the cell is non-zero. */
  ghost function MatrixView(m: seq<seq<int>>, n: nat): Graph
    requires Square(m, n)
  {
    map v | 0 <= v < n :: set j | 0 <= j < n && m[v][j] != 0
  }

  /** The successors of `v` are the columns of its non-zero cells. */
  lemma MatrixRow(m: seq<seq<int>>, n: nat, v: int)
    requires Square(m, n) && 0 <= v < n
    ensures forall y :: y in Succ(MatrixView(m, n), v) <==> 0 <= y < n && m[v][y] != 0
  {
  }

  /**
   * The push loop of dfs: the columns of the non-zero cells of `row`, from
   * the last column down to the first, pushed onto `stack`.
   */
  method PushDescending(stack: seq<int>, row: seq<int>) returns (stack': seq<int>, ghost seg: seq<int>)
    ensures stack' == stack + seg
    ensures NonIncreasing(seg) && forall a, b :: 0 <= a < b < |seg| ==> seg[a] > seg[b]
    ensures forall y :: y in seg <==> 0 <= y < |row| && row[y] != 0
  {
    stack' := stack;
    seg := [];
    for i := |row| downto 0
      invariant stack' == stack + seg
      invariant NonIncreasing(seg) && forall a, b :: 0 <= a < b < |seg| ==> seg[a] > seg[b]
      invariant forall k :: 0 <= k < |seg| ==> seg[k] >= i
      invariant forall y :: y in seg <==> i <= y < |row| && row[y] != 0
    {
      if row[i] != 0 {
        stack' := stack' + [i];
        seg := seg + [i];
      }
    }
  }

  /** The enqueue loop of bfs: the columns of the non-zero cells of `row`, in ascending order. */
  method EnqueueAscending(queue: seq<int>, row: seq<int>) returns (queue': seq<int>, ghost seg: seq<int>)
    ensures queue' == queue + seg
    ensures NonDecreasing(seg) && forall a, b :: 0 <= a < b < |seg| ==> seg[a] < seg[b]
    ensures forall y :: y in seg <==> 0 <= y < |row| && row[y] != 0
  {
    queue' := queue;
    seg := [];
    for i := 0 to |row|
      invariant queue' == queue + seg
      invariant NonDecreasing(seg) && forall a, b :: 0 <= a < b < |seg| ==> seg[a] < seg[b]
      invariant forall k :: 0 <= k < |seg| ==> seg[k] < i
      invariant forall y :: y in seg <==> 0 <= y < i && row[y] != 0
    {
      if row[i] != 0 {
        queue' := queue' + [i];
        seg := seg + [i];
      }
    }
  }

  /**
   * The inner loop of detect_cycle over the row of the vertex being
   * expanded: pushes each successor not yet visited, and stops with true at
   * an edge back into `vertex` once `vertex` has been visited.
   */
  method ScanRow(row: seq<int>, visited: set<int>, vertex: int, stack: seq<int>)
      returns (stack': seq<int>, back: bool)
    ensures back <==> vertex in visited && 0 <= vertex < |row| && row[vertex] != 0
    ensures !back ==> forall y :: y in stack' <==> y in stack || (0 <= y < |row| && row[y] != 0 && y !in visited)
  {
    stack' := stack;
    for i := 0 to |row|
      invariant forall y :: y in stack' <==> y in stack || (0 <= y < i && row[y] != 0 && y !in visited)
      invariant !(vertex in visited && 0 <= vertex < i && row[vertex] != 0)
    {
      if row[i] != 0 && i !in visited {
        stack' := stack' + [i];
      } else if row[i] != 0 && i == vertex {
        return stack', true;
      }
    }
    return stack', false;
  }

  /** Python's list indexing: a negative index counts from the end. */
  function PyIndex(i: int, n: nat): (r: int)
    requires InPyRange(i, n)
    ensures 0 <= r < n
    ensures i >= 0 ==> r == i
  {
    if i < 0 then i + n else i
  }

  /** `i` is an index Python's list indexing accepts on a list of length `n`. */
  predicate InPyRange(i: int, n: nat) {
    -(n as int) <= i < n
  }

  /**
   * The first `k - 1` steps of `path` each find an edge at the cell that
   * Python's indexing looks up: what the loop of is_valid_path has read
   * when it reaches step `k`.
   */
  ghost predicate WrappedPrefix(m: seq<seq<int>>, n: nat, path: seq<int>, k: int)
    requires Square(m, n) && k <= |path|
  {
    forall j :: 0 < j < k ==> WrappedStep(m, n, path, j)
  }

  /** Step `j` of `path`, from `path[j - 1]` to `path[j]`, finds an edge with Python's indexing. */
  ghost predicate WrappedStep(m: seq<seq<int>>, n: nat, path: seq<int>, j: int)
    requires Square(m, n) && 0 < j < |path|
  {
    InPyRange(path[j - 1], n) && InPyRange(path[j], n) &&
    m[PyIndex(path[j - 1], n)][PyIndex(path[j], n)] != 0
  }

  /**
   * The loop of is_valid_path never indexes outside the matrix: every step
   * it reaches, because the earlier ones found edges, reads two indices
   * Python accepts.
   */
  ghost predicate ReadsInRange(m: seq<seq<int>>, n: nat, path: seq<int>)
    requires Square(m, n)
  {
    forall k :: 0 < k < |path| && WrappedPrefix(m, n, path, k) ==>
      InPyRange(path[k - 1], n) && InPyRange(path[k], n)
  }

  /** For a path of vertices in range, the steps is_valid_path looks up all find edges exactly when it is a path. */
  lemma WrappedStepsInRange(m: seq<seq<int>>, n: nat, path: seq<int>)
    requires Square(m, n) && |path| >= 2
    requires forall k :: 0 <= k < |path| ==> 0 <= path[k] < n
    ensures WrappedPrefix(m, n, path, |path|) <==> IsPath(MatrixView(m, n), path)
  {
    forall k | 0 < k < |path|
      ensures WrappedStep(m, n, path, k) <==> path[k] in Succ(MatrixView(m, n), path[k - 1])
    {
      MatrixRow(m, n, path[k - 1]);
    }
  }

  /**
   * With the single edge 1 -> 0, is_valid_path accepts [-1, 0], which is not
   * a path: -1 is read as vertex 1.
   */
  lemma NegativeVertexAccepted()
    ensures Square([[0, 0], [1, 0]], 2)
    ensures ReadsInRange([[0, 0], [1, 0]], 2, [-1, 0])
    ensures WrappedPrefix([[0, 0], [1, 0]], 2, [-1, 0], 2)
    ensures !IsPath(MatrixView([[0, 0], [1, 0]], 2), [-1, 0])
  {
  }

  /**
   * With the single edge 0 -> 1, the path [1, 0, 5] makes is_valid_path
   * return at its first step, so the out-of-range 5 is never read.
   */
  lemma EarlyFailureReadsInRange()
    ensures Square([[0, 1], [0, 0]], 2)
    ensures ReadsInRange([[0, 1], [0, 0]], 2, [1, 0, 5])
    ensures !WrappedPrefix([[0, 1], [0, 0]], 2, [1, 0, 5], 2)
  {
    assert !WrappedStep([[0, 1], [0, 0]], 2, [1, 0, 5], 1);
  }

  /** `e` comes before `f` in row-major order. */
  predicate RowMajorBefore(e: Edge, f: Edge) {
    e.0 < f.0 || (e.0 == f.0 && e.1 < f.1)
  }

  class DirectedGraph {
    var vCount: nat
    var adj: seq<seq<int>>

    ghost predicate Valid()
      reads this
    {
      ValidMatrix(adj, vCount)
    }

    /** The graph this object stores. */
    ghost function View(): Graph
      reads this
      requires Valid()
    {
      MatrixView(adj, vCount)
    }

    /**
     * Without start edges the graph is empty. With them, the vertex count is
     * one more than the largest endpoint (so at least 1), and the edges are
     * then added in order, each behind add_edge's guard.
     */
    constructor (startEdges: Option<seq<Edge>>)
      ensures Valid()
      ensures vCount == if startEdges.Some? then MaxEndpoint(startEdges.value) + 1 else 0
      ensures adj == AddEdgesTo(Zero(vCount), vCount, EdgesOf(startEdges))
    {
      vCount := 0;
      adj := [];
      new;
      if startEdges.Some? {
        var edges := startEdges.value;
        var count := LargestEndpoint(edges);
        for i := 0 to count + 1
          invariant vCount == i && adj == Zero(i)
        {
          var _ := AddVertex();
          GrowZero(i);
        }
        for k := 0 to |edges|
          invariant vCount == count + 1 && adj == AddEdgesTo(Zero(vCount), vCount, edges[..k])
        {
          var (u, v, weight) := edges[k];
          AddEdge(u, v, weight);
          AddEdgesStep(Zero(vCount), vCount, edges, k);
        }
        assert edges[..|edges|] == edges;
      }
    }

    /** Appends a vertex with no edges and returns the new vertex count. */
    method AddVertex() returns (count: nat)
      requires Valid()
      modifies this
      ensures Valid()
      ensures vCount == old(vCount) + 1 && count == vCount
      ensures adj == Grow(old(adj), old(vCount))
    {
      vCount := vCount + 1;
      adj := adj + [seq(vCount, _ => 0)];
      for i := 0 to |adj| - 1
        invariant vCount == old(vCount) + 1 && |adj| == vCount
        invariant forall k :: 0 <= k < i ==> adj[k] == old(adj)[k] + [0]
        invariant forall k :: i <= k < vCount - 1 ==> adj[k] == old(adj)[k]
        invariant adj[vCount - 1] == seq(vCount, _ => 0)
      {
        adj := adj[i := adj[i] + [0]];
      }
      assert forall k :: 0 <= k < vCount ==> adj[k] == Grow(old(adj), old(vCount))[k];
      count := vCount;
    }

    /** Sets the weight of src -> dst, unless the weight, a self-loop or a range check forbids it. */
    method AddEdge(src: int, dst: int, weight: int := 1)
      requires Valid()
      modifies this
      ensures Valid() && vCount == old(vCount)
      ensures adj == AddEdgeTo(old(adj), vCount, src, dst, weight)
    {
      if weight < 1 {
        return;
      }
      if src == dst {
        return;
      }
      if !(0 <= src < vCount) || !(0 <= dst < vCount) {
        return;
      }
      adj := adj[src := adj[src][dst := weight]];
    }

    /** Clears the cell src -> dst when both are vertices, whether or not it held an edge. */
    method RemoveEdge(src: int, dst: int)
      requires Valid()
      modifies this
      ensures Valid() && vCount == old(vCount)
      ensures adj == RemoveEdgeFrom(old(adj), vCount, src, dst)
    {
      if !(0 <= src < vCount) || !(0 <= dst < vCount) {
        return;
      }
      adj := adj[src := adj[src][dst := 0]];
    }

    function GetVertices(): (r: seq<int>)
      reads this
      ensures |r| == vCount
      ensures forall i :: 0 <= i < |r| ==> r[i] == i
    {
      seq(vCount, i => i)
    }

    /** Every edge as (source, destination, weight), each once, in row-major order. */
    method GetEdges() returns (edges: seq<Edge>)
      requires Valid()
      ensures forall e :: e in edges <==>
        0 <= e.0 < vCount && 0 <= e.1 < vCount && adj[e.0][e.1] != 0 && e.2 == adj[e.0][e.1]
      ensures forall a, b :: 0 <= a < b < |edges| ==> RowMajorBefore(edges[a], edges[b])
      ensures forall e :: e in edges ==> e.0 != e.1 && e.2 >= 1
    {
      edges := [];
      for i := 0 to |adj|
        invariant forall e :: e in edges <==>
          0 <= e.0 < i && 0 <= e.1 < vCount && adj[e.0][e.1] != 0 && e.2 == adj[e.0][e.1]
        invariant forall a, b :: 0 <= a < b < |edges| ==> RowMajorBefore(edges[a], edges[b])
        invariant forall e :: e in edges ==> e.0 < i
      {
        for j := 0 to |adj[i]|
          invariant forall e :: e in edges <==>
            ((0 <= e.0 < i && 0 <= e.1 < vCount) || (e.0 == i && 0 <= e.1 < j)) &&
            adj[e.0][e.1] != 0 && e.2 == adj[e.0][e.1]
          invariant forall a, b :: 0 <= a < b < |edges| ==> RowMajorBefore(edges[a], edges[b])
          invariant forall e :: e in edges ==> RowMajorBefore(e, (i, j, 0))
        {
          if adj[i][j] != 0 {
            edges := edges + [(i, j, adj[i][j])];
          }
        }
      }
    }

    /**
     * is_valid_path as written. The empty path is valid and a single vertex
     * is valid when it is in range; for a longer path each step is looked up
     * in the matrix with Python's indexing, so a negative vertex counts from
     * the end of the matrix, and the loop stops at the first step without an
     * edge.
     */
    method IsValidPath(path: seq<int>) returns (valid: bool)
      requires Valid()
      // a step whose index is outside the matrix raises IndexError
      requires |path| >= 2 ==> ReadsInRange(adj, vCount, path)
      ensures |path| < 2 ==> (valid <==> path == [] || IsPath(View(), path))
      ensures |path| >= 2 ==> (valid <==> WrappedPrefix(adj, vCount, path, |path|))
    {
      if |path| == 0 || (|path| == 1 && 0 <= path[0] < vCount) {
        return true;
      }
      if |path| == 1 && !(0 <= path[0] < vCount) {
        return false;
      }
      for i := 1 to |path|
        invariant WrappedPrefix(adj, vCount, path, i)
      {
        var cur := PyIndex(path[i], vCount);
        var prev := PyIndex(path[i - 1], vCount);
        if adj[prev][cur] == 0 {
          assert !WrappedStep(adj, vCount, path, i);
          return false;
        }
      }
      return true;
    }

    /**
     * is_valid_path with the range check it evidently intends: a step from
     * or to something that is not a vertex makes the path invalid.
     */
    method IsValidPathChecked(path: seq<int>) returns (valid: bool)
      requires Valid()
      ensures valid <==> path == [] || IsPath(View(), path)
    {
      if |path| == 0 || (|path| == 1 && 0 <= path[0] < vCount) {
        return true;
      }
      if |path| == 1 && !(0 <= path[0] < vCount) {
        return false;
      }
      for i := 1 to |path|
        invariant i > 1 ==> 0 <= path[0] < vCount
        invariant forall k :: 0 < k < i ==> path[k] in Succ(View(), path[k - 1])
      {
        var cur := path[i];
        var prev := path[i - 1];
        if !(0 <= prev < vCount) || !(0 <= cur < vCount) || adj[prev][cur] == 0 {
          assert path[i] !in Succ(View(), path[i - 1]);
          return false;
        }
      }
      return true;
    }

    /**
     * Depth-first search from vStart, stopping once vEnd has been visited.
     * Vertices are marked when they are popped; the successors of a visited
     * vertex are pushed largest first, so they are tried in ascending order.
     */
    method Dfs(vStart: int, vEnd: Option<int> := None) returns (vertices: seq<int>)
      requires Valid()
      ensures TraversalOf(View(), DepthFirst, vStart, vEnd, vertices)
    {
      ghost var g := View();
      if !(0 <= vStart < vCount) {
        return [];
      }
      vertices := [];
      var stack := [vStart];
      var seen: set<int> := {};
      ghost var segs: seq<seq<int>> := [];
      while |stack| > 0 && (vEnd.None? || vEnd.value !in seen)
        invariant SearchInv(g, DepthFirst, vStart, vEnd, vertices, seen, stack, segs)
        decreases g.Keys - seen, |stack|
      {
        ghost var stack0, vertices0, seen0 := stack, vertices, seen;
        SearchFront(g, DepthFirst, vStart, vEnd, vertices, seen, stack, segs);
        var item := stack[|stack| - 1];
        stack := stack[..|stack| - 1];
        if item !in seen {
          seen := seen + {item};
          vertices := vertices + [item];
          ghost var seg: seq<int>;
          stack, seg := PushDescending(stack, adj[item]);
          MatrixRow(adj, vCount, item);
          segs := SearchVisit(g, DepthFirst, vStart, vEnd, vertices0, seen0, stack0, segs, seg);
        } else {
          segs := SearchSkip(g, DepthFirst, vStart, vEnd, vertices, seen, stack0, segs);
        }
      }
      SearchDone(g, DepthFirst, vStart, vEnd, vertices, seen, stack, segs);
    }

    /**
     * Breadth-first search from vStart, stopping once vEnd has been visited.
     * Vertices are marked when they are dequeued; successors are enqueued in
     * ascending order.
     */
    method Bfs(vStart: int, vEnd: Option<int> := None) returns (vertices: seq<int>)
      requires Valid()
      ensures TraversalOf(View(), BreadthFirst, vStart, vEnd, vertices)
    {
      ghost var g := View();
      if !(0 <= vStart < vCount) {
        return [];
      }
      vertices := [];
      var queue := [vStart];
      var seen: set<int> := {};
      ghost var segs: seq<seq<int>> := [];
      while |queue| > 0 && (vEnd.None? || vEnd.value !in seen)
        invariant SearchInv(g, BreadthFirst, vStart, vEnd, vertices, seen, queue, segs)
        decreases g.Keys - seen, |queue|
      {
        ghost var queue0, vertices0, seen0 := queue, vertices, seen;
        SearchFront(g, BreadthFirst, vStart, vEnd, vertices, seen, queue, segs);
        var item := queue[0];
        queue := queue[1..];
        if item !in seen {
          seen := seen + {item};
          vertices := vertices + [item];
          ghost var seg: seq<int>;
          queue, seg := EnqueueAscending(queue, adj[item]);
          MatrixRow(adj, vCount, item);
          segs := SearchVisit(g, BreadthFirst, vStart, vEnd, vertices0, seen0, queue0, segs, seg);
        } else {
          segs := SearchSkip(g, BreadthFirst, vStart, vEnd, vertices, seen, queue0, segs);
        }
      }
      SearchDone(g, BreadthFirst, vStart, vEnd, vertices, seen, queue, segs);
    }


    /** True when the graph has a directed cycle; tries every vertex in turn. */
    method HasCycle() returns (cyclic: bool)
      requires Valid()
      ensures cyclic <==> exists p :: IsCycle(View(), p)
    {
      for i := 0 to |adj|
        invariant forall v :: 0 <= v < i ==> !OnCycle(View(), v)
      {
        var found := DetectCycle(i);
        ReturnsToIffOnCycle(View(), i);
        if found {
          return true;
        }
      }
      forall p | IsCycle(View(), p) ensures false {
        assert OnCycle(View(), p[0]);
      }
      return false;
    }

    /**
     * Stack-based search from `vertex`: true as soon as an expanded vertex has
     * an edge back into `vertex`, so exactly when `vertex` lies on a cycle.
     */
    method DetectCycle(vertex: int) returns (found: bool)
      requires Valid() && 0 <= vertex < vCount
      ensures found <==> ReturnsTo(View(), vertex)
    {
      ghost var g := View();
      var visited: set<int> := {};
      var stack := [vertex];
      while |stack| > 0
        invariant forall x :: x in stack ==> 0 <= x < vCount && Reachable(g, vertex, x)
        invariant forall x :: x in visited ==> 0 <= x < vCount && Reachable(g, vertex, x)
        invariant visited == {} ==> stack == [vertex]
        invariant visited != {} ==> vertex in visited
        invariant forall x :: x in visited ==> vertex !in Succ(g, x)
        invariant forall x, y :: x in visited && y in Succ(g, x) ==> y in visited || y in stack
        decreases g.Keys - visited, |stack|
      {
        var cur := stack[|stack| - 1];
        ghost var before := stack;
        stack := stack[..|stack| - 1];
        assert before == stack + [cur] && cur in before;
        assert forall x :: x in stack ==> x in before;
        if cur !in visited {
          visited := visited + {cur};
          var back;
          stack, back := ScanRow(adj[cur], visited, vertex, stack);
          MatrixRow(adj, vCount, cur);
          if back {
            assert vertex in Succ(g, cur);
            return true;
          }
          forall y | y in Succ(g, cur) ensures Reachable(g, vertex, y) {
            ReachableStep(g, vertex, cur, y);
          }
        }
      }
      if ReturnsTo(g, vertex) {
        var u :| Reachable(g, vertex, u) && vertex in Succ(g, u);
        ReachableSelf(g, vertex);
        ClosedSetReaches(g, visited, vertex, u);
        assert false;
      }
      return false;
    }
  }
}
