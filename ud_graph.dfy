/**
 * An undirected graph without weights, loops or parallel edges, kept as a
 * map from each vertex to the list of its neighbours (the UndirectedGraph
 * class of ud_graph.py). A Python dict iterates its keys in insertion
 * order; `order` records that order next to the map.
 */
module UndirectedGraphs {
  import opened Lists
  import opened Traversal

  /** The neighbour list of `x`, empty when `x` is not a vertex. */
  function Neighbours(adj: map<int, seq<int>>, x: int): seq<int> {
    if x in adj then adj[x] else []
  }

  /** What `if x in s: s.remove(x)` leaves of `s`. */
  function Without(s: seq<int>, x: int): (r: seq<int>)
    ensures NoDup(s) ==> NoDup(r) && forall y :: y in r <==> y in s && y != x
  {
    if x in s then RemoveFirst(s, x) else s
  }

  /**
   * The class invariant: the key order lists each vertex once, no list holds
   * a vertex twice or the vertex itself, and every edge is recorded at both
   * of its ends.
   */
  ghost predicate ValidLists(adj: map<int, seq<int>>, order: seq<int>) {
    NoDup(order) &&
    (forall v :: v in adj <==> v in order) &&
    (forall v :: v in adj ==> NoDup(adj[v]) && v !in adj[v]) &&
    (forall u, v :: u in adj && v in adj[u] ==> v in adj && u in adj[v])
  }

  /** The successor view of an adjacency map. */
  ghost function ListView(adj: map<int, seq<int>>): Graph {
    map v | v in adj :: set y | y in adj[v]
  }

  lemma ListViewSymmetric(adj: map<int, seq<int>>, order: seq<int>)
    requires ValidLists(adj, order)
    ensures WellFormed(ListView(adj)) && Symmetric(ListView(adj))
  {
  }

  /** Some start edge between two distinct vertices has `x` as an endpoint. */
  ghost predicate Endpoint(edges: seq<(int, int)>, x: int) {
    exists k :: 0 <= k < |edges| && edges[k].0 != edges[k].1 && (edges[k].0 == x || edges[k].1 == x)
  }

  /** Some start edge joins `x` and `y`, in either direction, and they differ. */
  ghost predicate Joined(edges: seq<(int, int)>, x: int, y: int) {
    x != y && exists k :: 0 <= k < |edges| && (edges[k] == (x, y) || edges[k] == (y, x))
  }

  /** The map once add_edge has joined `u` and `v`: each is appended to the other's list. */
  function Link(adj: map<int, seq<int>>, u: int, v: int): (r: map<int, seq<int>>)
    requires u != v
    ensures forall x :: x in r <==> x in adj || x == u || x == v
    ensures forall x, y :: x in r && y in r[x] <==>
      (x in adj && y in adj[x]) || (x == u && y == v) || (x == v && y == u)
  {
    adj[v := Neighbours(adj, v) + [u]][u := Neighbours(adj, u) + [v]]
  }

  /** Appending to the lists of `u` and `v` once both exist, in add_edge's order, is `Link`. */
  lemma LinkSteps(adj: map<int, seq<int>>, created: map<int, seq<int>>, u: int, v: int)
    requires u != v && u in created && v in created
    requires created == adj[u := Neighbours(adj, u)][v := Neighbours(adj, v)]
    ensures (var a := created[v := created[v] + [u]]; a[u := a[u] + [v]]) == Link(adj, u, v)
  {
  }

  /** The key order once add_edge has created whichever of `u` and `v` is new, `u` first. */
  function Enrol(order: seq<int>, adj: map<int, seq<int>>, u: int, v: int): (r: seq<int>)
    ensures |order| <= |r| && r[..|order|] == order
    ensures forall x :: x in r <==> x in order || (x == u && u !in adj) || (x == v && v !in adj)
  {
    order + (if u in adj then [] else [u]) + (if v in adj || v == u then [] else [v])
  }

  /** The map and the key order after add_edge(u, v): a loop or an existing edge changes nothing. */
  function AfterAddEdge(adj: map<int, seq<int>>, order: seq<int>, u: int, v: int): (map<int, seq<int>>, seq<int>) {
    if u == v || (v in adj && u in adj[v]) then (adj, order)
    else (Link(adj, u, v), Enrol(order, adj, u, v))
  }

  /** The map and the key order after add_edge of every edge, in order, on an empty graph. */
  function Build(edges: seq<(int, int)>): (map<int, seq<int>>, seq<int>) {
    if edges == [] then (map[], [])
    else
      var (adj, order) := Build(DropLast(edges));
      var (u, v) := Last(edges);
      AfterAddEdge(adj, order, u, v)
  }

  /** Building from one more start edge is one more add_edge. */
  lemma BuildStep(edges: seq<(int, int)>, k: nat, u: int, v: int)
    requires k < |edges| && edges[k] == (u, v)
    ensures Build(edges[..k + 1]) == AfterAddEdge(Build(edges[..k]).0, Build(edges[..k]).1, u, v)
  {
    assert DropLast(edges[..k + 1]) == edges[..k] && Last(edges[..k + 1]) == (u, v);
  }

  /**
   * The graph of the start edges: the class invariant holds, the vertices
   * are the endpoints of start edges between distinct vertices, and two
   * vertices are adjacent exactly when a start edge joins them.
   */
  lemma BuildFacts(edges: seq<(int, int)>)
    ensures ValidLists(Build(edges).0, Build(edges).1)
    ensures forall x :: x in Build(edges).0 <==> Endpoint(edges, x)
    ensures forall x, y :: x in Build(edges).0 && y in Build(edges).0[x] <==> Joined(edges, x, y)
  {
    BuildValid(edges);
    BuildVertices(edges);
    BuildAdjacent(edges);
  }

  lemma {:induction false} BuildValid(edges: seq<(int, int)>)
    ensures ValidLists(Build(edges).0, Build(edges).1)
  {
    if edges != [] {
      BuildValid(DropLast(edges));
      var (a, o) := Build(DropLast(edges));
      var (u, v) := Last(edges);
      AfterAddEdgeFacts(a, o, u, v);
    }
  }

  lemma {:induction false} BuildVertices(edges: seq<(int, int)>)
    ensures forall x :: x in Build(edges).0 <==> Endpoint(edges, x)
  {
    if edges != [] {
      var k := |edges| - 1;
      var (u, v) := edges[k];
      assert edges[..k + 1] == edges && DropLast(edges) == edges[..k];
      BuildValid(edges[..k]);
      BuildVertices(edges[..k]);
      var (a, o) := Build(edges[..k]);
      AfterAddEdgeFacts(a, o, u, v);
      EdgesStep(edges, k, u, v);
    }
  }

  lemma {:induction false} BuildAdjacent(edges: seq<(int, int)>)
    ensures forall x, y :: x in Build(edges).0 && y in Build(edges).0[x] <==> Joined(edges, x, y)
  {
    if edges != [] {
      var k := |edges| - 1;
      var (u, v) := edges[k];
      assert edges[..k + 1] == edges && DropLast(edges) == edges[..k];
      BuildValid(edges[..k]);
      BuildAdjacent(edges[..k]);
      var (a, o) := Build(edges[..k]);
      var r := AfterAddEdge(a, o, u, v).0;
      assert Build(edges).0 == r;
      AfterAddEdgeFacts(a, o, u, v);
      EdgesStep(edges, k, u, v);
      forall x, y ensures x in r && y in r[x] <==> Joined(edges, x, y) {
        assert Joined(edges[..k], x, y) <==> x in a && y in a[x];
      }
    }
  }

  /**
   * add_edge on values: the class invariant is kept, and the vertices and
   * the adjacencies grow by exactly the new edge, unless it is a loop.
   */
  lemma AfterAddEdgeFacts(adj: map<int, seq<int>>, order: seq<int>, u: int, v: int)
    requires ValidLists(adj, order)
    ensures ValidLists(AfterAddEdge(adj, order, u, v).0, AfterAddEdge(adj, order, u, v).1)
    ensures forall x :: x in AfterAddEdge(adj, order, u, v).0 <==> x in adj || (u != v && (x == u || x == v))
    ensures forall x, y :: x in AfterAddEdge(adj, order, u, v).0 && y in AfterAddEdge(adj, order, u, v).0[x] <==>
      (x in adj && y in adj[x]) || (u != v && ((x == u && y == v) || (x == v && y == u)))
  {
    if !(u == v || (v in adj && u in adj[v])) {
      LinkValid(adj, order, u, v);
    }
  }

  /** Adding the start edge at position `k` extends the endpoints and the joined pairs by that edge. */
  lemma EdgesStep(edges: seq<(int, int)>, k: nat, u: int, v: int)
    requires k < |edges| && edges[k] == (u, v)
    ensures forall x :: Endpoint(edges[..k + 1], x) <==>
      Endpoint(edges[..k], x) || (u != v && (x == u || x == v))
    ensures forall x, y :: Joined(edges[..k + 1], x, y) <==>
      Joined(edges[..k], x, y) || (u != v && ((x == u && y == v) || (x == v && y == u)))
  {
    var init := edges[..k + 1];
    assert forall j :: 0 <= j < k ==> init[j] == edges[..k][j];
    assert init[k] == edges[k];
    forall x | Endpoint(init, x) ensures
      Endpoint(edges[..k], x) || (edges[k].0 != edges[k].1 && (x == edges[k].0 || x == edges[k].1))
    {
      var j :| 0 <= j < |init| && init[j].0 != init[j].1 && (init[j].0 == x || init[j].1 == x);
      if j < k {
        assert edges[..k][j] == init[j];
      }
    }
    forall x, y | Joined(init, x, y) ensures
      Joined(edges[..k], x, y) ||
      (edges[k].0 != edges[k].1 && ((x, y) == edges[k] || (y, x) == edges[k]))
    {
      var j :| 0 <= j < |init| && (init[j] == (x, y) || init[j] == (y, x));
      if j < k {
        assert edges[..k][j] == init[j];
      }
    }
  }

  /** Joining two distinct vertices that are not yet adjacent keeps the class invariant. */
  lemma LinkValid(adj: map<int, seq<int>>, order: seq<int>, u: int, v: int)
    requires ValidLists(adj, order) && u != v && !(v in adj && u in adj[v])
    ensures ValidLists(Link(adj, u, v), Enrol(order, adj, u, v))
  {
    var r := Link(adj, u, v);
    var o := Enrol(order, adj, u, v);
    assert v !in Neighbours(adj, u);
    forall x | x in r ensures NoDup(r[x]) && x !in r[x] {
      if x == u {
        NoDupAppend(Neighbours(adj, u), [v]);
      } else if x == v {
        NoDupAppend(Neighbours(adj, v), [u]);
      }
    }
    assert NoDup(o) by {
      NoDupAppend(order, if u in adj then [] else [u]);
      NoDupAppend(order + (if u in adj then [] else [u]), if v in adj || v == u then [] else [v]);
    }
  }

  /** A reordering of the neighbour list of `x` holds exactly the successors of `x`. */
  lemma SameElements(g: Graph, adj: map<int, seq<int>>, x: int, s: seq<int>)
    requires g == ListView(adj) && x in adj && multiset(s) == multiset(adj[x])
    ensures forall y :: y in s <==> y in Succ(g, x)
  {
    forall y ensures y in s <==> y in Succ(g, x) {
      assert y in s <==> y in multiset(s);
      assert y in adj[x] <==> y in multiset(adj[x]);
    }
  }

  /** The map once remove_vertex has dropped `v` and taken it out of every other list. */
  function Detach(adj: map<int, seq<int>>, v: int): (r: map<int, seq<int>>)
    ensures forall x :: x in r <==> x in adj && x != v
  {
    map k | k in adj && k != v :: Without(adj[k], v)
  }

  /**
   * The loop of remove_vertex: visits the keys in order and takes `v` out
   * of each list that holds it.
   */
  method RemoveFromLists(adj: map<int, seq<int>>, keys: seq<int>, v: int) returns (adj': map<int, seq<int>>)
    requires NoDup(keys) && forall x :: x in adj <==> x in keys
    ensures adj' == map x | x in adj :: Without(adj[x], v)
  {
    adj' := adj;
    for i := 0 to |keys|
      invariant adj'.Keys == adj.Keys
      invariant forall x :: x in adj' ==> adj'[x] == if x in keys[..i] then Without(adj[x], v) else adj[x]
    {
      var key := keys[i];
      ghost var before := adj';
      assert key in keys;
      if v in adj'[key] {
        adj' := adj'[key := RemoveFirst(adj'[key], v)];
      }
      RemovedUpTo(adj, keys, i, v, before, adj');
    }
    assert keys[..|keys|] == keys;
    forall x | x in adj' ensures adj'[x] == Without(adj[x], v) {
      assert x in keys;
    }
  }

  /** One turn of remove_vertex's loop: the list of `keys[i]` loses `v` and the others stay as they were. */
  lemma RemovedUpTo(adj: map<int, seq<int>>, keys: seq<int>, i: nat, v: int,
                    cur: map<int, seq<int>>, cur': map<int, seq<int>>)
    requires NoDup(keys) && i < |keys| && cur.Keys == adj.Keys && keys[i] in adj
    requires forall x :: x in cur ==> cur[x] == if x in keys[..i] then Without(adj[x], v) else adj[x]
    requires cur' == cur[keys[i] := Without(cur[keys[i]], v)]
    ensures cur'.Keys == adj.Keys
    ensures forall x :: x in cur' ==> cur'[x] == if x in keys[..i + 1] then Without(adj[x], v) else adj[x]
  {
    assert keys[..i + 1] == keys[..i] + [keys[i]];
    assert keys[i] !in keys[..i];
    forall x | x in cur' ensures cur'[x] == if x in keys[..i + 1] then Without(adj[x], v) else adj[x] {
      if x != keys[i] {
        assert x in keys[..i + 1] <==> x in keys[..i];
      }
    }
  }

  lemma DetachAgrees(adj: map<int, seq<int>>, v: int, r: map<int, seq<int>>)
    requires r == map x | x in adj - {v} :: Without((adj - {v})[x], v)
    ensures r == Detach(adj, v)
  {
  }

  /** Removing a vertex and its edges keeps the class invariant and drops exactly the edges at `v`. */
  lemma DetachValid(adj: map<int, seq<int>>, order: seq<int>, v: int)
    requires ValidLists(adj, order) && v in adj
    ensures ValidLists(Detach(adj, v), RemoveFirst(order, v))
    ensures forall x, y :: x in Detach(adj, v) && y in Detach(adj, v)[x] <==>
      x in adj && y in adj[x] && x != v && y != v
  {
    DetachEdges(adj, v);
    assert v in order;
    RemovedValid(adj, order, v, Detach(adj, v), RemoveFirst(order, v));
  }

  /** A map and key order that are the old ones without `v` and its edges keep the class invariant. */
  lemma RemovedValid(adj: map<int, seq<int>>, order: seq<int>, v: int, r: map<int, seq<int>>, o: seq<int>)
    requires ValidLists(adj, order)
    requires NoDup(o) && forall x :: x in o <==> x in order && x != v
    requires forall x :: x in r <==> x in adj && x != v
    requires forall x :: x in r ==> NoDup(r[x])
    requires forall x, y :: x in r && y in r[x] <==> x in adj && y in adj[x] && x != v && y != v
    ensures ValidLists(r, o)
  {
    MirroredAfterRemoval(adj, v, r);
  }

  /** Dropping the edges at `v` from a map that records each edge at both ends leaves one that still does. */
  lemma MirroredAfterRemoval(adj: map<int, seq<int>>, v: int, r: map<int, seq<int>>)
    requires forall x, y :: x in adj && y in adj[x] ==> y in adj && x in adj[y]
    requires forall x :: x in r <==> x in adj && x != v
    requires forall x, y :: x in r && y in r[x] <==> x in adj && y in adj[x] && x != v && y != v
    ensures forall x, y :: x in r && y in r[x] ==> y in r && x in r[y]
  {
  }

  /** Without `v`, each list keeps its other neighbours, still once each. */
  lemma DetachEdges(adj: map<int, seq<int>>, v: int)
    requires forall x :: x in adj ==> NoDup(adj[x])
    ensures forall x :: x in Detach(adj, v) ==> NoDup(Detach(adj, v)[x])
    ensures forall x, y :: x in Detach(adj, v) && y in Detach(adj, v)[x] <==>
      x in adj && y in adj[x] && x != v && y != v
  {
    var r := Detach(adj, v);
    forall x | x in r ensures NoDup(r[x]) && forall y :: y in r[x] <==> y in adj[x] && y != v {
      assert r[x] == Without(adj[x], v);
    }
  }

  /** `e` is an edge from a vertex among the first `i` added to one added after it. */
  ghost predicate EdgeBefore(adj: map<int, seq<int>>, order: seq<int>, e: (int, int), i: int) {
    e.0 in adj && e.1 in adj[e.0] && IndexOf(order, e.0) < i && IndexOf(order, e.0) < IndexOf(order, e.1)
  }

  /** Marking the vertex at position `i` as seen extends the seen prefix by one. */
  lemma SeenStep(order: seq<int>, i: nat, seen: set<int>)
    requires NoDup(order) && i < |order|
    requires forall x :: x in seen <==> x in order && IndexOf(order, x) < i
    ensures forall x :: x in seen + {order[i]} <==> x in order && IndexOf(order, x) <= i
    ensures IndexOf(order, order[i]) == i
  {
    IndexOfDistinct(order, i);
  }

  /** The edges listed once the vertex at position `i` has had its turn. */
  lemma {:induction false} EdgeBeforeStep(adj: map<int, seq<int>>, order: seq<int>, i: nat, seen: set<int>, e: (int, int))
    requires NoDup(order) && i < |order| && forall x :: x in adj <==> x in order
    requires forall x, y :: x in adj && y in adj[x] ==> y in adj
    requires forall x :: x in seen <==> x in order && IndexOf(order, x) <= i
    ensures EdgeBefore(adj, order, e, i + 1) <==>
      EdgeBefore(adj, order, e, i) || (e.0 == order[i] && e.1 in Neighbours(adj, order[i]) && e.1 !in seen)
  {
    var (a, b) := e;
    if a in adj && b in adj[a] {
      assert b in order;
      IndexOfDistinct(order, i);
      assert a == order[i] <==> IndexOf(order, a) == i;
    }
  }

  /** The edges listed before the turn of the vertex at position `i` all start elsewhere. */
  lemma EdgesFromEarlier(adj: map<int, seq<int>>, order: seq<int>, i: nat, edges: seq<(int, int)>)
    requires i < |order| && IndexOf(order, order[i]) == i
    requires forall e :: e in edges <==> EdgeBefore(adj, order, e, i)
    ensures forall e :: e in edges ==> e.0 != order[i]
  {
    forall e | e in edges ensures e.0 != order[i] {
      assert EdgeBefore(adj, order, e, i);
    }
  }

  /** After the turn of the vertex at position `i`, the edges listed are those from the first `i + 1` vertices. */
  lemma EdgesTurn(adj: map<int, seq<int>>, order: seq<int>, i: nat, seen: set<int>,
                  edges: seq<(int, int)>, edges': seq<(int, int)>)
    requires NoDup(order) && i < |order| && forall x :: x in adj <==> x in order
    requires forall x, y :: x in adj && y in adj[x] ==> y in adj
    requires forall x :: x in seen <==> x in order && IndexOf(order, x) <= i
    requires forall e :: e in edges <==> EdgeBefore(adj, order, e, i)
    requires forall e :: e in edges' <==>
      e in edges || (e.0 == order[i] && e.1 in Neighbours(adj, order[i]) && e.1 !in seen)
    ensures forall e :: e in edges' <==> EdgeBefore(adj, order, e, i + 1)
  {
    forall e ensures e in edges' <==> EdgeBefore(adj, order, e, i + 1) {
      EdgeBeforeStep(adj, order, i, seen, e);
    }
  }

  /** Once every vertex has had its turn, the edges listed are all those to a later vertex. */
  lemma EdgesAll(adj: map<int, seq<int>>, order: seq<int>, edges: seq<(int, int)>)
    requires forall x :: x in adj <==> x in order
    requires forall e :: e in edges <==> EdgeBefore(adj, order, e, |order|)
    ensures forall e :: e in edges <==>
      e.0 in adj && e.1 in adj[e.0] && IndexOf(order, e.0) < IndexOf(order, e.1)
  {
    forall e: (int, int) | e.0 in adj ensures IndexOf(order, e.0) < |order| {
      var (a, b) := e;
      assert a in order;
    }
  }

  /**
   * The loop of get_edges: each key in turn is marked seen, then paired
   * with each of its neighbours not yet seen.
   */
  method ListEdges(adj: map<int, seq<int>>, order: seq<int>) returns (edges: seq<(int, int)>)
    requires NoDup(order) && forall x :: x in adj <==> x in order
    requires forall x :: x in adj ==> NoDup(adj[x])
    requires forall x, y :: x in adj && y in adj[x] ==> y in adj
    ensures NoDup(edges)
    ensures forall e :: e in edges <==>
      e.0 in adj && e.1 in adj[e.0] && IndexOf(order, e.0) < IndexOf(order, e.1)
  {
    edges := [];
    var seen: set<int> := {};
    for i := 0 to |order|
      invariant forall x :: x in seen <==> x in order && IndexOf(order, x) < i
      invariant NoDup(edges)
      invariant forall e :: e in edges <==> EdgeBefore(adj, order, e, i)
    {
      var key := order[i];
      SeenStep(order, i, seen);
      seen := seen + {key};
      EdgesFromEarlier(adj, order, i, edges);
      ghost var edges0 := edges;
      edges := AppendUnseen(edges, key, adj[key], seen);
      EdgesTurn(adj, order, i, seen, edges0, edges);
    }
    EdgesAll(adj, order, edges);
  }

  /**
   * What get_edges lists names every edge exactly once: of the two
   * orientations of an edge, the one that starts at the older vertex.
   */
  lemma EdgesOnce(adj: map<int, seq<int>>, order: seq<int>, edges: seq<(int, int)>)
    requires ValidLists(adj, order)
    requires forall e :: e in edges <==>
      e.0 in adj && e.1 in adj[e.0] && IndexOf(order, e.0) < IndexOf(order, e.1)
    ensures forall a, b :: a in adj && b in adj[a] ==> (a, b) in edges || (b, a) in edges
    ensures forall a, b :: (a, b) in edges ==> (b, a) !in edges
  {
    forall a, b | a in adj && b in adj[a] ensures (a, b) in edges || (b, a) in edges {
      assert a in order && b in order && a != b;
      assert IndexOf(order, a) != IndexOf(order, b);
      assert a in adj[b];
    }
  }

  /** The inner loop of get_edges: appends (key, val) for each neighbour val not yet seen. */
  method AppendUnseen(edges: seq<(int, int)>, key: int, vals: seq<int>, seen: set<int>)
      returns (edges': seq<(int, int)>)
    ensures forall e :: e in edges' <==> e in edges || (e.0 == key && e.1 in vals && e.1 !in seen)
    ensures NoDup(edges) && NoDup(vals) && (forall e :: e in edges ==> e.0 != key) ==> NoDup(edges')
  {
    edges' := edges;
    for j := 0 to |vals|
      invariant forall e :: e in edges' <==> e in edges || (e.0 == key && e.1 in vals[..j] && e.1 !in seen)
      invariant NoDup(edges) && NoDup(vals) && (forall e :: e in edges ==> e.0 != key) ==> NoDup(edges')
    {
      var val := vals[j];
      assert vals[..j + 1] == vals[..j] + [val];
      if val !in seen {
        if NoDup(edges) && NoDup(vals) && (forall e :: e in edges ==> e.0 != key) {
          assert val !in vals[..j];
          NoDupAppend(edges', [(key, val)]);
        }
        edges' := edges' + [(key, val)];
      }
    }
    assert vals[..|vals|] == vals;
  }

  class UndirectedGraph {
    var adj: map<int, seq<int>>
    /** The vertices in the order they were added: the dict's iteration order. */
    var order: seq<int>

    ghost predicate Valid()
      reads this
    {
      ValidLists(adj, order)
    }

    /** The graph this object stores. */
    ghost function View(): Graph
      reads this
    {
      ListView(adj)
    }

    /**
     * The graph of the start edges, each added behind add_edge's guard: the
     * vertices are the endpoints of edges between distinct vertices, and two
     * vertices are adjacent when an edge joins them.
     */
    constructor (startEdges: Option<seq<(int, int)>>)
      ensures Valid()
      ensures forall x :: x in adj <==> Endpoint(EdgesOf(startEdges), x)
      ensures forall x, y :: x in adj && y in adj[x] <==> Joined(EdgesOf(startEdges), x, y)
      ensures (adj, order) == Build(EdgesOf(startEdges))
    {
      adj := map[];
      order := [];
      new;
      if startEdges.Some? {
        var edges := startEdges.value;
        for k := 0 to |edges|
          invariant Valid()
          invariant (adj, order) == Build(edges[..k])
        {
          var (u, v) := edges[k];
          BuildStep(edges, k, u, v);
          AddEdge(u, v);
        }
        assert edges[..|edges|] == edges;
      }
      BuildFacts(EdgesOf(startEdges));
    }

    /** Adds `v` with no neighbours, unless it is already a vertex. */
    method AddVertex(v: int)
      requires Valid()
      modifies this
      ensures Valid()
      ensures v in old(adj) ==> adj == old(adj) && order == old(order)
      ensures v !in old(adj) ==> adj == old(adj)[v := []] && order == old(order) + [v]
    {
      if v in adj {
        return;
      }
      adj := adj[v := []];
      order := order + [v];
    }

    /**
     * Joins `u` and `v`, creating whichever of them is not yet a vertex (`u`
     * first), unless they are the same vertex or already adjacent.
     */
    method AddEdge(u: int, v: int)
      requires Valid()
      modifies this
      ensures Valid()
      ensures u == v || (v in old(adj) && u in old(adj)[v]) ==> adj == old(adj) && order == old(order)
      ensures !(u == v || (v in old(adj) && u in old(adj)[v])) ==>
        adj == Link(old(adj), u, v) && order == Enrol(old(order), old(adj), u, v)
      ensures forall x :: x in adj <==> x in old(adj) || (u != v && (x == u || x == v))
      ensures forall x, y :: x in adj && y in adj[x] <==>
        (x in old(adj) && y in old(adj)[x]) || (u != v && ((x == u && y == v) || (x == v && y == u)))
      ensures (adj, order) == AfterAddEdge(old(adj), old(order), u, v)
    {
      if u == v || (v in adj && u in adj[v]) {
        return;
      }
      LinkValid(adj, order, u, v);
      ghost var before, order0 := adj, order;
      if u !in adj {
        adj := adj[u := []];
        order := order + [u];
      }
      ghost var order1 := order;
      assert order1 == order0 + (if u in before then [] else [u]);
      assert v in adj <==> v in before || v == u;
      if v !in adj {
        adj := adj[v := []];
        order := order + [v];
      }
      assert order == order1 + (if v in before || v == u then [] else [v]);
      LinkSteps(before, adj, u, v);
      adj := adj[v := adj[v] + [u]];
      adj := adj[u := adj[u] + [v]];
      assert adj == Link(before, u, v);
    }

    /** Removes the edge between `v` and `u` when there is one; the vertices stay. */
    method RemoveEdge(v: int, u: int)
      requires Valid()
      modifies this
      ensures Valid()
      ensures order == old(order) && adj.Keys == old(adj).Keys
      ensures v !in old(adj) || u !in old(adj) || v !in old(adj)[u] ==> adj == old(adj)
      ensures v in old(adj) && u in old(adj) && v in old(adj)[u] ==>
        adj == old(adj)[u := RemoveFirst(old(adj)[u], v)][v := RemoveFirst(old(adj)[v], u)]
      ensures forall x, y :: x in adj && y in adj[x] <==>
        x in old(adj) && y in old(adj)[x] && !((x == u && y == v) || (x == v && y == u))
    {
      if v !in adj || u !in adj || v !in adj[u] {
        return;
      }
      adj := adj[u := RemoveFirst(adj[u], v)];
      adj := adj[v := RemoveFirst(adj[v], u)];
    }

    /** Removes `v` and every edge at `v`, when `v` is a vertex. */
    method RemoveVertex(v: int)
      requires Valid()
      modifies this
      ensures Valid()
      ensures v !in old(adj) ==> adj == old(adj) && order == old(order)
      ensures v in old(adj) ==> order == RemoveFirst(old(order), v) && adj == Detach(old(adj), v)
      ensures forall x :: x in adj <==> x in old(adj) && x != v
      ensures forall x, y :: x in adj && y in adj[x] <==> x in old(adj) && y in old(adj)[x] && x != v && y != v
    {
      if v !in adj {
        return;
      }
      DetachValid(adj, order, v);
      ghost var before := adj;
      adj := adj - {v};
      order := RemoveFirst(order, v);
      adj := RemoveFromLists(adj, order, v);
      DetachAgrees(before, v, adj);
    }

    /** The vertices, each once, in the order they were added. */
    function GetVertices(): (r: seq<int>)
      reads this
      requires Valid()
      ensures NoDup(r)
      ensures forall v :: v in r <==> v in adj
    {
      order
    }

    /**
     * Every edge once, as a pair whose first vertex was added before its
     * second: a vertex's edges to vertices met earlier were already listed
     * from the other end.
     */
    method GetEdges() returns (edges: seq<(int, int)>)
      requires Valid()
      ensures NoDup(edges)
      ensures forall e :: e in edges <==>
        e.0 in adj && e.1 in adj[e.0] && IndexOf(order, e.0) < IndexOf(order, e.1)
    {
      edges := ListEdges(adj, order);
    }

    /**
     * The empty path is valid; one vertex is valid when it is in the graph;
     * a longer path is valid when each step follows an edge.
     */
    method IsValidPath(path: seq<int>) returns (valid: bool)
      requires Valid()
      ensures valid <==> path == [] || IsPath(View(), path)
    {
      if |path| == 0 || (|path| == 1 && path[0] in adj) {
        return true;
      }
      if |path| == 1 && path[0] !in adj {
        return false;
      }
      ListViewSymmetric(adj, order);
      for i := 1 to |path|
        invariant forall k :: 0 <= k < i - 1 ==> path[k] in adj && path[k + 1] in Succ(View(), path[k])
      {
        if path[i - 1] !in adj || path[i] !in adj[path[i - 1]] {
          if i > 1 {
            assert path[i - 1] in Succ(View(), path[i - 2]);
          }
          return false;
        }
      }
      return true;
    }

    /**
     * Heap sort into a new list: the least remaining element is taken out
     * once per element of `lst`, as `heappop` does.
     */
    method HeapSort(lst: seq<int>) returns (sorted: seq<int>)
      ensures NonDecreasing(sorted)
      ensures multiset(sorted) == multiset(lst)
    {
      var heap := lst;
      sorted := [];
      for n := 0 to |lst|
        invariant |sorted| == n && |heap| + |sorted| == |lst|
        invariant Extracting(lst, sorted, heap)
      {
        var k := MinIndex(heap);
        ExtractMin(lst, sorted, heap, k);
        sorted := sorted + [heap[k]];
        heap := heap[..k] + heap[k + 1..];
      }
    }

    /**
     * Depth-first search from vStart, stopping once vEnd has been visited.
     * The neighbours of a visited vertex are sorted and pushed largest
     * first, so they are tried in ascending order.
     */
    method Dfs(vStart: int, vEnd: Option<int> := None) returns (vertices: seq<int>)
      requires Valid()
      ensures TraversalOf(View(), DepthFirst, vStart, vEnd, vertices)
    {
      ghost var g := View();
      if vStart !in adj {
        return [];
      }
      ListViewSymmetric(adj, order);
      vertices := [];
      var stack := [vStart];
      var seen: set<int> := {};
      ghost var segs: seq<seq<int>> := [];
      while |stack| > 0 && (vEnd.None? || vEnd.value !in seen)
        invariant SearchInv(g, DepthFirst, vStart, vEnd, vertices, seen, stack, segs)
        decreases g.Keys - seen, |stack|
      {
        ghost var stack0, vertices0, seen0 := stack, vertices, seen;
        SearchFront(g, DepthFirst, vStart, vEnd, vertices, seen, stack, segs);
        var item := stack[|stack| - 1];
        stack := stack[..|stack| - 1];
        if item !in seen {
          vertices := vertices + [item];
          seen := seen + {item};
          var sortedVertices := HeapSort(adj[item]);
          ghost var seg;
          stack, seg := PushPopped(stack, sortedVertices);
          SameElements(g, adj, item, seg);
          segs := SearchVisit(g, DepthFirst, vStart, vEnd, vertices0, seen0, stack0, segs, seg);
        } else {
          segs := SearchSkip(g, DepthFirst, vStart, vEnd, vertices, seen, stack0, segs);
        }
      }
      SearchDone(g, DepthFirst, vStart, vEnd, vertices, seen, stack, segs);
    }

    /**
     * Breadth-first search from vStart, stopping once vEnd has been visited.
     * The neighbours of a visited vertex are sorted and enqueued in
     * ascending order.
     */
    method Bfs(vStart: int, vEnd: Option<int> := None) returns (vertices: seq<int>)
      requires Valid()
      ensures TraversalOf(View(), BreadthFirst, vStart, vEnd, vertices)
    {
      ghost var g := View();
      if vStart !in adj {
        return [];
      }
      ListViewSymmetric(adj, order);
      vertices := [];
      var queue := [vStart];
      var seen: set<int> := {};
      ghost var segs: seq<seq<int>> := [];
      while |queue| > 0 && (vEnd.None? || vEnd.value !in seen)
        invariant SearchInv(g, BreadthFirst, vStart, vEnd, vertices, seen, queue, segs)
        decreases g.Keys - seen, |queue|
      {
        ghost var queue0, vertices0, seen0 := queue, vertices, seen;
        SearchFront(g, BreadthFirst, vStart, vEnd, vertices, seen, queue, segs);
        var item := queue[0];
        queue := queue[1..];
        if item !in seen {
          vertices := vertices + [item];
          seen := seen + {item};
          var sortedVertices := HeapSort(adj[item]);
          ghost var base := queue;
          for i := 0 to |sortedVertices|
            invariant queue == base + sortedVertices[..i]
          {
            queue := queue + [sortedVertices[i]];
          }
          assert sortedVertices[..|sortedVertices|] == sortedVertices;
          SameElements(g, adj, item, sortedVertices);
          segs := SearchVisit(g, BreadthFirst, vStart, vEnd, vertices0, seen0, queue0, segs, sortedVertices);
        } else {
          segs := SearchSkip(g, BreadthFirst, vStart, vEnd, vertices, seen, queue0, segs);
        }
      }
      SearchDone(g, BreadthFirst, vStart, vEnd, vertices, seen, queue, segs);
    }

    /**
     * The number of connected components: each vertex not yet reached
     * starts a new component, and a search from it reaches the whole of it.
     */
    method CountConnectedComponents() returns (count: nat)
      requires Valid()
      ensures count == |Components(View())|
    {
      ghost var g := View();
      ListViewSymmetric(adj, order);
      var vertices: set<int> := {};
      count := 0;
      for i := 0 to |order|
        invariant Covers(g, order[..i], vertices)
        invariant count == |ComponentsOf(g, order[..i])|
      {
        var key := order[i];
        assert order[..i + 1] == order[..i] + [key];
        assert key in g;
        if key !in vertices {
          count := count + 1;
          var found := Dfs(key);
          TraversalComponent(g, DepthFirst, key, found);
          CoverStep(g, order[..i], key, vertices, set x | x in found);
          vertices := vertices + (set x | x in found);
        } else {
          CoverStep(g, order[..i], key, vertices, {});
        }
      }
      assert order[..|order|] == order;
      ComponentsOfAll(g, order);
    }
  }

  /**
   * Heap sort part way: `sorted` is in order, holds none larger than what
   * is left in `heap`, and the two together are `lst` rearranged.
   */
  ghost predicate Extracting(lst: seq<int>, sorted: seq<int>, heap: seq<int>) {
    multiset(sorted) + multiset(heap) == multiset(lst) &&
    NonDecreasing(sorted) &&
    forall a, b :: 0 <= a < |sorted| && 0 <= b < |heap| ==> sorted[a] <= heap[b]
  }

  /** Moving a least element of the heap to the end of `sorted` keeps the heap sort invariant. */
  lemma ExtractMin(lst: seq<int>, sorted: seq<int>, heap: seq<int>, k: nat)
    requires Extracting(lst, sorted, heap)
    requires k < |heap| && forall j :: 0 <= j < |heap| ==> heap[k] <= heap[j]
    ensures Extracting(lst, sorted + [heap[k]], heap[..k] + heap[k + 1..])
  {
    RemoveAt(heap, k);
    var rest := heap[..k] + heap[k + 1..];
    assert forall b :: 0 <= b < |rest| ==> rest[b] == heap[if b < k then b else b + 1];
  }

  /**
   * The push loop of dfs: pops the sorted neighbours from their end and
   * pushes each onto the stack, so the stack gains them largest first.
   */
  method PushPopped(stack: seq<int>, sorted: seq<int>) returns (stack': seq<int>, ghost seg: seq<int>)
    requires NonDecreasing(sorted)
    ensures stack' == stack + seg
    ensures NonIncreasing(seg)
    ensures multiset(seg) == multiset(sorted)
  {
    stack' := stack;
    var rest := sorted;
    while |rest| > 0
      invariant |rest| <= |sorted| && rest == sorted[..|rest|]
      invariant stack' == stack + Reverse(sorted[|rest|..])
    {
      var n := |rest|;
      var top := rest[n - 1];
      rest := rest[..n - 1];
      assert top == sorted[n - 1] && rest == sorted[..n - 1];
      ReverseStep(sorted, n);
      ghost var pushed := Reverse(sorted[n..]);
      assert stack' + [top] == stack + (pushed + [top]);
      stack' := stack' + [top];
    }
    assert sorted[0..] == sorted;
    seg := Reverse(sorted);
    ReverseOrder(sorted);
  }
}
