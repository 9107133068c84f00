/**
 * What a traversal of a graph is, independently of how a graph is stored.
 *
 * A graph is seen as a map from each vertex to the set of its successors.
 * Both graph classes give such a view of themselves, and their `dfs` and
 * `bfs` methods are proved against `TraversalOf` below, which pins the
 * visiting order down completely:
 *
 *  - depth first: the next vertex is the least unvisited successor of the
 *    most recently visited vertex that still has an unvisited successor;
 *  - breadth first: the next vertex is the least unvisited successor of the
 *    earliest visited vertex that still has an unvisited successor.
 *
 * The loops keep their stack or queue as one segment per visited vertex
 * (`Flatten`), and the step lemmas here carry that invariant across one
 * pop, so that the methods only have to relate their own containers to it.
 */
module Traversal {
  import opened Lists

  datatype Option<T> = None | Some(value: T)

  /** The start edges a constructor is given: `None` gives no edges. */
  function EdgesOf<E>(startEdges: Option<seq<E>>): seq<E> {
    if startEdges.Some? then startEdges.value else []
  }

  /** Every vertex (a key) with the set of its successors. */
  type Graph = map<int, set<int>>

  function Succ(g: Graph, x: int): set<int> {
    if x in g then g[x] else {}
  }

  /** Successors are vertices. */
  ghost predicate WellFormed(g: Graph) {
    forall x, y :: x in g && y in g[x] ==> y in g
  }

  /** Every edge has its reverse: the view of an undirected graph. */
  ghost predicate Symmetric(g: Graph) {
    forall x, y :: x in g && y in g[x] ==> y in g && x in g[y]
  }

  // ---------------------------------------------------------------------
  // Paths and reachability

  /** A non-empty vertex sequence whose consecutive vertices are joined by edges. */
  ghost predicate IsPath(g: Graph, p: seq<int>) {
    |p| >= 1 && p[0] in g &&
    forall k :: 0 < k < |p| ==> p[k] in Succ(g, p[k - 1])
  }

  ghost predicate Reachable(g: Graph, s: int, t: int) {
    exists p :: IsPath(g, p) && p[0] == s && Last(p) == t
  }

  lemma ReachableSelf(g: Graph, s: int)
    requires s in g
    ensures Reachable(g, s, s)
  {
    assert IsPath(g, [s]);
  }

  lemma ReachableStep(g: Graph, s: int, x: int, y: int)
    requires Reachable(g, s, x) && y in Succ(g, x)
    ensures Reachable(g, s, y)
  {
    var p :| IsPath(g, p) && p[0] == s && Last(p) == x;
    var q := p + [y];
    assert forall k :: 0 <= k < |p| ==> q[k] == p[k];
    assert IsPath(g, q);
    assert q[0] == s && Last(q) == y;
  }

  /** In a well-formed graph only vertices are reachable. */
  lemma ReachableInGraph(g: Graph, s: int, t: int)
    requires WellFormed(g) && Reachable(g, s, t)
    ensures t in g
  {
    var p :| IsPath(g, p) && p[0] == s && Last(p) == t;
    if |p| > 1 {
      assert p[|p| - 1] in Succ(g, p[|p| - 2]);
    }
  }

  lemma {:induction false} ReachableTrans(g: Graph, a: int, b: int, c: int)
    requires Reachable(g, a, b) && Reachable(g, b, c)
    ensures Reachable(g, a, c)
  {
    var p :| IsPath(g, p) && p[0] == a && Last(p) == b;
    var q :| IsPath(g, q) && q[0] == b && Last(q) == c;
    var r := p + q[1..];
    assert forall k :: 0 <= k < |p| ==> r[k] == p[k];
    assert forall k :: |p| <= k < |r| ==> r[k] == q[k - |p| + 1];
    assert IsPath(g, r);
    assert r[0] == a && Last(r) == c;
  }

  lemma ReachableSymmetric(g: Graph, s: int, t: int)
    requires Symmetric(g) && Reachable(g, s, t)
    ensures Reachable(g, t, s)
  {
    var p :| IsPath(g, p) && p[0] == s && Last(p) == t;
    var n := |p|;
    var q := seq(n, k requires 0 <= k < n => p[n - 1 - k]);
    forall k | 0 < k < n ensures q[k] in Succ(g, q[k - 1]) {
      assert q[k - 1] in Succ(g, q[k]);
    }
    if n > 1 {
      assert p[n - 1] in Succ(g, p[n - 2]);
      assert p[n - 2] in g;
    }
    assert q[0] == p[n - 1];
    assert IsPath(g, q);
  }

  /** A set closed under successors holds everything reachable from its members. */
  lemma ClosedSetReaches(g: Graph, S: set<int>, s: int, t: int)
    requires forall x, y :: x in S && y in Succ(g, x) ==> y in S
    requires s in S && Reachable(g, s, t)
    ensures t in S
  {
    var p :| IsPath(g, p) && p[0] == s && Last(p) == t;
    var k := 0;
    while k < |p| - 1
      invariant 0 <= k < |p| && p[k] in S
    {
      assert p[k + 1] in Succ(g, p[k]);
      k := k + 1;
    }
  }

  // ---------------------------------------------------------------------
  // Cycles

  /** A closed walk of at least one edge. */
  ghost predicate IsCycle(g: Graph, p: seq<int>) {
    IsPath(g, p) && |p| >= 2 && p[0] == Last(p)
  }

  ghost predicate OnCycle(g: Graph, v: int) {
    exists p :: IsCycle(g, p) && p[0] == v
  }

  /** Some vertex reachable from `v` has an edge back into `v`. */
  ghost predicate ReturnsTo(g: Graph, v: int) {
    exists u :: Reachable(g, v, u) && v in Succ(g, u)
  }

  lemma ReturnsToIffOnCycle(g: Graph, v: int)
    ensures ReturnsTo(g, v) <==> OnCycle(g, v)
  {
    if ReturnsTo(g, v) {
      var u :| Reachable(g, v, u) && v in Succ(g, u);
      var p :| IsPath(g, p) && p[0] == v && Last(p) == u;
      var q := p + [v];
      assert forall k :: 0 <= k < |p| ==> q[k] == p[k];
      assert IsCycle(g, q) && q[0] == v;
    }
    if OnCycle(g, v) {
      var p :| IsCycle(g, p) && p[0] == v;
      var q := DropLast(p);
      assert IsPath(g, q) && q[0] == v;
      assert v in Succ(g, Last(q));
    }
  }

  // ---------------------------------------------------------------------
  // Visiting order

  datatype Discipline = DepthFirst | BreadthFirst

  /** `x` has a successor that is not in `P`. */
  ghost predicate HasFresh(g: Graph, x: int, P: seq<int>) {
    exists y :: y in Succ(g, x) && y !in P
  }

  /** `v` is the least successor of `x` that is not in `P`. */
  ghost predicate LeastFresh(g: Graph, x: int, P: seq<int>, v: int) {
    v in Succ(g, x) && v !in P &&
    forall y :: y in Succ(g, x) && y < v ==> y in P
  }

  /** Which visited vertex the discipline tries first: position `j` before position `i`. */
  predicate Preferred(d: Discipline, i: int, j: int) {
    if d == DepthFirst then j > i else j < i
  }

  /** Having visited `P` in this order, the discipline visits `v` next. */
  ghost predicate Next(g: Graph, d: Discipline, P: seq<int>, v: int) {
    exists i :: 0 <= i < |P| && LeastFresh(g, P[i], P, v) &&
      forall j :: 0 <= j < |P| && Preferred(d, i, j) ==> !HasFresh(g, P[j], P)
  }

  /** Nothing is left to visit: every successor of a visited vertex is visited. */
  ghost predicate Closed(g: Graph, P: seq<int>) {
    forall x :: x in P ==> !HasFresh(g, x, P)
  }

  /** Position `k` of `vis` holds the vertex the discipline picks after `vis[..k]`. */
  ghost predicate NextAt(g: Graph, d: Discipline, vis: seq<int>, k: int)
    requires 0 < k < |vis|
  {
    Next(g, d, vis[..k], vis[k])
  }

  /** `vis` starts at `start` and every later vertex is the one the discipline picks. */
  ghost predicate OrderOk(g: Graph, d: Discipline, start: int, vis: seq<int>) {
    |vis| >= 1 && vis[0] == start &&
    forall k :: 0 < k < |vis| ==> NextAt(g, d, vis, k)
  }

  /**
   * `r` is what a traversal under `d` from `start` returns when it stops as
   * soon as `stop` has been visited: nothing for a start that is not a
   * vertex; otherwise the visiting order, ending either at `stop` or when
   * nothing is left to visit.
   */
  ghost predicate TraversalOf(g: Graph, d: Discipline, start: int, stop: Option<int>, r: seq<int>) {
    if start !in g then r == []
    else
      OrderOk(g, d, start, r) &&
      (forall k :: 0 <= k < |r| - 1 ==> stop != Some(r[k])) &&
      (stop == Some(Last(r)) || Closed(g, r))
  }

  lemma NextUnique(g: Graph, d: Discipline, P: seq<int>, v: int, w: int)
    requires Next(g, d, P, v) && Next(g, d, P, w)
    ensures v == w
  {
    var i :| 0 <= i < |P| && LeastFresh(g, P[i], P, v) &&
      forall j :: 0 <= j < |P| && Preferred(d, i, j) ==> !HasFresh(g, P[j], P);
    var i' :| 0 <= i' < |P| && LeastFresh(g, P[i'], P, w) &&
      forall j :: 0 <= j < |P| && Preferred(d, i', j) ==> !HasFresh(g, P[j], P);
    assert HasFresh(g, P[i], P) && HasFresh(g, P[i'], P);
  }

  lemma {:induction false} OrderReachable(g: Graph, d: Discipline, start: int, vis: seq<int>, k: nat)
    requires start in g && OrderOk(g, d, start, vis) && k < |vis|
    ensures Reachable(g, start, vis[k])
    decreases k
  {
    if k == 0 {
      ReachableSelf(g, start);
    } else {
      var P := vis[..k];
      OrderNext(g, d, start, vis, k);
      var i :| 0 <= i < |P| && LeastFresh(g, P[i], P, vis[k]) &&
        forall j :: 0 <= j < |P| && Preferred(d, i, j) ==> !HasFresh(g, P[j], P);
      OrderReachable(g, d, start, vis, i);
      ReachableStep(g, start, vis[i], vis[k]);
    }
  }

  /** What a traversal promises its caller, derived from `TraversalOf`. */
  lemma TraversalFacts(g: Graph, d: Discipline, start: int, stop: Option<int>, r: seq<int>)
    requires TraversalOf(g, d, start, stop, r)
    ensures r == [] <==> start !in g
    ensures r != [] ==> r[0] == start
    ensures NoDup(r)
    ensures forall x :: x in r ==> Reachable(g, start, x)
    ensures stop.Some? && stop.value in r ==> Last(r) == stop.value
    ensures (stop.None? || stop.value !in r) ==> forall t :: Reachable(g, start, t) ==> t in r
  {
    if start in g {
      forall a, b | 0 <= a < b < |r| ensures r[a] != r[b] {
        OrderNext(g, d, start, r, b);
        assert r[a] in r[..b];
      }
      forall x | x in r ensures Reachable(g, start, x) {
        var k :| 0 <= k < |r| && r[k] == x;
        OrderReachable(g, d, start, r, k);
      }
      if stop.None? || stop.value !in r {
        assert Closed(g, r);
        forall t | Reachable(g, start, t) ensures t in r {
          var S := set x | x in r;
          forall x, y | x in S && y in Succ(g, x) ensures y in S {
            assert !HasFresh(g, x, r);
          }
          ClosedSetReaches(g, S, start, t);
        }
      }
    } else {
      assert forall t :: !Reachable(g, start, t);
    }
  }

  /** The visiting order is determined: two traversals with the same inputs agree. */
  lemma TraversalUnique(g: Graph, d: Discipline, start: int, stop: Option<int>, r1: seq<int>, r2: seq<int>)
    requires TraversalOf(g, d, start, stop, r1) && TraversalOf(g, d, start, stop, r2)
    ensures r1 == r2
  {
    if start in g {
      if |r1| <= |r2| {
        PrefixOfLonger(g, d, start, stop, r1, r2);
      } else {
        PrefixOfLonger(g, d, start, stop, r2, r1);
      }
    }
  }

  lemma PrefixOfLonger(g: Graph, d: Discipline, start: int, stop: Option<int>, r1: seq<int>, r2: seq<int>)
    requires start in g
    requires TraversalOf(g, d, start, stop, r1) && TraversalOf(g, d, start, stop, r2)
    requires |r1| <= |r2|
    ensures r1 == r2
  {
    var m := |r1|;
    OrderPrefixAgree(g, d, start, r1, r2, m);
    assert r1 == r2[..m];
    if m < |r2| {
      if stop != Some(Last(r1)) {
        OrderNext(g, d, start, r2, m);
        var i :| 0 <= i < m && LeastFresh(g, r1[i], r1, r2[m]);
        assert HasFresh(g, r1[i], r1);
      }
    }
  }

  lemma {:induction false} OrderPrefixAgree(g: Graph, d: Discipline, start: int, r1: seq<int>, r2: seq<int>, k: nat)
    requires OrderOk(g, d, start, r1) && OrderOk(g, d, start, r2)
    requires 1 <= k <= |r1| && k <= |r2|
    ensures r1[..k] == r2[..k]
  {
    if k > 1 {
      OrderPrefixAgree(g, d, start, r1, r2, k - 1);
      OrderNext(g, d, start, r1, k - 1);
      OrderNext(g, d, start, r2, k - 1);
      NextUnique(g, d, r1[..k - 1], r1[k - 1], r2[k - 1]);
      assert r1[..k] == r1[..k - 1] + [r1[k - 1]];
      assert r2[..k] == r2[..k - 1] + [r2[k - 1]];
    }
  }

  lemma OrderNext(g: Graph, d: Discipline, start: int, vis: seq<int>, k: nat)
    requires OrderOk(g, d, start, vis) && 0 < k < |vis|
    ensures Next(g, d, vis[..k], vis[k])
  {
    assert NextAt(g, d, vis, k);
  }

  // ---------------------------------------------------------------------
  // The stack or queue of a traversal, as one segment per visited vertex

  function Flatten(segs: seq<seq<int>>): seq<int> {
    if segs == [] then [] else Flatten(DropLast(segs)) + Last(segs)
  }

  lemma {:induction false} FlattenEmpty(segs: seq<seq<int>>)
    requires Flatten(segs) == []
    ensures forall i :: 0 <= i < |segs| ==> segs[i] == []
  {
    if segs != [] {
      FlattenEmpty(DropLast(segs));
      assert forall i :: 0 <= i < |segs| - 1 ==> DropLast(segs)[i] == segs[i];
    }
  }

  /** Popping the top of a stack takes the last element of the last non-empty segment. */
  lemma {:induction false} FlattenPopBack(segs: seq<seq<int>>) returns (i: nat)
    requires Flatten(segs) != []
    ensures i < |segs| && segs[i] != []
    ensures forall j :: i < j < |segs| ==> segs[j] == []
    ensures Last(Flatten(segs)) == Last(segs[i])
    ensures DropLast(Flatten(segs)) == Flatten(segs[i := DropLast(segs[i])])
  {
    var n := |segs|;
    var init, last := DropLast(segs), Last(segs);
    if last != [] {
      i := n - 1;
      assert DropLast(segs[i := DropLast(last)]) == init;
      assert DropLast(Flatten(init) + last) == Flatten(init) + DropLast(last);
    } else {
      assert Flatten(segs) == Flatten(init) + [];
      i := FlattenPopBack(init);
      var segs' := segs[i := DropLast(segs[i])];
      assert DropLast(segs') == init[i := DropLast(init[i])];
      assert Last(segs') == [];
      assert Flatten(segs') == Flatten(DropLast(segs')) + [];
    }
  }

  /** Taking the front of a queue takes the first element of the first non-empty segment. */
  lemma {:induction false} FlattenPopFront(segs: seq<seq<int>>) returns (i: nat)
    requires Flatten(segs) != []
    ensures i < |segs| && segs[i] != []
    ensures forall j :: 0 <= j < i ==> segs[j] == []
    ensures Flatten(segs)[0] == segs[i][0]
    ensures Flatten(segs)[1..] == Flatten(segs[i := segs[i][1..]])
  {
    var n := |segs|;
    var init, last := DropLast(segs), Last(segs);
    if Flatten(init) != [] {
      i := FlattenPopFront(init);
      var segs' := segs[i := segs[i][1..]];
      assert DropLast(segs') == init[i := init[i][1..]];
      assert Last(segs') == last;
      assert (Flatten(init) + last)[1..] == Flatten(init)[1..] + last;
    } else {
      i := n - 1;
      FlattenEmpty(init);
      assert forall j :: 0 <= j < n - 1 ==> segs[j] == init[j];
      var segs' := segs[i := last[1..]];
      assert DropLast(segs') == init;
    }
  }

  /** The order a discipline keeps within one segment: least element where it pops. */
  predicate Ordered(d: Discipline, s: seq<int>) {
    if d == DepthFirst then NonIncreasing(s) else NonDecreasing(s)
  }

  /**
   * Segment `i` belongs to `vis[i]`: it holds successors of `vis[i]` only, in
   * the discipline's order, and every successor of `vis[i]` not yet visited.
   */
  ghost predicate SegmentsOk(g: Graph, d: Discipline, vis: seq<int>, segs: seq<seq<int>>) {
    |segs| <= |vis| &&
    (forall i :: 0 <= i < |segs| ==> Ordered(d, segs[i])) &&
    (forall i, y :: 0 <= i < |segs| && y in segs[i] ==> y in Succ(g, vis[i])) &&
    (forall i, y :: 0 <= i < |segs| && y in Succ(g, vis[i]) && y !in vis ==> y in segs[i])
  }

  /** The loop invariant of a traversal once its start vertex is visited. */
  ghost predicate FrontierInv(g: Graph, d: Discipline, start: int, vis: seq<int>, segs: seq<seq<int>>) {
    OrderOk(g, d, start, vis) && |segs| == |vis| && SegmentsOk(g, d, vis, segs)
  }

  /** Where the discipline pops: the top of a stack, the front of a queue. */
  function Front(d: Discipline, s: seq<int>): int
    requires s != []
  {
    if d == DepthFirst then Last(s) else s[0]
  }

  function PopFront(d: Discipline, s: seq<int>): seq<int>
    requires s != []
  {
    if d == DepthFirst then DropLast(s) else s[1..]
  }

  /**
   * Where one pop takes its vertex from: segment `i`, the one the discipline
   * prefers among the non-empty ones, loses `item` and becomes `rest[i]`.
   */
  ghost predicate PoppedAt(d: Discipline, segs: seq<seq<int>>, i: int, rest: seq<seq<int>>, item: int) {
    0 <= i < |segs| && |rest| == |segs| &&
    (forall j :: 0 <= j < |segs| && j != i ==> rest[j] == segs[j]) &&
    segs[i] == (if d == DepthFirst then rest[i] + [item] else [item] + rest[i]) &&
    (forall j :: 0 <= j < |segs| && Preferred(d, i, j) ==> segs[j] == [])
  }

  lemma PopSplit(d: Discipline, segs: seq<seq<int>>) returns (i: nat, rest: seq<seq<int>>)
    requires Flatten(segs) != []
    ensures PoppedAt(d, segs, i, rest, Front(d, Flatten(segs)))
    ensures Flatten(rest) == PopFront(d, Flatten(segs))
  {
    if d == DepthFirst {
      i := FlattenPopBack(segs);
      rest := segs[i := DropLast(segs[i])];
      assert segs[i] == rest[i] + [Last(segs[i])];
    } else {
      i := FlattenPopFront(segs);
      rest := segs[i := segs[i][1..]];
      assert segs[i] == [segs[i][0]] + rest[i];
    }
  }

  /**
   * One pop: the popped vertex is either already visited, and the invariant
   * holds for the rest, or it is the vertex the discipline visits next.
   */
  lemma Pop(g: Graph, d: Discipline, start: int, vis: seq<int>, segs: seq<seq<int>>)
      returns (rest: seq<seq<int>>)
    requires WellFormed(g) && FrontierInv(g, d, start, vis, segs) && Flatten(segs) != []
    ensures Flatten(rest) == PopFront(d, Flatten(segs))
    ensures Front(d, Flatten(segs)) in g
    ensures Front(d, Flatten(segs)) in vis ==> FrontierInv(g, d, start, vis, rest)
    ensures Front(d, Flatten(segs)) !in vis ==>
      var vis' := vis + [Front(d, Flatten(segs))];
      OrderOk(g, d, start, vis') && |rest| + 1 == |vis'| && SegmentsOk(g, d, vis', rest)
  {
    var item := Front(d, Flatten(segs));
    var i;
    i, rest := PopSplit(d, segs);
    assert item in segs[i];
    assert item in Succ(g, vis[i]);
    if item in vis {
      PopSeen(g, d, start, vis, segs, i, rest, item);
    } else {
      PopFresh(g, d, start, vis, segs, i, rest, item);
    }
  }

  lemma PopSeen(g: Graph, d: Discipline, start: int, vis: seq<int>, segs: seq<seq<int>>,
                i: int, rest: seq<seq<int>>, item: int)
    requires FrontierInv(g, d, start, vis, segs) && PoppedAt(d, segs, i, rest, item) && item in vis
    ensures FrontierInv(g, d, start, vis, rest)
  {
    RestOrdered(d, segs, i, rest, item);
    forall j, y | 0 <= j < |rest| && y in rest[j] ensures y in Succ(g, vis[j]) {
      assert y in segs[j];
    }
    forall j, y | 0 <= j < |rest| && y in Succ(g, vis[j]) && y !in vis ensures y in rest[j] {
      assert y in segs[j];
    }
  }

  lemma PopFresh(g: Graph, d: Discipline, start: int, vis: seq<int>, segs: seq<seq<int>>,
                 i: int, rest: seq<seq<int>>, item: int)
    requires FrontierInv(g, d, start, vis, segs) && PoppedAt(d, segs, i, rest, item) && item !in vis
    ensures OrderOk(g, d, start, vis + [item]) && |rest| + 1 == |vis + [item]|
    ensures SegmentsOk(g, d, vis + [item], rest)
  {
    PopIsNext(g, d, start, vis, segs, i, rest, item);
    OrderExtend(g, d, start, vis, item);
    RestOrdered(d, segs, i, rest, item);
    var vis' := vis + [item];
    forall j, y | 0 <= j < |rest| && y in Succ(g, vis'[j]) && y !in vis' ensures y in rest[j] {
      assert vis'[j] == vis[j];
      assert y in segs[j];
    }
    forall j, y | 0 <= j < |rest| && y in rest[j] ensures y in Succ(g, vis'[j]) {
      assert vis'[j] == vis[j];
      assert y in segs[j];
    }
  }

  /** An unvisited popped vertex is the one the discipline visits next. */
  lemma PopIsNext(g: Graph, d: Discipline, start: int, vis: seq<int>, segs: seq<seq<int>>,
                  i: int, rest: seq<seq<int>>, item: int)
    requires FrontierInv(g, d, start, vis, segs) && PoppedAt(d, segs, i, rest, item) && item !in vis
    ensures Next(g, d, vis, item)
  {
    PopLeast(d, segs[i], rest[i], item);
    assert LeastFresh(g, vis[i], vis, item) by {
      assert item in segs[i];
      forall y | y in Succ(g, vis[i]) && y < item ensures y in vis {
        assert y !in segs[i];
      }
    }
    forall j | 0 <= j < |vis| && Preferred(d, i, j) ensures !HasFresh(g, vis[j], vis) {
      assert segs[j] == [];
    }
  }

  lemma OrderExtend(g: Graph, d: Discipline, start: int, vis: seq<int>, item: int)
    requires OrderOk(g, d, start, vis) && Next(g, d, vis, item)
    ensures OrderOk(g, d, start, vis + [item])
  {
    var vis' := vis + [item];
    assert vis'[..|vis|] == vis;
    forall k | 0 < k < |vis'| ensures NextAt(g, d, vis', k) {
      if k < |vis| {
        assert vis'[..k] == vis[..k];
        assert NextAt(g, d, vis, k);
      }
    }
  }

  lemma RestOrdered(d: Discipline, segs: seq<seq<int>>, i: int, rest: seq<seq<int>>, item: int)
    requires PoppedAt(d, segs, i, rest, item)
    requires forall j :: 0 <= j < |segs| ==> Ordered(d, segs[j])
    ensures forall j :: 0 <= j < |rest| ==> Ordered(d, rest[j])
  {
    assert Ordered(d, segs[i]);
    if d == DepthFirst {
      assert rest[i] == segs[i][..|rest[i]|];
    } else {
      assert rest[i] == segs[i][1..];
    }
  }

  /** The element a discipline pops from an ordered segment is its least. */
  lemma PopLeast(d: Discipline, seg: seq<int>, tail: seq<int>, item: int)
    requires Ordered(d, seg)
    requires seg == (if d == DepthFirst then tail + [item] else [item] + tail)
    ensures forall y :: y in seg ==> item <= y
  {
    if d == DepthFirst {
      assert item == seg[|seg| - 1];
    } else {
      assert item == seg[0];
    }
  }

  /** Pushing the visited vertex's successors, as one new segment, restores the invariant. */
  lemma Visit(g: Graph, d: Discipline, start: int, vis: seq<int>, rest: seq<seq<int>>, seg: seq<int>)
    requires OrderOk(g, d, start, vis) && |rest| + 1 == |vis| && SegmentsOk(g, d, vis, rest)
    requires Ordered(d, seg) && forall y :: y in seg <==> y in Succ(g, Last(vis))
    ensures FrontierInv(g, d, start, vis, rest + [seg])
    ensures Flatten(rest + [seg]) == Flatten(rest) + seg
  {
    SegmentsExtend(g, d, vis, rest, seg);
    FlattenSnoc(rest, seg);
  }

  lemma SegmentsExtend(g: Graph, d: Discipline, vis: seq<int>, rest: seq<seq<int>>, seg: seq<int>)
    requires |rest| + 1 == |vis| && SegmentsOk(g, d, vis, rest)
    requires Ordered(d, seg) && forall y :: y in seg <==> y in Succ(g, Last(vis))
    ensures SegmentsOk(g, d, vis, rest + [seg])
  {
    var segs := rest + [seg];
    assert forall i :: 0 <= i < |rest| ==> segs[i] == rest[i];
    assert segs[|rest|] == seg;
  }

  lemma FlattenSnoc(rest: seq<seq<int>>, seg: seq<int>)
    ensures Flatten(rest + [seg]) == Flatten(rest) + seg
  {
    assert DropLast(rest + [seg]) == rest;
  }

  /** An empty stack or queue means nothing is left to visit. */
  lemma Drained(g: Graph, d: Discipline, start: int, vis: seq<int>, segs: seq<seq<int>>)
    requires FrontierInv(g, d, start, vis, segs) && Flatten(segs) == []
    ensures Closed(g, vis)
  {
    FlattenEmpty(segs);
    forall x | x in vis ensures !HasFresh(g, x, vis) {
      var i :| 0 <= i < |vis| && vis[i] == x;
      assert segs[i] == [];
    }
  }

  /**
   * The loop invariant of a search in progress: `vis` is the visiting order
   * so far and `seen` its set, `frontier` is the stack or queue, split into
   * `segs`. Before the first visit the frontier holds the start vertex alone.
   */
  ghost predicate SearchInv(g: Graph, d: Discipline, start: int, stop: Option<int>,
                            vis: seq<int>, seen: set<int>, frontier: seq<int>, segs: seq<seq<int>>) {
    (forall x :: x in seen <==> x in vis) &&
    (vis == [] ==> frontier == [start]) &&
    (vis != [] ==> FrontierInv(g, d, start, vis, segs) && frontier == Flatten(segs)) &&
    (forall k :: 0 <= k < |vis| - 1 ==> stop != Some(vis[k]))
  }

  /** The vertex a search pops next is a vertex of the graph. */
  lemma SearchFront(g: Graph, d: Discipline, start: int, stop: Option<int>,
                    vis: seq<int>, seen: set<int>, frontier: seq<int>, segs: seq<seq<int>>)
    requires WellFormed(g) && start in g && SearchInv(g, d, start, stop, vis, seen, frontier, segs)
    requires frontier != []
    ensures Front(d, frontier) in g
  {
    if vis != [] {
      var _ := Pop(g, d, start, vis, segs);
    }
  }

  /** One iteration that pops a vertex already visited. */
  lemma SearchSkip(g: Graph, d: Discipline, start: int, stop: Option<int>,
                   vis: seq<int>, seen: set<int>, frontier: seq<int>, segs: seq<seq<int>>)
      returns (rest: seq<seq<int>>)
    requires WellFormed(g) && SearchInv(g, d, start, stop, vis, seen, frontier, segs)
    requires frontier != [] && Front(d, frontier) in seen
    ensures SearchInv(g, d, start, stop, vis, seen, PopFront(d, frontier), rest)
  {
    rest := Pop(g, d, start, vis, segs);
  }

  /**
   * One iteration that pops an unvisited vertex, visits it and adds all of
   * its successors to the frontier in the discipline's order.
   */
  lemma SearchVisit(g: Graph, d: Discipline, start: int, stop: Option<int>,
                    vis: seq<int>, seen: set<int>, frontier: seq<int>, segs: seq<seq<int>>, seg: seq<int>)
      returns (segs': seq<seq<int>>)
    requires WellFormed(g) && start in g && SearchInv(g, d, start, stop, vis, seen, frontier, segs)
    requires frontier != [] && Front(d, frontier) !in seen
    requires stop.None? || stop.value !in seen
    requires Ordered(d, seg) && forall y :: y in seg <==> y in Succ(g, Front(d, frontier))
    ensures Front(d, frontier) in g
    ensures SearchInv(g, d, start, stop, vis + [Front(d, frontier)], seen + {Front(d, frontier)},
                      PopFront(d, frontier) + seg, segs')
  {
    var item := Front(d, frontier);
    var rest: seq<seq<int>> := [];
    if vis != [] {
      rest := Pop(g, d, start, vis, segs);
    } else {
      assert PopFront(d, frontier) == [];
    }
    Visit(g, d, start, vis + [item], rest, seg);
    segs' := rest + [seg];
  }

  /** When the loop stops, on an empty frontier or having seen `stop`, it has produced the traversal. */
  lemma SearchDone(g: Graph, d: Discipline, start: int, stop: Option<int>,
                   vis: seq<int>, seen: set<int>, frontier: seq<int>, segs: seq<seq<int>>)
    requires start in g && SearchInv(g, d, start, stop, vis, seen, frontier, segs)
    requires frontier == [] || (stop.Some? && stop.value in seen)
    ensures TraversalOf(g, d, start, stop, vis)
  {
    if frontier == [] {
      Drained(g, d, start, vis, segs);
    } else {
      var k :| 0 <= k < |vis| && vis[k] == stop.value;
      assert k == |vis| - 1;
    }
  }

  // ---------------------------------------------------------------------
  // Connected components of a symmetric graph

  ghost function Component(g: Graph, v: int): set<int> {
    set t | t in g && Reachable(g, v, t)
  }

  ghost function ComponentsOf(g: Graph, s: seq<int>): set<set<int>> {
    set x | x in s :: Component(g, x)
  }

  ghost function Components(g: Graph): set<set<int>> {
    set v | v in g :: Component(g, v)
  }

  lemma SameComponent(g: Graph, u: int, v: int)
    requires Symmetric(g) && Reachable(g, u, v)
    ensures Component(g, u) == Component(g, v)
  {
    ReachableSymmetric(g, u, v);
    forall t | t in Component(g, v) ensures t in Component(g, u) {
      ReachableTrans(g, u, v, t);
    }
    forall t | t in Component(g, u) ensures t in Component(g, v) {
      ReachableTrans(g, v, u, t);
    }
  }

  /** Every vertex lies in exactly one component. */
  lemma ComponentsPartition(g: Graph)
    requires Symmetric(g)
    ensures forall v :: v in g ==> v in Component(g, v) && Component(g, v) in Components(g)
    ensures forall C, C', v :: C in Components(g) && C' in Components(g) && v in C && v in C' ==> C == C'
    ensures forall C :: C in Components(g) ==> C != {} && C <= g.Keys
  {
    forall v | v in g ensures v in Component(g, v) {
      ReachableSelf(g, v);
    }
    forall C, C', v | C in Components(g) && C' in Components(g) && v in C && v in C' ensures C == C' {
      var a :| a in g && C == Component(g, a);
      var b :| b in g && C' == Component(g, b);
      SameComponent(g, a, v);
      SameComponent(g, b, v);
    }
  }

  /** Adding one more root either finds its component already counted or adds a new one. */
  lemma ComponentsOfAppend(g: Graph, s: seq<int>, x: int)
    requires Symmetric(g) && x in g
    ensures (exists k :: 0 <= k < |s| && Reachable(g, s[k], x)) ==>
      ComponentsOf(g, s + [x]) == ComponentsOf(g, s)
    ensures (forall k :: 0 <= k < |s| ==> !Reachable(g, s[k], x)) ==>
      ComponentsOf(g, s + [x]) == ComponentsOf(g, s) + {Component(g, x)} &&
      Component(g, x) !in ComponentsOf(g, s)
  {
    assert forall y :: y in s + [x] <==> y in s || y == x;
    if k :| 0 <= k < |s| && Reachable(g, s[k], x) {
      SameComponent(g, s[k], x);
    }
    if forall k :: 0 <= k < |s| ==> !Reachable(g, s[k], x) {
      ReachableSelf(g, x);
      assert x in Component(g, x);
    }
  }

  /** A complete search from a vertex visits exactly that vertex's component. */
  lemma TraversalComponent(g: Graph, d: Discipline, start: int, r: seq<int>)
    requires WellFormed(g) && TraversalOf(g, d, start, None, r)
    ensures (set x | x in r) == Component(g, start)
  {
    TraversalFacts(g, d, start, None, r);
    forall x | x in r ensures x in g {
      ReachableInGraph(g, start, x);
    }
  }

  /** `vs` is the union of the components of the roots in `s`. */
  ghost predicate Covers(g: Graph, s: seq<int>, vs: set<int>) {
    forall y :: y in vs <==> exists k :: 0 <= k < |s| && y in Component(g, s[k])
  }

  /**
   * One root of the component count: a root already covered adds no
   * component, and an uncovered one adds its own component, which no
   * earlier root had.
   */
  lemma CoverStep(g: Graph, s: seq<int>, x: int, vs: set<int>, found: set<int>)
    requires Symmetric(g) && x in g && Covers(g, s, vs)
    requires x !in vs ==> found == Component(g, x)
    ensures x in vs ==> Covers(g, s + [x], vs) && ComponentsOf(g, s + [x]) == ComponentsOf(g, s)
    ensures x !in vs ==> Covers(g, s + [x], vs + found)
    ensures x !in vs ==> |ComponentsOf(g, s + [x])| == |ComponentsOf(g, s)| + 1
  {
    var s' := s + [x];
    assert forall k :: 0 <= k < |s| ==> s'[k] == s[k];
    ComponentsOfAppend(g, s, x);
    if x in vs {
      var k0 :| 0 <= k0 < |s| && x in Component(g, s[k0]);
      SameComponent(g, s[k0], x);
      forall y | y in Component(g, x) ensures y in vs {
        assert y in Component(g, s[k0]);
      }
    } else {
      assert forall k :: 0 <= k < |s| ==> x !in Component(g, s[k]);
      forall y | y in vs + found ensures exists k :: 0 <= k < |s'| && y in Component(g, s'[k]) {
        if y !in vs {
          assert y in Component(g, s'[|s|]);
        }
      }
    }
  }

  /** Taking every vertex as a root yields every component. */
  lemma ComponentsOfAll(g: Graph, s: seq<int>)
    requires forall v :: v in s <==> v in g
    ensures ComponentsOf(g, s) == Components(g)
  {
  }
}
