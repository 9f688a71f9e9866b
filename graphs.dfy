/**
 * The graph model shared by the traversal, shortest-path and generator
 * components: a map from a vertex to its ordered list of outgoing
 * (target, weight) edges, with walks, reachability and the edge count.
 */
module Graphs {

  /** An outgoing edge: its target and its non-negative weight. */
  type Edge<V> = (V, nat)

  /** A vertex's key maps to its outgoing edges, in stored order. */
  type Graph<V> = map<V, seq<Edge<V>>>

  /** The set of elements of a sequence. */
  function Elems<T>(s: seq<T>): set<T>
  {
    set x | x in s
  }

  /**
   * Regrouping a concatenation. Stated as a lemma so that callers get
   * the instance in one step; as an inline assertion the same fact is
   * costly to the solver next to the facts about the traversal.
   */
  lemma AppendAssoc<T>(a: seq<T>, b: seq<T>, c: seq<T>)
    ensures a + (b + c) == (a + b) + c
  {
  }

  /** No element of s occurs twice. */
  predicate Distinct<T(==)>(s: seq<T>)
  {
    forall i, j :: 0 <= i < j < |s| ==> s[i] != s[j]
  }

  lemma DistinctConcat<T>(a: seq<T>, b: seq<T>)
    ensures Distinct(a + b) <==> Distinct(a) && Distinct(b) && Elems(a) !! Elems(b)
  {
    if Distinct(a + b) {
      assert forall i :: 0 <= i < |a| ==> (a + b)[i] == a[i];
      assert forall j :: 0 <= j < |b| ==> (a + b)[|a| + j] == b[j];
      forall i, j | 0 <= i < |a| && 0 <= j < |b| ensures a[i] != b[j] {
        assert (a + b)[i] == a[i] && (a + b)[|a| + j] == b[j];
      }
    }
    if Distinct(a) && Distinct(b) && Elems(a) !! Elems(b) {
      forall i, j | 0 <= i < j < |a + b| ensures (a + b)[i] != (a + b)[j] {
        if j < |a| {
        } else if i >= |a| {
          assert (a + b)[i] == b[i - |a|] && (a + b)[j] == b[j - |a|];
        } else {
          assert (a + b)[i] in Elems(a) && (a + b)[j] in Elems(b);
        }
      }
    }
  }

  /** A sequence without repeats has as many distinct elements as it is long. */
  lemma {:induction false} DistinctCard<T>(s: seq<T>)
    requires Distinct(s)
    ensures |Elems(s)| == |s|
  {
    if s != [] {
      DistinctConcat([s[0]], s[1..]);
      assert s == [s[0]] + s[1..];
      DistinctCard(s[1..]);
      assert Elems(s) == {s[0]} + Elems(s[1..]);
    }
  }

  /** The outgoing edges of v; a vertex with no key has none. */
  function Adj<V>(g: Graph<V>, v: V): seq<Edge<V>>
  {
    if v in g then g[v] else []
  }

  /** The targets of an edge list, in order. */
  function Targets<V>(es: seq<Edge<V>>): seq<V>
  {
    seq(|es|, i requires 0 <= i < |es| => es[i].0)
  }

  lemma TargetOfEdge<V>(es: seq<Edge<V>>, e: Edge<V>)
    requires e in es
    ensures e.0 in Targets(es)
  {
    var k :| 0 <= k < |es| && es[k] == e;
    assert Targets(es)[k] == e.0;
  }

  lemma EdgeOfTarget<V>(es: seq<Edge<V>>, x: V) returns (e: Edge<V>)
    requires x in Targets(es)
    ensures e in es && e.0 == x
  {
    var k :| 0 <= k < |Targets(es)| && Targets(es)[k] == x;
    e := es[k];
  }

  /** Every edge target is itself a key of the graph. */
  ghost predicate TargetsAreKeys<V>(g: Graph<V>)
  {
    forall u, e :: u in g && e in g[u] ==> e.0 in g
  }

  /** No adjacency list names the same target twice. */
  ghost predicate NoRepeatedTargets<V>(g: Graph<V>)
  {
    forall u :: u in g ==> Distinct(Targets(g[u]))
  }

  /**
   * p is a walk whose i-th step follows an edge of weight ws[i] from
   * p[i] to p[i + 1].
   */
  ghost predicate IsWalk<V>(g: Graph<V>, p: seq<V>, ws: seq<nat>)
  {
    |p| == |ws| + 1 &&
    forall i :: 0 <= i < |ws| ==> (p[i + 1], ws[i]) in Adj(g, p[i])
  }

  ghost predicate WalkBetween<V>(g: Graph<V>, p: seq<V>, ws: seq<nat>, s: V, t: V)
  {
    IsWalk(g, p, ws) && p[0] == s && p[|p| - 1] == t
  }

  /** t can be reached from s by following edges. */
  ghost predicate Reachable<V(!new)>(g: Graph<V>, s: V, t: V)
  {
    exists p, ws :: WalkBetween(g, p, ws, s, t)
  }

  /** The total weight of a walk. */
  function Sum(ws: seq<nat>): nat
  {
    if ws == [] then 0 else Sum(ws[..|ws| - 1]) + ws[|ws| - 1]
  }

  lemma {:induction false} SumCons(w: nat, ws: seq<nat>)
    ensures Sum([w] + ws) == w + Sum(ws)
    decreases |ws|
  {
    if ws != [] {
      assert ([w] + ws)[..|ws|] == [w] + ws[..|ws| - 1];
      SumCons(w, ws[..|ws| - 1]);
    }
  }

  lemma ReachableSelf<V(!new)>(g: Graph<V>, s: V)
    ensures Reachable(g, s, s)
  {
    assert WalkBetween(g, [s], [], s, s);
  }

  /** Appending an edge out of a walk's last vertex gives a walk one edge heavier. */
  lemma WalkExtend<V>(g: Graph<V>, p: seq<V>, ws: seq<nat>, t: V, w: nat)
    requires IsWalk(g, p, ws) && (t, w) in Adj(g, p[|p| - 1])
    ensures IsWalk(g, p + [t], ws + [w])
    ensures Sum(ws + [w]) == Sum(ws) + w
  {
    assert (ws + [w])[..|ws|] == ws;
    forall i | 0 <= i < |ws + [w]| ensures ((p + [t])[i + 1], (ws + [w])[i]) in Adj(g, (p + [t])[i]) {
      if i < |ws| {
        assert (p + [t])[i + 1] == p[i + 1] && (p + [t])[i] == p[i];
      }
    }
  }

  /** Putting an edge into a walk's first vertex in front gives a walk one edge heavier. */
  lemma WalkPrepend<V>(g: Graph<V>, u: V, w: nat, p: seq<V>, ws: seq<nat>)
    requires IsWalk(g, p, ws) && (p[0], w) in Adj(g, u)
    ensures IsWalk(g, [u] + p, [w] + ws)
    ensures Sum([w] + ws) == w + Sum(ws)
  {
    SumCons(w, ws);
    forall i | 0 <= i < |[w] + ws| ensures (([u] + p)[i + 1], ([w] + ws)[i]) in Adj(g, ([u] + p)[i]) {
      if i > 0 {
        assert ([u] + p)[i + 1] == p[i] && ([u] + p)[i] == p[i - 1] && ([w] + ws)[i] == ws[i - 1];
      }
    }
  }

  lemma ReachableExtend<V(!new)>(g: Graph<V>, s: V, u: V, e: Edge<V>)
    requires Reachable(g, s, u) && e in Adj(g, u)
    ensures Reachable(g, s, e.0)
  {
    var p, ws :| WalkBetween(g, p, ws, s, u);
    WalkExtend(g, p, ws, e.0, e.1);
    assert WalkBetween(g, p + [e.0], ws + [e.1], s, e.0);
  }

  /** No edge leaves the set c. */
  ghost predicate Closed<V>(g: Graph<V>, c: set<V>)
  {
    forall u, e :: u in c && e in Adj(g, u) ==> e.0 in c
  }

  /** A walk that starts inside a closed set never leaves it. */
  lemma {:induction false} ClosedKeepsWalk<V>(g: Graph<V>, c: set<V>, p: seq<V>, ws: seq<nat>)
    requires Closed(g, c) && IsWalk(g, p, ws) && p[0] in c
    ensures p[|p| - 1] in c
    decreases |ws|
  {
    if ws != [] {
      var n := |ws|;
      assert IsWalk(g, p[..n], ws[..n - 1]) by {
        forall i | 0 <= i < n - 1 ensures (p[..n][i + 1], ws[..n - 1][i]) in Adj(g, p[..n][i]) {
          assert (p[i + 1], ws[i]) in Adj(g, p[i]);
        }
      }
      ClosedKeepsWalk(g, c, p[..n], ws[..n - 1]);
      assert (p[n], ws[n - 1]) in Adj(g, p[n - 1]);
    }
  }

  lemma ClosedKeepsReachable<V(!new)>(g: Graph<V>, c: set<V>, s: V, t: V)
    requires Closed(g, c) && s in c && Reachable(g, s, t)
    ensures t in c
  {
    var p, ws :| WalkBetween(g, p, ws, s, t);
    ClosedKeepsWalk(g, c, p, ws);
  }

  /** Every edge of g is also an edge of h, out of the same vertex. */
  ghost predicate SubGraph<V>(g: Graph<V>, h: Graph<V>)
  {
    forall u, e :: u in g && e in g[u] ==> e in Adj(h, u)
  }

  /** Adding edges never makes a vertex unreachable. */
  lemma ReachableInSuperGraph<V(!new)>(g: Graph<V>, h: Graph<V>, s: V, t: V)
    requires SubGraph(g, h) && Reachable(g, s, t)
    ensures Reachable(h, s, t)
  {
    var p, ws :| WalkBetween(g, p, ws, s, t);
    assert WalkBetween(h, p, ws, s, t);
  }

  /** One (vertex, position) slot per entry of every adjacency list. */
  function EdgeSlots<V>(g: Graph<V>): set<(V, nat)>
  {
    set u, i | u in g && 0 <= i < |g[u]| :: (u, i)
  }

  /** The number of recorded edges: the sum of the adjacency-list sizes. */
  function CountEdges<V>(g: Graph<V>): nat
  {
    |EdgeSlots(g)|
  }

  function Row<V(==)>(k: V, m: nat): set<(V, nat)>
  {
    set i | 0 <= i < m :: (k, i)
  }

  lemma {:induction false} RowCard<V>(k: V, m: nat)
    ensures |Row(k, m)| == m
  {
    if m > 0 {
      RowCard(k, m - 1);
      assert Row(k, m) == Row(k, m - 1) + {(k, m - 1)};
    }
  }

  /** The edge count is the size of one adjacency list plus the count of the rest. */
  lemma CountEdgesSplit<V>(g: Graph<V>, k: V)
    requires k in g
    ensures CountEdges(g) == CountEdges(g - {k}) + |g[k]|
  {
    var rest := g - {k};
    assert EdgeSlots(g) == EdgeSlots(rest) + Row(k, |g[k]|);
    assert EdgeSlots(rest) !! Row(k, |g[k]|);
    RowCard(k, |g[k]|);
  }

  /** A graph whose lists are all empty has no edges. */
  lemma CountEdgesNone<V>(g: Graph<V>)
    requires forall u :: u in g ==> g[u] == []
    ensures CountEdges(g) == 0
  {
    assert EdgeSlots(g) == {};
  }

  /** Appending one edge to one list adds one to the count. */
  lemma CountEdgesAppend<V>(g: Graph<V>, u: V, e: Edge<V>)
    requires u in g
    ensures CountEdges(g[u := g[u] + [e]]) == CountEdges(g) + 1
  {
    var h := g[u := g[u] + [e]];
    CountEdgesSplit(g, u);
    CountEdgesSplit(h, u);
    assert h - {u} == g - {u};
  }

  /**
   * One nonlinear step, kept apart: proved here with nothing else in
   * scope, it is cheap; inline beside the edge-count facts it is not.
   */
  lemma MulSucc(a: nat, m: nat)
    ensures (a + 1) * m == a * m + m
  {
  }

  /** When every list holds at least m edges, there are at least |g| * m edges. */
  lemma {:induction false} CountEdgesAtLeast<V>(g: Graph<V>, m: nat)
    requires forall u :: u in g ==> |g[u]| >= m
    ensures CountEdges(g) >= |g| * m
    decreases |g|
  {
    if |g| > 0 {
      var k :| k in g;
      var rest := g - {k};
      CountEdgesSplit(g, k);
      CountEdgesAtLeast(rest, m);
      assert |g| == |rest| + 1;
      MulSucc(|rest|, m);
    }
  }
}
