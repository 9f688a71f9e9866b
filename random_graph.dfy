/**
 * The random graph synthesiser: n vertices labelled "1".."n" and exactly
 * s edges, every vertex reachable from "1". Every random draw becomes a
 * nondeterministic choice (`:|`); a draw of a pair the graph already
 * joins is modelled as not taken, so each pass of the loop records an
 * edge.
 */
module RandomGraph {
  import opened Graphs

  /** The ArgumentError raised for infeasible counts, holding the bounds it reports. */
  datatype ArgumentError = InvalidInput(minEdges: int, maxEdges: int)

  datatype Result<T> = Ok(value: T) | Err(error: ArgumentError)

  /** The decimal digit for d. */
  function Digit(d: nat): char
    requires d < 10
  {
    "0123456789"[d]
  }

  /** The value of a decimal digit character; 0 for anything else. */
  function DigitValue(c: char): nat
  {
    if '0' <= c <= '9' then (c as int - '0' as int) as nat else 0
  }

  /** `i.to_s`: the decimal form of i, without leading zeros. */
  function Label(i: nat): (r: string)
    ensures |r| >= 1
  {
    if i < 10 then [Digit(i)] else Label(i / 10) + [Digit(i % 10)]
  }

  /** Reads a string of decimal digits back as a number. */
  function Parse(s: string): nat
  {
    if s == [] then 0 else Parse(s[..|s| - 1]) * 10 + DigitValue(s[|s| - 1])
  }

  lemma {:induction false} ParseLabel(i: nat)
    ensures Parse(Label(i)) == i
  {
    if i >= 10 {
      var l := Label(i);
      ParseLabel(i / 10);
      assert l[..|l| - 1] == Label(i / 10);
      assert DigitValue(l[|l| - 1]) == i % 10;
    }
  }

  /** Distinct numbers get distinct labels. */
  lemma LabelInjective(i: nat, j: nat)
    ensures Label(i) == Label(j) ==> i == j
  {
    ParseLabel(i);
    ParseLabel(j);
  }

  /** The message of the raised ArgumentError. */
  function Message(e: ArgumentError): string
  {
    "Invalid input: N must be >= 2, and S must be between " + IntToString(e.minEdges) +
    " and " + IntToString(e.maxEdges) + " (inclusive)"
  }

  /** `to_s` on a possibly negative integer. */
  function IntToString(i: int): string
  {
    if i < 0 then "-" + Label(-i) else Label(i)
  }

  /** The labels "1".."n". */
  function Labels(n: nat): set<string>
  {
    set i | 1 <= i <= n :: Label(i)
  }

  lemma {:induction false} LabelsCard(n: nat)
    ensures |Labels(n)| == n
  {
    if n > 0 {
      LabelsCard(n - 1);
      if Label(n) in Labels(n - 1) {
        var i :| 1 <= i <= n - 1 && Label(n) == Label(i);
        LabelInjective(i, n);
      }
      assert Labels(n) == Labels(n - 1) + {Label(n)};
    }
  }

  /** The vertices "1".."n", none with an edge yet. */
  function EmptyGraph(n: nat): (r: Graph<string>)
    ensures r.Keys == Labels(n)
  {
    var g := map i | 1 <= i <= n :: Label(i) := [];
    assert g.Keys == Labels(n) by {
      forall k | k in Labels(n) ensures k in g {
        var i :| 1 <= i <= n && k == Label(i);
      }
    }
    g
  }

  /** Some edge of es leads to t. */
  predicate HasTarget(es: seq<Edge<string>>, t: string)
  {
    exists e :: e in es && e.0 == t
  }

  /**
   * A simple graph whose weights are in 1..10: every target is a key,
   * no vertex has an edge to itself, and no list names a target twice.
   */
  ghost predicate Simple(g: Graph<string>)
  {
    TargetsAreKeys(g) && NoRepeatedTargets(g) &&
    (forall u, e :: u in g && e in g[u] ==> e.0 != u && 1 <= e.1 <= 10)
  }

  /** A vertex joined to every other key has at least |g| - 1 edges. */
  lemma FullRow(g: Graph<string>, u: string)
    requires Simple(g) && u in g
    requires forall t :: t in g && t != u ==> HasTarget(g[u], t)
    ensures |g[u]| >= |g| - 1
  {
    var ts := Targets(g[u]);
    forall t | t in Elems(ts) ensures t in g.Keys - {u} {
      var e := EdgeOfTarget(g[u], t);
    }
    forall t | t in g.Keys - {u} ensures t in Elems(ts) {
      var e :| e in g[u] && e.0 == t;
      TargetOfEdge(g[u], e);
    }
    assert Elems(ts) == g.Keys - {u};
    DistinctCard(ts);
  }

  /** A simple graph with fewer than n(n - 1) edges on its n keys still lacks some edge between two distinct keys. */
  lemma FreePair(g: Graph<string>, n: nat) returns (u: string, t: string)
    requires Simple(g) && |g| == n && CountEdges(g) < n * (n - 1)
    ensures u in g && t in g && t != u && !HasTarget(g[u], t)
  {
    if forall u, t :: u in g && t in g && t != u ==> HasTarget(g[u], t) {
      forall u | u in g ensures |g[u]| >= n - 1 {
        FullRow(g, u);
      }
      CountEdgesAtLeast(g, n - 1);
      assert false;
    }
    u, t :| u in g && t in g && t != u && !HasTarget(g[u], t);
  }

  /** No edge leads into c. */
  ghost predicate NoEdgeInto(g: Graph<string>, c: set<string>)
  {
    forall u, e :: u in g && e in g[u] ==> e.0 !in c
  }

  /** Every key of g in c is reachable from "1". */
  ghost predicate ReachableFromOne(g: Graph<string>, c: set<string>)
  {
    forall k :: k in g && k in c ==> Reachable(g, "1", k)
  }

  /** The start of the loop: "1" alone is connected and no edge is placed. */
  lemma InitialState(n: nat, graph: Graph<string>, unvisited: set<string>)
    requires n >= 2
    requires graph == EmptyGraph(n) && unvisited == Labels(n) - {"1"}
    ensures graph.Keys == Labels(n) && |graph.Keys| == n && "1" in graph && "1" !in unvisited && unvisited <= graph.Keys
    ensures |unvisited| == n - 1 && CountEdges(graph) == 0 && Simple(graph)
    ensures NoEdgeInto(graph, unvisited) && ReachableFromOne(graph, graph.Keys - unvisited)
  {
    assert Label(1) == "1";
    LabelsCard(n);
    CountEdgesNone(graph);
    forall k | k in graph && k in graph.Keys - unvisited ensures Reachable(graph, "1", k) {
      ReachableSelf(graph, "1");
    }
  }

  /**
   * What each pass of the loop keeps: the keys, the count, a simple graph;
   * while a vertex is unconnected, exactly one edge per connected vertex
   * other than "1"; no edge into an unconnected vertex; every connected
   * vertex reachable from "1".
   */
  ghost predicate LoopInv(n: nat, s: int, keys: set<string>, graph: Graph<string>, edgesCount: int, unvisited: set<string>)
  {
    graph.Keys == keys && |keys| == n && "1" in graph && "1" !in unvisited && unvisited <= graph.Keys &&
    0 <= edgesCount <= s && CountEdges(graph) == edgesCount && Simple(graph) &&
    (unvisited != {} ==> edgesCount + |unvisited| == n - 1) &&
    NoEdgeInto(graph, unvisited) && ReachableFromOne(graph, graph.Keys - unvisited)
  }

  /** Appending an edge to a new, distinct target with weight in 1..10 keeps the graph simple. */
  lemma AddKeepsSimple(g: Graph<string>, g': Graph<string>, source: string, e: Edge<string>)
    requires Simple(g) && source in g && e.0 in g && e.0 != source && 1 <= e.1 <= 10
    requires !HasTarget(g[source], e.0) && g' == g[source := g[source] + [e]]
    ensures Simple(g')
  {
    assert Targets(g'[source]) == Targets(g[source]) + [e.0];
    if e.0 in Targets(g[source]) {
      var f := EdgeOfTarget(g[source], e.0);
    }
    DistinctConcat(Targets(g[source]), [e.0]);
    assert Distinct(Targets(g'[source]));
  }

  /** The only new edge leads into e.0, so nothing leads into the rest of c. */
  lemma AddKeepsNoEdgeInto(g: Graph<string>, g': Graph<string>, c: set<string>, source: string, e: Edge<string>)
    requires NoEdgeInto(g, c) && source in g && g' == g[source := g[source] + [e]]
    ensures NoEdgeInto(g', c - {e.0})
  {
    forall u, f | u in g' && f in g'[u] ensures f.0 !in c - {e.0} {
      if u == source && f !in g[source] {
        assert f == e;
      }
    }
  }

  /** Once the edge source -> e.0 is added, everything connected before, and e.0, is reachable from "1". */
  lemma AddKeepsReach(g: Graph<string>, g': Graph<string>, connected: set<string>, source: string, e: Edge<string>)
    requires source in g && source in connected && g' == g[source := g[source] + [e]]
    requires ReachableFromOne(g, connected)
    ensures ReachableFromOne(g', connected + {e.0})
  {
    assert SubGraph(g, g');
    assert e in Adj(g', source);
    forall k | k in g' && k in connected + {e.0} ensures Reachable(g', "1", k) {
      if k == e.0 {
        ReachableInSuperGraph(g, g', "1", source);
        ReachableExtend(g', "1", source, e);
      } else {
        ReachableInSuperGraph(g, g', "1", k);
      }
    }
  }

  /** Recording the accepted edge source -> target keeps the loop invariant, one edge further. */
  lemma AddEdgeStep(n: nat, s: int, keys: set<string>, graph: Graph<string>, edgesCount: int, unvisited: set<string>,
                    source: string, target: string, weight: nat)
    requires LoopInv(n, s, keys, graph, edgesCount, unvisited) && edgesCount < s
    requires source in graph && target in graph && target != source && 1 <= weight <= 10
    requires !HasTarget(graph[source], target) && source !in unvisited
    requires unvisited != {} ==> target in unvisited
    ensures LoopInv(n, s, keys, graph[source := graph[source] + [(target, weight)]], edgesCount + 1, unvisited - {target})
  {
    var e := (target, weight);
    var graph' := graph[source := graph[source] + [e]];
    var unvisited' := unvisited - {target};
    CountEdgesAppend(graph, source, e);
    AddKeepsSimple(graph, graph', source, e);
    AddKeepsNoEdgeInto(graph, graph', unvisited, source, e);
    AddKeepsReach(graph, graph', graph.Keys - unvisited, source, e);
    assert graph'.Keys - unvisited' == (graph.Keys - unvisited) + {target};
  }

  /**
   * One draw of the loop: while some vertex is unconnected, an edge from a
   * connected vertex ("1" for the very first edge) to an unconnected one;
   * afterwards any pair of distinct vertices not yet joined. The weight
   * is in 1..10.
   */
  method PickEdge(ghost n: nat, ghost s: int, ghost keys: set<string>, graph: Graph<string>, edgesCount: int, unvisited: set<string>)
    returns (source: string, target: string, weight: nat)
    requires LoopInv(n, s, keys, graph, edgesCount, unvisited) && edgesCount < s <= n * (n - 1)
    ensures source in graph && target in graph && target != source && 1 <= weight <= 10
    ensures !HasTarget(graph[source], target) && source !in unvisited
    ensures unvisited != {} ==> target in unvisited
    ensures unvisited != {} && edgesCount == 0 ==> source == "1"
  {
    if unvisited == {} {
      ghost var u, t := FreePair(graph, n);
      source, target :| source in graph && target in graph && target != source && !HasTarget(graph[source], target);
    } else {
      if edgesCount == 0 {
        source := "1";
      } else {
        assert "1" in graph.Keys - unvisited;
        source :| source in graph.Keys - unvisited;
      }
      target :| target in unvisited;
      assert !HasTarget(graph[source], target);
    }
    weight :| 1 <= weight <= 10;
  }

  /**
   * random_graph_generation(n, s): ArgumentError exactly when n < 2 or s
   * lies outside [n - 1, n(n - 1)], carrying those two bounds; otherwise
   * a graph whose keys are exactly "1".."n", with exactly s edges, no
   * self-loops, no list naming a target twice, weights in 1..10, and
   * every vertex reachable from "1".
   */
  method RandomGraphGeneration(n: int, s: int) returns (r: Result<Graph<string>>)
    ensures r.Err? <==> n < 2 || s < n - 1 || s > n * (n - 1)
    ensures r.Err? ==> r.error == InvalidInput(n - 1, n * (n - 1))
    ensures r.Ok? ==> r.value.Keys == Labels(n) && CountEdges(r.value) == s
    ensures r.Ok? ==> Simple(r.value)
    ensures r.Ok? ==> forall k :: k in r.value ==> Reachable(r.value, "1", k)
  {
    var minEdges := n - 1;
    var maxEdges := n * (n - 1);
    if n < 2 || s < minEdges || s > maxEdges {
      return Err(InvalidInput(minEdges, maxEdges));
    }
    var graph := EmptyGraph(n);
    var edgesCount := 0;
    var unvisited := Labels(n) - {"1"};
    ghost var keys := Labels(n);
    InitialState(n, graph, unvisited);
    while edgesCount != s
      invariant LoopInv(n, s, keys, graph, edgesCount, unvisited)
      decreases s - edgesCount
    {
      var source, target, weight := PickEdge(n, s, keys, graph, edgesCount, unvisited);
      AddEdgeStep(n, s, keys, graph, edgesCount, unvisited, source, target, weight);
      graph := graph[source := graph[source] + [(target, weight)]];
      edgesCount := edgesCount + 1;
      unvisited := unvisited - {target};
    }
    assert unvisited == {};
    return Ok(graph);
  }
}
