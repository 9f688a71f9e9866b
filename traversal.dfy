/**
 * The traversal engine: one exploration loop parameterised by how the
 * frontier gives up its next vertex. An Array frontier pops from the
 * end (depth-first), a Queue frontier shifts from the front
 * (breadth-first). The lazy enumerator of the Ruby code is modelled by
 * the complete sequence one full enumeration produces from an empty
 * frontier.
 */
module Traversals {
  import opened Graphs

  datatype Discipline = Stack | Fifo

  /** The targets of v's edges, in stored order; none when v is not a key. */
  function Neighbours<V(!new)>(g: Graph<V>, v: V): seq<V>
  {
    Targets(Adj(g, v))
  }

  /**
   * Array difference `ns - explored`: keeps the order of ns, drops every
   * occurrence of an explored vertex and keeps repeats of the others.
   */
  function Unexplored<V(!new)>(ns: seq<V>, explored: set<V>): (r: seq<V>)
    ensures forall x :: x in r <==> x in ns && x !in explored
    ensures Distinct(ns) ==> Distinct(r)
  {
    if ns == [] then []
    else
      var rest := Unexplored(ns[1..], explored);
      assert Distinct(ns) ==> Distinct(ns[1..]) && ns[0] !in ns[1..] by {
        DistinctConcat([ns[0]], ns[1..]);
        assert ns == [ns[0]] + ns[1..];
      }
      if ns[0] in explored then rest
      else
        assert Distinct(ns) ==> Distinct([ns[0]] + rest) by {
          DistinctConcat([ns[0]], rest);
        }
        [ns[0]] + rest
  }

  /** Removes one vertex: the last for a stack, the first for a queue. */
  function Next<V(!new)>(d: Discipline, frontier: seq<V>): (r: (V, seq<V>))
    requires frontier != []
    ensures |r.1| == |frontier| - 1
    ensures d.Stack? ==> frontier == r.1 + [r.0]
    ensures d.Fifo? ==> frontier == [r.0] + r.1
  {
    match d
    case Stack => (frontier[|frontier| - 1], frontier[..|frontier| - 1])
    case Fifo => (frontier[0], frontier[1..])
  }

  /** Every vertex that some edge points at. */
  function AllTargets<V(!new)>(g: Graph<V>): set<V>
  {
    set u, e | u in g && e in g[u] :: e.0
  }

  /**
   * Marking the unexplored neighbours of v explored leaves fewer
   * unexplored targets, unless there were none to mark.
   */
  lemma FoundShrinks<V(!new)>(g: Graph<V>, v: V, explored: set<V>)
    ensures var found := Unexplored(Neighbours(g, v), explored);
      (found == [] ==> explored + Elems(found) == explored) &&
      (found != [] ==> AllTargets(g) - (explored + Elems(found)) < AllTargets(g) - explored)
  {
    var found := Unexplored(Neighbours(g, v), explored);
    if found != [] {
      var x := found[0];
      var e := EdgeOfTarget(Adj(g, v), x);
      assert v in g && e in g[v];
      assert x in AllTargets(g) - explored;
      assert x !in AllTargets(g) - (explored + Elems(found));
    }
  }

  /**
   * The vertices the loop emits from the state (explored, frontier)
   * until the frontier is empty.
   */
  function Explore<V(!new)>(d: Discipline, g: Graph<V>, explored: set<V>, frontier: seq<V>): seq<V>
    decreases AllTargets(g) - explored, |frontier|
  {
    if frontier == [] then []
    else
      var (v, rest) := Next(d, frontier);
      var found := Unexplored(Neighbours(g, v), explored);
      FoundShrinks(g, v, explored);
      [v] + Explore(d, g, explored + Elems(found), rest + found)
  }

  /** The vertices a traversal from s emits, in order. */
  function Traversal<V(!new)>(d: Discipline, g: Graph<V>, s: V): (r: seq<V>)
    ensures |r| >= 1 && r[0] == s
    ensures s !in g ==> r == [s]
  {
    assert s !in g ==> Explore(d, g, {s}, [s]) == [s] by {
      if s !in g {
        assert Neighbours(g, s) == [];
        ExploreStep(d, g, {s}, [s]);
      }
    }
    Explore(d, g, {s}, [s])
  }

  /** One step of the loop from a non-empty frontier. */
  lemma ExploreStep<V(!new)>(d: Discipline, g: Graph<V>, explored: set<V>, frontier: seq<V>)
    requires frontier != []
    ensures var (v, rest) := Next(d, frontier);
      var found := Unexplored(Neighbours(g, v), explored);
      Explore(d, g, explored, frontier) == [v] + Explore(d, g, explored + Elems(found), rest + found)
  {
  }

  /**
   * What the loop keeps for the reachability argument: explored is what
   * was emitted or is pending, every emitted vertex has its neighbours
   * explored, and everything explored is reachable from s.
   */
  ghost predicate ReachInvariant<V(!new)>(g: Graph<V>, s: V, emitted: seq<V>, explored: set<V>, frontier: seq<V>)
  {
    && explored == Elems(emitted) + Elems(frontier)
    && s in explored
    && (forall u, e :: u in emitted && e in Adj(g, u) ==> e.0 in explored)
    && (forall x :: x in explored ==> Reachable(g, s, x))
  }

  lemma ReachInvariantStep<V(!new)>(d: Discipline, g: Graph<V>, s: V, emitted: seq<V>, explored: set<V>, frontier: seq<V>)
    requires frontier != [] && ReachInvariant(g, s, emitted, explored, frontier)
    ensures var (v, rest) := Next(d, frontier);
      var found := Unexplored(Neighbours(g, v), explored);
      ReachInvariant(g, s, emitted + [v], explored + Elems(found), rest + found)
  {
    var (v, rest) := Next(d, frontier);
    var found := Unexplored(Neighbours(g, v), explored);
    var explored' := explored + Elems(found);
    var emitted' := emitted + [v];
    var frontier' := rest + found;
    assert Elems(frontier) == Elems(rest) + {v} by {
      if d.Stack? { assert frontier == rest + [v]; } else { assert frontier == [v] + rest; }
    }
    assert explored' == Elems(emitted') + Elems(frontier');
    forall u, e | u in emitted' && e in Adj(g, u) ensures e.0 in explored' {
      if u == v {
        TargetOfEdge(Adj(g, v), e);
      } else {
        assert u in emitted;
      }
    }
    assert v in explored;
    forall x | x in explored' ensures Reachable(g, s, x) {
      if x !in explored {
        var e := EdgeOfTarget(Adj(g, v), x);
        ReachableExtend(g, s, v, e);
      }
    }
  }

  /** Once the frontier is empty, the explored set is closed under edges and so holds every reachable vertex. */
  lemma ReachInvariantDone<V(!new)>(g: Graph<V>, s: V, emitted: seq<V>, explored: set<V>)
    requires ReachInvariant(g, s, emitted, explored, [])
    ensures forall t :: t in emitted <==> Reachable(g, s, t)
  {
    assert Elems(emitted) == explored;
    assert Closed(g, explored);
    forall t | Reachable(g, s, t) ensures t in emitted {
      ClosedKeepsReachable(g, explored, s, t);
    }
  }

  /** out holds exactly the vertices reachable from s. */
  ghost predicate EmitsReachable<V(!new)>(g: Graph<V>, s: V, out: seq<V>)
  {
    forall t :: t in out <==> Reachable(g, s, t)
  }

  /** From a state keeping ReachInvariant, the loop emits exactly the vertices reachable from s. */
  lemma {:induction false} ExploreReach<V(!new)>(d: Discipline, g: Graph<V>, s: V, emitted: seq<V>, explored: set<V>, frontier: seq<V>)
    requires ReachInvariant(g, s, emitted, explored, frontier)
    ensures EmitsReachable(g, s, emitted + Explore(d, g, explored, frontier))
    decreases AllTargets(g) - explored, |frontier|
  {
    if frontier == [] {
      assert emitted + Explore(d, g, explored, frontier) == emitted;
      ReachInvariantDone(g, s, emitted, explored);
    } else {
      var (v, rest) := Next(d, frontier);
      var found := Unexplored(Neighbours(g, v), explored);
      var explored', frontier' := explored + Elems(found), rest + found;
      FoundShrinks(g, v, explored);
      ReachInvariantStep(d, g, s, emitted, explored, frontier);
      ExploreStep(d, g, explored, frontier);
      ExploreReach(d, g, s, emitted + [v], explored', frontier');
      var later := Explore(d, g, explored', frontier');
      assert Explore(d, g, explored, frontier) == [v] + later;
      AppendAssoc(emitted, [v], later);
    }
  }

  /**
   * What the loop keeps for the no-repeats argument: explored is what was
   * emitted or is pending, and emitted followed by the frontier has no
   * repeats.
   */
  ghost predicate DistinctInvariant<V(!new)>(emitted: seq<V>, explored: set<V>, frontier: seq<V>)
  {
    explored == Elems(emitted) + Elems(frontier) && Distinct(emitted + frontier)
  }

  lemma DistinctInvariantStep<V(!new)>(d: Discipline, g: Graph<V>, emitted: seq<V>, explored: set<V>, frontier: seq<V>)
    requires NoRepeatedTargets(g)
    requires frontier != [] && DistinctInvariant(emitted, explored, frontier)
    ensures var (v, rest) := Next(d, frontier);
      var found := Unexplored(Neighbours(g, v), explored);
      DistinctInvariant(emitted + [v], explored + Elems(found), rest + found)
  {
    var (v, rest) := Next(d, frontier);
    var found := Unexplored(Neighbours(g, v), explored);
    var emitted' := emitted + [v];
    assert Distinct(Neighbours(g, v)) by {
      if v !in g {
        assert Neighbours(g, v) == [];
      }
    }
    // the popped vertex moves from the frontier to the end of the emitted prefix
    DistinctConcat(emitted, frontier);
    if d.Stack? {
      assert frontier == rest + [v];
      DistinctConcat(rest, [v]);
    } else {
      assert frontier == [v] + rest;
      DistinctConcat([v], rest);
    }
    assert Elems(frontier) == Elems(rest) + {v};
    DistinctConcat(emitted, [v]);
    DistinctConcat(emitted', rest);
    // the newly discovered vertices are distinct and were never explored
    DistinctConcat(emitted' + rest, found);
    assert emitted' + (rest + found) == (emitted' + rest) + found;
  }

  /** From a state keeping DistinctInvariant, the loop never emits a vertex twice. */
  lemma {:induction false} ExploreDistinct<V(!new)>(d: Discipline, g: Graph<V>, emitted: seq<V>, explored: set<V>, frontier: seq<V>)
    requires NoRepeatedTargets(g)
    requires DistinctInvariant(emitted, explored, frontier)
    ensures Distinct(emitted + Explore(d, g, explored, frontier))
    decreases AllTargets(g) - explored, |frontier|
  {
    if frontier == [] {
      assert emitted + Explore(d, g, explored, frontier) == emitted + frontier;
    } else {
      var (v, rest) := Next(d, frontier);
      var found := Unexplored(Neighbours(g, v), explored);
      FoundShrinks(g, v, explored);
      DistinctInvariantStep(d, g, emitted, explored, frontier);
      ExploreStep(d, g, explored, frontier);
      ExploreDistinct(d, g, emitted + [v], explored + Elems(found), rest + found);
      assert emitted + ([v] + Explore(d, g, explored + Elems(found), rest + found))
          == (emitted + [v]) + Explore(d, g, explored + Elems(found), rest + found);
    }
  }

  /** Both disciplines emit exactly the vertices reachable from the start. */
  lemma TraversalReach<V(!new)>(d: Discipline, g: Graph<V>, s: V)
    ensures forall t :: t in Traversal(d, g, s) <==> Reachable(g, s, t)
  {
    ReachableSelf(g, s);
    assert Elems([s]) == {s};
    ExploreReach(d, g, s, [], {s}, [s]);
    assert [] + Traversal(d, g, s) == Traversal(d, g, s);
  }

  /** Without repeated targets in any adjacency list, no vertex is emitted twice. */
  lemma TraversalDistinct<V(!new)>(d: Discipline, g: Graph<V>, s: V)
    requires NoRepeatedTargets(g)
    ensures Distinct(Traversal(d, g, s))
  {
    assert Elems([s]) == {s};
    ExploreDistinct(d, g, [], {s}, [s]);
    assert [] + Traversal(d, g, s) == Traversal(d, g, s);
  }

  /** Depth-first and breadth-first traversals emit the same set of vertices. */
  lemma DisciplinesAgreeOnVertices<V(!new)>(g: Graph<V>, s: V)
    ensures Elems(Traversal(Stack, g, s)) == Elems(Traversal(Fifo, g, s))
  {
    TraversalReach(Stack, g, s);
    TraversalReach(Fifo, g, s);
  }

  /**
   * The inner loop over the unexplored neighbours: each is marked
   * explored and appended to the frontier, in order.
   */
  method Discover<V>(explored0: set<V>, frontier0: seq<V>, found: seq<V>) returns (explored: set<V>, frontier: seq<V>)
    ensures explored == explored0 + Elems(found)
    ensures frontier == frontier0 + found
  {
    explored, frontier := explored0, frontier0;
    for i := 0 to |found|
      invariant explored == explored0 + Elems(found[..i])
      invariant frontier == frontier0 + found[..i]
    {
      assert found[..i + 1] == found[..i] + [found[i]];
      explored := explored + {found[i]};
      frontier := frontier + [found[i]];
    }
    assert found[..|found|] == found;
  }

  /** One pass of the traversal loop keeps what is emitted plus what remains equal to the whole traversal. */
  lemma LoopStep<V(!new)>(d: Discipline, g: Graph<V>, s: V, out: seq<V>, explored: set<V>, frontier: seq<V>,
                          v: V, rest: seq<V>, found: seq<V>)
    requires out + Explore(d, g, explored, frontier) == Traversal(d, g, s)
    requires frontier != [] && (v, rest) == Next(d, frontier)
    requires found == Unexplored(Neighbours(g, v), explored)
    ensures (out + [v]) + Explore(d, g, explored + Elems(found), rest + found) == Traversal(d, g, s)
    ensures AllTargets(g) - (explored + Elems(found)) < AllTargets(g) - explored ||
            (explored + Elems(found) == explored && |rest + found| < |frontier|)
  {
    FoundShrinks(g, v, explored);
    ExploreStep(d, g, explored, frontier);
    var later := Explore(d, g, explored + Elems(found), rest + found);
    assert Explore(d, g, explored, frontier) == [v] + later;
    AppendAssoc(out, [v], later);
  }

  /**
   * The traversal loop: pop or shift one vertex, emit it, then mark each
   * of its unexplored neighbours explored and append it to the frontier.
   */
  method SeqGraph<V(!new)>(d: Discipline, g: Graph<V>, s: V) returns (out: seq<V>)
    ensures out == Traversal(d, g, s)
    ensures |out| >= 1 && out[0] == s
    ensures forall t :: t in out <==> Reachable(g, s, t)
    ensures NoRepeatedTargets(g) ==> Distinct(out)
  {
    var explored := {s};
    var frontier := [s];
    out := [];
    while frontier != []
      invariant out + Explore(d, g, explored, frontier) == Traversal(d, g, s)
      decreases AllTargets(g) - explored, |frontier|
    {
      ghost var out0, explored0, frontier0 := out, explored, frontier;
      var v;
      if d.Stack? {
        v := frontier[|frontier| - 1];
        frontier := frontier[..|frontier| - 1];
      } else {
        v := frontier[0];
        frontier := frontier[1..];
      }
      assert (v, frontier) == Next(d, frontier0);
      var neighbors := Neighbours(g, v);
      out := out + [v];
      var found := Unexplored(neighbors, explored);
      LoopStep(d, g, s, out0, explored0, frontier0, v, frontier, found);
      explored, frontier := Discover(explored, frontier, found);
    }
    TraversalReach(d, g, s);
    if NoRepeatedTargets(g) {
      TraversalDistinct(d, g, s);
    }
  }

  /** Depth-first order: an Array frontier. */
  method SeqGraphDfs<V(!new)>(g: Graph<V>, s: V) returns (out: seq<V>)
    ensures out == Traversal(Stack, g, s)
    ensures |out| >= 1 && out[0] == s
    ensures forall t :: t in out <==> Reachable(g, s, t)
    ensures NoRepeatedTargets(g) ==> Distinct(out)
  {
    out := SeqGraph(Stack, g, s);
  }

  /** Breadth-first order: a Queue frontier. */
  method SeqGraphBfs<V(!new)>(g: Graph<V>, s: V) returns (out: seq<V>)
    ensures out == Traversal(Fifo, g, s)
    ensures |out| >= 1 && out[0] == s
    ensures forall t :: t in out <==> Reachable(g, s, t)
    ensures NoRepeatedTargets(g) ==> Distinct(out)
  {
    out := SeqGraph(Fifo, g, s);
  }
}
