/**
 * The shortest-path engine: a label-correcting search driven by a
 * min-priority queue of (vertex, tentative distance) entries, and the
 * reconstruction of a path by following predecessor links back from the
 * destination. Float::INFINITY is modelled by the Inf case of Dist; the
 * priority queue by a multiset from which an entry of least distance is
 * chosen (ties are left open).
 */
module ShortestPaths {
  import opened Graphs

  /** A recorded distance: unreachable so far, or a finite total weight. */
  datatype Dist = Inf | Fin(n: nat)

  datatype Option<T> = None | Some(value: T)

  /** The candidate x beats the recorded distance b (`x < b`, with Inf above every number). */
  predicate Shorter(x: nat, b: Dist)
  {
    b.Inf? || x < b.n
  }

  /** a is nowhere above b: Inf only where b is Inf, and no larger where both are finite. */
  predicate NoMore(a: Dist, b: Dist)
  {
    b.Inf? || (a.Fin? && a.n <= b.n)
  }

  /** Some walk from s to t has total weight x. */
  ghost predicate WalkOfWeight<V(!new)>(g: Graph<V>, s: V, t: V, x: nat)
  {
    exists p, ws :: WalkBetween(g, p, ws, s, t) && Sum(ws) == x
  }

  /** x is the least total weight of a walk from s to t. */
  ghost predicate ShortestWeight<V(!new)>(g: Graph<V>, s: V, t: V, x: nat)
  {
    WalkOfWeight(g, s, t, x) &&
    forall p, ws :: WalkBetween(g, p, ws, s, t) ==> x <= Sum(ws)
  }

  lemma WalkOfWeightExtend<V(!new)>(g: Graph<V>, s: V, u: V, x: nat, t: V, w: nat)
    requires WalkOfWeight(g, s, u, x) && (t, w) in Adj(g, u)
    ensures WalkOfWeight(g, s, t, x + w)
  {
    var p, ws :| WalkBetween(g, p, ws, s, u) && Sum(ws) == x;
    WalkExtend(g, p, ws, t, w);
    assert WalkBetween(g, p + [t], ws + [w], s, t);
  }

  /** No edge out of the finite vertex u offers a shorter distance to its target. */
  ghost predicate Relaxed<V(!new)>(g: Graph<V>, dist: map<V, Dist>, u: V)
  {
    u in dist && dist[u].Fin? &&
    forall e :: e in Adj(g, u) ==> e.0 in dist && dist[e.0].Fin? && dist[e.0].n <= dist[u].n + e.1
  }

  /** A finite vertex is either still queued at its recorded distance, or relaxed. */
  ghost predicate Settled<V(!new)>(g: Graph<V>, dist: map<V, Dist>, pq: multiset<(V, nat)>, k: V)
  {
    k in dist && dist[k].Fin? ==> (k, dist[k].n) in pq || Relaxed(g, dist, k)
  }

  /** Every vertex other than v is settled. */
  ghost predicate SettledExcept<V(!new)>(g: Graph<V>, dist: map<V, Dist>, pq: multiset<(V, nat)>, v: V)
  {
    forall k :: k != v ==> Settled(g, dist, pq, k)
  }

  /** Every finite distance is the weight of some walk from the source. */
  ghost predicate DistOk<V(!new)>(g: Graph<V>, source: V, dist: map<V, Dist>)
  {
    dist.Keys == g.Keys + {source} && dist[source] == Fin(0) &&
    forall k :: k in dist && dist[k].Fin? ==> WalkOfWeight(g, source, k, dist[k].n)
  }

  /** Every queued entry is the weight of a walk, and no better than the recorded distance. */
  ghost predicate QueueOk<V(!new)>(g: Graph<V>, source: V, dist: map<V, Dist>, pq: multiset<(V, nat)>)
  {
    forall e :: e in pq ==>
      e.0 in dist && dist[e.0].Fin? && dist[e.0].n <= e.1 && WalkOfWeight(g, source, e.0, e.1)
  }

  /**
   * u, the predecessor of k, reaches k by an edge of weight pw[k] and
   * d[u] + pw[k] <= d[k]. The ghost stamps, handed out in increasing
   * order at each improvement, break ties between equal distances, so
   * that (d, stamp) strictly decreases along predecessor links even over
   * edges of weight zero.
   */
  ghost predicate PredLink<V(!new)>(g: Graph<V>, dist: map<V, Dist>, pw: map<V, nat>, stamp: map<V, nat>, u: V, k: V)
  {
    u in dist && k in dist && k in pw && u in stamp && k in stamp &&
    dist[u].Fin? && dist[k].Fin? && (k, pw[k]) in Adj(g, u) &&
    dist[u].n + pw[k] <= dist[k].n &&
    (dist[u].n < dist[k].n || stamp[u] < stamp[k])
  }

  /** Exactly the finite vertices other than the source have a predecessor, each linked as above. */
  ghost predicate PredOk<V(!new)>(g: Graph<V>, source: V, dist: map<V, Dist>, pred: map<V, V>, pw: map<V, nat>, stamp: map<V, nat>, clock: nat)
  {
    stamp.Keys == dist.Keys &&
    (forall k :: k in stamp ==> stamp[k] < clock) &&
    (forall k :: k in pred <==> k in dist && k != source && dist[k].Fin?) &&
    forall k :: k in pred ==> PredLink(g, dist, pw, stamp, pred[k], k)
  }

  ghost predicate Inv<V(!new)>(g: Graph<V>, source: V, dist: map<V, Dist>, pred: map<V, V>, pw: map<V, nat>,
                               pq: multiset<(V, nat)>, stamp: map<V, nat>, clock: nat)
  {
    TargetsAreKeys(g) && DistOk(g, source, dist) && QueueOk(g, source, dist, pq) &&
    PredOk(g, source, dist, pred, pw, stamp, clock)
  }

  /** Distances only go down: a is pointwise no more than b, over the same keys. */
  ghost predicate Improves<V(!new)>(a: map<V, Dist>, b: map<V, Dist>)
  {
    a.Keys == b.Keys && forall k :: k in a ==> NoMore(a[k], b[k])
  }

  /** The vertices still at Inf. */
  ghost function InfKeys<V(!new)>(dist: map<V, Dist>): set<V>
  {
    set k | k in dist && dist[k].Inf?
  }

  /** One element per unit of each finite distance; its size is the sum of finite distances. */
  ghost function Potential<V(!new)>(dist: map<V, Dist>): set<(V, nat)>
  {
    set k, i | k in dist && dist[k].Fin? && 0 <= i < dist[k].n :: (k, i)
  }

  /** A proper improvement strictly lowers (InfKeys, Potential) lexicographically. */
  lemma ImprovesProgress<V(!new)>(a: map<V, Dist>, b: map<V, Dist>)
    requires Improves(a, b) && a != b
    ensures InfKeys(a) < InfKeys(b) || (InfKeys(a) == InfKeys(b) && Potential(a) < Potential(b))
  {
    var k :| k in a && a[k] != b[k];
    assert InfKeys(a) <= InfKeys(b);
    if b[k].Inf? {
      assert k in InfKeys(b) - InfKeys(a);
    } else if InfKeys(a) == InfKeys(b) {
      forall q | q in Potential(a) ensures q in Potential(b) {
        var j, i :| j in a && a[j].Fin? && 0 <= i < a[j].n && q == (j, i);
        assert j !in InfKeys(a);
      }
      assert (k, a[k].n) in Potential(b) - Potential(a);
    }
  }

  /** A non-empty queue holds an entry of least distance. */
  lemma {:induction false} MinEntry<V(!new)>(pq: multiset<(V, nat)>) returns (m: (V, nat))
    requires pq != multiset{}
    ensures m in pq && forall f :: f in pq ==> m.1 <= f.1
    decreases |pq|
  {
    var x :| x in pq;
    var rest := pq - multiset{x};
    assert pq == rest + multiset{x};
    if rest == multiset{} {
      m := x;
    } else {
      var e := MinEntry(rest);
      m := if x.1 < e.1 then x else e;
    }
  }

  /** The facts about the popped entry (v, x) that relaxing its edges relies on. */
  ghost predicate PoppedEntry<V(!new)>(g: Graph<V>, source: V, dist: map<V, Dist>, v: V, x: nat)
  {
    v in dist && dist[v].Fin? && dist[v].n <= x && WalkOfWeight(g, source, v, x)
  }

  lemma RelaxDistOk<V(!new)>(g: Graph<V>, source: V, dist: map<V, Dist>, v: V, x: nat, t: V, w: nat, y: nat)
    requires DistOk(g, source, dist) && PoppedEntry(g, source, dist, v, x)
    requires (t, w) in Adj(g, v) && t in dist && y == x + w && Shorter(y, dist[t])
    ensures t != v && t != source
    ensures DistOk(g, source, dist[t := Fin(y)]) && Improves(dist[t := Fin(y)], dist)
  {
    var dist' := dist[t := Fin(y)];
    WalkOfWeightExtend(g, source, v, x, t, w);
    assert dist'.Keys == dist.Keys;
    forall k | k in dist' && dist'[k].Fin? ensures WalkOfWeight(g, source, k, dist'[k].n) {
      if k != t { assert dist'[k] == dist[k]; }
    }
  }

  lemma RelaxQueueOk<V(!new)>(g: Graph<V>, source: V, dist: map<V, Dist>, pq: multiset<(V, nat)>, v: V, x: nat, t: V, w: nat, y: nat)
    requires QueueOk(g, source, dist, pq) && PoppedEntry(g, source, dist, v, x)
    requires (t, w) in Adj(g, v) && t in dist && y == x + w && Shorter(y, dist[t])
    ensures QueueOk(g, source, dist[t := Fin(y)], pq + multiset{(t, y)})
  {
    var dist', pq' := dist[t := Fin(y)], pq + multiset{(t, y)};
    WalkOfWeightExtend(g, source, v, x, t, w);
    forall e | e in pq'
      ensures e.0 in dist' && dist'[e.0].Fin? && dist'[e.0].n <= e.1 && WalkOfWeight(g, source, e.0, e.1)
    {
      if e != (t, y) {
        assert e in pq;
      }
    }
  }

  lemma RelaxPredOk<V(!new)>(g: Graph<V>, source: V, dist: map<V, Dist>, pred: map<V, V>, pw: map<V, nat>,
                             stamp: map<V, nat>, clock: nat, v: V, x: nat, t: V, w: nat, y: nat)
    requires PredOk(g, source, dist, pred, pw, stamp, clock) && v in stamp
    requires v in dist && dist[v].Fin? && dist[v].n <= x
    requires (t, w) in Adj(g, v) && t in dist && t != v && t != source && y == x + w && Shorter(y, dist[t])
    ensures PredOk(g, source, dist[t := Fin(y)], pred[t := v], pw[t := w], stamp[t := clock], clock + 1)
  {
    var dist', pred', pw', stamp' := dist[t := Fin(y)], pred[t := v], pw[t := w], stamp[t := clock];
    forall k | k in pred' ensures PredLink(g, dist', pw', stamp', pred'[k], k) {
      if k == t {
        assert stamp'[v] == stamp[v] < clock;
      } else {
        var u := pred[k];
        assert PredLink(g, dist, pw, stamp, u, k);
        if u == t {
          assert dist'[u].n < dist[u].n;
        }
      }
    }
  }

  /** Relaxing (t, w) keeps every vertex other than v settled. */
  lemma RelaxSettled<V(!new)>(g: Graph<V>, dist: map<V, Dist>, pq: multiset<(V, nat)>, t: V, y: nat, k: V)
    requires t in dist && Shorter(y, dist[t]) && Settled(g, dist, pq, k)
    ensures Settled(g, dist[t := Fin(y)], pq + multiset{(t, y)}, k)
  {
    var dist' := dist[t := Fin(y)];
    if k != t && k in dist && dist[k].Fin? && (k, dist[k].n) !in pq {
      assert Relaxed(g, dist, k);
      forall e | e in Adj(g, k) ensures e.0 in dist' && dist'[e.0].Fin? && dist'[e.0].n <= dist'[k].n + e.1 {
        assert e.0 in dist && dist[e.0].Fin?;
      }
    }
  }

  /**
   * What remains of the settled invariant for the popped vertex v while
   * its edges are processed: it is queued or relaxed already, or it was
   * popped at its recorded distance and every edge handled so far leads
   * no further than x + weight.
   */
  ghost predicate PoppedOk<V(!new)>(g: Graph<V>, dist: map<V, Dist>, pq: multiset<(V, nat)>, v: V, x: nat, edges: seq<Edge<V>>, n: nat)
  {
    v in dist && dist[v].Fin? &&
    ((v, dist[v].n) in pq || Relaxed(g, dist, v) ||
    (x == dist[v].n && n <= |edges| &&
     forall j :: 0 <= j < n ==> edges[j].0 in dist && dist[edges[j].0].Fin? && dist[edges[j].0].n <= x + edges[j].1))
  }

  /** Handling one more edge e keeps PoppedOk, once e's target is within x + weight. */
  lemma PoppedStep<V(!new)>(g: Graph<V>, dist1: map<V, Dist>, pq1: multiset<(V, nat)>, dist: map<V, Dist>, pq: multiset<(V, nat)>,
                            v: V, x: nat, edges: seq<Edge<V>>, n: nat)
    requires PoppedOk(g, dist1, pq1, v, x, edges, n) && Improves(dist, dist1) && pq1 <= pq && n < |edges|
    requires v in dist && dist[v] == dist1[v]
    requires edges[n].0 in dist && dist[edges[n].0].Fin? && dist[edges[n].0].n <= x + edges[n].1
    ensures PoppedOk(g, dist, pq, v, x, edges, n + 1)
  {
    if (v, dist1[v].n) in pq1 {
      assert (v, dist[v].n) in pq;
    } else if Relaxed(g, dist1, v) {
      forall f | f in Adj(g, v) ensures f.0 in dist && dist[f.0].Fin? && dist[f.0].n <= dist[v].n + f.1 {
        assert NoMore(dist[f.0], dist1[f.0]);
      }
    } else {
      forall j | 0 <= j < n + 1 ensures edges[j].0 in dist && dist[edges[j].0].Fin? && dist[edges[j].0].n <= x + edges[j].1 {
        if j < n {
          assert NoMore(dist[edges[j].0], dist1[edges[j].0]);
        }
      }
    }
  }

  /** Relaxing (t, w) keeps settled every vertex but v, and lowers the distances. */
  lemma RelaxKeepsSettled<V(!new)>(g: Graph<V>, dist0: map<V, Dist>, dist: map<V, Dist>, pq: multiset<(V, nat)>, v: V, t: V, y: nat,
                                   dist': map<V, Dist>, pq': multiset<(V, nat)>)
    requires t in dist && Shorter(y, dist[t]) && Improves(dist, dist0)
    requires dist' == dist[t := Fin(y)] && pq' == pq + multiset{(t, y)}
    requires SettledExcept(g, dist, pq, v)
    ensures SettledExcept(g, dist', pq', v)
    ensures Improves(dist', dist0) && dist' != dist0
  {
    forall k | k != v ensures Settled(g, dist', pq', k) {
      RelaxSettled(g, dist, pq, t, y, k);
    }
    assert NoMore(dist[t], dist0[t]);
  }

  /**
   * The state of the inner loop after the first i edges out of v: the
   * search invariant, v popped at x and not itself lowered, every other
   * vertex settled, and the distances no higher than on entry (with the
   * queue unchanged while they are unchanged).
   */
  ghost predicate RelaxInv<V(!new)>(g: Graph<V>, source: V, v: V, x: nat, edges: seq<Edge<V>>, i: nat,
                                    dist0: map<V, Dist>, pq0: multiset<(V, nat)>,
                                    dist: map<V, Dist>, pred: map<V, V>, pw: map<V, nat>,
                                    pq: multiset<(V, nat)>, stamp: map<V, nat>, clock: nat)
  {
    Inv(g, source, dist, pred, pw, pq, stamp, clock) && edges == Adj(g, v) && i <= |edges| &&
    Improves(dist, dist0) && (dist == dist0 ==> pq == pq0) &&
    PoppedEntry(g, source, dist, v, x) && dist[v] == dist0[v] &&
    SettledExcept(g, dist, pq, v) &&
    PoppedOk(g, dist, pq, v, x, edges, i)
  }

  lemma RelaxInvTarget<V(!new)>(g: Graph<V>, source: V, v: V, x: nat, edges: seq<Edge<V>>, i: nat,
                                dist0: map<V, Dist>, pq0: multiset<(V, nat)>,
                                dist: map<V, Dist>, pred: map<V, V>, pw: map<V, nat>,
                                pq: multiset<(V, nat)>, stamp: map<V, nat>, clock: nat)
    requires RelaxInv(g, source, v, x, edges, i, dist0, pq0, dist, pred, pw, pq, stamp, clock) && i < |edges|
    ensures edges[i].0 in dist
  {
    assert edges[i] in g[v];
  }

  /** The edge (t, w) = edges[i] improves t: the updated state is the loop state after i + 1 edges. */
  lemma RelaxInvUpdate<V(!new)>(g: Graph<V>, source: V, v: V, x: nat, edges: seq<Edge<V>>, i: nat,
                                dist0: map<V, Dist>, pq0: multiset<(V, nat)>,
                                dist: map<V, Dist>, pred: map<V, V>, pw: map<V, nat>,
                                pq: multiset<(V, nat)>, stamp: map<V, nat>, clock: nat, t: V, w: nat, y: nat)
    requires RelaxInv(g, source, v, x, edges, i, dist0, pq0, dist, pred, pw, pq, stamp, clock) && i < |edges|
    requires edges[i] == (t, w) && y == x + w && t in dist && Shorter(y, dist[t])
    ensures RelaxInv(g, source, v, x, edges, i + 1, dist0, pq0, dist[t := Fin(y)], pred[t := v], pw[t := w],
                     pq + multiset{(t, y)}, stamp[t := clock], clock + 1)
  {
    var dist': map<V, Dist> := dist[t := Fin(y)];
    var pq': multiset<(V, nat)> := pq + multiset{(t, y)};
    RelaxKeepsSettled(g, dist0, dist, pq, v, t, y, dist', pq');
    RelaxDistOk(g, source, dist, v, x, t, w, y);
    RelaxQueueOk(g, source, dist, pq, v, x, t, w, y);
    RelaxPredOk(g, source, dist, pred, pw, stamp, clock, v, x, t, w, y);
    PoppedStep(g, dist, pq, dist', pq', v, x, edges, i);
  }

  /** The edge edges[i] does not improve its target: the state is unchanged after i + 1 edges. */
  lemma RelaxInvSkip<V(!new)>(g: Graph<V>, source: V, v: V, x: nat, edges: seq<Edge<V>>, i: nat,
                              dist0: map<V, Dist>, pq0: multiset<(V, nat)>,
                              dist: map<V, Dist>, pred: map<V, V>, pw: map<V, nat>,
                              pq: multiset<(V, nat)>, stamp: map<V, nat>, clock: nat)
    requires RelaxInv(g, source, v, x, edges, i, dist0, pq0, dist, pred, pw, pq, stamp, clock) && i < |edges|
    requires edges[i].0 in dist && !Shorter(x + edges[i].1, dist[edges[i].0])
    ensures RelaxInv(g, source, v, x, edges, i + 1, dist0, pq0, dist, pred, pw, pq, stamp, clock)
  {
    PoppedStep(g, dist, pq, dist, pq, v, x, edges, i);
  }

  /** With every edge handled, v is settled too. */
  lemma RelaxInvDone<V(!new)>(g: Graph<V>, source: V, v: V, x: nat, edges: seq<Edge<V>>,
                              dist0: map<V, Dist>, pq0: multiset<(V, nat)>,
                              dist: map<V, Dist>, pred: map<V, V>, pw: map<V, nat>,
                              pq: multiset<(V, nat)>, stamp: map<V, nat>, clock: nat)
    requires RelaxInv(g, source, v, x, edges, |edges|, dist0, pq0, dist, pred, pw, pq, stamp, clock)
    ensures forall k :: Settled(g, dist, pq, k)
  {
    assert Settled(g, dist, pq, v);
  }

  /**
   * The inner loop of the search: for each edge (t, w) out of v, in
   * stored order, record x + w as t's distance and v as its predecessor,
   * and queue (t, x + w), whenever x + w is shorter than what is recorded.
   */
  method RelaxEdges<V(!new)>(ghost g: Graph<V>, ghost source: V, v: V, x: nat, edges: seq<Edge<V>>,
                             dist0: map<V, Dist>, pred0: map<V, V>, ghost pw0: map<V, nat>,
                             pq0: multiset<(V, nat)>, ghost stamp0: map<V, nat>, ghost clock0: nat)
    returns (dist: map<V, Dist>, pred: map<V, V>, ghost pw: map<V, nat>,
             pq: multiset<(V, nat)>, ghost stamp: map<V, nat>, ghost clock: nat)
    requires Inv(g, source, dist0, pred0, pw0, pq0, stamp0, clock0) && edges == Adj(g, v)
    requires PoppedEntry(g, source, dist0, v, x)
    requires SettledExcept(g, dist0, pq0, v)
    requires PoppedOk(g, dist0, pq0, v, x, edges, 0)
    ensures Inv(g, source, dist, pred, pw, pq, stamp, clock)
    ensures forall k :: Settled(g, dist, pq, k)
    ensures Improves(dist, dist0) && (dist == dist0 ==> pq == pq0)
  {
    dist, pred, pw, pq, stamp, clock := dist0, pred0, pw0, pq0, stamp0, clock0;
    for i := 0 to |edges|
      invariant RelaxInv(g, source, v, x, edges, i, dist0, pq0, dist, pred, pw, pq, stamp, clock)
    {
      var t, w := edges[i].0, edges[i].1;
      var y: nat := x + w;
      RelaxInvTarget(g, source, v, x, edges, i, dist0, pq0, dist, pred, pw, pq, stamp, clock);
      if Shorter(y, dist[t]) {
        RelaxInvUpdate(g, source, v, x, edges, i, dist0, pq0, dist, pred, pw, pq, stamp, clock, t, w, y);
        dist := dist[t := Fin(y)];
        pred := pred[t := v];
        pw := pw[t := w];
        pq := pq + multiset{(t, y)};
        stamp := stamp[t := clock];
        clock := clock + 1;
      } else {
        RelaxInvSkip(g, source, v, x, edges, i, dist0, pq0, dist, pred, pw, pq, stamp, clock);
      }
    }
    RelaxInvDone(g, source, v, x, edges, dist0, pq0, dist, pred, pw, pq, stamp, clock);
  }

  /** The distance-and-predecessor state the search starts from. */
  lemma InitOk<V(!new)>(g: Graph<V>, source: V, dist: map<V, Dist>, stamp: map<V, nat>)
    requires TargetsAreKeys(g)
    requires dist == (map k | k in g :: Inf)[source := Fin(0)] && stamp == map k | k in dist :: 0
    ensures Inv(g, source, dist, map[], map[], multiset{(source, 0)}, stamp, 1)
    ensures forall k :: Settled(g, dist, multiset{(source, 0)}, k)
  {
    assert WalkBetween(g, [source], [], source, source);
    assert WalkOfWeight(g, source, source, 0);
  }

  /** Taking entry (v, x) out of the queue leaves what RelaxEdges expects. */
  lemma PopOk<V(!new)>(g: Graph<V>, source: V, dist: map<V, Dist>, pred: map<V, V>, pw: map<V, nat>,
                       pq: multiset<(V, nat)>, stamp: map<V, nat>, clock: nat, v: V, x: nat)
    requires Inv(g, source, dist, pred, pw, pq, stamp, clock) && forall k :: Settled(g, dist, pq, k)
    requires (v, x) in pq
    ensures Inv(g, source, dist, pred, pw, pq - multiset{(v, x)}, stamp, clock)
    ensures PoppedEntry(g, source, dist, v, x)
    ensures SettledExcept(g, dist, pq - multiset{(v, x)}, v)
    ensures PoppedOk(g, dist, pq - multiset{(v, x)}, v, x, Adj(g, v), 0)
  {
    var pq1 := pq - multiset{(v, x)};
    forall k | k != v ensures Settled(g, dist, pq1, k) {
      assert Settled(g, dist, pq, k);
    }
    assert Settled(g, dist, pq, v);
  }

  /**
   * Once every finite vertex is relaxed, no walk from the source is
   * lighter than the recorded distance of its last vertex.
   */
  lemma {:induction false} RelaxedLowerBound<V(!new)>(g: Graph<V>, source: V, dist: map<V, Dist>, p: seq<V>, ws: seq<nat>)
    requires source in dist && dist[source] == Fin(0)
    requires forall u :: u in dist && dist[u].Fin? ==> Relaxed(g, dist, u)
    requires IsWalk(g, p, ws) && p[0] == source
    ensures p[|p| - 1] in dist && dist[p[|p| - 1]].Fin? && dist[p[|p| - 1]].n <= Sum(ws)
    decreases |ws|
  {
    if ws != [] {
      var n := |ws|;
      assert IsWalk(g, p[..n], ws[..n - 1]) by {
        forall i | 0 <= i < n - 1 ensures (p[..n][i + 1], ws[..n - 1][i]) in Adj(g, p[..n][i]) {
          assert (p[i + 1], ws[i]) in Adj(g, p[i]);
        }
      }
      RelaxedLowerBound(g, source, dist, p[..n], ws[..n - 1]);
      assert (p[n], ws[n - 1]) in Adj(g, p[n - 1]);
      assert Relaxed(g, dist, p[n - 1]);
    }
  }

  /**
   * u is t's recorded predecessor: an edge u -> t of weight w has
   * d[u] + w <= d[t], and (d, stamp) is strictly lower at u than at t.
   * This is PredLink with the ghost weight map pw hidden behind an
   * existential, so that it can be stated about Dijkstra's results.
   */
  ghost predicate PredEdge<V(!new)>(g: Graph<V>, dist: map<V, Dist>, stamp: map<V, nat>, u: V, t: V)
  {
    u in dist && t in dist && u in stamp && t in stamp && dist[u].Fin? && dist[t].Fin? &&
    (exists w :: (t, w) in Adj(g, u) && dist[u].n + w <= dist[t].n) &&
    (dist[u].n < dist[t].n || (dist[u].n == dist[t].n && stamp[u] < stamp[t]))
  }

  /** What the search establishes once its queue is empty. */
  lemma DoneOk<V(!new)>(g: Graph<V>, source: V, dist: map<V, Dist>, pred: map<V, V>, pw: map<V, nat>,
                        stamp: map<V, nat>, clock: nat)
    requires Inv(g, source, dist, pred, pw, multiset{}, stamp, clock) && forall k :: Settled(g, dist, multiset{}, k)
    ensures forall u :: u in dist && dist[u].Fin? ==> Relaxed(g, dist, u)
    ensures forall t :: Reachable(g, source, t) ==> t in dist
    ensures forall t :: t in dist ==> (dist[t].Fin? <==> Reachable(g, source, t))
    ensures forall t :: t in dist && dist[t].Fin? ==> ShortestWeight(g, source, t, dist[t].n)
    ensures forall t :: t in pred ==> PredEdge(g, dist, stamp, pred[t], t)
    ensures stamp.Keys == dist.Keys
  {
    assert forall u :: u in dist && dist[u].Fin? ==> Relaxed(g, dist, u) by {
      forall u | u in dist && dist[u].Fin? ensures Relaxed(g, dist, u) {
        assert Settled(g, dist, multiset{}, u);
      }
    }
    forall t | Reachable(g, source, t) ensures t in dist && dist[t].Fin? {
      var p, ws :| WalkBetween(g, p, ws, source, t);
      RelaxedLowerBound(g, source, dist, p, ws);
    }
    forall t | t in dist && dist[t].Fin? ensures ShortestWeight(g, source, t, dist[t].n) {
      forall p, ws | WalkBetween(g, p, ws, source, t) ensures dist[t].n <= Sum(ws) {
        RelaxedLowerBound(g, source, dist, p, ws);
      }
    }
    forall t | t in pred ensures PredEdge(g, dist, stamp, pred[t], t) {
      assert PredLink(g, dist, pw, stamp, pred[t], t);
    }
  }

  /**
   * dijkstra(graph, source): the recorded distances are exactly the
   * least walk weights from the source (Inf exactly for the vertices it
   * cannot reach), every edge out of a finite vertex is relaxed, and the
   * finite vertices other than the source are exactly those with a
   * predecessor, each joined to it by an edge that accounts for the
   * distance. The ghost stamps order equal distances along predecessor
   * links. The Ruby code raises only when a popped vertex (one reachable
   * from the source) has an edge into a vertex that is not a key, since
   * it then compares against a missing distance; the precondition asks
   * for more, that every edge target be a key.
   */
  method Dijkstra<V(!new)>(g: Graph<V>, source: V) returns (dist: map<V, Dist>, pred: map<V, V>, ghost stamp: map<V, nat>)
    requires TargetsAreKeys(g)
    ensures dist.Keys == g.Keys + {source} && dist[source] == Fin(0)
    ensures forall t :: Reachable(g, source, t) ==> t in dist
    ensures forall t :: t in dist ==> (dist[t].Fin? <==> Reachable(g, source, t))
    ensures forall t :: t in dist && dist[t].Fin? ==> ShortestWeight(g, source, t, dist[t].n)
    ensures forall u :: u in dist && dist[u].Fin? ==> Relaxed(g, dist, u)
    ensures forall t :: t in pred <==> t in dist && t != source && dist[t].Fin?
    ensures forall t :: t in pred ==> PredEdge(g, dist, stamp, pred[t], t)
    ensures stamp.Keys == dist.Keys
  {
    dist := (map k | k in g :: Inf)[source := Fin(0)];
    pred := map[];
    var pq: multiset<(V, nat)> := multiset{(source, 0)};
    ghost var pw: map<V, nat> := map[];
    stamp := map k | k in dist :: 0;
    ghost var clock: nat := 1;
    InitOk(g, source, dist, stamp);
    while pq != multiset{}
      invariant Inv(g, source, dist, pred, pw, pq, stamp, clock)
      invariant forall k :: Settled(g, dist, pq, k)
      decreases InfKeys(dist), Potential(dist), |pq|
    {
      ghost var m := MinEntry(pq);
      var entry :| entry in pq && forall f :: f in pq ==> entry.1 <= f.1;
      var v, x := entry.0, entry.1;
      PopOk(g, source, dist, pred, pw, pq, stamp, clock, v, x);
      ghost var dist1, pq0 := dist, pq;
      pq := pq - multiset{entry};
      assert |pq| < |pq0|;
      ghost var pq1 := pq;
      dist, pred, pw, pq, stamp, clock := RelaxEdges(g, source, v, x, Adj(g, v), dist, pred, pw, pq, stamp, clock);
      if dist != dist1 {
        ImprovesProgress(dist, dist1);
      }
    }
    DoneOk(g, source, dist, pred, pw, stamp, clock);
  }

  /**
   * shortest_path(graph, start, end_node): no path exactly when end_node
   * cannot be reached; otherwise a walk from start to end_node rebuilt
   * from the predecessor links, whose total weight is the least of any
   * walk between them, and just [start] when end_node is start. An
   * end_node that is neither a key nor the start has no recorded
   * distance, and shortest_path then follows missing predecessors forever.
   */
  method ShortestPath<V(!new)>(g: Graph<V>, start: V, endNode: V) returns (path: Option<seq<V>>)
    requires TargetsAreKeys(g)
    requires endNode in g || endNode == start
    ensures path.None? <==> !Reachable(g, start, endNode)
    ensures path.Some? ==>
      var p := path.value;
      |p| >= 1 && p[0] == start && p[|p| - 1] == endNode &&
      exists ws :: IsWalk(g, p, ws) && ShortestWeight(g, start, endNode, Sum(ws))
    ensures endNode == start ==> path == Some([start])
  {
    var dist, pred, stamp := Dijkstra(g, start);
    if dist[endNode] == Inf {
      return None;
    }
    var p := [endNode];
    var current := endNode;
    ghost var ws: seq<nat> := [];
    while current != start
      invariant current in dist && current in stamp && dist[current].Fin?
      invariant endNode == start ==> current == endNode && p == [endNode]
      invariant |p| >= 1 && p[0] == current && p[|p| - 1] == endNode
      invariant IsWalk(g, p, ws) && dist[current].n + Sum(ws) <= dist[endNode].n
      decreases dist[current].n, stamp[current]
    {
      assert PredEdge(g, dist, stamp, pred[current], current);
      var u := pred[current];
      ghost var w :| (current, w) in Adj(g, u) && dist[u].n + w <= dist[current].n;
      WalkPrepend(g, u, w, p, ws);
      p := [u] + p;
      ws := [w] + ws;
      current := u;
    }
    assert WalkBetween(g, p, ws, start, endNode);
    return Some(p);
  }
}
