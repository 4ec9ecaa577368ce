/**
 * `metric_closure` of draw_graph.py (and of reprex.py, the same code up to identifier names):
 * the complete graph on the nodes of a connected graph G whose edge between
 * u and v carries the distance and the path that a single-source search from
 * u (or from v) found.  The searches themselves, `nx.all_pairs_dijkstra`, are
 * networkx's and come in as a parameter with the promise below.
 */
module Closure {
  import opened Wrappers
  import opened Connectivity
  import opened NetworkX

  /** The exceptions `metric_closure` raises. */
  datatype ClosureError =
    | StopIteration  // `next(all_paths_iter)` on a graph with no node
    | ValueError     // "Contradictory paths found:", raised by the first search when it meets a negative weight
    | NetworkXError  // "G is not a connected graph. metric_closure is not defined."

  /** One item `(u, (distance, path))` of `all_pairs_dijkstra(G)`. */
  datatype Search<N> = Search(source: N, distance: map<N, real>, path: map<N, seq<N>>)

  /** The attributes of an edge of the metric closure. */
  datatype Route<N> = Route(distance: real, path: seq<N>)

  /**
   * What networkx promises of one search from `run.source` over the links L:
   * it reaches exactly the nodes connected to the source, and the path to
   * each is a walk from the source to it.
   */
  ghost predicate SearchOf<N(!new)>(nodes: set<N>, L: set<(N, N)>, run: Search<N>) {
    && run.source in nodes
    && (forall v :: v in run.distance <==> v in nodes && Connected(L, run.source, v))
    && (forall v :: v in run.distance ==>
          v in run.path && IsWalk(L, run.path[v]) && run.path[v][0] == run.source && run.path[v][|run.path[v]| - 1] == v)
  }

  /** No weight of W is negative. */
  ghost predicate NoNegativeWeight<N(!new)>(W: map<(N, N), real>) {
    forall e :: e in W ==> W[e] >= 0.0
  }

  /**
   * A link of negative weight lies in the component of `source`.  networkx's
   * search from `source` raises ValueError exactly then: once both ends of
   * such a link are final, the later one offers the earlier one a shorter
   * distance than its final one (the check `Dijkstra.Relax` models).
   */
  ghost predicate NegativeReachable<N(!new)>(W: map<(N, N), real>, source: N) {
    exists e :: e in W && W[e] < 0.0 && Connected(W.Keys, source, e.0)
  }

  /** The total weight of a walk over the weighted links W, each step weighed in whichever orientation W holds it. */
  ghost function WalkWeight<N(!new)>(W: map<(N, N), real>, p: seq<N>): real
    requires IsWalk(W.Keys, p)
    decreases |p|
  {
    if |p| == 1 then 0.0
    else
      assert IsWalk(W.Keys, p[1..]) by {
        forall i | 0 <= i < |p[1..]| - 1 ensures Linked(W.Keys, p[1..][i], p[1..][i + 1]) {
          assert Linked(W.Keys, p[i + 1], p[i + 2]);
        }
      }
      (if (p[0], p[1]) in W then W[(p[0], p[1])] else W[(p[1], p[0])]) + WalkWeight(W, p[1..])
  }

  /**
   * What networkx promises of the weights one search over W finds: the
   * distance to each node is the weight of the path found to it, and, when
   * no weight is negative, no walk from the source to that node weighs less.
   */
  ghost predicate WeighsPaths<N(!new)>(W: map<(N, N), real>, run: Search<N>) {
    forall v :: v in run.distance && v in run.path && IsWalk(W.Keys, run.path[v]) ==>
      && run.distance[v] == WalkWeight(W, run.path[v])
      && (NoNegativeWeight(W) ==>
            forall q :: IsWalk(W.Keys, q) && q[0] == run.source && q[|q| - 1] == v ==> run.distance[v] <= WalkWeight(W, q))
  }

  /** Every search of `all_pairs_dijkstra(G, weight=weight)` weighs its paths by W. */
  ghost predicate AllWeighed<N(!new)>(W: map<(N, N), real>, runs: seq<Search<N>>) {
    forall k :: 0 <= k < |runs| ==> WeighsPaths(W, runs[k])
  }

  /** `all_pairs_dijkstra(G)`: one search from every node, each node once, in some order. */
  ghost predicate AllPairs<N(!new)>(nodes: set<N>, L: set<(N, N)>, runs: seq<Search<N>>) {
    && (forall x :: x in nodes <==> exists k :: 0 <= k < |runs| && runs[k].source == x)
    && (forall k, m :: 0 <= k < m < |runs| ==> runs[k].source != runs[m].source)
    && (forall k :: 0 <= k < |runs| ==> SearchOf(nodes, L, runs[k]))
  }

  /** Every search has a distance and a path to every node. */
  ghost predicate Covered<N(!new)>(nodes: set<N>, runs: seq<Search<N>>) {
    forall k, v :: 0 <= k < |runs| && v in nodes ==> v in runs[k].distance && v in runs[k].path
  }

  /** The sources of the given searches. */
  function Sources<N(==,!new)>(runs: seq<Search<N>>): (r: set<N>)
    ensures forall x :: x in r <==> exists k :: 0 <= k < |runs| && runs[k].source == x
  {
    set k | 0 <= k < |runs| :: runs[k].source
  }

  /** The edges the inner loop adds for one search: from its source to every node of `rest`, both ways. */
  function RowOf<N(==,!new)>(run: Search<N>, rest: set<N>): (r: map<(N, N), Route<N>>)
    requires run.source !in rest && forall v :: v in rest ==> v in run.distance && v in run.path
    ensures forall a, b :: (a, b) in r <==> (a == run.source && b in rest) || (b == run.source && a in rest)
    ensures forall v :: v in rest ==> r[(run.source, v)] == Route(run.distance[v], run.path[v]) && r[(v, run.source)] == r[(run.source, v)]
  {
    map p | p in (set v | v in rest :: (run.source, v)) + (set v | v in rest :: (v, run.source)) ::
      var v := if p.0 == run.source then p.1 else p.0;
      Route(run.distance[v], run.path[v])
  }

  /** The nodes `add_edge` brings in for one search: none if no node is left, else its source and every node left. */
  function RowNodes<N(==,!new)>(run: Search<N>, rest: set<N>): set<N> {
    if rest == {} then {} else rest + {run.source}
  }

  /** The edges of the closure after the first k searches: each joins its source to the nodes no earlier search started from. */
  function ClosureUpTo<N(==,!new)>(nodes: set<N>, runs: seq<Search<N>>, k: nat): map<(N, N), Route<N>>
    requires k <= |runs| && Covered(nodes, runs)
  {
    if k == 0 then map[]
    else
      assert runs[..k][k - 1] == runs[k - 1];
      ClosureUpTo(nodes, runs, k - 1) + RowOf(runs[k - 1], nodes - Sources(runs[..k]))
  }

  /** The nodes of the closure after the first k searches. */
  function ClosureNodesUpTo<N(==,!new)>(nodes: set<N>, runs: seq<Search<N>>, k: nat): set<N>
    requires k <= |runs|
  {
    if k == 0 then {}
    else ClosureNodesUpTo(nodes, runs, k - 1) + RowNodes(runs[k - 1], nodes - Sources(runs[..k]))
  }

  /** The edges of the whole metric closure. */
  function ClosureEdges<N(==,!new)>(nodes: set<N>, runs: seq<Search<N>>): map<(N, N), Route<N>>
    requires Covered(nodes, runs)
  {
    ClosureUpTo(nodes, runs, |runs|)
  }

  /** The nodes of the whole metric closure. */
  function ClosureNodes<N(==,!new)>(nodes: set<N>, runs: seq<Search<N>>): set<N> {
    ClosureNodesUpTo(nodes, runs, |runs|)
  }

  /**
   * The check on the first search alone decides connectivity: it reaches
   * every node exactly when every two nodes are connected.
   */
  lemma FirstSearchDecides<N(!new)>(nodes: set<N>, L: set<(N, N)>, runs: seq<Search<N>>)
    requires AllPairs(nodes, L, runs) && runs != []
    ensures ConnectsAll(L, nodes) <==> nodes <= runs[0].distance.Keys
  {
    var u := runs[0].source;
    assert SearchOf(nodes, L, runs[0]);
    if nodes <= runs[0].distance.Keys {
      forall a, b | a in nodes && b in nodes ensures Connected(L, a, b) {
        assert Connected(L, u, a) && Connected(L, u, b);
        ConnectedSymm(L, u, a);
        ConnectedTrans(L, a, u, b);
      }
    }
  }

  /** The first search reaches a negative weight exactly when one lies in its source's component. */
  lemma FirstSearchNegative<N(!new)>(nodes: set<N>, W: map<(N, N), real>, runs: seq<Search<N>>)
    requires Undirected(nodes, W) && AllPairs(nodes, W.Keys, runs) && runs != []
    ensures NegativeReachable(W, runs[0].source) <==> exists e :: e in W && e.0 in runs[0].distance && W[e] < 0.0
  {
    assert SearchOf(nodes, W.Keys, runs[0]);
  }

  /** A connected graph whose first search meets no negative weight has none at all. */
  lemma ConnectedNoNegative<N(!new)>(nodes: set<N>, W: map<(N, N), real>, runs: seq<Search<N>>)
    requires Undirected(nodes, W) && AllPairs(nodes, W.Keys, runs) && runs != [] && ConnectsAll(W.Keys, nodes)
    requires !NegativeReachable(W, runs[0].source)
    ensures NoNegativeWeight(W)
  {
    assert SearchOf(nodes, W.Keys, runs[0]);
    forall e | e in W ensures W[e] >= 0.0 {
      assert e.0 in nodes;
      assert Connected(W.Keys, runs[0].source, e.0);
    }
  }

  /** In a connected graph every search reaches every node. */
  lemma AllCovered<N(!new)>(nodes: set<N>, L: set<(N, N)>, runs: seq<Search<N>>)
    requires AllPairs(nodes, L, runs) && ConnectsAll(L, nodes)
    ensures Covered(nodes, runs)
  {
    forall k, v | 0 <= k < |runs| && v in nodes ensures v in runs[k].distance && v in runs[k].path {
      assert SearchOf(nodes, L, runs[k]);
      assert Connected(L, runs[k].source, v);
    }
  }

  /**
   * `metric_closure(G)` with `all_pairs_dijkstra(G)` given as `runs`: take the
   * first search (which raises ValueError when a negative weight is reachable
   * from its source), raise unless it reaches every node, then for each search
   * in turn strike its source from `Gnodes` and join it to every node left.
   * A successful closure therefore comes from a graph with no negative weight.
   */
  method MetricClosure<N(==,!new)>(G: NxGraph<N, real>, runs: seq<Search<N>>) returns (r: Result<NxGraph<N, Route<N>>, ClosureError>)
    requires G.Valid() && AllPairs(G.nodes, G.adj.Keys, runs)
    ensures r.Failure? ==>
              || (r.error == StopIteration && G.nodes == {})
              || (r.error == ValueError && |runs| > 0 && NegativeReachable(G.adj, runs[0].source))
              || (r.error == NetworkXError && |runs| > 0 && !NegativeReachable(G.adj, runs[0].source) && !ConnectsAll(G.adj.Keys, G.nodes))
    ensures r.Success? ==> G.nodes != {} && ConnectsAll(G.adj.Keys, G.nodes) && Covered(G.nodes, runs)
    ensures r.Success? ==> NoNegativeWeight(G.adj)
    ensures r.Success? ==> fresh(r.value) && r.value.Valid() && r.value.pos == map[]
    ensures r.Success? ==> r.value.adj == ClosureEdges(G.nodes, runs) && r.value.nodes == ClosureNodes(G.nodes, runs)
  {
    if |runs| == 0 {
      return Failure(StopIteration);
    }
    var gnodes := G.nodes;
    FirstSearchNegative(G.nodes, G.adj, runs);
    if exists e :: e in G.adj && e.0 in runs[0].distance && G.adj[e] < 0.0 {
      return Failure(ValueError);
    }
    FirstSearchDecides(G.nodes, G.adj.Keys, runs);
    if gnodes - runs[0].distance.Keys != {} {
      return Failure(NetworkXError);
    }
    assert G.nodes <= runs[0].distance.Keys by {
      forall x | x in G.nodes ensures x in runs[0].distance {
        assert x !in gnodes - runs[0].distance.Keys;
      }
    }
    AllCovered(G.nodes, G.adj.Keys, runs);
    ConnectedNoNegative(G.nodes, G.adj, runs);
    SourcesDistinct(G.nodes, G.adj.Keys, runs);
    var M := JoinAll(gnodes, runs);
    return Success(M);
  }

  /**
   * The two loops of `metric_closure` after the check, the first search
   * included: for each search in turn, strike its source from `Gnodes` and
   * join it to every node left.
   */
  method JoinAll<N(==,!new)>(nodes: set<N>, runs: seq<Search<N>>) returns (M: NxGraph<N, Route<N>>)
    requires Covered(nodes, runs)
    requires forall k :: 0 <= k < |runs| ==> runs[k].source in nodes
    requires forall k, m :: 0 <= k < m < |runs| ==> runs[k].source != runs[m].source
    ensures fresh(M) && M.Valid() && M.pos == map[]
    ensures M.adj == ClosureEdges(nodes, runs) && M.nodes == ClosureNodes(nodes, runs)
  {
    M := new NxGraph<N, Route<N>>();
    assert runs[..0] == [];
    JoinFrom(M, nodes, runs, 0, nodes);
  }

  /** The outer loop of `metric_closure` from its k-th turn on, one turn per call. */
  method JoinFrom<N(==,!new)>(M: NxGraph<N, Route<N>>, nodes: set<N>, runs: seq<Search<N>>, k: nat, gnodes: set<N>)
    requires M.Valid() && Joined(nodes, runs, k, gnodes, M.nodes, M.adj)
    requires forall k :: 0 <= k < |runs| ==> runs[k].source in nodes
    requires forall k, m :: 0 <= k < m < |runs| ==> runs[k].source != runs[m].source
    modifies M
    ensures M.Valid() && M.pos == old(M.pos)
    ensures Joined(nodes, runs, |runs|, nodes - Sources(runs), M.nodes, M.adj)
    decreases |runs| - k
  {
    if k < |runs| {
      var rest := JoinNext(M, nodes, runs, k, gnodes);
      JoinFrom(M, nodes, runs, k + 1, rest);
    } else {
      assert runs[..k] == runs;
    }
  }

  /** One turn of the outer loop: strike the source of the k-th search from `Gnodes` and join it to every node left. */
  method JoinNext<N(==,!new)>(M: NxGraph<N, Route<N>>, nodes: set<N>, runs: seq<Search<N>>, k: nat, gnodes: set<N>) returns (rest: set<N>)
    requires M.Valid() && Joined(nodes, runs, k, gnodes, M.nodes, M.adj) && k < |runs|
    requires runs[k].source in nodes && forall m :: 0 <= m < k ==> runs[m].source != runs[k].source
    modifies M
    ensures M.Valid() && M.pos == old(M.pos)
    ensures Joined(nodes, runs, k + 1, rest, M.nodes, M.adj)
  {
    var run := runs[k];
    JoinedStep(nodes, runs, k, gnodes, M.nodes, M.adj);
    rest := gnodes - {run.source};
    AddRow(M, run, rest);
  }

  /** The state of the outer loop after k searches: `Gnodes` has lost their sources and M holds their rows. */
  ghost predicate Joined<N(!new)>(nodes: set<N>, runs: seq<Search<N>>, k: nat, gnodes: set<N>, mnodes: set<N>, madj: map<(N, N), Route<N>>) {
    && k <= |runs| && Covered(nodes, runs)
    && gnodes == nodes - Sources(runs[..k])
    && madj == ClosureUpTo(nodes, runs, k) && mnodes == ClosureNodesUpTo(nodes, runs, k)
  }

  /** One turn of the outer loop keeps its state. */
  lemma JoinedStep<N(!new)>(nodes: set<N>, runs: seq<Search<N>>, k: nat, gnodes: set<N>, mnodes: set<N>, madj: map<(N, N), Route<N>>)
    requires Joined(nodes, runs, k, gnodes, mnodes, madj) && k < |runs|
    requires runs[k].source in nodes && forall m :: 0 <= m < k ==> runs[m].source != runs[k].source
    ensures var rest := gnodes - {runs[k].source};
      && runs[k].source !in rest && (forall v :: v in rest ==> v in runs[k].distance && v in runs[k].path)
      && Joined(nodes, runs, k + 1, rest, mnodes + RowNodes(runs[k], rest), madj + RowOf(runs[k], rest))
  {
    SourcesStep(runs, k);
    assert gnodes - {runs[k].source} == nodes - Sources(runs[..k + 1]);
  }

  /** The inner loop `for v in Gnodes`: join the search's source to every node left, in any order. */
  method AddRow<N(==,!new)>(M: NxGraph<N, Route<N>>, run: Search<N>, rest: set<N>)
    requires M.Valid()
    requires run.source !in rest && forall v :: v in rest ==> v in run.distance && v in run.path
    modifies M
    ensures M.Valid() && M.pos == old(M.pos)
    ensures M.nodes == old(M.nodes) + RowNodes(run, rest) && M.adj == old(M.adj) + RowOf(run, rest)
  {
    var todo := rest;
    ghost var done := {};
    RowingStart(M.nodes, M.adj, run, rest);
    while todo != {}
      invariant M.Valid() && M.pos == old(M.pos)
      invariant Rowing(old(M.nodes), old(M.adj), run, rest, done, todo, M.nodes, M.adj)
      decreases |todo|
    {
      var v :| v in todo;
      RowingStep(old(M.nodes), old(M.adj), run, rest, done, todo, M.nodes, M.adj, v);
      M.AddEdge(run.source, v, Route(run.distance[v], run.path[v]));
      done, todo := done + {v}, todo - {v};
    }
    RowingDone(old(M.nodes), old(M.adj), run, rest, done, M.nodes, M.adj);
  }

  /** The state of the inner loop: the nodes of `done` are joined to the source, those of `todo` are not yet. */
  ghost predicate Rowing<N(!new)>(nodes0: set<N>, adj0: map<(N, N), Route<N>>, run: Search<N>, rest: set<N>,
                                  done: set<N>, todo: set<N>, nodes: set<N>, adj: map<(N, N), Route<N>>)
  {
    && run.source !in rest && (forall v :: v in rest ==> v in run.distance && v in run.path)
    && done + todo == rest && done !! todo
    && nodes == nodes0 + RowNodes(run, done) && adj == adj0 + RowOf(run, done)
  }

  /** Before the inner loop nothing of the row is in. */
  lemma RowingStart<N(!new)>(nodes0: set<N>, adj0: map<(N, N), Route<N>>, run: Search<N>, rest: set<N>)
    requires run.source !in rest && forall v :: v in rest ==> v in run.distance && v in run.path
    ensures Rowing(nodes0, adj0, run, rest, {}, rest, nodes0, adj0)
  {
    assert RowOf(run, {}) == map[];
  }

  /** One turn of the inner loop keeps its state. */
  lemma RowingStep<N(!new)>(nodes0: set<N>, adj0: map<(N, N), Route<N>>, run: Search<N>, rest: set<N>,
                            done: set<N>, todo: set<N>, nodes: set<N>, adj: map<(N, N), Route<N>>, v: N)
    requires Rowing(nodes0, adj0, run, rest, done, todo, nodes, adj) && v in todo
    ensures
      var a := Route(run.distance[v], run.path[v]);
      Rowing(nodes0, adj0, run, rest, done + {v}, todo - {v}, nodes + {run.source, v}, adj[(run.source, v) := a][(v, run.source) := a])
  {
    var a := Route(run.distance[v], run.path[v]);
    RowStep(run, done, v);
    MergeUpdate(adj0, RowOf(run, done), (run.source, v), (v, run.source), a);
  }

  /** One more node in the row adds the edge between it and the source, both ways. */
  lemma RowStep<N(!new)>(run: Search<N>, done: set<N>, v: N)
    requires run.source !in done && v != run.source && v in run.distance && v in run.path
    requires forall x :: x in done ==> x in run.distance && x in run.path
    ensures RowOf(run, done + {v}) ==
            RowOf(run, done)[(run.source, v) := Route(run.distance[v], run.path[v])][(v, run.source) := Route(run.distance[v], run.path[v])]
  {
  }

  lemma MergeUpdate<K, A>(x: map<K, A>, r: map<K, A>, k1: K, k2: K, a: A)
    ensures (x + r)[k1 := a][k2 := a] == x + r[k1 := a][k2 := a]
  {
  }

  /** When nothing is left to do, the whole row is in. */
  lemma RowingDone<N(!new)>(nodes0: set<N>, adj0: map<(N, N), Route<N>>, run: Search<N>, rest: set<N>,
                            done: set<N>, nodes: set<N>, adj: map<(N, N), Route<N>>)
    requires Rowing(nodes0, adj0, run, rest, done, {}, nodes, adj)
    ensures nodes == nodes0 + RowNodes(run, rest) && adj == adj0 + RowOf(run, rest)
  {
    assert done == rest;
  }

  /** The next search starts from a node no earlier search started from. */
  lemma SourcesStep<N(!new)>(runs: seq<Search<N>>, k: nat)
    requires k < |runs| && forall m :: 0 <= m < k ==> runs[m].source != runs[k].source
    ensures runs[k].source !in Sources(runs[..k])
    ensures Sources(runs[..k + 1]) == Sources(runs[..k]) + {runs[k].source}
  {
    forall x | x in Sources(runs[..k]) ensures x != runs[k].source {
      var m :| 0 <= m < k && runs[..k][m].source == x;
      assert runs[..k][m] == runs[m];
    }
    SourcesSnoc(runs, k);
  }

  /** The sources of the first k + 1 searches are those of the first k and one more. */
  lemma SourcesSnoc<N(!new)>(runs: seq<Search<N>>, k: nat)
    requires k < |runs|
    ensures Sources(runs[..k + 1]) == Sources(runs[..k]) + {runs[k].source}
  {
    assert runs[..k + 1] == runs[..k] + [runs[k]];
  }

  /** What the closure's loop uses of `all_pairs_dijkstra`: every search starts from a node of G, no two from the same one. */
  lemma SourcesDistinct<N(!new)>(nodes: set<N>, L: set<(N, N)>, runs: seq<Search<N>>)
    requires AllPairs(nodes, L, runs)
    ensures forall k :: 0 <= k < |runs| ==> runs[k].source in nodes
    ensures forall k, m :: 0 <= k < m < |runs| ==> runs[k].source != runs[m].source
  {
    forall k | 0 <= k < |runs| ensures runs[k].source in nodes {
      assert SearchOf(nodes, L, runs[k]);
    }
  }
  /**
   * The edges after k searches join every two distinct nodes one of which
   * is the source of one of those searches.
   */
  lemma {:induction false} ClosureKeysUpTo<N(!new)>(nodes: set<N>, runs: seq<Search<N>>, k: nat)
    requires k <= |runs| && Covered(nodes, runs)
    requires forall m :: 0 <= m < |runs| ==> runs[m].source in nodes
    ensures forall a, b :: (a, b) in ClosureUpTo(nodes, runs, k) <==>
              a in nodes && b in nodes && a != b && (a in Sources(runs[..k]) || b in Sources(runs[..k]))
  {
    if k > 0 {
      ClosureKeysUpTo(nodes, runs, k - 1);
      SourcesSnoc(runs, k - 1);
    }
  }

  /** The metric closure of a connected graph is complete: it joins every two distinct nodes, and only those. */
  lemma ClosureKeys<N(!new)>(nodes: set<N>, L: set<(N, N)>, runs: seq<Search<N>>)
    requires AllPairs(nodes, L, runs) && Covered(nodes, runs)
    ensures forall a, b :: (a, b) in ClosureEdges(nodes, runs) <==> a in nodes && b in nodes && a != b
  {
    SourcesDistinct(nodes, L, runs);
    ClosureKeysUpTo(nodes, runs, |runs|);
    assert runs[..|runs|] == runs;
  }

  /** The attributes `r` of the edge (a, b) are the distance and path that `run` found from one end to the other. */
  ghost predicate RouteFrom<N(!new)>(run: Search<N>, a: N, b: N, r: Route<N>) {
    || (run.source == a && b in run.distance && b in run.path && r == Route(run.distance[b], run.path[b]))
    || (run.source == b && a in run.distance && a in run.path && r == Route(run.distance[a], run.path[a]))
  }

  /** Every edge after k searches carries what one of those searches found between its ends. */
  lemma {:induction false} ClosureRouteUpTo<N(!new)>(nodes: set<N>, runs: seq<Search<N>>, k: nat, a: N, b: N)
    requires k <= |runs| && Covered(nodes, runs) && (a, b) in ClosureUpTo(nodes, runs, k)
    ensures exists m :: 0 <= m < k && RouteFrom(runs[m], a, b, ClosureUpTo(nodes, runs, k)[(a, b)])
  {
    var rest := nodes - Sources(runs[..k]);
    assert runs[..k][k - 1] == runs[k - 1];
    var row := RowOf(runs[k - 1], rest);
    if (a, b) in row {
      assert RouteFrom(runs[k - 1], a, b, ClosureUpTo(nodes, runs, k)[(a, b)]);
    } else {
      ClosureRouteUpTo(nodes, runs, k - 1, a, b);
      var m :| 0 <= m < k - 1 && RouteFrom(runs[m], a, b, ClosureUpTo(nodes, runs, k - 1)[(a, b)]);
      assert RouteFrom(runs[m], a, b, ClosureUpTo(nodes, runs, k)[(a, b)]);
    }
  }

  /**
   * Every edge (a, b) of the metric closure carries the distance and the path
   * that the search from a or from b found to the other end; the path is a
   * walk of G between a and b.
   */
  lemma ClosureRoutes<N(!new)>(nodes: set<N>, L: set<(N, N)>, runs: seq<Search<N>>, a: N, b: N)
    requires AllPairs(nodes, L, runs) && Covered(nodes, runs) && (a, b) in ClosureEdges(nodes, runs)
    ensures var r := ClosureEdges(nodes, runs)[(a, b)];
      && IsWalk(L, r.path)
      && ((r.path[0] == a && r.path[|r.path| - 1] == b) || (r.path[0] == b && r.path[|r.path| - 1] == a))
      && exists m :: 0 <= m < |runs| && RouteFrom(runs[m], a, b, r)
  {
    ClosureRouteUpTo(nodes, runs, |runs|, a, b);
    var r := ClosureEdges(nodes, runs)[(a, b)];
    var m :| 0 <= m < |runs| && RouteFrom(runs[m], a, b, r);
    assert SearchOf(nodes, L, runs[m]);
    RouteFromWalk(nodes, L, runs[m], a, b, r);
  }

  /**
   * Every edge of the metric closure is weighted by the weight of the walk of
   * G it carries and, when no weight of G is negative, by the shortest
   * distance between its ends: no walk of G between them weighs less.
   */
  lemma ClosureWeights<N(!new)>(nodes: set<N>, W: map<(N, N), real>, runs: seq<Search<N>>, a: N, b: N)
    requires AllPairs(nodes, W.Keys, runs) && AllWeighed(W, runs) && Covered(nodes, runs)
    requires (a, b) in ClosureEdges(nodes, runs)
    ensures var r := ClosureEdges(nodes, runs)[(a, b)];
      && IsWalk(W.Keys, r.path)
      && r.distance == WalkWeight(W, r.path)
      && (NoNegativeWeight(W) ==>
            forall q :: IsWalk(W.Keys, q) && q[0] == r.path[0] && q[|q| - 1] == r.path[|r.path| - 1] ==> r.distance <= WalkWeight(W, q))
  {
    ClosureRoutes(nodes, W.Keys, runs, a, b);
    var r := ClosureEdges(nodes, runs)[(a, b)];
    var m :| 0 <= m < |runs| && RouteFrom(runs[m], a, b, r);
    assert SearchOf(nodes, W.Keys, runs[m]) && WeighsPaths(W, runs[m]);
  }

  /** What a search found between a and b is a walk of G between them. */
  lemma RouteFromWalk<N(!new)>(nodes: set<N>, L: set<(N, N)>, run: Search<N>, a: N, b: N, r: Route<N>)
    requires SearchOf(nodes, L, run) && RouteFrom(run, a, b, r)
    ensures IsWalk(L, r.path)
    ensures (r.path[0] == a && r.path[|r.path| - 1] == b) || (r.path[0] == b && r.path[|r.path| - 1] == a)
  {
  }

  /** The nodes after k searches are among G's. */
  lemma {:induction false} ClosureNodesWithin<N(!new)>(nodes: set<N>, runs: seq<Search<N>>, k: nat)
    requires k <= |runs| && forall m :: 0 <= m < |runs| ==> runs[m].source in nodes
    ensures ClosureNodesUpTo(nodes, runs, k) <= nodes
  {
    if k > 0 {
      ClosureNodesWithin(nodes, runs, k - 1);
    }
  }

  /** Once the first search has joined its row, its source and every other node are in. */
  lemma {:induction false} ClosureNodesFirst<N(!new)>(nodes: set<N>, runs: seq<Search<N>>, k: nat)
    requires 1 <= k <= |runs|
    ensures RowNodes(runs[0], nodes - Sources(runs[..1])) <= ClosureNodesUpTo(nodes, runs, k)
  {
    if k > 1 {
      ClosureNodesFirst(nodes, runs, k - 1);
    }
  }

  /** With at most one node, no search has a node left to join. */
  lemma {:induction false} ClosureNodesNone<N(!new)>(nodes: set<N>, runs: seq<Search<N>>, k: nat)
    requires k <= |runs| && forall m :: 0 <= m < |runs| ==> nodes == {runs[m].source}
    ensures ClosureNodesUpTo(nodes, runs, k) == {}
  {
    if k > 0 {
      ClosureNodesNone(nodes, runs, k - 1);
      SourcesSnoc(runs, k - 1);
    }
  }

  /** A node is alone in a set exactly when the set has fewer than two elements. */
  lemma LoneNode<N>(nodes: set<N>, s: N)
    requires s in nodes
    ensures |nodes| < 2 <==> nodes == {s}
  {
    assert |nodes - {s}| == |nodes| - 1;
  }

  /** The metric closure has every node of G when G has at least two, and none otherwise. */
  lemma ClosureNodesAll<N(!new)>(nodes: set<N>, L: set<(N, N)>, runs: seq<Search<N>>)
    requires AllPairs(nodes, L, runs)
    ensures |nodes| >= 2 ==> ClosureNodes(nodes, runs) == nodes
    ensures |nodes| < 2 ==> ClosureNodes(nodes, runs) == {}
  {
    if |nodes| >= 2 {
      var x :| x in nodes;
      LoneNode(nodes, x);
      var y :| y in nodes && y != x;
      ClosureNodesMany(nodes, L, runs, x, y);
    } else {
      forall x, y | x in nodes && y in nodes ensures x == y {
        LoneNode(nodes, x);
      }
      ClosureNodesFew(nodes, L, runs);
    }
  }

  /** With two distinct nodes, the first search alone brings in every node. */
  lemma ClosureNodesMany<N(!new)>(nodes: set<N>, L: set<(N, N)>, runs: seq<Search<N>>, x: N, y: N)
    requires AllPairs(nodes, L, runs) && x in nodes && y in nodes && x != y
    ensures ClosureNodes(nodes, runs) == nodes
  {
    SourcesDistinct(nodes, L, runs);
    var s := runs[0].source;
    SourcesSnoc(runs, 0);
    assert runs[..0] == [];
    assert x in nodes - {s} || y in nodes - {s};
    ClosureNodesFirst(nodes, runs, |runs|);
    ClosureNodesWithin(nodes, runs, |runs|);
  }

  /** With at most one node, the closure has none. */
  lemma ClosureNodesFew<N(!new)>(nodes: set<N>, L: set<(N, N)>, runs: seq<Search<N>>)
    requires AllPairs(nodes, L, runs) && forall x, y :: x in nodes && y in nodes ==> x == y
    ensures ClosureNodes(nodes, runs) == {}
  {
    SourcesDistinct(nodes, L, runs);
    ClosureNodesNone(nodes, runs, |runs|);
  }
}
