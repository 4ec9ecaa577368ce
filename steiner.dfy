/**
 * `steiner_tree` of draw_graph.py (and of reprex.py, the same code up to identifier names): the
 * 2-approximate Steiner tree built from the metric closure.  It restricts the
 * closure to the terminals, takes a minimum spanning tree of that, expands
 * each tree edge into the consecutive pairs of the path it carries, and
 * returns the part of G those pairs span.  The networkx calls
 * (`all_pairs_dijkstra`, `minimum_spanning_edges`) come in as parameters;
 * `subgraph`, `pairwise`, `chain.from_iterable` and `edge_subgraph` are
 * written out on values.
 */
module Steiner {
  import opened Wrappers
  import opened Connectivity
  import opened NetworkX
  import opened Closure

  /** A graph view returned by `subgraph` or `edge_subgraph`: its nodes and its edges under both orientations. */
  datatype View<N, A> = View(nodes: set<N>, adj: map<(N, N), A>)

  /** `G.subgraph(keep)`: the nodes of G that are in `keep`, and the edges of G between two of them. */
  function Induced<N(==,!new), A>(nodes: set<N>, adj: map<(N, N), A>, keep: set<N>): (h: View<N, A>)
    ensures h.nodes == nodes * keep
    ensures forall a, b :: (a, b) in h.adj <==> (a, b) in adj && a in keep && b in keep
    ensures forall e :: e in h.adj ==> e in adj && h.adj[e] == adj[e]
  {
    View(nodes * keep, map e | e in adj && e.0 in keep && e.1 in keep :: adj[e])
  }

  /**
   * `G.edge_subgraph(edges)`: the nodes of G that are an end of a listed
   * edge, and the edges of G listed in either orientation.  A listed edge
   * twice, or in both orientations, is one edge of the view.
   */
  function EdgeSubgraph<N(==,!new), A>(nodes: set<N>, adj: map<(N, N), A>, edges: set<(N, N)>): (t: View<N, A>)
    ensures forall x :: x in t.nodes <==> x in nodes && exists e :: e in edges && (x == e.0 || x == e.1)
    ensures forall a, b :: (a, b) in t.adj <==> (a, b) in adj && ((a, b) in edges || (b, a) in edges)
    ensures forall e :: e in t.adj ==> e in adj && t.adj[e] == adj[e]
  {
    View(nodes * ((set e | e in edges :: e.0) + (set e | e in edges :: e.1)),
         map e | e in adj && (e in edges || (e.1, e.0) in edges) :: adj[e])
  }

  /** `pairwise(p)`: the consecutive pairs of p, in order. */
  function Steps<N>(p: seq<N>): (r: seq<(N, N)>)
    ensures |r| == if |p| == 0 then 0 else |p| - 1
    ensures forall i :: 0 <= i < |r| ==> r[i] == (p[i], p[i + 1])
  {
    if |p| < 2 then [] else [(p[0], p[1])] + Steps(p[1..])
  }

  /**
   * `chain.from_iterable(pairwise(d['path']) for u, v, d in mst_edges)`:
   * the consecutive pairs of the path each tree edge carries, path after path.
   */
  function RouteEdges<N(==,!new)>(adj: map<(N, N), Route<N>>, mst: seq<(N, N)>): (r: seq<(N, N)>)
    requires forall i :: 0 <= i < |mst| ==> mst[i] in adj
    ensures forall e :: e in r <==> exists i :: 0 <= i < |mst| && e in Steps(adj[mst[i]].path)
  {
    if mst == [] then []
    else
      var init := mst[..|mst| - 1];
      assert forall i :: 0 <= i < |init| ==> init[i] == mst[i];
      RouteEdges(adj, init) + Steps(adj[mst[|mst| - 1]].path)
  }

  /** The links of a sequence of edges. */
  function EdgeSet<N(==,!new)>(es: seq<(N, N)>): (r: set<(N, N)>)
    ensures forall e :: e in r <==> e in es
  {
    set e | e in es
  }

  /**
   * What `minimum_spanning_edges(H)` promises and the Steiner tree relies on:
   * every edge it yields is an edge of H, and it connects every two nodes of
   * H that H connects.  That the edges are a forest of least weight is not
   * relied on.
   */
  ghost predicate Spanning<N(!new), A>(h: View<N, A>, mst: seq<(N, N)>) {
    && (forall i :: 0 <= i < |mst| ==> mst[i] in h.adj)
    && (forall a, b :: a in h.nodes && b in h.nodes && Connected(h.adj.Keys, a, b) ==> Connected(EdgeSet(mst), a, b))
  }

  /** `H = M.subgraph(terminal_nodes)`: the metric closure restricted to the terminals. */
  function TerminalGraph<N(==,!new)>(nodes: set<N>, runs: seq<Search<N>>, terminals: seq<N>): View<N, Route<N>>
    requires Covered(nodes, runs)
  {
    Induced(ClosureNodes(nodes, runs), ClosureEdges(nodes, runs), set t | t in terminals)
  }

  /** The graph `steiner_tree` returns, once the metric closure exists. */
  function SteinerOf<N(==,!new)>(nodes: set<N>, adj: map<(N, N), real>, runs: seq<Search<N>>, terminals: seq<N>, mst: seq<(N, N)>): View<N, real>
    requires Covered(nodes, runs) && Spanning(TerminalGraph(nodes, runs, terminals), mst)
  {
    EdgeSubgraph(nodes, adj, EdgeSet(RouteEdges(TerminalGraph(nodes, runs, terminals).adj, mst)))
  }

  /**
   * `steiner_tree(G, terminal_nodes)`, with `all_pairs_dijkstra(G)` given as
   * `runs` and `minimum_spanning_edges(H)` as `mst`.  It raises exactly what
   * `metric_closure` raises; otherwise it returns the edge subgraph of G
   * spanned by the tree edges' paths.
   */
  method SteinerTree<N(==,!new)>(G: NxGraph<N, real>, terminals: seq<N>, runs: seq<Search<N>>, mst: seq<(N, N)>)
      returns (r: Result<View<N, real>, ClosureError>)
    requires G.Valid() && AllPairs(G.nodes, G.adj.Keys, runs)
    requires Covered(G.nodes, runs) ==> Spanning(TerminalGraph(G.nodes, runs, terminals), mst)
    ensures r.Failure? ==>
              || (r.error == StopIteration && G.nodes == {})
              || (r.error == ValueError && |runs| > 0 && NegativeReachable(G.adj, runs[0].source))
              || (r.error == NetworkXError && |runs| > 0 && !NegativeReachable(G.adj, runs[0].source) && !ConnectsAll(G.adj.Keys, G.nodes))
    ensures r.Success? ==>
              && G.nodes != {} && ConnectsAll(G.adj.Keys, G.nodes) && Covered(G.nodes, runs) && NoNegativeWeight(G.adj)
              && r.value == SteinerOf(G.nodes, G.adj, runs, terminals, mst)
  {
    var closure := MetricClosure(G, runs);
    if closure.Failure? {
      return Failure(closure.error);
    }
    var M := closure.value;
    var H := Induced(M.nodes, M.adj, set t | t in terminals);
    var edges := RouteEdges(H.adj, mst);
    var T := EdgeSubgraph(G.nodes, G.adj, EdgeSet(edges));
    return Success(T);
  }

  /**
   * Restricted to the terminals, the closure of a connected graph with at
   * least two nodes is the complete graph on the terminals that are nodes of G.
   */
  lemma TerminalGraphComplete<N(!new)>(nodes: set<N>, L: set<(N, N)>, runs: seq<Search<N>>, terminals: seq<N>, x: N, y: N)
    requires AllPairs(nodes, L, runs) && Covered(nodes, runs)
    requires x in nodes && y in nodes && x != y
    ensures TerminalGraph(nodes, runs, terminals).nodes == set t | t in terminals && t in nodes
    ensures forall a, b :: (a, b) in TerminalGraph(nodes, runs, terminals).adj <==>
              a in terminals && b in terminals && a in nodes && b in nodes && a != b
  {
    ClosureNodesMany(nodes, L, runs, x, y);
    ClosureKeys(nodes, L, runs);
    InducedOnTerminals(ClosureNodes(nodes, runs), ClosureEdges(nodes, runs), terminals);
  }

  /** The terminals' subgraph of a view whose edges are exactly the pairs of distinct nodes. */
  lemma InducedOnTerminals<N(!new), A>(nodes: set<N>, adj: map<(N, N), A>, terminals: seq<N>)
    requires forall a, b :: (a, b) in adj <==> a in nodes && b in nodes && a != b
    ensures Induced(nodes, adj, set t | t in terminals).nodes == set t | t in terminals && t in nodes
    ensures forall a, b :: (a, b) in Induced(nodes, adj, set t | t in terminals).adj <==>
              a in terminals && b in terminals && a in nodes && b in nodes && a != b
  {
  }

  /**
   * Every edge of the Steiner tree is an edge of G with G's weight, and it
   * is a consecutive pair, in one orientation or the other, on the path of
   * some spanning-tree edge; conversely every such pair is an edge of the
   * tree.  The tree is undirected like G.
   */
  lemma SteinerEdges<N(!new)>(nodes: set<N>, adj: map<(N, N), real>, runs: seq<Search<N>>, terminals: seq<N>, mst: seq<(N, N)>)
    requires Undirected(nodes, adj) && AllPairs(nodes, adj.Keys, runs) && Covered(nodes, runs)
    requires Spanning(TerminalGraph(nodes, runs, terminals), mst)
    ensures var t := SteinerOf(nodes, adj, runs, terminals, mst);
      var H := TerminalGraph(nodes, runs, terminals);
      && t.nodes <= nodes && Undirected(t.nodes, t.adj)
      && (forall e :: e in t.adj ==> e in adj && t.adj[e] == adj[e])
      && forall a, b :: (a, b) in t.adj <==>
           exists i :: 0 <= i < |mst| && ((a, b) in Steps(H.adj[mst[i]].path) || (b, a) in Steps(H.adj[mst[i]].path))
  {
    var H := TerminalGraph(nodes, runs, terminals);
    RoutesInG(nodes, adj, runs, terminals, mst);
    RouteSubgraph(nodes, adj, H.adj, mst);
  }

  /** The edge subgraph of an undirected graph spanned by route paths whose steps are edges of it. */
  lemma RouteSubgraph<N(!new), A>(nodes: set<N>, adj: map<(N, N), A>, routes: map<(N, N), Route<N>>, mst: seq<(N, N)>)
    requires Undirected(nodes, adj) && forall i :: 0 <= i < |mst| ==> mst[i] in routes
    requires forall e :: e in EdgeSet(RouteEdges(routes, mst)) ==> e in adj && (e.1, e.0) in adj
    ensures var t := EdgeSubgraph(nodes, adj, EdgeSet(RouteEdges(routes, mst)));
      && t.nodes <= nodes && Undirected(t.nodes, t.adj)
      && (forall e :: e in t.adj ==> e in adj && t.adj[e] == adj[e])
      && forall a, b :: (a, b) in t.adj <==>
           exists i :: 0 <= i < |mst| && ((a, b) in Steps(routes[mst[i]].path) || (b, a) in Steps(routes[mst[i]].path))
  {
    EdgeSubgraphUndirected(nodes, adj, EdgeSet(RouteEdges(routes, mst)));
  }

  /** Every consecutive pair on the paths of the spanning-tree edges is an edge of G, under both orientations. */
  lemma RoutesInG<N(!new)>(nodes: set<N>, adj: map<(N, N), real>, runs: seq<Search<N>>, terminals: seq<N>, mst: seq<(N, N)>)
    requires Undirected(nodes, adj) && AllPairs(nodes, adj.Keys, runs) && Covered(nodes, runs)
    requires Spanning(TerminalGraph(nodes, runs, terminals), mst)
    ensures var H := TerminalGraph(nodes, runs, terminals);
      forall e :: e in EdgeSet(RouteEdges(H.adj, mst)) ==> e in adj && (e.1, e.0) in adj
  {
    var H := TerminalGraph(nodes, runs, terminals);
    forall e | e in EdgeSet(RouteEdges(H.adj, mst)) ensures e in adj && (e.1, e.0) in adj {
      var i :| 0 <= i < |mst| && e in Steps(H.adj[mst[i]].path);
      PathStepInG(nodes, adj, runs, terminals, mst, i, e.0, e.1);
    }
  }

  /** The edge subgraph of an undirected graph, on edges of the graph, is undirected and has exactly those edges, both ways. */
  lemma EdgeSubgraphUndirected<N(!new), A>(nodes: set<N>, adj: map<(N, N), A>, edges: set<(N, N)>)
    requires Undirected(nodes, adj) && forall e :: e in edges ==> e in adj && (e.1, e.0) in adj
    ensures var t := EdgeSubgraph(nodes, adj, edges);
      && t.nodes <= nodes && Undirected(t.nodes, t.adj)
      && forall a, b :: (a, b) in t.adj <==> (a, b) in edges || (b, a) in edges
  {
    var t := EdgeSubgraph(nodes, adj, edges);
    forall a, b | (a, b) in t.adj ensures a in t.nodes && b in t.nodes {
      if (a, b) in edges {
        assert a == (a, b).0 && b == (a, b).1;
      } else {
        assert a == (b, a).1 && b == (b, a).0;
      }
    }
  }

  /** A consecutive pair on the path of a spanning-tree edge is an edge of G, under both orientations. */
  lemma PathStepInG<N(!new)>(nodes: set<N>, adj: map<(N, N), real>, runs: seq<Search<N>>, terminals: seq<N>, mst: seq<(N, N)>,
                             i: nat, a: N, b: N)
    requires Undirected(nodes, adj) && AllPairs(nodes, adj.Keys, runs) && Covered(nodes, runs)
    requires Spanning(TerminalGraph(nodes, runs, terminals), mst)
    requires i < |mst| && (a, b) in Steps(TerminalGraph(nodes, runs, terminals).adj[mst[i]].path)
    ensures (a, b) in adj && (b, a) in adj
  {
    var H := TerminalGraph(nodes, runs, terminals);
    var (x, y) := mst[i];
    assert (x, y) in H.adj;
    ClosureRoutes(nodes, adj.Keys, runs, x, y);
    var p := H.adj[(x, y)].path;
    assert p == ClosureEdges(nodes, runs)[(x, y)].path;
    var j :| 0 <= j < |Steps(p)| && Steps(p)[j] == (a, b);
    assert Linked(adj.Keys, p[j], p[j + 1]);
  }

  /** The path a spanning-tree edge carries is a walk of the Steiner tree between the edge's ends. */
  lemma TreeEdgeConnected<N(!new)>(nodes: set<N>, adj: map<(N, N), real>, runs: seq<Search<N>>, terminals: seq<N>, mst: seq<(N, N)>,
                                   x: N, y: N)
    requires Undirected(nodes, adj) && AllPairs(nodes, adj.Keys, runs) && Covered(nodes, runs)
    requires Spanning(TerminalGraph(nodes, runs, terminals), mst)
    requires (x, y) in EdgeSet(mst)
    ensures Connected(SteinerOf(nodes, adj, runs, terminals, mst).adj.Keys, x, y)
  {
    var t := SteinerOf(nodes, adj, runs, terminals, mst);
    var H := TerminalGraph(nodes, runs, terminals);
    var i :| 0 <= i < |mst| && mst[i] == (x, y);
    ClosureRoutes(nodes, adj.Keys, runs, x, y);
    var p := H.adj[(x, y)].path;
    assert p == ClosureEdges(nodes, runs)[(x, y)].path;
    forall j | 0 <= j < |p| - 1 ensures Linked(t.adj.Keys, p[j], p[j + 1]) {
      assert Steps(p)[j] == (p[j], p[j + 1]);
      PathStepInG(nodes, adj, runs, terminals, mst, i, p[j], p[j + 1]);
    }
    assert IsWalk(t.adj.Keys, p);
    if p[0] != x {
      ConnectedSymm(t.adj.Keys, y, x);
    }
  }

  /**
   * The Steiner tree connects every two terminals that are nodes of G: the
   * spanning tree connects them in H, and each of its edges is a walk of the
   * Steiner tree.
   */
  lemma SteinerConnects<N(!new)>(nodes: set<N>, adj: map<(N, N), real>, runs: seq<Search<N>>, terminals: seq<N>, mst: seq<(N, N)>,
                                 a: N, b: N)
    requires Undirected(nodes, adj) && AllPairs(nodes, adj.Keys, runs) && Covered(nodes, runs)
    requires Spanning(TerminalGraph(nodes, runs, terminals), mst)
    requires a in terminals && b in terminals && a in nodes && b in nodes
    ensures Connected(SteinerOf(nodes, adj, runs, terminals, mst).adj.Keys, a, b)
  {
    var K := SteinerOf(nodes, adj, runs, terminals, mst).adj.Keys;
    if a == b {
      ConnectedRefl(K, a);
    } else {
      TreeConnectsTerminals(nodes, adj.Keys, runs, terminals, mst, a, b);
      TreeEdgesConnected(nodes, adj, runs, terminals, mst);
      ConnectedCoverAll(EdgeSet(mst), K, a, b);
    }
  }

  /** The spanning tree of H connects every two distinct terminals that are nodes of G. */
  lemma TreeConnectsTerminals<N(!new)>(nodes: set<N>, L: set<(N, N)>, runs: seq<Search<N>>, terminals: seq<N>, mst: seq<(N, N)>,
                                       a: N, b: N)
    requires AllPairs(nodes, L, runs) && Covered(nodes, runs)
    requires Spanning(TerminalGraph(nodes, runs, terminals), mst)
    requires a in terminals && b in terminals && a in nodes && b in nodes && a != b
    ensures Connected(EdgeSet(mst), a, b)
  {
    var H := TerminalGraph(nodes, runs, terminals);
    TerminalGraphComplete(nodes, L, runs, terminals, a, b);
    ConnectedLink(H.adj.Keys, a, b);
  }

  /** Every edge of the spanning tree joins two nodes the Steiner tree connects. */
  lemma TreeEdgesConnected<N(!new)>(nodes: set<N>, adj: map<(N, N), real>, runs: seq<Search<N>>, terminals: seq<N>, mst: seq<(N, N)>)
    requires Undirected(nodes, adj) && AllPairs(nodes, adj.Keys, runs) && Covered(nodes, runs)
    requires Spanning(TerminalGraph(nodes, runs, terminals), mst)
    ensures forall x, y :: (x, y) in EdgeSet(mst) ==> Connected(SteinerOf(nodes, adj, runs, terminals, mst).adj.Keys, x, y)
  {
    forall x, y | (x, y) in EdgeSet(mst) ensures Connected(SteinerOf(nodes, adj, runs, terminals, mst).adj.Keys, x, y) {
      TreeEdgeConnected(nodes, adj, runs, terminals, mst, x, y);
    }
  }

  /** With two distinct terminals in G, every terminal in G is a node of the Steiner tree. */
  lemma SteinerHasTerminals<N(!new)>(nodes: set<N>, adj: map<(N, N), real>, runs: seq<Search<N>>, terminals: seq<N>, mst: seq<(N, N)>,
                                     a: N, b: N)
    requires Undirected(nodes, adj) && AllPairs(nodes, adj.Keys, runs) && Covered(nodes, runs)
    requires Spanning(TerminalGraph(nodes, runs, terminals), mst)
    requires a in terminals && b in terminals && a in nodes && b in nodes && a != b
    ensures a in SteinerOf(nodes, adj, runs, terminals, mst).nodes
  {
    var t := SteinerOf(nodes, adj, runs, terminals, mst);
    SteinerConnects(nodes, adj, runs, terminals, mst, a, b);
    var p :| IsWalk(t.adj.Keys, p) && p[0] == a && p[|p| - 1] == b;
    assert Linked(t.adj.Keys, p[0], p[1]);
    SteinerEdges(nodes, adj, runs, terminals, mst);
  }
}
