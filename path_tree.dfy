/**
 * The second half of `shortest_path_tree` in
 * network_analysis/single_source_with_roads.py: from each sink in turn, walk
 * back along first-recorded predecessors to the source, adding every node and
 * edge met to an undirected networkx Graph.
 */
module PathTree {
  import opened Wrappers
  import opened Dijkstra

  /**
   * The tree returned.  An edge is kept as the pair (v, u) with v the
   * predecessor of u, in the orientation `tree.add_edge(v, u)` was called
   * with; `NoReversedEdge` shows no pair is stored both ways, so reading the
   * pairs as undirected edges loses nothing.
   */
  datatype Tree = Tree(nodes: set<nat>, edges: set<(nat, nat)>)

  /**
   * What the walk back relies on: every final node but the source has a
   * first predecessor, which is final and became final earlier.
   */
  ghost predicate Chained(source: nat, s: State, rank: map<nat, nat>) {
    forall x :: x in s.dist && x != source ==>
      && x in s.pred && s.pred[x] != [] && s.pred[x][0] in s.dist
      && x in rank && s.pred[x][0] in rank && rank[s.pred[x][0]] < rank[x]
  }

  lemma InvChained(G: Adjacency, source: nat, s: State, rank: map<nat, nat>)
    requires Inv(G, source, s, rank)
    ensures Chained(source, s, rank)
  {
    forall x | x in s.dist && x != source
      ensures x in s.pred && s.pred[x] != [] && s.pred[x][0] in s.dist
      ensures x in rank && s.pred[x][0] in rank && rank[s.pred[x][0]] < rank[x]
    {
      assert Recorded(G, s, rank, s.pred[x][0], x);
    }
  }

  /** The nodes met walking back from the final node u to the source, u and the source included. */
  ghost function WalkNodes(source: nat, s: State, rank: map<nat, nat>, u: nat): set<nat>
    requires Chained(source, s, rank) && u in s.dist
    decreases if u in rank then rank[u] else 0
  {
    if u == source then {u} else {u} + WalkNodes(source, s, rank, s.pred[u][0])
  }

  /** The edges (first predecessor, node) met walking back from the final node u to the source. */
  ghost function WalkEdges(source: nat, s: State, rank: map<nat, nat>, u: nat): set<(nat, nat)>
    requires Chained(source, s, rank) && u in s.dist
    decreases if u in rank then rank[u] else 0
  {
    if u == source then {} else {(s.pred[u][0], u)} + WalkEdges(source, s, rank, s.pred[u][0])
  }

  /** The total length of the walk back from u, edge by edge. */
  ghost function WalkLength(G: Adjacency, source: nat, s: State, rank: map<nat, nat>, u: nat): real
    requires Chained(source, s, rank) && u in s.dist
    decreases if u in rank then rank[u] else 0
  {
    if u == source then 0.0
    else
      var v := s.pred[u][0];
      WalkLength(G, source, s, rank, v) + (if v in G && u in G[v] then G[v][u] else 0.0)
  }

  /**
   * The tree the reconstruction loop builds for `sinks` in order, or the
   * exception of the first sink it fails on: KeyError for a sink never seen
   * (`pred[u]`), IndexError for the source itself (`pred[source][0]`).
   */
  ghost function Reconstruct(source: nat, s: State, rank: map<nat, nat>, sinks: seq<nat>): Result<Tree, PathError>
    requires Chained(source, s, rank) && Tracked(s)
    requires forall x :: x in sinks && x in s.seen ==> x in s.dist
  {
    if sinks == [] then Success(Tree({}, {}))
    else
      var init, u := sinks[..|sinks| - 1], sinks[|sinks| - 1];
      assert forall x :: x in init ==> x in sinks;
      var front := Reconstruct(source, s, rank, init);
      if front.Failure? then front
      else if u !in s.pred then Failure(KeyError(u))
      else if s.pred[u] == [] then Failure(IndexError)
      else
        Success(Tree(front.value.nodes + WalkNodes(source, s, rank, u),
                     front.value.edges + WalkEdges(source, s, rank, u)))
  }

  /** Once a prefix of the sinks fails, the whole list fails the same way. */
  lemma {:induction false} ReconstructFailure(source: nat, s: State, rank: map<nat, nat>, sinks: seq<nat>, k: nat)
    requires Chained(source, s, rank) && Tracked(s)
    requires forall x :: x in sinks && x in s.seen ==> x in s.dist
    requires k <= |sinks| && Reconstruct(source, s, rank, sinks[..k]).Failure?
    ensures Reconstruct(source, s, rank, sinks) == Reconstruct(source, s, rank, sinks[..k])
    decreases |sinks|
  {
    if k == |sinks| {
      assert sinks[..k] == sinks;
    } else {
      var init := sinks[..|sinks| - 1];
      assert init[..k] == sinks[..k];
      ReconstructFailure(source, s, rank, init, k);
    }
  }

  /**
   * The inner `while True` for the sink u: add the first predecessor and the
   * edge to it, and go on from the predecessor until it is the source.
   */
  method WalkFrom(source: nat, s: State, ghost rank: map<nat, nat>, sink: nat, nodes: set<nat>, edges: set<(nat, nat)>)
    returns (nodes': set<nat>, edges': set<(nat, nat)>)
    requires Chained(source, s, rank) && sink in s.dist && sink != source
    ensures nodes' == nodes + WalkNodes(source, s, rank, sink)
    ensures edges' == edges + WalkEdges(source, s, rank, sink)
  {
    var u := sink;
    nodes', edges' := nodes + {u}, edges;
    while true
      invariant u in s.dist && u != source && u in nodes'
      invariant nodes' + WalkNodes(source, s, rank, u) == nodes + WalkNodes(source, s, rank, sink)
      invariant edges' + WalkEdges(source, s, rank, u) == edges + WalkEdges(source, s, rank, sink)
      decreases rank[u]
    {
      var v := s.pred[u][0];
      nodes' := nodes' + {v};
      edges' := edges' + {(v, u)};
      if v == source {
        return;
      }
      u := v;
    }
  }

  /** The `for u in sinks` loop: walk back from every sink in order, stopping at the first that raises. */
  method WalkBack(source: nat, s: State, sinks: seq<nat>, ghost rank: map<nat, nat>) returns (r: Result<Tree, PathError>)
    requires Chained(source, s, rank) && Tracked(s) && source in s.pred && s.pred[source] == []
    requires forall x :: x in sinks && x in s.seen ==> x in s.dist
    ensures r == Reconstruct(source, s, rank, sinks)
  {
    var nodes: set<nat> := {};
    var edges: set<(nat, nat)> := {};
    for k := 0 to |sinks|
      invariant Reconstruct(source, s, rank, sinks[..k]) == Success(Tree(nodes, edges))
    {
      var u := sinks[k];
      assert sinks[..k + 1][..k] == sinks[..k];
      if u !in s.pred {
        ReconstructFailure(source, s, rank, sinks, k + 1);
        return Failure(KeyError(u));
      }
      if s.pred[u] == [] {
        ReconstructFailure(source, s, rank, sinks, k + 1);
        return Failure(IndexError);
      }
      nodes, edges := WalkFrom(source, s, rank, u, nodes, edges);
    }
    assert sinks[..|sinks|] == sinks;
    return Success(Tree(nodes, edges));
  }

  /**
   * The edge (v, x) is a shortest-path tree edge: x is final and not the
   * source, v is its first recorded predecessor, the edge is an edge of G,
   * going through it gives x its final distance, and v became final first.
   */
  ghost predicate TreeEdge(G: Adjacency, source: nat, s: State, rank: map<nat, nat>, v: nat, x: nat) {
    && x in s.dist && x != source && x in s.pred && s.pred[x] != [] && v == s.pred[x][0]
    && v in s.dist && v in G && x in G[v] && s.dist[v] + G[v][x] == s.dist[x]
    && v in rank && x in rank && rank[v] < rank[x]
  }

  /**
   * Every node is final and every node but the source hangs from its first
   * predecessor by an edge of the tree; every edge is a `TreeEdge` between
   * two nodes of the tree.
   */
  ghost predicate TreeShape(G: Adjacency, source: nat, s: State, rank: map<nat, nat>, t: Tree)
    requires Chained(source, s, rank)
  {
    && (forall x :: x in t.nodes ==> x in s.dist && (x != source ==> (s.pred[x][0], x) in t.edges))
    && (forall p :: p in t.edges ==> p.0 in t.nodes && p.1 in t.nodes && TreeEdge(G, source, s, rank, p.0, p.1))
  }

  /** The walk back from a final node is a path of tree edges ending at the source. */
  lemma {:induction false} WalkShape(G: Adjacency, source: nat, s: State, rank: map<nat, nat>, u: nat)
    requires InvShape(G, source, s, rank) && InvRecorded(G, source, s, rank) && Chained(source, s, rank) && u in s.dist
    ensures source in WalkNodes(source, s, rank, u) && u in WalkNodes(source, s, rank, u)
    ensures TreeShape(G, source, s, rank, Tree(WalkNodes(source, s, rank, u), WalkEdges(source, s, rank, u)))
    decreases if u in rank then rank[u] else 0
  {
    if u != source {
      var v := s.pred[u][0];
      WalkShape(G, source, s, rank, v);
      assert Recorded(G, s, rank, v, u);
      WalkStepShape(G, source, s, rank, Tree(WalkNodes(source, s, rank, v), WalkEdges(source, s, rank, v)), v, u);
    }
  }

  /** Hanging a node from a tree node by a tree edge keeps the shape. */
  lemma WalkStepShape(G: Adjacency, source: nat, s: State, rank: map<nat, nat>, t: Tree, v: nat, u: nat)
    requires Chained(source, s, rank) && TreeShape(G, source, s, rank, t)
    requires v in t.nodes && TreeEdge(G, source, s, rank, v, u)
    ensures TreeShape(G, source, s, rank, Tree({u} + t.nodes, {(v, u)} + t.edges))
  {
  }

  /** The union of two trees of the right shape has the right shape. */
  lemma UnionShape(G: Adjacency, source: nat, s: State, rank: map<nat, nat>, a: Tree, b: Tree)
    requires Chained(source, s, rank) && TreeShape(G, source, s, rank, a) && TreeShape(G, source, s, rank, b)
    ensures TreeShape(G, source, s, rank, Tree(a.nodes + b.nodes, a.edges + b.edges))
  {
  }

  /**
   * A reconstructed tree holds every sink, and the source too when there is a
   * sink; it has the shape of a shortest-path tree.
   */
  lemma {:induction false} ReconstructShape(G: Adjacency, source: nat, s: State, rank: map<nat, nat>, sinks: seq<nat>)
    requires Inv(G, source, s, rank) && Chained(source, s, rank)
    requires forall x :: x in sinks && x in s.seen ==> x in s.dist
    requires Reconstruct(source, s, rank, sinks).Success?
    ensures var t := Reconstruct(source, s, rank, sinks).value;
      && (forall x :: x in sinks ==> x in t.nodes)
      && (sinks != [] ==> source in t.nodes)
      && TreeShape(G, source, s, rank, t)
  {
    if sinks != [] {
      var init, u := sinks[..|sinks| - 1], sinks[|sinks| - 1];
      ReconstructSnoc(source, s, rank, sinks);
      ReconstructShape(G, source, s, rank, init);
      WalkShape(G, source, s, rank, u);
      var front := Reconstruct(source, s, rank, init).value;
      UnionShape(G, source, s, rank, front, Tree(WalkNodes(source, s, rank, u), WalkEdges(source, s, rank, u)));
      assert forall x :: x in sinks ==> x in init || x == u;
    }
  }

  /** A successful reconstruction is that of all sinks but the last, joined with the walk back from the last. */
  lemma ReconstructSnoc(source: nat, s: State, rank: map<nat, nat>, sinks: seq<nat>)
    requires Chained(source, s, rank) && Tracked(s)
    requires forall x :: x in sinks && x in s.seen ==> x in s.dist
    requires sinks != [] && Reconstruct(source, s, rank, sinks).Success?
    ensures var init, u := sinks[..|sinks| - 1], sinks[|sinks| - 1];
      && (forall x :: x in init && x in s.seen ==> x in s.dist)
      && Reconstruct(source, s, rank, init).Success? && u in s.dist
      && Reconstruct(source, s, rank, sinks).value
         == Tree(Reconstruct(source, s, rank, init).value.nodes + WalkNodes(source, s, rank, u),
                 Reconstruct(source, s, rank, init).value.edges + WalkEdges(source, s, rank, u))
  {
    assert forall x :: x in sinks[..|sinks| - 1] ==> x in sinks;
  }

  /** t holds exactly the walks back from the sinks: a node or edge is in it exactly when it lies on some sink's walk back. */
  ghost predicate WalksUnion(source: nat, s: State, rank: map<nat, nat>, sinks: seq<nat>, t: Tree)
    requires Chained(source, s, rank)
  {
    && (forall n :: n in t.nodes <==> exists x :: x in sinks && x in s.dist && n in WalkNodes(source, s, rank, x))
    && (forall a :: a in t.edges <==> exists x :: x in sinks && x in s.dist && a in WalkEdges(source, s, rank, x))
  }

  /** A reconstructed tree is the union of the sinks' walks back, and holds nothing else. */
  lemma {:induction false} ReconstructWalks(source: nat, s: State, rank: map<nat, nat>, sinks: seq<nat>)
    requires Chained(source, s, rank) && Tracked(s)
    requires forall x :: x in sinks && x in s.seen ==> x in s.dist
    requires Reconstruct(source, s, rank, sinks).Success?
    ensures WalksUnion(source, s, rank, sinks, Reconstruct(source, s, rank, sinks).value)
    decreases |sinks|
  {
    if sinks != [] {
      var init, u := sinks[..|sinks| - 1], sinks[|sinks| - 1];
      ReconstructSnoc(source, s, rank, sinks);
      ReconstructWalks(source, s, rank, init);
      assert forall x :: x in sinks <==> x in init || x == u;
    }
  }

  /**
   * The reconstruction succeeds exactly when every sink was seen and none is
   * the source; otherwise it reports a sink never seen or the source.
   */
  lemma {:induction false} ReconstructOutcome(G: Adjacency, source: nat, s: State, rank: map<nat, nat>, sinks: seq<nat>)
    requires Inv(G, source, s, rank) && Chained(source, s, rank)
    requires forall x :: x in sinks && x in s.seen ==> x in s.dist
    ensures var r := Reconstruct(source, s, rank, sinks);
      && (r.Success? <==> forall x :: x in sinks ==> x in s.seen && x != source)
      && (r.Failure? && r.error.KeyError? ==> r.error.node in sinks && r.error.node !in s.seen)
      && (r.Failure? ==> r.error.KeyError? || (r.error == IndexError && source in sinks))
  {
    if sinks != [] {
      var init := sinks[..|sinks| - 1];
      assert forall x :: x in sinks ==> x in init || x == sinks[|sinks| - 1];
      ReconstructOutcome(G, source, s, rank, init);
    }
  }

  /** A node never has two tree edges into it, and no edge is stored in both orientations. */
  lemma TreeEdgesUnique(G: Adjacency, source: nat, s: State, rank: map<nat, nat>, t: Tree)
    requires Chained(source, s, rank) && TreeShape(G, source, s, rank, t)
    ensures forall v, v', x :: (v, x) in t.edges && (v', x) in t.edges ==> v == v'
    ensures forall a, b :: (a, b) in t.edges ==> (b, a) !in t.edges
  {
    forall v, v', x | (v, x) in t.edges && (v', x) in t.edges ensures v == v' {
      assert TreeEdge(G, source, s, rank, v, x) && TreeEdge(G, source, s, rank, v', x);
    }
    forall a, b | (a, b) in t.edges ensures (b, a) !in t.edges {
      assert TreeEdge(G, source, s, rank, a, b);
    }
  }

  /** Going back along first predecessors from a final node adds up exactly to its final distance. */
  lemma {:induction false} WalkLengthIsDist(G: Adjacency, source: nat, s: State, rank: map<nat, nat>, u: nat)
    requires Inv(G, source, s, rank) && Chained(source, s, rank) && u in s.dist
    ensures WalkLength(G, source, s, rank, u) == s.dist[u]
    decreases if u in rank then rank[u] else 0
  {
    if u != source {
      var v := s.pred[u][0];
      WalkLengthIsDist(G, source, s, rank, v);
      assert Recorded(G, s, rank, v, u);
    }
  }

  /**
   * `shortest_path_tree(G, source, sinks)`: the search, then the walk back.
   * The ghost `s` and `rank` are the search's final variables.  A negative
   * length is the only cause of ValueError, a missing source or an
   * unreachable sink the only causes of KeyError, and a sink equal to the
   * source the only cause of IndexError.  On success the tree is the one
   * `Reconstruct` gives, the union of the sinks' walks back
   * (`ReconstructWalks`), and the tree's walk from
   * each sink back to the source has the sink's final distance as its
   * length, and with non-negative lengths no walk of G from the source to
   * that sink is shorter.
   */
  method ShortestPathTree(G: Adjacency, source: nat, sinks: seq<nat>)
    returns (r: Result<Tree, PathError>, ghost s: State, ghost rank: map<nat, nat>)
    requires Closed(G)
    ensures r.Failure? && r.error == NegativeWeights ==> !NonNegative(G)
    ensures r.Failure? && r.error.KeyError? ==>
              || (r.error.node == source && source !in G)
              || (r.error.node in sinks && !Reachable(G, source, r.error.node))
    ensures r.Failure? && r.error == IndexError ==> source in sinks
    ensures NonNegative(G) && source in G && (forall x :: x in sinks ==> x != source && Reachable(G, source, x)) ==> r.Success?
    ensures r.Success? ==> Inv(G, source, s, rank) && Chained(source, s, rank)
    ensures r.Success? ==>
              && (forall x :: x in sinks ==> x in r.value.nodes)
              && (sinks != [] ==> source in r.value.nodes)
              && TreeShape(G, source, s, rank, r.value)
    ensures r.Success? ==> forall x :: x in sinks ==> x in s.dist && WalkLength(G, source, s, rank, x) == s.dist[x]
    ensures r.Success? && NonNegative(G) ==>
              forall p :: IsPath(G, p) && p[0] == source && p[|p| - 1] in sinks ==>
                WalkLength(G, source, s, rank, p[|p| - 1]) <= PathLength(G, p)
    ensures r.Success? ==> (forall x :: x in sinks && x in s.seen ==> x in s.dist) && r == Reconstruct(source, s, rank, sinks)
  {
    var x;
    x, rank := Explore(G, source, sinks);
    if x.Failure? {
      s := State(map[], map[], map[], {}, 0);
      return Failure(x.error), s, rank;
    }
    s := x.value;
    InvChained(G, source, s, rank);
    r := WalkBack(source, x.value, sinks, rank);
    ReconstructOutcome(G, source, s, rank, sinks);
    if r.Success? {
      ReconstructShape(G, source, s, rank, sinks);
      forall x | x in sinks ensures x in s.dist && WalkLength(G, source, s, rank, x) == s.dist[x] {
        WalkLengthIsDist(G, source, s, rank, x);
      }
    }
  }
}
