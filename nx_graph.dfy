/**
 * The part of a networkx `Graph` that draw_graph.py relies on: a set of
 * nodes, a `pos` attribute per node and one attribute per undirected edge.
 * Nodes are any hashable value, so the class is generic over their type.
 */
module NetworkX {
  import opened Geometry

  /**
   * Every edge joins two nodes and is held under both orientations with the
   * same attribute, as networkx reaches one attribute dictionary from both ends.
   */
  ghost predicate Undirected<N(!new), A>(nodes: set<N>, adj: map<(N, N), A>) {
    forall a, b :: (a, b) in adj ==> a in nodes && b in nodes && (b, a) in adj && adj[(b, a)] == adj[(a, b)]
  }

  /**
   * An undirected graph.  networkx keeps one attribute dictionary per edge
   * and reaches it from both ends, so `adj` holds every edge under both
   * orientations with the same attribute.
   */
  class NxGraph<N(==,!new), A> {
    var nodes: set<N>
    var pos: map<N, Coord>
    var adj: map<(N, N), A>

    ghost predicate Valid()
      reads this
    {
      && (forall x :: x in pos ==> x in nodes)
      && Undirected(nodes, adj)
    }

    /** `nx.Graph()` */
    constructor()
      ensures Valid() && nodes == {} && pos == map[] && adj == map[]
    {
      nodes, pos, adj := {}, map[], map[];
    }

    /** `add_nodes_from([n], pos=at)`: add n if new, and set its position. */
    method AddNode(n: N, at: Coord)
      requires Valid()
      modifies this
      ensures Valid()
      ensures nodes == old(nodes) + {n} && pos == old(pos)[n := at] && adj == old(adj)
    {
      nodes, pos := nodes + {n}, pos[n := at];
    }

    /** `add_edge(u, v, attribute)`: add u and v if new, and set the edge's attribute under both orientations. */
    method AddEdge(u: N, v: N, a: A)
      requires Valid()
      modifies this
      ensures Valid()
      ensures nodes == old(nodes) + {u, v} && pos == old(pos) && adj == old(adj)[(u, v) := a][(v, u) := a]
    {
      nodes, adj := nodes + {u, v}, adj[(u, v) := a][(v, u) := a];
    }
  }
}
