/**
 * Kruskal's spanning tree over a dict-of-dicts adjacency
 * (network_analysis/min_span_tree2.py).  `g[a][b]` is the weight of the link
 * between a and b, stored in both directions.  The union-find state of
 * `spanning_tree` is two local dicts, `parent` and `rank`, updated by the
 * nested helpers `find_parent` and `union`.
 */
module AdjacencyKruskal {
  import opened Wrappers
  import opened Geometry
  import opened Connectivity
  import opened DisjointSets
  import opened WeightOrder

  type Adjacency = map<nat, map<nat, real>>
  type Edge = WEdge<nat>

  /** `self[v]` on a vertex that is not in the graph. */
  datatype LookupError = KeyError(key: nat)

  /** The links of an adjacency, one ordered pair per stored direction. */
  function Links(g: Adjacency): (L: set<(nat, nat)>)
    ensures forall a, b {:trigger (a, b) in L} :: (a, b) in L <==> a in g && b in g[a]
  {
    set a, b | a in g && b in g[a] :: (a, b)
  }

  /** Every link is stored in both directions with one weight, and leads to a vertex. */
  ghost predicate Symmetric(g: Adjacency) {
    forall a, b {:trigger g[a][b]} :: a in g && b in g[a] ==> b in g && a in g[b] && g[b][a] == g[a][b]
  }

  /** The neighbours of x, empty when x is not a vertex yet. */
  function Row(g: Adjacency, x: nat): map<nat, real> {
    if x in g then g[x] else map[]
  }

  /**
   * `add(a, b, w)`: create empty neighbour maps for new vertices, then store w
   * in both directions.  Only the link between a and b changes.
   */
  function Added(g: Adjacency, a: nat, b: nat, w: real): (h: Adjacency)
    ensures h.Keys == g.Keys + {a, b}
    ensures h[a] == Row(g, a)[b := w] && h[b] == Row(g, b)[a := w]
    ensures forall x :: x in h && x != a && x != b ==> h[x] == g[x]
  {
    if a == b then g[a := Row(g, a)[b := w]]
    else g[a := Row(g, a)[b := w]][b := Row(g, b)[a := w]]
  }

  /** The dict updates `add` makes, one statement at a time, build `Added`. */
  lemma AddSteps(g: Adjacency, a: nat, b: nat, w: real)
    ensures var m1 := if a !in g then g[a := map[]] else g;
      var m2 := if b !in m1 then m1[b := map[]] else m1;
      var m3 := m2[a := m2[a][b := w]];
      m3[b := m3[b][a := w]] == Added(g, a, b, w)
  {
    var m1 := if a !in g then g[a := map[]] else g;
    var m2 := if b !in m1 then m1[b := map[]] else m1;
    assert m2[a] == Row(g, a) && m2[b] == Row(g, b);
    var m3 := m2[a := m2[a][b := w]];
    assert m3[b][a := w] == Row(g, b)[a := w];
    if a == b {
      assert m3[b := m3[b][a := w]] == g[a := Row(g, a)[b := w]];
    } else {
      assert m3[b := m3[b][a := w]] == g[a := Row(g, a)[b := w]][b := Row(g, b)[a := w]];
    }
  }

  /** The links after `add(a, b, w)` are the old ones plus both directions of (a, b). */
  lemma AddedLinks(g: Adjacency, a: nat, b: nat, w: real)
    ensures Links(Added(g, a, b, w)) == Links(g) + {(a, b), (b, a)}
  {
    var h := Added(g, a, b, w);
    forall p | p in Links(h) ensures p in Links(g) + {(a, b), (b, a)} {
    }
    forall p | p in Links(g) + {(a, b), (b, a)} ensures p in Links(h) {
      if p != (a, b) && p != (b, a) {
        assert p.0 in g && p.1 in g[p.0];
      }
    }
  }

  /** `add` keeps every link stored in both directions with one weight. */
  lemma AddedSymmetric(g: Adjacency, a: nat, b: nat, w: real)
    requires Symmetric(g)
    ensures Symmetric(Added(g, a, b, w))
  {
    var h := Added(g, a, b, w);
    forall x, y | x in h && y in h[x] ensures y in h && x in h[y] && h[y][x] == h[x][y] {
      if x != a && x != b && y != a && y != b {
        assert h[x] == g[x] && h[y] == g[y];
      }
    }
  }

  /** The edge read backwards. */
  function Flip(e: Edge): (f: Edge)
    ensures f.u == e.v && f.v == e.u && f.w == e.w
  {
    WEdge(e.v, e.u, e.w)
  }

  /**
   * What `edges()` returns: each listed triple is a stored link with its
   * weight, every stored link is listed in one direction or the other, and no
   * link is listed twice, in the same or in the opposite direction.
   */
  ghost predicate Listing(g: Adjacency, data: seq<Edge>) {
    && (forall e :: e in data ==> e.u in g && e.v in g[e.u] && e.w == g[e.u][e.v])
    && (forall a, b {:trigger g[a][b]} :: a in g && b in g[a] ==>
          WEdge(a, b, g[a][b]) in data || WEdge(b, a, g[a][b]) in data)
    && (forall e :: multiset(data)[e] <= 1)
    && (forall e {:trigger Flip(e) in data} :: e in data && e.u != e.v ==> Flip(e) !in data)
  }

  /** Appending a triple whose reverse is not listed lists no link in both directions. */
  lemma AppendKeepsOneDirection(data: seq<Edge>, x: Edge)
    requires forall e {:trigger Flip(e) in data} :: e in data && e.u != e.v ==> Flip(e) !in data
    requires Flip(x) !in data
    ensures forall e {:trigger Flip(e) in data + [x]} :: e in data + [x] && e.u != e.v ==> Flip(e) !in data + [x]
  {
    forall e | e in data + [x] && e.u != e.v ensures Flip(e) !in data + [x] {
      if e == x {
        assert Flip(e) != x;
      } else {
        assert e in data;
      }
    }
  }

  /** A listing stays a listing in any order, in particular once sorted. */
  lemma ListingPermutation(g: Adjacency, data: seq<Edge>, r: seq<Edge>)
    requires Listing(g, data) && multiset(r) == multiset(data)
    ensures Listing(g, r)
  {
    assert forall e :: e in r <==> e in data by {
      forall e ensures e in r <==> e in data {
        assert e in r <==> e in multiset(r);
        assert e in data <==> e in multiset(data);
      }
    }
  }

  /**
   * The graph built by calling `add` on each edge in turn, starting empty: the
   * `mst` of `spanning_tree`, and the graph of `load_nodes`.
   */
  function GraphOf(tree: seq<Edge>): (h: Adjacency)
    ensures Symmetric(h)
  {
    if tree == [] then map[]
    else
      var e := tree[|tree| - 1];
      var init := GraphOf(tree[..|tree| - 1]);
      AddedSymmetric(init, e.u, e.v, e.w);
      Added(init, e.u, e.v, e.w)
  }

  lemma GraphOfAppend(tree: seq<Edge>, e: Edge)
    ensures GraphOf(tree + [e]) == Added(GraphOf(tree), e.u, e.v, e.w)
  {
    assert (tree + [e])[..|tree|] == tree;
  }

  /** When every edge between a and b carries weight w, the built graph stores w for their link. */
  lemma {:induction false} GraphOfWeight(tree: seq<Edge>, a: nat, b: nat, w: real)
    requires forall e :: e in tree && ((e.u == a && e.v == b) || (e.u == b && e.v == a)) ==> e.w == w
    requires a in GraphOf(tree) && b in GraphOf(tree)[a]
    ensures GraphOf(tree)[a][b] == w
  {
    var init, e := tree[..|tree| - 1], tree[|tree| - 1];
    assert GraphOf(tree) == Added(GraphOf(init), e.u, e.v, e.w);
    if (a == e.u && b == e.v) || (a == e.v && b == e.u) {
      assert e in tree;
    } else {
      AddedOther(GraphOf(init), e.u, e.v, e.w, a, b);
      assert forall x :: x in init ==> x in tree;
      GraphOfWeight(init, a, b, w);
    }
  }

  /** `add(u, v, w)` leaves the weight of every other link as it was. */
  lemma AddedOther(g: Adjacency, u: nat, v: nat, w: real, a: nat, b: nat)
    requires a in Added(g, u, v, w) && b in Added(g, u, v, w)[a]
    requires !((a == u && b == v) || (a == v && b == u))
    ensures a in g && b in g[a] && Added(g, u, v, w)[a][b] == g[a][b]
  {
  }

  /** The links of the built graph are the accepted edges, read in both directions. */
  lemma {:induction false} GraphOfLinks(tree: seq<Edge>)
    ensures forall x: nat, y: nat :: (x, y) in Links(GraphOf(tree)) <==> Linked(LinksOf(tree), x, y)
  {
    if tree != [] {
      var init, e := tree[..|tree| - 1], tree[|tree| - 1];
      assert tree == init + [e];
      GraphOfLinks(init);
      AddedLinks(GraphOf(init), e.u, e.v, e.w);
      LinksOfAppend(init, e);
    }
  }

  /** Built from edges of g carrying g's weights, the tree is a sub-graph of g with the same weights. */
  ghost predicate Subgraph(h: Adjacency, g: Adjacency) {
    forall a, b {:trigger h[a][b]} :: a in h && b in h[a] ==> a in g && b in g[a] && h[a][b] == g[a][b]
  }

  /** Adding a link of g with g's weight keeps a sub-graph of g a sub-graph of g. */
  lemma AddedSubgraph(h: Adjacency, g: Adjacency, a: nat, b: nat, w: real)
    requires Subgraph(h, g)
    requires a in g && b in g[a] && w == g[a][b]
    requires b in g && a in g[b] && w == g[b][a]
    ensures Subgraph(Added(h, a, b, w), g)
  {
    var h' := Added(h, a, b, w);
    forall x, y | x in h' && y in h'[x] ensures x in g && y in g[x] && h'[x][y] == g[x][y] {
      if x == a && y == b {
      } else if x == b && y == a {
      } else if x == a {
        assert y in Row(h, a) && h'[x][y] == Row(h, a)[y];
      } else if x == b {
        assert y in Row(h, b) && h'[x][y] == Row(h, b)[y];
      } else {
        assert h'[x] == h[x];
      }
    }
  }

  lemma {:induction false} GraphOfSubgraph(g: Adjacency, tree: seq<Edge>)
    requires Symmetric(g)
    requires forall e :: e in tree ==> e.u in g && e.v in g[e.u] && e.w == g[e.u][e.v]
    ensures Subgraph(GraphOf(tree), g)
  {
    if tree != [] {
      var init, e := tree[..|tree| - 1], tree[|tree| - 1];
      assert forall x :: x in init ==> x in tree;
      GraphOfSubgraph(g, init);
      assert e in tree;
      assert g[e.v][e.u] == g[e.u][e.v];
      AddedSubgraph(GraphOf(init), g, e.u, e.v, e.w);
    }
  }

  /** `parent[vertex] = vertex` for every vertex of the graph. */
  function Identity(vs: set<nat>): (m: map<nat, nat>)
    ensures m.Keys == vs && forall x :: x in vs ==> m[x] == x
  {
    map x | x in vs :: x
  }

  /** `rank[vertex] = 0` for every vertex of the graph. */
  function Zeros(vs: set<nat>): (m: map<nat, nat>)
    ensures m.Keys == vs && forall x :: x in vs ==> m[x] == 0
  {
    map x | x in vs :: 0
  }

  /**
   * The ghost level of `root` once `child` hangs under it: above the child's,
   * and no lower than before.  `union` itself ignores ranks when it links.
   */
  ghost function LinkLevel(level: map<nat, nat>, root: nat, child: nat): map<nat, nat>
    requires root in level && child in level
  {
    level[root := if level[root] > level[child] then level[root] else level[child] + 1]
  }

  /**
   * When the loop of `spanning_tree` breaks.  As written it breaks once the
   * tree has as many vertices as the graph; the corrected rule breaks once the
   * tree has one edge fewer than the graph has vertices.
   */
  datatype StopRule = AllVerticesTouched | TreeComplete

  ghost predicate Stops(vs: set<nat>, tree: seq<Edge>, rule: StopRule) {
    match rule
    case AllVerticesTouched => |GraphOf(tree).Keys| == |vs|
    case TreeComplete => |tree| + 1 == |vs|
  }

  /**
   * The loop of `spanning_tree` over the remaining sorted edges `es`.  An edge
   * whose ends have different roots is accepted and its second root is hung
   * under its first; after every edge, accepted or not, the stop rule is
   * consulted.  The result is the sequence of accepted edges.
   */
  ghost function Run(vs: set<nat>, es: seq<Edge>, parent: map<nat, nat>, level: map<nat, nat>,
                     tree: seq<Edge>, rule: StopRule): seq<Edge>
    requires Ranked(parent, level) && parent.Keys == vs
    requires forall e :: e in es ==> e.u in vs && e.v in vs
    decreases |es|
  {
    if es == [] then tree
    else
      var e := es[0];
      var r1, r2 := Root(parent, level, e.u), Root(parent, level, e.v);
      var tree' := if r1 != r2 then tree + [e] else tree;
      if Stops(vs, tree', rule) then tree'
      else if r1 == r2 then Run(vs, es[1..], parent, level, tree', rule)
      else
        var level' := LinkLevel(level, r1, r2);
        RankedAfterLink(parent, level, level', r2, r1);
        Run(vs, es[1..], parent[r2 := r1], level', tree', rule)
  }

  /** One turn of the loop, spelled out for the method that runs it. */
  lemma RunUnfold(vs: set<nat>, es: seq<Edge>, parent: map<nat, nat>, level: map<nat, nat>, tree: seq<Edge>, rule: StopRule)
    requires Ranked(parent, level) && parent.Keys == vs && es != []
    requires forall e :: e in es ==> e.u in vs && e.v in vs
    ensures var e := es[0];
      var r1, r2 := Root(parent, level, e.u), Root(parent, level, e.v);
      && (r1 != r2 ==> Ranked(parent[r2 := r1], LinkLevel(level, r1, r2)))
      && Run(vs, es, parent, level, tree, rule) ==
         if r1 == r2 then
           if Stops(vs, tree, rule) then tree else Run(vs, es[1..], parent, level, tree, rule)
         else if Stops(vs, tree + [e], rule) then tree + [e]
         else Run(vs, es[1..], parent[r2 := r1], LinkLevel(level, r1, r2), tree + [e], rule)
  {
    var e := es[0];
    var r1, r2 := Root(parent, level, e.u), Root(parent, level, e.v);
    if r1 != r2 {
      RankedAfterLink(parent, level, LinkLevel(level, r1, r2), r2, r1);
    }
  }

  /**
   * A turn that accepts the first edge: its roots p1 and p2 differ, p2 is
   * hung under p1 and the edge joins the tree.
   */
  lemma RunAcceptUnfold(vs: set<nat>, es: seq<Edge>, parent: map<nat, nat>, level: map<nat, nat>, tree: seq<Edge>, rule: StopRule,
                        p1: nat, p2: nat, parent': map<nat, nat>, level': map<nat, nat>, tree': seq<Edge>)
    requires Ranked(parent, level) && parent.Keys == vs && es != []
    requires forall e :: e in es ==> e.u in vs && e.v in vs
    requires p1 == Root(parent, level, es[0].u) && p2 == Root(parent, level, es[0].v) && p1 != p2
    requires parent' == parent[p2 := p1] && level' == LinkLevel(level, p1, p2) && tree' == tree + [es[0]]
    ensures Ranked(parent', level') && parent'.Keys == vs
    ensures Run(vs, es, parent, level, tree, rule) ==
            if Stops(vs, tree', rule) then tree' else Run(vs, es[1..], parent', level', tree', rule)
  {
    RunUnfold(vs, es, parent, level, tree, rule);
  }

  /** A turn that rejects the first edge: its ends share a root and nothing changes. */
  lemma RunRejectUnfold(vs: set<nat>, es: seq<Edge>, parent: map<nat, nat>, level: map<nat, nat>, tree: seq<Edge>, rule: StopRule)
    requires Ranked(parent, level) && parent.Keys == vs && es != []
    requires forall e :: e in es ==> e.u in vs && e.v in vs
    requires Root(parent, level, es[0].u) == Root(parent, level, es[0].v)
    ensures Run(vs, es, parent, level, tree, rule) ==
            if Stops(vs, tree, rule) then tree else Run(vs, es[1..], parent, level, tree, rule)
  {
    RunUnfold(vs, es, parent, level, tree, rule);
  }

  /**
   * The loop's state once the edges `done` are processed: the classes are the
   * components of the accepted edges, each acceptance removed one root, the
   * accepted edges form a forest drawn from `done`, and they connect the ends
   * of every edge in `done`.
   */
  ghost predicate RunState(vs: set<nat>, done: seq<Edge>, parent: map<nat, nat>, level: map<nat, nat>, tree: seq<Edge>) {
    && parent.Keys == vs
    && Partitions(parent, level, LinksOf(tree))
    && |tree| + |Roots(parent)| == |vs|
    && IsForest(tree)
    && (forall e :: e in tree ==> e in done)
    && (forall e :: e in done ==> Connected(LinksOf(tree), e.u, e.v))
  }

  lemma RunStateInitially(vs: set<nat>)
    ensures RunState(vs, [], Identity(vs), Zeros(vs), [])
  {
    PartitionsInitially(Identity(vs), Zeros(vs));
    assert LinksOf<nat>([]) == {};
  }

  /** Accepting an edge whose ends have different roots keeps the state. */
  lemma RunStateAccept(vs: set<nat>, done: seq<Edge>, parent: map<nat, nat>, level: map<nat, nat>, tree: seq<Edge>, e: Edge)
    requires RunState(vs, done, parent, level, tree) && e.u in vs && e.v in vs
    requires Root(parent, level, e.u) != Root(parent, level, e.v)
    ensures var r1, r2 := Root(parent, level, e.u), Root(parent, level, e.v);
      && Ranked(parent[r2 := r1], LinkLevel(level, r1, r2))
      && RunState(vs, done + [e], parent[r2 := r1], LinkLevel(level, r1, r2), tree + [e])
  {
    var r1, r2 := Root(parent, level, e.u), Root(parent, level, e.v);
    var level' := LinkLevel(level, r1, r2);
    var L, L' := LinksOf(tree), LinksOf(tree + [e]);
    RankedAfterLink(parent, level, level', r2, r1);
    LinksOfAppend(tree, e);
    PartitionsAfterUnion(parent, level, level', L, e.u, e.v, r2, r1);
    RootsAfterLink(parent, r2, r1);
    ForestAppend(tree, e);
    ConnectedLink(L', e.u, e.v);
    forall d | d in done + [e] ensures Connected(L', d.u, d.v) {
      if d in done {
        ConnectedMono(L, L', d.u, d.v);
      }
    }
  }

  /** Rejecting an edge whose ends share a root keeps the state. */
  lemma RunStateReject(vs: set<nat>, done: seq<Edge>, parent: map<nat, nat>, level: map<nat, nat>, tree: seq<Edge>, e: Edge)
    requires RunState(vs, done, parent, level, tree) && e.u in vs && e.v in vs
    requires Root(parent, level, e.u) == Root(parent, level, e.v)
    ensures RunState(vs, done + [e], parent, level, tree)
  {
    assert Connected(LinksOf(tree), e.u, e.v);
  }

  /** With one edge fewer than vertices accepted, one class is left: the tree spans. */
  lemma RunStateComplete(vs: set<nat>, done: seq<Edge>, parent: map<nat, nat>, level: map<nat, nat>, tree: seq<Edge>)
    requires RunState(vs, done, parent, level, tree) && |tree| + 1 == |vs|
    ensures ConnectsAll(LinksOf(tree), vs)
  {
    assert parent != map[] by {
      assert |parent.Keys| == |vs| > 0;
    }
    OneRootIffConnected(parent, level, LinksOf(tree));
  }

  /**
   * What the loop delivers from any reachable state: a forest of edges drawn
   * from the processed and remaining edges, which either connects the ends of
   * every one of them or stopped early; under the corrected rule an early stop
   * means the tree spans.
   */
  lemma {:induction false} RunOutcome(vs: set<nat>, done: seq<Edge>, es: seq<Edge>, parent: map<nat, nat>,
                                      level: map<nat, nat>, tree: seq<Edge>, rule: StopRule)
    requires RunState(vs, done, parent, level, tree)
    requires forall e :: e in es ==> e.u in vs && e.v in vs
    ensures var r := Run(vs, es, parent, level, tree, rule);
      && IsForest(r)
      && (forall e :: e in r ==> e in done || e in es)
      && ((forall e :: e in done || e in es ==> Connected(LinksOf(r), e.u, e.v))
          || (rule == TreeComplete && ConnectsAll(LinksOf(r), vs))
          || (rule == AllVerticesTouched && Stops(vs, r, rule)))
    decreases |es|
  {
    if es != [] {
      var e := es[0];
      assert es == [e] + es[1..];
      var r1, r2 := Root(parent, level, e.u), Root(parent, level, e.v);
      if r1 != r2 {
        var level' := LinkLevel(level, r1, r2);
        RunStateAccept(vs, done, parent, level, tree, e);
        if Stops(vs, tree + [e], rule) {
          if rule == TreeComplete {
            RunStateComplete(vs, done + [e], parent[r2 := r1], level', tree + [e]);
          }
        } else {
          RunOutcome(vs, done + [e], es[1..], parent[r2 := r1], level', tree + [e], rule);
        }
      } else {
        RunStateReject(vs, done, parent, level, tree, e);
        if Stops(vs, tree, rule) {
          if rule == TreeComplete {
            RunStateComplete(vs, done + [e], parent, level, tree);
          }
        } else {
          RunOutcome(vs, done + [e], es[1..], parent, level, tree, rule);
        }
      }
    }
  }

  /** Under either rule the loop accepts a forest of edges taken from its input. */
  lemma RunForest(vs: set<nat>, es: seq<Edge>, rule: StopRule)
    requires forall e :: e in es ==> e.u in vs && e.v in vs
    ensures var r := Run(vs, es, Identity(vs), Zeros(vs), [], rule);
      IsForest(r) && forall e :: e in r ==> e in es
  {
    RunStateInitially(vs);
    RunOutcome(vs, [], es, Identity(vs), Zeros(vs), [], rule);
  }

  /**
   * Under the corrected rule the accepted edges connect exactly the vertices
   * that the input edges connect: a spanning tree of each component.
   */
  lemma RunSpans(vs: set<nat>, es: seq<Edge>)
    requires forall e :: e in es ==> e.u in vs && e.v in vs
    ensures var r := Run(vs, es, Identity(vs), Zeros(vs), [], TreeComplete);
      forall a, b :: a in vs && b in vs ==> (Connected(LinksOf(r), a, b) <==> Connected(LinksOf(es), a, b))
  {
    var r := Run(vs, es, Identity(vs), Zeros(vs), [], TreeComplete);
    RunStateInitially(vs);
    RunOutcome(vs, [], es, Identity(vs), Zeros(vs), [], TreeComplete);
    assert LinksOf(r) <= LinksOf(es) by {
      forall x, y | (x, y) in LinksOf(r) ensures (x, y) in LinksOf(es) {
        var i :| 0 <= i < |r| && r[i].u == x && r[i].v == y;
        assert r[i] in es;
        var j :| 0 <= j < |es| && es[j] == r[i];
      }
    }
    forall a, b | a in vs && b in vs ensures Connected(LinksOf(r), a, b) <==> Connected(LinksOf(es), a, b) {
      if Connected(LinksOf(r), a, b) {
        ConnectedMono(LinksOf(r), LinksOf(es), a, b);
      }
      if Connected(LinksOf(es), a, b) && !ConnectsAll(LinksOf(r), vs) {
        forall x, y | (x, y) in LinksOf(es) ensures Connected(LinksOf(r), x, y) {
          var i :| 0 <= i < |es| && es[i].u == x && es[i].v == y;
          assert es[i] in es;
        }
        ConnectedCoverAll(LinksOf(es), LinksOf(r), a, b);
      }
    }
  }

  /**
   * Under the corrected rule, sorted input gives a tree with the cycle
   * property: the ends of every processed or remaining edge are joined by
   * tree edges that come no later than it in the order.  An accepted edge
   * joins its own ends; a rejected one had its ends joined by earlier, so no
   * later, tree edges; and once the tree is complete it spans, and every tree
   * edge comes no later than the edges left.
   */
  lemma {:induction false} RunCertificate(vs: set<nat>, done: seq<Edge>, es: seq<Edge>, parent: map<nat, nat>,
                                          level: map<nat, nat>, tree: seq<Edge>, desc: bool)
    requires RunState(vs, done, parent, level, tree)
    requires forall e :: e in es ==> e.u in vs && e.v in vs
    requires SortedBy(es, desc)
    requires forall t, e :: t in tree && e in es ==> Key(t, desc) <= Key(e, desc)
    requires forall d :: d in done ==> LighterConnects(tree, d, desc)
    ensures var r := Run(vs, es, parent, level, tree, TreeComplete);
      forall e :: e in done || e in es ==> LighterConnects(r, e, desc)
    decreases |es|
  {
    if es != [] {
      var e := es[0];
      assert e in es;
      SortedTail(es, desc);
      RunUnfold(vs, es, parent, level, tree, TreeComplete);
      var r1, r2 := Root(parent, level, e.u), Root(parent, level, e.v);
      var parent', level', tree' := parent, level, tree;
      if r1 != r2 {
        RunStateAccept(vs, done, parent, level, tree, e);
        parent', level', tree' := parent[r2 := r1], LinkLevel(level, r1, r2), tree + [e];
        forall d | d in done + [e] ensures LighterConnects(tree', d, desc) {
          LighterConnectsSnoc(tree, e, d, desc);
        }
      } else {
        RunStateReject(vs, done, parent, level, tree, e);
        assert e in done + [e];
        RejectedCertificate(tree, es, e, desc);
      }
      forall t, d | t in tree' && d in es[1..] ensures Key(t, desc) <= Key(d, desc) {
        assert d in es;
      }
      if Stops(vs, tree', TreeComplete) {
        RunStateComplete(vs, done + [e], parent', level', tree');
        assert forall d :: d in es[1..] ==> d in es;
        CompleteCertificate(vs, tree', es[1..], desc);
      } else {
        RunCertificate(vs, done + [e], es[1..], parent', level', tree', desc);
      }
    }
  }

  /** A rejected edge, no earlier than any tree edge, has its ends joined by tree edges no later than it. */
  lemma RejectedCertificate(tree: seq<Edge>, es: seq<Edge>, e: Edge, desc: bool)
    requires e in es && forall t, d :: t in tree && d in es ==> Key(t, desc) <= Key(d, desc)
    requires Connected(LinksOf(tree), e.u, e.v)
    ensures LighterConnects(tree, e, desc)
  {
    LighterConnectsAll(tree, e, desc);
  }

  /** A spanning tree all of whose edges come no later than the edges left has the cycle property for them. */
  lemma CompleteCertificate(vs: set<nat>, tree: seq<Edge>, rest: seq<Edge>, desc: bool)
    requires ConnectsAll(LinksOf(tree), vs) && forall d :: d in rest ==> d.u in vs && d.v in vs
    requires forall t, d :: t in tree && d in rest ==> Key(t, desc) <= Key(d, desc)
    ensures forall d :: d in rest ==> LighterConnects(tree, d, desc)
  {
    forall d | d in rest ensures LighterConnects(tree, d, desc) {
      LighterConnectsAll(tree, d, desc);
    }
  }

  /** From the start, the corrected loop over sorted edges has the cycle property for every one of them. */
  lemma RunCycleProperty(vs: set<nat>, es: seq<Edge>, desc: bool)
    requires forall e :: e in es ==> e.u in vs && e.v in vs
    requires SortedBy(es, desc)
    ensures var r := Run(vs, es, Identity(vs), Zeros(vs), [], TreeComplete);
      forall e :: e in es ==> LighterConnects(r, e, desc)
  {
    RunStateInitially(vs);
    RunCertificate(vs, [], es, Identity(vs), Zeros(vs), [], desc);
  }

  /** Sorted input gives a sorted tree: edges are accepted in the order they come. */
  lemma {:induction false} RunOrder(vs: set<nat>, es: seq<Edge>, parent: map<nat, nat>, level: map<nat, nat>,
                                    tree: seq<Edge>, rule: StopRule, desc: bool)
    requires Ranked(parent, level) && parent.Keys == vs
    requires forall e :: e in es ==> e.u in vs && e.v in vs
    requires SortedBy(es, desc) && SortedBy(tree, desc)
    requires forall t, e :: t in tree && e in es ==> Key(t, desc) <= Key(e, desc)
    ensures SortedBy(Run(vs, es, parent, level, tree, rule), desc)
    decreases |es|
  {
    if es != [] {
      var e := es[0];
      assert e in es;
      SortedSnoc(tree, e, desc);
      SortedTail(es, desc);
      forall t, d | t in tree + [e] && d in es[1..] ensures Key(t, desc) <= Key(d, desc) {
        assert d in es;
      }
      RunUnfold(vs, es, parent, level, tree, rule);
      var r1, r2 := Root(parent, level, e.u), Root(parent, level, e.v);
      var tree' := if r1 != r2 then tree + [e] else tree;
      if !Stops(vs, tree', rule) {
        if r1 == r2 {
          RunOrder(vs, es[1..], parent, level, tree', rule, desc);
        } else {
          RunOrder(vs, es[1..], parent[r2 := r1], LinkLevel(level, r1, r2), tree', rule, desc);
        }
      }
    }
  }


  /** find_parent: follow parent links until a vertex is its own parent. */
  method FindParent(parent: map<nat, nat>, ghost level: map<nat, nat>, v: nat) returns (r: nat)
    requires Ranked(parent, level) && v in parent
    ensures r in parent && parent[r] == r
    ensures r == Root(parent, level, v)
  {
    r := v;
    while parent[r] != r
      invariant r in parent && Root(parent, level, r) == Root(parent, level, v)
      decreases MaxLevel(level) - level[r]
    {
      r := parent[r];
    }
  }

  /** The first loop of spanning_tree: `parent[vertex] = vertex` and `rank[vertex] = 0` for every vertex. */
  method Singletons(vs: set<nat>) returns (parent: map<nat, nat>, rank: map<nat, nat>)
    ensures parent == Identity(vs) && rank == Zeros(vs)
  {
    parent, rank := map[], map[];
    var todo := vs;
    while todo != {}
      invariant todo <= vs
      invariant parent.Keys == rank.Keys == vs - todo
      invariant forall x :: x in parent ==> parent[x] == x && rank[x] == 0
      decreases |todo|
    {
      var v :| v in todo;
      parent := parent[v := v];
      rank := rank[v := 0];
      todo := todo - {v};
    }
  }

  /**
   * The second loop of spanning_tree, over the sorted edges, adding the
   * accepted ones to `mst` (empty at the start) until the stop rule fires.
   */
  method Loop(mst: Graph, vs: set<nat>, n: nat, sorted: seq<Edge>, parent0: map<nat, nat>, rank0: map<nat, nat>,
              rule: StopRule) returns (ghost tree: seq<Edge>)
    requires parent0 == Identity(vs) && rank0 == Zeros(vs) && n == |vs|
    requires forall e :: e in sorted ==> e.u in vs && e.v in vs
    requires mst.g == map[]
    modifies mst
    ensures tree == Run(vs, sorted, Identity(vs), Zeros(vs), [], rule)
    ensures mst.g == GraphOf(tree)
  {
    var parent, rank := parent0, rank0;
    ghost var level := rank0;
    tree := [];
    var accepted := 0;
    var rest := sorted;
    while rest != []
      invariant forall e :: e in rest ==> e.u in vs && e.v in vs
      invariant Ranked(parent, level) && parent.Keys == vs && rank.Keys == vs
      invariant mst.g == GraphOf(tree) && accepted == |tree|
      invariant Run(vs, sorted, Identity(vs), Zeros(vs), [], rule) == Run(vs, rest, parent, level, tree, rule)
      decreases |rest|
    {
      var stop;
      parent, rank, level, tree, accepted, stop := Step(mst, vs, n, rest, parent, rank, level, tree, accepted, rule);
      if stop {
        return;
      }
      assert forall e :: e in rest[1..] ==> e in rest;
      rest := rest[1..];
    }
  }

  /**
   * One turn of the loop of spanning_tree on the first remaining edge:
   * find both roots, and when they differ add the edge to `mst` and unite
   * them; then test the stop rule.  The loop's ghost outcome is unchanged.
   */
  method Step(mst: Graph, vs: set<nat>, n: nat, es: seq<Edge>, parent: map<nat, nat>, rank: map<nat, nat>,
              ghost level: map<nat, nat>, ghost tree: seq<Edge>, accepted: nat, rule: StopRule)
    returns (parent': map<nat, nat>, rank': map<nat, nat>, ghost level': map<nat, nat>, ghost tree': seq<Edge>,
             accepted': nat, stop: bool)
    requires Ranked(parent, level) && parent.Keys == vs && rank.Keys == vs && n == |vs|
    requires es != [] && forall e :: e in es ==> e.u in vs && e.v in vs
    requires mst.g == GraphOf(tree) && accepted == |tree|
    modifies mst
    ensures Ranked(parent', level') && parent'.Keys == vs && rank'.Keys == vs
    ensures mst.g == GraphOf(tree') && accepted' == |tree'|
    ensures Run(vs, es, parent, level, tree, rule) == if stop then tree' else Run(vs, es[1..], parent', level', tree', rule)
  {
    var e := es[0];
    var p1 := FindParent(parent, level, e.u);
    var p2 := FindParent(parent, level, e.v);
    parent', rank', level', tree', accepted' := parent, rank, level, tree, accepted;
    if p1 != p2 {
      AddAccepted(mst, tree, e);
      parent', rank', level' := Union(parent, rank, level, p1, p2);
      tree' := tree + [e];
      accepted' := accepted + 1;
      RunAcceptUnfold(vs, es, parent, level, tree, rule, p1, p2, parent', level', tree');
    } else {
      RunRejectUnfold(vs, es, parent, level, tree, rule);
    }
    var size := mst.Len();
    stop := if rule == AllVerticesTouched then n == size else accepted' + 1 == n;
    StopsTest(vs, tree', rule, n, size, accepted');
  }

  /** The test `spanning_tree` makes after each edge is the stop rule. */
  lemma StopsTest(vs: set<nat>, tree: seq<Edge>, rule: StopRule, n: nat, size: nat, accepted: nat)
    requires n == |vs| && size == |GraphOf(tree).Keys| && accepted == |tree|
    ensures Stops(vs, tree, rule) == if rule == AllVerticesTouched then n == size else accepted + 1 == n
  {
  }

  /** `mst.add(u, v, w)` for the edge just accepted: `mst` stays the graph of the accepted edges. */
  method AddAccepted(mst: Graph, ghost tree: seq<Edge>, e: Edge)
    requires mst.g == GraphOf(tree)
    modifies mst
    ensures mst.g == GraphOf(tree + [e])
  {
    mst.Add(e.u, e.v, e.w);
    GraphOfAppend(tree, e);
  }

  /**
   * union: hangs root2 under root1 in both branches; the rank comparison only
   * decides whether a rank changes, and on equal ranks it is the rank of
   * root2, the root just hung under the other, that goes up.  The ghost
   * `level` rises with it, so that the forest stays ranked.
   */
  method Union(parent: map<nat, nat>, rank: map<nat, nat>, ghost level: map<nat, nat>, root1: nat, root2: nat)
    returns (parent': map<nat, nat>, rank': map<nat, nat>, ghost level': map<nat, nat>)
    requires Ranked(parent, level) && rank.Keys == parent.Keys
    requires root1 in parent && root2 in parent && parent[root1] == root1 && parent[root2] == root2
    ensures parent' == parent[root2 := root1]
    ensures rank' == if rank[root1] == rank[root2] then rank[root2 := rank[root2] + 1] else rank
    ensures level' == LinkLevel(level, root1, root2)
    ensures Ranked(parent', level') && parent'.Keys == parent.Keys && rank'.Keys == rank.Keys
  {
    level' := LinkLevel(level, root1, root2);
    RankedAfterLink(parent, level, level', root2, root1);
    if rank[root1] > rank[root2] {
      parent' := parent[root2 := root1];
      rank' := rank;
    } else {
      parent' := parent[root2 := root1];
      rank' := rank;
      if rank[root2] == rank[root1] {
        rank' := rank[root2 := rank[root2] + 1];
      }
    }
  }

  /** A listing names exactly the stored links, each in one direction or the other. */
  lemma ListingLinks(g: Adjacency, data: seq<Edge>)
    requires Symmetric(g) && Listing(g, data)
    ensures forall x: nat, y: nat :: Linked(LinksOf(data), x, y) <==> (x, y) in Links(g)
  {
    var L := LinksOf(data);
    forall x: nat, y: nat ensures Linked(L, x, y) <==> (x, y) in Links(g) {
      if (x, y) in Links(g) {
        if WEdge(x, y, g[x][y]) in data {
          var i :| 0 <= i < |data| && data[i] == WEdge(x, y, g[x][y]);
          assert (data[i].u, data[i].v) in L;
        } else {
          assert WEdge(y, x, g[x][y]) in data;
          var i :| 0 <= i < |data| && data[i] == WEdge(y, x, g[x][y]);
          assert (data[i].u, data[i].v) in L;
        }
      }
      if (x, y) in L {
        var i :| 0 <= i < |data| && data[i].u == x && data[i].v == y;
        assert data[i] in data;
      }
      if (y, x) in L {
        var i :| 0 <= i < |data| && data[i].u == y && data[i].v == x;
        assert data[i] in data;
        assert g[y][x] == g[x][y];
      }
    }
  }

  /** The cycle property for every listed edge is the cycle property for every link of the graph, read either way. */
  lemma ListingCertificate(g: Adjacency, data: seq<Edge>, tree: seq<Edge>, desc: bool)
    requires Listing(g, data) && forall e :: e in data ==> LighterConnects(tree, e, desc)
    ensures forall a, b :: a in g && b in g[a] ==> LighterConnects(tree, WEdge(a, b, g[a][b]), desc)
  {
    forall a, b | a in g && b in g[a] ensures LighterConnects(tree, WEdge(a, b, g[a][b]), desc) {
      var w := g[a][b];
      var e, f := WEdge(a, b, w), WEdge(b, a, w);
      assert e in data || f in data;
      if e !in data {
        assert LighterConnects(tree, f, desc);
        assert Key(f, desc) == Key(e, desc);
        ConnectedSymm(LinksOf(Within(tree, Key(e, desc), desc)), b, a);
      }
    }
  }

  /** The built graph connects exactly what its accepted edges connect. */
  lemma GraphOfConnects(tree: seq<Edge>, a: nat, b: nat)
    ensures Connected(Links(GraphOf(tree)), a, b) <==> Connected(LinksOf(tree), a, b)
  {
    GraphOfLinks(tree);
    ConnectedSameLinks(Links(GraphOf(tree)), LinksOf(tree), a, b);
  }

  /** A listing connects exactly what the graph connects. */
  lemma ListingConnects(g: Adjacency, data: seq<Edge>, a: nat, b: nat)
    requires Symmetric(g) && Listing(g, data)
    ensures Connected(LinksOf(data), a, b) <==> Connected(Links(g), a, b)
  {
    ListingLinks(g, data);
    ConnectedSameLinks(LinksOf(data), Links(g), a, b);
  }

  /**
   * The complete graph on 0..3 whose two lightest links, 0-1 and 2-3, share
   * no vertex; the other four links are heavier.
   */
  function K4(): Adjacency {
    map[0 := map[1 := 1.0, 2 := 3.0, 3 := 4.0],
        1 := map[0 := 1.0, 2 := 5.0, 3 := 6.0],
        2 := map[0 := 3.0, 1 := 5.0, 3 := 2.0],
        3 := map[0 := 4.0, 1 := 6.0, 2 := 2.0]]
  }

  /** An ascending listing of K4, as sorted_by_weight() may return it. */
  function K4Sorted(): seq<Edge> {
    [WEdge(0, 1, 1.0), WEdge(2, 3, 2.0), WEdge(0, 2, 3.0), WEdge(0, 3, 4.0), WEdge(1, 2, 5.0), WEdge(1, 3, 6.0)]
  }

  lemma K4Symmetric()
    ensures K4().Keys == {0, 1, 2, 3} && Symmetric(K4())
  {
    var g := K4();
    forall a, b | a in g && b in g[a] ensures b in g && a in g[b] && g[b][a] == g[a][b] {
      if a == 0 {
        assert b == 1 || b == 2 || b == 3;
      } else if a == 1 {
        assert b == 0 || b == 2 || b == 3;
      } else if a == 2 {
        assert b == 0 || b == 1 || b == 3;
      } else {
        assert a == 3 && (b == 0 || b == 1 || b == 2);
      }
    }
  }

  lemma K4Listed()
    ensures forall e :: e in K4Sorted() ==> e.u in K4() && e.v in K4()[e.u] && e.w == K4()[e.u][e.v]
  {
    var g, es := K4(), K4Sorted();
    forall e | e in es ensures e.u in g && e.v in g[e.u] && e.w == g[e.u][e.v] {
      var i :| 0 <= i < |es| && es[i] == e;
      assert i == 0 || i == 1 || i == 2 || i == 3 || i == 4 || i == 5;
    }
  }

  lemma K4Covered()
    ensures forall a, b {:trigger K4()[a][b]} :: a in K4() && b in K4()[a] ==>
              WEdge(a, b, K4()[a][b]) in K4Sorted() || WEdge(b, a, K4()[a][b]) in K4Sorted()
  {
    var g, es := K4(), K4Sorted();
    forall a, b | a in g && b in g[a] ensures WEdge(a, b, g[a][b]) in es || WEdge(b, a, g[a][b]) in es {
      if a == 0 {
        assert b == 1 || b == 2 || b == 3;
        assert es[0] == WEdge(0, 1, 1.0) && es[2] == WEdge(0, 2, 3.0) && es[3] == WEdge(0, 3, 4.0);
      } else if a == 1 {
        assert b == 0 || b == 2 || b == 3;
        assert es[0] == WEdge(0, 1, 1.0) && es[4] == WEdge(1, 2, 5.0) && es[5] == WEdge(1, 3, 6.0);
      } else if a == 2 {
        assert b == 0 || b == 1 || b == 3;
        assert es[2] == WEdge(0, 2, 3.0) && es[4] == WEdge(1, 2, 5.0) && es[1] == WEdge(2, 3, 2.0);
      } else {
        assert a == 3 && (b == 0 || b == 1 || b == 2);
        assert es[3] == WEdge(0, 3, 4.0) && es[5] == WEdge(1, 3, 6.0) && es[1] == WEdge(2, 3, 2.0);
      }
    }
  }

  lemma K4Distinct()
    ensures forall e :: multiset(K4Sorted())[e] <= 1
    ensures forall e {:trigger Flip(e) in K4Sorted()} :: e in K4Sorted() && e.u != e.v ==> Flip(e) !in K4Sorted()
  {
    K4Once();
    var es := K4Sorted();
    forall e | e in es && e.u != e.v ensures Flip(e) !in es {
      var i :| 0 <= i < |es| && es[i] == e;
      assert i == 0 || i == 1 || i == 2 || i == 3 || i == 4 || i == 5;
    }
  }

  lemma K4Once()
    ensures forall e :: multiset(K4Sorted())[e] <= 1
  {
    var es := K4Sorted();
    var m := multiset{WEdge(0, 1, 1.0), WEdge(2, 3, 2.0), WEdge(0, 2, 3.0), WEdge(0, 3, 4.0), WEdge(1, 2, 5.0), WEdge(1, 3, 6.0)};
    assert multiset(es) == m;
    forall e ensures m[e] <= 1 {
    }
  }

  lemma K4Listing()
    ensures Listing(K4(), K4Sorted()) && SortedBy(K4Sorted(), false)
  {
    K4Listed();
    K4Covered();
    K4Distinct();
    K4Ascending();
  }

  lemma K4Ascending()
    ensures SortedBy(K4Sorted(), false)
  {
    var es := K4Sorted();
    forall i, j | 0 <= i < j < |es| ensures Key(es[i], false) <= Key(es[j], false) {
      assert Key(es[i], false) == es[i].w && Key(es[j], false) == es[j].w;
      assert es[0].w == 1.0 && es[1].w == 2.0 && es[2].w == 3.0 && es[3].w == 4.0 && es[4].w == 5.0 && es[5].w == 6.0;
    }
  }

  /** The first edge, 0-1, joins two singletons and leaves vertices 2 and 3 untouched. */
  lemma K4RunFirst()
    ensures Ranked(Identity({0, 1, 2, 3})[1 := 0], LinkLevel(Zeros({0, 1, 2, 3}), 0, 1))
    ensures Run({0, 1, 2, 3}, K4Sorted(), Identity({0, 1, 2, 3}), Zeros({0, 1, 2, 3}), [], AllVerticesTouched)
            == Run({0, 1, 2, 3}, K4Sorted()[1..], Identity({0, 1, 2, 3})[1 := 0], LinkLevel(Zeros({0, 1, 2, 3}), 0, 1),
                   [WEdge(0, 1, 1.0)], AllVerticesTouched)
  {
    var es := K4Sorted();
    var vs: set<nat> := {0, 1, 2, 3};
    assert es[0] == WEdge(0, 1, 1.0) && [] + [es[0]] == [WEdge(0, 1, 1.0)];
    assert Ranked(Identity(vs), Zeros(vs)) && Identity(vs).Keys == vs;
    assert Root(Identity(vs), Zeros(vs), 0) == 0 && Root(Identity(vs), Zeros(vs), 1) == 1;
    assert forall e :: e in es ==> e.u in vs && e.v in vs by {
      K4Listed();
      K4Symmetric();
    }
    assert !Stops(vs, [WEdge(0, 1, 1.0)], AllVerticesTouched) by {
      assert [] + [WEdge(0, 1, 1.0)] == [WEdge(0, 1, 1.0)];
      assert GraphOf([WEdge(0, 1, 1.0)]).Keys == {0, 1};
    }
    RunUnfold(vs, es, Identity(vs), Zeros(vs), [], AllVerticesTouched);
  }

  lemma K4LaterEndpoints()
    ensures forall e :: e in K4Sorted()[1..] ==> e.u in {0, 1, 2, 3} && e.v in {0, 1, 2, 3}
  {
    var es := K4Sorted()[1..];
    forall e | e in es ensures e.u in {0, 1, 2, 3} && e.v in {0, 1, 2, 3} {
      var i :| 0 <= i < |es| && es[i] == e;
      assert i == 0 || i == 1 || i == 2 || i == 3 || i == 4;
    }
  }

  /** After 0-1 is linked, vertices 2 and 3 are still their own roots. */
  lemma K4SecondRoots()
    ensures Ranked(Identity({0, 1, 2, 3})[1 := 0], LinkLevel(Zeros({0, 1, 2, 3}), 0, 1))
    ensures Root(Identity({0, 1, 2, 3})[1 := 0], LinkLevel(Zeros({0, 1, 2, 3}), 0, 1), 2) == 2
    ensures Root(Identity({0, 1, 2, 3})[1 := 0], LinkLevel(Zeros({0, 1, 2, 3}), 0, 1), 3) == 3
  {
    K4RunFirst();
    var vs: set<nat> := {0, 1, 2, 3};
    var p1 := Identity(vs)[1 := 0];
    assert p1[2] == 2 && p1[3] == 3;
  }

  lemma K4TwoEdgeKeys()
    ensures GraphOf([WEdge(0, 1, 1.0), WEdge(2, 3, 2.0)]).Keys == {0, 1, 2, 3}
  {
    var t1 := [WEdge(0, 1, 1.0)];
    GraphOfAppend(t1, WEdge(2, 3, 2.0));
    assert t1 + [WEdge(2, 3, 2.0)] == [WEdge(0, 1, 1.0), WEdge(2, 3, 2.0)];
    assert [] + [WEdge(0, 1, 1.0)] == t1;
    assert GraphOf(t1).Keys == {0, 1};
  }

  /** The second edge, 2-3, joins two other singletons; now every vertex is touched. */
  lemma K4RunSecond()
    ensures Run({0, 1, 2, 3}, K4Sorted()[1..], Identity({0, 1, 2, 3})[1 := 0], LinkLevel(Zeros({0, 1, 2, 3}), 0, 1),
                [WEdge(0, 1, 1.0)], AllVerticesTouched)
            == [WEdge(0, 1, 1.0), WEdge(2, 3, 2.0)]
  {
    var es := K4Sorted()[1..];
    var vs: set<nat> := {0, 1, 2, 3};
    var p1, l1 := Identity(vs)[1 := 0], LinkLevel(Zeros(vs), 0, 1);
    var t1, t2 := [WEdge(0, 1, 1.0)], [WEdge(0, 1, 1.0), WEdge(2, 3, 2.0)];
    assert es != [] && es[0] == WEdge(2, 3, 2.0) && t1 + [es[0]] == t2;
    assert Ranked(p1, l1) && p1.Keys == vs && Root(p1, l1, 2) == 2 && Root(p1, l1, 3) == 3 by {
      K4SecondRoots();
    }
    assert forall e :: e in es ==> e.u in vs && e.v in vs by {
      K4LaterEndpoints();
    }
    assert Stops(vs, t2, AllVerticesTouched) by {
      K4TwoEdgeKeys();
    }
    RunUnfold(vs, es, p1, l1, t1, AllVerticesTouched);
  }

  /** The as-written loop on the ascending listing of K4 accepts 0-1 and 2-3, then breaks. */
  lemma K4Run()
    ensures Run({0, 1, 2, 3}, K4Sorted(), Identity({0, 1, 2, 3}), Zeros({0, 1, 2, 3}), [], AllVerticesTouched)
            == [WEdge(0, 1, 1.0), WEdge(2, 3, 2.0)]
  {
    K4RunFirst();
    K4RunSecond();
  }

  /**
   * The break of spanning_tree as written fires too early: on K4 it accepts
   * 0-1 and 2-3, sees as many vertices in the tree as in the graph, and stops
   * with two components although the graph is connected.
   */
  lemma AllVerticesTouchedSplits()
    ensures Symmetric(K4()) && Listing(K4(), K4Sorted()) && SortedBy(K4Sorted(), false)
    ensures K4().Keys == {0, 1, 2, 3}
    ensures Run({0, 1, 2, 3}, K4Sorted(), Identity({0, 1, 2, 3}), Zeros({0, 1, 2, 3}), [], AllVerticesTouched)
            == [WEdge(0, 1, 1.0), WEdge(2, 3, 2.0)]
    ensures Connected(Links(K4()), 0, 2)
    ensures !Connected(Links(GraphOf([WEdge(0, 1, 1.0), WEdge(2, 3, 2.0)])), 0, 2)
  {
    K4Symmetric();
    K4Listing();
    K4Run();
    K4Connected();
    K4TreeSplit();
  }

  lemma K4Connected()
    ensures Connected(Links(K4()), 0, 2)
  {
    assert (0, 2) in Links(K4());
    ConnectedLink(Links(K4()), 0, 2);
  }

  /** No link of the two-edge tree crosses from {0, 1} to {2, 3}. */
  lemma K4TreeSplit()
    ensures !Connected(Links(GraphOf([WEdge(0, 1, 1.0), WEdge(2, 3, 2.0)])), 0, 2)
  {
    var t := [WEdge(0, 1, 1.0), WEdge(2, 3, 2.0)];
    var L := LinksOf(t);
    forall x, y | (x, y) in L ensures x in {0, 1} <==> y in {0, 1} {
      var i :| 0 <= i < |t| && t[i].u == x && t[i].v == y;
      assert i == 0 || i == 1;
    }
    NotConnectedAcrossCut(L, {0, 1}, 0, 2);
    GraphOfConnects(t, 0, 2);
  }

  /** A graph as `min_span_tree2.Graph` keeps it: the dict-of-dicts `g`. */
  /**
   * The state of `edges` between two turns: every listed triple is a stored
   * link from a vertex already visited (not in `todo`, or in `partial`, the
   * vertex being visited), every link from a finished vertex is listed in
   * one direction, and nothing is listed twice in either direction.
   */
  ghost predicate ListedExcept(g: Adjacency, data: seq<Edge>, todo: set<nat>, partial: set<nat>) {
    && (forall e :: e in data ==> e.u in g && (e.u !in todo || e.u in partial) && e.v in g[e.u] && e.w == g[e.u][e.v])
    && (forall x, y {:trigger g[x][y]} :: x in g && x !in todo && y in g[x] ==>
          WEdge(x, y, g[x][y]) in data || WEdge(y, x, g[x][y]) in data)
    && (forall e :: multiset(data)[e] <= 1)
    && (forall e {:trigger Flip(e) in data} :: e in data && e.u != e.v ==> Flip(e) !in data)
  }

  /** The state of the inner loop over the neighbours of a, with `rest` not yet visited. */
  ghost predicate ListedRow(g: Adjacency, data: seq<Edge>, todo: set<nat>, a: nat, rest: set<nat>)
    requires a in g
  {
    && ListedExcept(g, data, todo, {a})
    && (forall e :: e in data && e.u == a ==> e.v !in rest)
    && (forall y {:trigger g[a][y]} :: y in g[a] && y !in rest ==>
          WEdge(a, y, g[a][y]) in data || WEdge(y, a, g[a][y]) in data)
  }

  lemma ListedStart(g: Adjacency, data: seq<Edge>, todo: set<nat>, a: nat)
    requires a in g && a in todo && ListedExcept(g, data, todo, {})
    ensures ListedRow(g, data, todo, a, g[a].Keys)
  {
  }

  lemma ListedAppend(g: Adjacency, data: seq<Edge>, todo: set<nat>, a: nat, rest: set<nat>, b: nat)
    requires a in g && a in todo && b in rest && rest <= g[a].Keys
    requires ListedRow(g, data, todo, a, rest) && WEdge(b, a, g[a][b]) !in data
    ensures ListedRow(g, data + [WEdge(a, b, g[a][b])], todo, a, rest - {b})
  {
    var x := WEdge(a, b, g[a][b]);
    var d := data + [x];
    assert x !in data;
    assert Flip(x) == WEdge(b, a, g[a][b]);
    AppendKeepsOneDirection(data, x);
    forall e ensures multiset(d)[e] <= 1 {
      assert multiset(d)[e] == multiset(data)[e] + multiset([x])[e];
    }
    forall e | e in d ensures e.u in g && (e.u !in todo || e.u in {a}) && e.v in g[e.u] && e.w == g[e.u][e.v] {
      if e != x {
        assert e in data;
      }
    }
    forall e | e in d && e.u == a ensures e.v !in rest - {b} {
      if e != x {
        assert e in data;
      }
    }
  }

  lemma ListedSkip(g: Adjacency, data: seq<Edge>, todo: set<nat>, a: nat, rest: set<nat>, b: nat)
    requires a in g && b in rest && rest <= g[a].Keys
    requires ListedRow(g, data, todo, a, rest) && WEdge(b, a, g[a][b]) in data
    ensures ListedRow(g, data, todo, a, rest - {b})
  {
  }

  lemma ListedRowDone(g: Adjacency, data: seq<Edge>, todo: set<nat>, a: nat)
    requires a in g && ListedRow(g, data, todo, a, {})
    ensures ListedExcept(g, data, todo - {a}, {a})
  {
  }

  lemma ListedMoveOn(g: Adjacency, data: seq<Edge>, todo: set<nat>, a: nat)
    requires ListedExcept(g, data, todo - {a}, {a})
    ensures ListedExcept(g, data, todo - {a}, {})
  {
  }

  class Graph {
    var g: Adjacency

    ghost predicate Valid()
      reads this
    {
      Symmetric(g)
    }

    constructor ()
      ensures g == map[] && Valid()
    {
      g := map[];
    }

    /** add: neighbour maps for new vertices, then the weight in both directions. */
    method Add(a: nat, b: nat, w: real)
      requires Valid()
      modifies this
      ensures Valid() && g == Added(old(g), a, b, w)
    {
      var m := g;
      if a !in m {
        m := m[a := map[]];
      }
      if b !in m {
        m := m[b := map[]];
      }
      var row: map<nat, real> := m[a][b := w];
      m := m[a := row];
      row := m[b][a := w];
      m := m[b := row];
      AddSteps(g, a, b, w);
      AddedSymmetric(g, a, b, w);
      g := m;
    }

    /**
     * has_link: `v2 in self[v1] or v1 in self[v2]`.  Indexing a missing vertex
     * raises KeyError; the second lookup happens only when the first test fails.
     */
    function HasLink(v1: nat, v2: nat): (r: Result<bool, LookupError>)
      reads this
      ensures r.Failure? <==> v1 !in g || (v2 !in g[v1] && v2 !in g)
      ensures r.Failure? ==> r.error == KeyError(if v1 !in g then v1 else v2)
      ensures r.Success? && Symmetric(g) ==> (r.value <==> (v1, v2) in Links(g))
    {
      if v1 !in g then Failure(KeyError(v1))
      else if v2 in g[v1] then Success(true)
      else if v2 !in g then Failure(KeyError(v2))
      else Success(v1 in g[v2])
    }

    /** has_link does not depend on the order of its arguments. */
    lemma HasLinkSymmetric(v1: nat, v2: nat)
      requires Valid() && v1 in g && v2 in g
      ensures HasLink(v1, v2) == HasLink(v2, v1)
    {
      if v2 in g[v1] {
        assert g[v1][v2] == g[v2][v1];
      }
    }

    /**
     * edges: for every vertex and every neighbour, append (from, to, weight)
     * unless (to, from, weight) is already listed.  Dict iteration order is
     * not modelled: the vertices and neighbours are taken in any order.
     */
    method Edges() returns (data: seq<Edge>)
      requires Valid()
      ensures Listing(g, data)
    {
      data := [];
      var todo := g.Keys;
      while todo != {}
        invariant todo <= g.Keys && ListedExcept(g, data, todo, {})
        decreases |todo|
      {
        var a :| a in todo;
        data := ListNeighbours(a, todo, data);
        assert ListedExcept(g, data, todo - {a}, {}) by {
          ListedMoveOn(g, data, todo, a);
        }
        todo := todo - {a};
      }
    }

    /** The inner loop of `edges` over the neighbours of a. */
    method ListNeighbours(a: nat, todo: set<nat>, data0: seq<Edge>) returns (data: seq<Edge>)
      requires Valid() && a in todo && todo <= g.Keys && ListedExcept(g, data0, todo, {})
      ensures ListedExcept(g, data, todo - {a}, {a})
    {
      data := data0;
      var neighbours := g[a].Keys;
      ListedStart(g, data, todo, a);
      while neighbours != {}
        invariant neighbours <= g[a].Keys && ListedRow(g, data, todo, a, neighbours)
        decreases |neighbours|
      {
        var b :| b in neighbours;
        var w := g[a][b];
        if WEdge(b, a, w) !in data {
          ListedAppend(g, data, todo, a, neighbours, b);
          data := data + [WEdge(a, b, w)];
        } else {
          ListedSkip(g, data, todo, a, neighbours, b);
        }
        neighbours := neighbours - {b};
      }
      ListedRowDone(g, data, todo, a);
    }

    /** sorted_by_weight: the listing, stably sorted by weight (descending when `desc`). */
    method SortedByWeight(desc: bool) returns (r: seq<Edge>)
      requires Valid()
      ensures Listing(g, r) && SortedBy(r, desc)
    {
      var data := Edges();
      r := SortByWeight(data, desc);
      ListingPermutation(g, data, r);
    }

    /**
     * The body of spanning_tree once the edges are sorted: an empty `mst`,
     * every vertex its own parent with rank 0, then the loop over `sorted`,
     * breaking by `rule`.  `tree` is the ghost sequence of the accepted edges.
     */
    method Grow(sorted: seq<Edge>, rule: StopRule) returns (mst: Graph, ghost tree: seq<Edge>)
      requires forall e :: e in sorted ==> e.u in g && e.v in g
      ensures fresh(mst)
      ensures tree == Run(g.Keys, sorted, Identity(g.Keys), Zeros(g.Keys), [], rule)
      ensures mst.g == GraphOf(tree)
    {
      mst := new Graph();
      var parent, rank := Singletons(g.Keys);
      tree := Loop(mst, g.Keys, Len(), sorted, parent, rank, rule);
    }

    /**
     * spanning_tree as written: Kruskal over the links sorted by weight
     * (ascending for a minimum tree), breaking as soon as the tree has as many
     * vertices as the graph.  The result is a forest of the graph's own links
     * with their weights, accepted in sorted order; it may leave the graph's
     * components split (AllVerticesTouchedSplits).
     */
    method SpanningTree(minimum: bool) returns (mst: Graph, ghost sorted: seq<Edge>, ghost tree: seq<Edge>)
      requires Valid()
      ensures fresh(mst) && mst.Valid() && mst.g == GraphOf(tree)
      ensures Listing(g, sorted) && SortedBy(sorted, !minimum)
      ensures forall e :: e in sorted ==> e.u in g && e.v in g
      ensures tree == Run(g.Keys, sorted, Identity(g.Keys), Zeros(g.Keys), [], AllVerticesTouched)
      ensures IsForest(tree) && SortedBy(tree, !minimum)
      ensures Subgraph(mst.g, g)
    {
      var edges := SortedByWeight(!minimum);
      sorted := edges;
      mst, tree := Grow(edges, AllVerticesTouched);
      RunForest(g.Keys, sorted, AllVerticesTouched);
      RunOrder(g.Keys, sorted, Identity(g.Keys), Zeros(g.Keys), [], AllVerticesTouched, !minimum);
      GraphOfSubgraph(g, tree);
    }

    /**
     * spanning_tree with the loop breaking once the tree has one edge fewer
     * than the graph has vertices.  Besides everything the as-written version
     * promises, the tree now connects exactly the vertices the graph connects,
     * and it has the cycle property of a minimum spanning forest (maximum when
     * `minimum` is false): the ends of every link of the graph are joined by
     * tree edges no heavier (no lighter) than it.
     */
    method SpanningTreeCorrected(minimum: bool) returns (mst: Graph, ghost tree: seq<Edge>)
      requires Valid()
      ensures fresh(mst) && mst.Valid() && mst.g == GraphOf(tree)
      ensures IsForest(tree) && SortedBy(tree, !minimum)
      ensures Subgraph(mst.g, g)
      ensures forall a, b :: a in g && b in g ==> (Connected(Links(mst.g), a, b) <==> Connected(Links(g), a, b))
      ensures forall a, b :: a in g && b in g[a] ==> LighterConnects(tree, WEdge(a, b, g[a][b]), !minimum)
    {
      var sorted := SortedByWeight(!minimum);
      mst, tree := Grow(sorted, TreeComplete);
      RunForest(g.Keys, sorted, TreeComplete);
      RunOrder(g.Keys, sorted, Identity(g.Keys), Zeros(g.Keys), [], TreeComplete, !minimum);
      GraphOfSubgraph(g, tree);
      RunSpans(g.Keys, sorted);
      forall a, b | a in g && b in g ensures Connected(Links(mst.g), a, b) <==> Connected(Links(g), a, b) {
        GraphOfConnects(tree, a, b);
        ListingConnects(g, sorted, a, b);
      }
      RunCycleProperty(g.Keys, sorted, !minimum);
      ListingCertificate(g, sorted, tree, !minimum);
    }

    /** __len__: the number of vertices; zero exactly for the empty graph. */
    function Len(): (n: nat)
      reads this
      ensures n == 0 <==> g == map[]
    {
      |g.Keys|
    }
  }

  /**
   * load_nodes: `add(node1.id, node2.id, distance)` for every ordered pair of
   * features with different ids, in list order, on a fresh graph.
   */
  method LoadNodes(nodes: seq<Point>, distance: (Coord, Coord) -> real) returns (G: Graph)
    ensures fresh(G) && G.Valid()
    ensures G.g == GraphOf(PairEdges(nodes, nodes, distance))
  {
    G := new Graph();
    ghost var t: seq<Edge> := [];
    for i := 0 to |nodes|
      invariant t == PairEdges(nodes[..i], nodes, distance) && G.g == GraphOf(t)
    {
      ghost var front := t;
      for j := 0 to |nodes|
        invariant t == front + RowEdges(nodes[i], nodes[..j], distance) && G.g == GraphOf(t)
      {
        RowEdgesStep(front, nodes[i], nodes, j, distance);
        if nodes[i].id != nodes[j].id {
          var e := PairEdge(nodes[i], nodes[j], distance);
          G.Add(e.u, e.v, e.w);
          GraphOfAppend(t, e);
          t := t + [e];
        }
      }
      assert nodes[..|nodes|] == nodes;
      PairEdgesStep(nodes, i, nodes, distance);
    }
    assert nodes[..|nodes|] == nodes;
  }

  /** The loaded graph is complete over the features' ids: a link joins exactly two different ids of features. */
  lemma LoadedLinks(nodes: seq<Point>, distance: (Coord, Coord) -> real)
    ensures forall a: nat, b: nat :: (a, b) in Links(GraphOf(PairEdges(nodes, nodes, distance))) <==>
              a != b && (exists i :: 0 <= i < |nodes| && nodes[i].id == a) && (exists j :: 0 <= j < |nodes| && nodes[j].id == b)
  {
    var t := PairEdges(nodes, nodes, distance);
    var g := GraphOf(t);
    GraphOfLinks(t);
    forall a: nat, b: nat | (a, b) in Links(g)
      ensures a != b && (exists i :: 0 <= i < |nodes| && nodes[i].id == a) && (exists j :: 0 <= j < |nodes| && nodes[j].id == b)
    {
      var x, y := a, b;
      if (b, a) in LinksOf(t) {
        x, y := b, a;
      }
      var k :| 0 <= k < |t| && t[k].u == x && t[k].v == y;
      assert t[k] in t;
      var i, j :| 0 <= i < |nodes| && 0 <= j < |nodes| && nodes[i].id != nodes[j].id && t[k] == PairEdge(nodes[i], nodes[j], distance);
    }
    forall a: nat, b: nat | a != b && (exists i :: 0 <= i < |nodes| && nodes[i].id == a) && (exists j :: 0 <= j < |nodes| && nodes[j].id == b)
      ensures (a, b) in Links(g)
    {
      var i :| 0 <= i < |nodes| && nodes[i].id == a;
      var j :| 0 <= j < |nodes| && nodes[j].id == b;
      var e := PairEdge(nodes[i], nodes[j], distance);
      assert e in t;
      var k :| 0 <= k < |t| && t[k] == e;
      assert (t[k].u, t[k].v) in LinksOf(t);
    }
  }

  /** With distinct ids and a symmetric distance, each link of the loaded graph carries the distance between its features. */
  lemma LoadedWeights(nodes: seq<Point>, distance: (Coord, Coord) -> real, i: nat, j: nat)
    requires IsDistance(distance) && UniqueIds(nodes)
    requires i < |nodes| && j < |nodes| && i != j
    ensures nodes[i].id in GraphOf(PairEdges(nodes, nodes, distance))
    ensures nodes[j].id in GraphOf(PairEdges(nodes, nodes, distance))[nodes[i].id]
    ensures GraphOf(PairEdges(nodes, nodes, distance))[nodes[i].id][nodes[j].id] == distance(nodes[i].at, nodes[j].at)
  {
    var t := PairEdges(nodes, nodes, distance);
    SameIdSameFeature(nodes, i, j);
    LoadedLinks(nodes, distance);
    assert (nodes[i].id, nodes[j].id) in Links(GraphOf(t));
    PairEdgesBetween(nodes, i, j, distance);
    GraphOfWeight(t, nodes[i].id, nodes[j].id, distance(nodes[i].at, nodes[j].at));
  }
}
