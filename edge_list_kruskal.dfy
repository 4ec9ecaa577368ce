/**
 * Kruskal's minimum spanning tree over an edge list with integer vertices
 * 0 .. V-1 (network_analysis/min_span_tree.py).  The graph object holds the
 * vertex count and a list of `[u, v, w]` edges; union-find state lives in two
 * lists, `parent` and `rank`, that `union` updates in place.
 */
module EdgeListKruskal {
  import opened Wrappers
  import opened Geometry
  import opened Connectivity
  import opened DisjointSets
  import opened WeightOrder

  type Edge = WEdge<nat>

  /** Both ways `KruskalMST` stops with Python's IndexError. */
  datatype KruskalError =
    | EdgesExhausted                   // `self.graph[i]` with i past the end
    | VertexOutOfRange(vertex: nat)    // `parent[u]` with u >= V

  /** The edge with its endpoints in sorted order, as find_unique_edges rewrites it. */
  function Canonical(e: Edge): (c: Edge)
    ensures c.u <= c.v && c.w == e.w
    ensures (c.u == e.u && c.v == e.v) || (c.u == e.v && c.v == e.u)
  {
    if e.u <= e.v then e else WEdge(e.v, e.u, e.w)
  }

  /** Every edge of `es` with its endpoints sorted, in the order of `es`. */
  function CanonicalList(es: seq<Edge>): (r: seq<Edge>)
    ensures |r| == |es|
    ensures forall k :: 0 <= k < |es| ==> r[k] == Canonical(es[k])
  {
    if es == [] then [] else CanonicalList(es[..|es| - 1]) + [Canonical(es[|es| - 1])]
  }

  predicate NoDuplicates<T(==)>(s: seq<T>) {
    forall i, j :: 0 <= i < j < |s| ==> s[i] != s[j]
  }

  /** The vertex ids 0 .. n-1. */
  function Vertices(n: nat): (vs: set<nat>)
    ensures forall x: nat :: x in vs <==> x < n
  {
    if n == 0 then {} else Vertices(n - 1) + {n - 1}
  }

  predicate InRange(e: Edge, n: nat) {
    e.u < n && e.v < n
  }

  /** A Python list viewed as the map from index to entry. */
  function ListMap(s: seq<nat>): (m: map<nat, nat>)
    ensures m.Keys == Vertices(|s|)
    ensures forall i {:trigger m[i]} :: 0 <= i < |s| ==> m[i] == s[i]
  {
    map i: nat | i < |s| :: s[i]
  }

  lemma ListMapUpdate(s: seq<nat>, i: nat, x: nat)
    requires i < |s|
    ensures ListMap(s[i := x]) == ListMap(s)[i := x]
  {
  }

  /** Parents are vertices, and ranks rise strictly from a vertex to its parent. */
  predicate RankedLists(parent: seq<nat>, rank: seq<nat>) {
    && |parent| == |rank|
    && (forall i :: 0 <= i < |parent| ==> parent[i] < |parent|)
    && (forall i :: 0 <= i < |parent| && parent[i] != i ==> rank[i] < rank[parent[i]])
  }

  lemma RankedListsMap(parent: seq<nat>, rank: seq<nat>)
    requires RankedLists(parent, rank)
    ensures Ranked(ListMap(parent), ListMap(rank))
  {
  }

  /**
   * find, corrected: follow parent links from i to a self-parented vertex,
   * without changing `parent` (the comment in the source promises path
   * compression, the code does none), and return the root itself where the
   * written code returns it wrapped in pairs (`FindAsWritten`).  `rank` is
   * passed as a ghost so that termination can be stated: union by rank keeps
   * ranks rising strictly along parent links.
   */
  function Find(parent: seq<nat>, ghost rank: seq<nat>, i: nat): (r: nat)
    requires RankedLists(parent, rank) && i < |parent|
    ensures r < |parent| && parent[r] == r
    ensures i == r || rank[i] < rank[r]
    decreases MaxRank(rank) - rank[i]
  {
    if parent[i] == i then i else Find(parent, rank, parent[i])
  }

  /** A value the written `find` passes around: an int, or a pair whose second item is None, the value of `print(...)`. */
  datatype PyValue = PyInt(n: nat) | PairWithNone(first: PyValue)

  /** The exceptions the written KruskalMST raises. */
  datatype PyError = IndexError | TypeError

  /** The int inside a value of the written `find`. */
  function Unwrap(v: PyValue): nat {
    match v
    case PyInt(n) => n
    case PairWithNone(first) => Unwrap(first)
  }

  /**
   * find as written: `return i, print(...)` at a root and
   * `return self.find(parent, parent[i]), print(...)` otherwise, so every
   * answer is a pair, nested once per link climbed, around the root.
   */
  function FindAsWritten(parent: seq<nat>, ghost rank: seq<nat>, i: nat): (r: PyValue)
    requires RankedLists(parent, rank) && i < |parent|
    ensures r.PairWithNone? && Unwrap(r) == Find(parent, rank, i)
    decreases MaxRank(rank) - rank[i]
  {
    if parent[i] == i then PairWithNone(PyInt(i)) else PairWithNone(FindAsWritten(parent, rank, parent[i]))
  }

  /** `self.find(parent, i)` for any value i: `parent[i]` raises TypeError for a pair and IndexError past the end. */
  function FindOf(parent: seq<nat>, ghost rank: seq<nat>, i: PyValue): (r: Result<PyValue, PyError>)
    requires RankedLists(parent, rank)
    ensures r.Success? <==> i.PyInt? && i.n < |parent|
    ensures i.PairWithNone? ==> r == Failure(TypeError)
  {
    match i
    case PairWithNone(_) => Failure(TypeError)
    case PyInt(n) => if n < |parent| then Success(FindAsWritten(parent, rank, n)) else Failure(IndexError)
  }

  /**
   * union as written: it looks up `self.find(parent, x)` and
   * `self.find(parent, y)`, then indexes `rank` with the first answer, which
   * is a pair; so it never returns normally.
   */
  function UnionAsWritten(parent: seq<nat>, ghost rank: seq<nat>, x: PyValue, y: PyValue): (r: Result<(seq<nat>, seq<nat>), PyError>)
    requires RankedLists(parent, rank)
    ensures r.Failure?
    ensures x.PairWithNone? ==> r == Failure(TypeError)
  {
    match FindOf(parent, rank, x)
    case Failure(err) => Failure(err)
    case Success(xroot) =>
      match FindOf(parent, rank, y)
      case Failure(err) => Failure(err)
      case Success(_) => Failure(TypeError)  // rank[xroot] with xroot a pair
  }

  /**
   * The loop of KruskalMST as written, from edge i on with `result` taken so
   * far: the pairs `find` returns are compared with `!=`, and `union` is
   * called with them once they differ.
   */
  function KruskalLoopAsWritten(V: nat, sorted: seq<Edge>, i: nat, result: seq<Edge>, parent: seq<nat>, ghost rank: seq<nat>): Result<seq<Edge>, PyError>
    requires RankedLists(parent, rank) && |parent| == V && i <= |sorted|
    decreases |sorted| - i
  {
    if |result| >= V - 1 then Success(result)
    else if i == |sorted| then Failure(IndexError)
    else if sorted[i].u >= V || sorted[i].v >= V then Failure(IndexError)
    else
      var x, y := FindAsWritten(parent, rank, sorted[i].u), FindAsWritten(parent, rank, sorted[i].v);
      if x != y then Failure(UnionAsWritten(parent, rank, x, y).error)
      else KruskalLoopAsWritten(V, sorted, i + 1, result, parent, rank)
  }

  /**
   * As written, KruskalMST returns no tree for two or more vertices: the
   * first edge it accepts takes it into `union` with pairs, which raises
   * TypeError, and every other way out raises IndexError.
   */
  lemma {:induction false} KruskalAsWrittenFails(V: nat, sorted: seq<Edge>, i: nat, parent: seq<nat>, rank: seq<nat>)
    requires RankedLists(parent, rank) && |parent| == V && i <= |sorted| && V >= 2
    ensures KruskalLoopAsWritten(V, sorted, i, [], parent, rank).Failure?
    decreases |sorted| - i
  {
    if i < |sorted| && sorted[i].u < V && sorted[i].v < V {
      var x, y := FindAsWritten(parent, rank, sorted[i].u), FindAsWritten(parent, rank, sorted[i].v);
      if x == y {
        KruskalAsWrittenFails(V, sorted, i + 1, parent, rank);
      }
    }
  }

  /** Two vertices joined by one edge: the written loop raises TypeError on that edge. */
  lemma KruskalAsWrittenTypeError()
    ensures KruskalLoopAsWritten(2, [WEdge(0, 1, 1.0)], 0, [], [0, 1], [0, 0]) == Failure(TypeError)
  {
    assert FindAsWritten([0, 1], [0, 0], 0) == PairWithNone(PyInt(0));
    assert FindAsWritten([0, 1], [0, 0], 1) == PairWithNone(PyInt(1));
  }

  /** The largest rank, bounding how far `Find` can climb. */
  function MaxRank(rank: seq<nat>): (m: nat)
    ensures forall i :: 0 <= i < |rank| ==> rank[i] <= m
  {
    if rank == [] then 0
    else
      var m := MaxRank(rank[1..]);
      assert forall i :: 1 <= i < |rank| ==> rank[i] == rank[1..][i - 1];
      if rank[0] > m then rank[0] else m
  }

  /** `Find` on the lists is `Root` on the maps they stand for. */
  lemma {:induction false} FindIsRoot(parent: seq<nat>, rank: seq<nat>, i: nat)
    requires RankedLists(parent, rank) && i < |parent|
    ensures Ranked(ListMap(parent), ListMap(rank))
    ensures Find(parent, rank, i) == Root(ListMap(parent), ListMap(rank), i)
    decreases MaxRank(rank) - rank[i]
  {
    if parent[i] == i {
      RankedListsMap(parent, rank);
    } else {
      FindIsRoot(parent, rank, parent[i]);
      assert ListMap(parent)[i] == parent[i];
    }
  }

  lemma ListMapVertices(n: nat)
    ensures |Vertices(n)| == n
  {
    if n > 0 {
      assert Vertices(n) == Vertices(n - 1) + {n - 1};
      ListMapVertices(n - 1);
    }
  }

  /**
   * union on values: link the root of lower rank under the root of higher
   * rank; on equal ranks link yroot under xroot and raise rank[xroot].  The
   * ranks stay ordered along parent links.
   */
  function UnionOf(parent: seq<nat>, rank: seq<nat>, x: nat, y: nat): (r: (seq<nat>, seq<nat>))
    requires RankedLists(parent, rank) && x < |parent| && y < |parent|
    ensures RankedLists(r.0, r.1)
    ensures var xroot, yroot := Find(parent, rank, x), Find(parent, rank, y);
            && (r.0 == parent[xroot := yroot] || r.0 == parent[yroot := xroot])
            && (r.1 == rank || r.1 == rank[xroot := rank[xroot] + 1])
  {
    var xroot, yroot := Find(parent, rank, x), Find(parent, rank, y);
    if rank[xroot] < rank[yroot] then (parent[xroot := yroot], rank)
    else if rank[xroot] > rank[yroot] then (parent[yroot := xroot], rank)
    else (parent[yroot := xroot], rank[xroot := rank[xroot] + 1])
  }

  /** For two roots, `UnionOf` re-parents the root of lower rank, or y on a tie. */
  lemma UnionOfRoots(parent: seq<nat>, rank: seq<nat>, x: nat, y: nat)
    requires RankedLists(parent, rank) && x < |parent| && y < |parent|
    requires parent[x] == x && parent[y] == y
    ensures UnionOf(parent, rank, x, y).0
            == if rank[x] < rank[y] then parent[x := y] else parent[y := x]
  {
    assert Find(parent, rank, x) == x && Find(parent, rank, y) == y;
  }

  /**
   * After `UnionOf` x and y have one root, and a vertex shares it exactly when
   * its old root was the root of x or of y: the two classes merge and no other
   * class changes.
   */
  lemma UnionOfMerges(parent: seq<nat>, rank: seq<nat>, x: nat, y: nat, z: nat)
    requires RankedLists(parent, rank) && x < |parent| && y < |parent| && z < |parent|
    ensures var (p', r') := UnionOf(parent, rank, x, y);
            && Find(p', r', x) == Find(p', r', y)
            && (Find(p', r', z) == Find(p', r', x) <==>
                  Find(parent, rank, z) == Find(parent, rank, x) || Find(parent, rank, z) == Find(parent, rank, y))
            && (Find(parent, rank, z) != Find(parent, rank, x) && Find(parent, rank, z) != Find(parent, rank, y) ==>
                  Find(p', r', z) == Find(parent, rank, z))
  {
    var (p', r') := UnionOf(parent, rank, x, y);
    var xroot, yroot := Find(parent, rank, x), Find(parent, rank, y);
    if xroot == yroot {
      assert p' == parent;
      FindRankFree(parent, rank, r', x);
      FindRankFree(parent, rank, r', y);
      FindRankFree(parent, rank, r', z);
    } else {
      var child, root := if rank[xroot] < rank[yroot] then xroot else yroot,
                         if rank[xroot] < rank[yroot] then yroot else xroot;
      assert p' == parent[child := root];
      FindAfterLink(parent, rank, r', child, root, x);
      FindAfterLink(parent, rank, r', child, root, y);
      FindAfterLink(parent, rank, r', child, root, z);
    }
  }

  /** The root `Find` reaches does not depend on which ranks witnessed termination. */
  lemma {:induction false} FindRankFree(parent: seq<nat>, rank1: seq<nat>, rank2: seq<nat>, i: nat)
    requires RankedLists(parent, rank1) && RankedLists(parent, rank2) && i < |parent|
    ensures Find(parent, rank1, i) == Find(parent, rank2, i)
    decreases MaxRank(rank1) - rank1[i]
  {
    if parent[i] != i {
      FindRankFree(parent, rank1, rank2, parent[i]);
    }
  }

  /** Hanging the root `child` under the root `root` moves exactly child's class to root's. */
  lemma {:induction false} FindAfterLink(parent: seq<nat>, rank: seq<nat>, rank': seq<nat>, child: nat, root: nat, i: nat)
    requires RankedLists(parent, rank) && child < |parent| && root < |parent| && i < |parent|
    requires parent[child] == child && parent[root] == root && child != root
    requires RankedLists(parent[child := root], rank')
    ensures Find(parent[child := root], rank', i)
            == if Find(parent, rank, i) == child then root else Find(parent, rank, i)
    decreases MaxRank(rank) - rank[i]
  {
    var p' := parent[child := root];
    if parent[i] == i {
      if i == child {
        assert Find(p', rank', root) == root;
      }
    } else {
      assert p'[i] == parent[i];
      FindAfterLink(parent, rank, rank', child, root, parent[i]);
    }
  }

  /** union: update `parent` and `rank` in place as `UnionOf` says. */
  method Union(parent: array<nat>, rank: array<nat>, x: nat, y: nat)
    requires parent != rank
    requires RankedLists(parent[..], rank[..]) && x < parent.Length && y < parent.Length
    modifies parent, rank
    ensures (parent[..], rank[..]) == UnionOf(old(parent[..]), old(rank[..]), x, y)
  {
    var xroot := Find(parent[..], rank[..], x);
    var yroot := Find(parent[..], rank[..], y);
    if rank[xroot] < rank[yroot] {
      parent[xroot] := yroot;
    } else if rank[xroot] > rank[yroot] {
      parent[yroot] := xroot;
    } else {
      parent[yroot] := xroot;
      rank[xroot] := rank[xroot] + 1;
    }
  }

  /**
   * The union-find half of the Kruskal loop state, with P and R the `parent`
   * and `rank` lists seen as maps: the classes are the components of the
   * accepted edges, and e plus the number of roots is V.
   */
  ghost predicate Classes(n: nat, P: map<nat, nat>, R: map<nat, nat>, result: seq<Edge>) {
    && P.Keys == Vertices(n)
    && Partitions(P, R, LinksOf(result))
    && |result| + |Roots(P)| == n
  }

  /**
   * The edge half of the Kruskal loop state after the first i sorted edges:
   * the accepted edges form a forest taken from those i edges in weight
   * order, no heavier than any edge not yet looked at, and every edge looked
   * at so far has its endpoints joined by accepted edges no heavier than it.
   */
  ghost predicate Progress(n: nat, graph: seq<Edge>, i: nat, result: seq<Edge>) {
    && i <= |graph|
    && IsForest(result)
    && SortedBy(result, false)
    && (forall e :: e in result ==> e in graph[..i])
    && (forall k, j {:trigger Key(result[k], false), Key(graph[j], false)} ::
          0 <= k < |result| && i <= j < |graph| ==> Key(result[k], false) <= Key(graph[j], false))
    && (forall j :: 0 <= j < i ==> InRange(graph[j], n))
    && (forall j :: 0 <= j < i ==> LighterConnects(result, graph[j], false))
  }

  /** The edge graph[i] is rejected because its endpoints are already connected. */
  lemma ProgressReject(n: nat, graph: seq<Edge>, i: nat, result: seq<Edge>)
    requires Progress(n, graph, i, result) && i < |graph| && InRange(graph[i], n)
    requires Connected(LinksOf(result), graph[i].u, graph[i].v)
    ensures Progress(n, graph, i + 1, result)
  {
    forall f | f in result ensures Key(f, false) <= Key(graph[i], false) {
      var k :| 0 <= k < |result| && result[k] == f;
    }
    LighterConnectsAll(result, graph[i], false);
    PrefixGrows(graph, i, i + 1);
  }

  /** Every element of a prefix is an element of a longer prefix, and so is the element after it. */
  lemma PrefixGrows<T>(s: seq<T>, i: nat, k: nat)
    requires i <= k <= |s|
    ensures forall x :: x in s[..i] ==> x in s[..k]
    ensures i < k ==> s[i] in s[..k]
  {
    forall x | x in s[..i] ensures x in s[..k] {
      var j :| 0 <= j < i && s[..i][j] == x;
      assert s[..k][j] == x;
    }
    if i < k {
      assert s[..k][i] == s[i];
    }
  }

  /**
   * Accepting e and linking the root `child` of one endpoint under the root
   * `root` of the other: the classes are the components of result + [e], and
   * one root fewer balances the one edge more.
   */
  lemma ClassesAccept(n: nat, P: map<nat, nat>, R: map<nat, nat>, result: seq<Edge>, e: Edge,
                      child: nat, root: nat, R': map<nat, nat>)
    requires Classes(n, P, R, result)
    requires e.u in P && e.v in P
    requires var x, y := Root(P, R, e.u), Root(P, R, e.v);
             x != y && ((child == x && root == y) || (child == y && root == x))
    requires Ranked(P[child := root], R')
    ensures Classes(n, P[child := root], R', result + [e])
    ensures IsForest(result) ==> IsForest(result + [e])
  {
    PartitionsAfterUnion(P, R, R', LinksOf(result), e.u, e.v, child, root);
    LinksOfAppend(result, e);
    RootsAfterLink(P, child, root);
    if IsForest(result) {
      ForestAppend(result, e);
    }
    assert P[child := root].Keys == P.Keys;
  }

  /** Accepting graph[i] keeps the ends of every edge looked at joined by accepted edges no heavier than it. */
  lemma AcceptKeepsCover(n: nat, graph: seq<Edge>, i: nat, result: seq<Edge>)
    requires i < |graph| && InRange(graph[i], n)
    requires forall j :: 0 <= j < i ==> InRange(graph[j], n) && LighterConnects(result, graph[j], false)
    ensures forall j :: 0 <= j < i + 1 ==>
              InRange(graph[j], n) && LighterConnects(result + [graph[i]], graph[j], false)
  {
    forall j | 0 <= j < i + 1 ensures InRange(graph[j], n) && LighterConnects(result + [graph[i]], graph[j], false) {
      LighterConnectsSnoc(result, graph[i], graph[j], false);
    }
  }

  /** Accepting graph[i] keeps the accepted edges in weight order, below every edge not yet looked at. */
  lemma AcceptKeepsOrder(graph: seq<Edge>, i: nat, result: seq<Edge>)
    requires i < |graph| && SortedBy(graph, false) && SortedBy(result, false)
    requires forall k, j :: 0 <= k < |result| && i <= j < |graph| ==> Key(result[k], false) <= Key(graph[j], false)
    ensures SortedBy(result + [graph[i]], false)
    ensures forall k, j :: 0 <= k < |result| + 1 && i + 1 <= j < |graph| ==>
              Key((result + [graph[i]])[k], false) <= Key(graph[j], false)
  {
    var result' := result + [graph[i]];
    forall k, j | 0 <= k < |result'| && i + 1 <= j < |graph|
      ensures Key(result'[k], false) <= Key(graph[j], false)
    {
      if k < |result| {
        assert Key(result[k], false) <= Key(graph[j], false);
      }
    }
  }

  /** The edge graph[i] is accepted, and the accepted edges stay a forest. */
  lemma ProgressAccept(n: nat, graph: seq<Edge>, i: nat, result: seq<Edge>)
    requires Progress(n, graph, i, result) && i < |graph| && InRange(graph[i], n)
    requires SortedBy(graph, false) && IsForest(result + [graph[i]])
    ensures Progress(n, graph, i + 1, result + [graph[i]])
  {
    AcceptKeepsCover(n, graph, i, result);
    AcceptKeepsOrder(graph, i, result);
    PrefixGrows(graph, i, i + 1);
  }

  /**
   * The whole state of the Kruskal loop after the first i edges of the sorted
   * list: `parent` and `rank` are ranked lists over the n vertices whose
   * classes are the components of `result`, and `result` has made the
   * progress `Progress` describes.
   */
  ghost predicate KruskalState(n: nat, sorted: seq<Edge>, i: nat, parent: seq<nat>, rank: seq<nat>, result: seq<Edge>) {
    && |parent| == n
    && SortedBy(sorted, false)
    && RankedLists(parent, rank)
    && Classes(n, ListMap(parent), ListMap(rank), result)
    && Progress(n, sorted, i, result)
  }

  /** The lists as KruskalMST first builds them: every vertex its own parent, every rank 0. */
  lemma StateInitially(n: nat, sorted: seq<Edge>, parent: seq<nat>, rank: seq<nat>)
    requires |parent| == |rank| == n && SortedBy(sorted, false)
    requires forall k :: 0 <= k < n ==> parent[k] == k && rank[k] == 0
    ensures KruskalState(n, sorted, 0, parent, rank, [])
  {
    PartitionsInitially(ListMap(parent), ListMap(rank));
    ListMapVertices(n);
    assert LinksOf<nat>([]) == {};
  }

  /** The lists after KruskalMST has found the roots x and y of e distinct and called `Union`. */
  lemma ListsAccept(n: nat, p0: seq<nat>, r0: seq<nat>, result: seq<Edge>, e: Edge,
                    x: nat, y: nat, p1: seq<nat>, r1: seq<nat>)
    requires RankedLists(p0, r0) && Classes(n, ListMap(p0), ListMap(r0), result) && InRange(e, n)
    requires x == Find(p0, r0, e.u) && y == Find(p0, r0, e.v) && x != y
    requires (p1, r1) == UnionOf(p0, r0, x, y)
    ensures Classes(n, ListMap(p1), ListMap(r1), result + [e])
    ensures IsForest(result) ==> IsForest(result + [e])
  {
    FindIsRoot(p0, r0, e.u);
    FindIsRoot(p0, r0, e.v);
    UnionOfRoots(p0, r0, x, y);
    RankedListsMap(p1, r1);
    if r0[x] < r0[y] {
      ListMapUpdate(p0, x, y);
      ClassesAccept(n, ListMap(p0), ListMap(r0), result, e, x, y, ListMap(r1));
    } else {
      ListMapUpdate(p0, y, x);
      ClassesAccept(n, ListMap(p0), ListMap(r0), result, e, y, x, ListMap(r1));
    }
  }

  /** KruskalMST has found the roots x and y of sorted[i] distinct, called `Union` and appended sorted[i]. */
  lemma StateAccept(n: nat, sorted: seq<Edge>, i: nat, p0: seq<nat>, r0: seq<nat>, result: seq<Edge>,
                    x: nat, y: nat, p1: seq<nat>, r1: seq<nat>)
    requires KruskalState(n, sorted, i, p0, r0, result) && i < |sorted| && InRange(sorted[i], n)
    requires x == Find(p0, r0, sorted[i].u) && y == Find(p0, r0, sorted[i].v) && x != y
    requires (p1, r1) == UnionOf(p0, r0, x, y)
    ensures KruskalState(n, sorted, i + 1, p1, r1, result + [sorted[i]])
  {
    ListsAccept(n, p0, r0, result, sorted[i], x, y, p1, r1);
    ProgressAccept(n, sorted, i, result);
  }

  /** `union(parent, rank, x, y)` on the roots of the edge `sorted[i]` accepts it into the result. */
  method Accept(n: nat, sorted: seq<Edge>, i: nat, parent: array<nat>, rank: array<nat>, ghost result: seq<Edge>, x: nat, y: nat)
    requires parent != rank && rank.Length == n
    requires KruskalState(n, sorted, i, parent[..], rank[..], result) && i < |sorted| && InRange(sorted[i], n)
    requires x == Find(parent[..], rank[..], sorted[i].u) && y == Find(parent[..], rank[..], sorted[i].v) && x != y
    modifies parent, rank
    ensures KruskalState(n, sorted, i + 1, parent[..], rank[..], result + [sorted[i]])
  {
    ghost var p0, r0 := parent[..], rank[..];
    Union(parent, rank, x, y);
    StateAccept(n, sorted, i, p0, r0, result, x, y, parent[..], rank[..]);
  }

  /** The lists after KruskalMST has found the roots of e equal: e joins two connected vertices. */
  lemma ListsReject(n: nat, parent: seq<nat>, rank: seq<nat>, result: seq<Edge>, e: Edge)
    requires RankedLists(parent, rank) && Classes(n, ListMap(parent), ListMap(rank), result) && InRange(e, n)
    requires Find(parent, rank, e.u) == Find(parent, rank, e.v)
    ensures Connected(LinksOf(result), e.u, e.v)
  {
    FindIsRoot(parent, rank, e.u);
    FindIsRoot(parent, rank, e.v);
  }

  /** KruskalMST has found the roots of sorted[i] equal and skipped it. */
  lemma StateReject(n: nat, sorted: seq<Edge>, i: nat, parent: seq<nat>, rank: seq<nat>, result: seq<Edge>)
    requires KruskalState(n, sorted, i, parent, rank, result) && i < |sorted| && InRange(sorted[i], n)
    requires Find(parent, rank, sorted[i].u) == Find(parent, rank, sorted[i].v)
    ensures KruskalState(n, sorted, i + 1, parent, rank, result)
  {
    ListsReject(n, parent, rank, result, sorted[i]);
    ProgressReject(n, sorted, i, result);
  }

  /**
   * The loop stops with V-1 accepted edges (none when V is 0): they form a
   * spanning forest of the graph, taken in weight order from the edges looked
   * at, and every edge of the graph between two vertices has its ends joined
   * by forest edges no heavier than it.
   */
  lemma StateSpans(n: nat, sorted: seq<Edge>, i: nat, parent: seq<nat>, rank: seq<nat>, result: seq<Edge>)
    requires KruskalState(n, sorted, i, parent, rank, result)
    requires |result| == if n == 0 then 0 else n - 1
    ensures IsForest(result) && SortedBy(result, false)
    ensures ConnectsAll(LinksOf(result), Vertices(n))
    ensures forall e :: e in result ==> e in sorted[..i]
    ensures forall e :: e in sorted && InRange(e, n) ==> LighterConnects(result, e, false)
  {
    if n > 0 {
      var P := ListMap(parent);
      assert 0 in P;
      OneRootIffConnected(P, ListMap(rank), LinksOf(result));
    }
    forall e | e in sorted && InRange(e, n) ensures LighterConnects(result, e, false) {
      var j :| 0 <= j < |sorted| && sorted[j] == e;
      if j >= i {
        forall f | f in result ensures Key(f, false) <= Key(e, false) {
          var k :| 0 <= k < |result| && result[k] == f;
        }
        assert e.u in Vertices(n) && e.v in Vertices(n);
        LighterConnectsAll(result, e, false);
      }
    }
  }

  /**
   * Fewer than V-1 edges accepted after the first i edges: those i edges do
   * not connect the vertices.
   */
  lemma StateShort(n: nat, graph: seq<Edge>, i: nat, parent: seq<nat>, rank: seq<nat>, result: seq<Edge>)
    requires KruskalState(n, graph, i, parent, rank, result) && |result| < n - 1
    ensures !ConnectsAll(LinksOf(graph[..i]), Vertices(n))
  {
    var L, G := LinksOf(result), LinksOf(graph[..i]);
    if ConnectsAll(G, Vertices(n)) {
      forall x, y | (x, y) in G ensures Connected(L, x, y) {
        var j :| 0 <= j < i && graph[..i][j].u == x && graph[..i][j].v == y;
        LighterConnected(result, graph[j], false);
      }
      forall a, b | a in Vertices(n) && b in Vertices(n) ensures Connected(L, a, b) {
        ConnectedCoverAll(G, L, a, b);
      }
      var P := ListMap(parent);
      assert 0 in P;
      OneRootIffConnected(P, ListMap(rank), L);
    }
  }

  /** The index of the first edge that names a vertex outside 0 .. n-1, or |graph| when there is none. */
  function FirstOutOfRange(graph: seq<Edge>, n: nat): (k: nat)
    ensures k <= |graph|
    ensures forall j :: 0 <= j < k ==> InRange(graph[j], n)
    ensures k < |graph| ==> !InRange(graph[k], n)
  {
    if graph == [] || !InRange(graph[0], n) then 0 else 1 + FirstOutOfRange(graph[1..], n)
  }

  /** The endpoint of an out-of-range edge that `find` fails on first: u when it is out of range, v otherwise. */
  function OutOfRangeEnd(e: Edge, n: nat): nat {
    if e.u >= n then e.u else e.v
  }

  /**
   * What KruskalMST promises for a graph with n vertices whose sorted edge
   * list is `graph`.  Only the edges before the first one that names a
   * vertex outside 0 .. n-1 can be looked at.  The call succeeds exactly when
   * those edges connect all n vertices.  Otherwise it reports the vertex of
   * that first out-of-range edge, or, when there is none, that the edges ran
   * out.  On success the result is a spanning forest of V-1 of those edges,
   * in weight order, and has the cycle property of a minimum spanning tree:
   * every edge of the graph between two vertices has its ends joined by
   * result edges no heavier than it.
   */
  ghost predicate Outcome(n: nat, graph: seq<Edge>, r: Result<seq<Edge>, KruskalError>) {
    var k := FirstOutOfRange(graph, n);
    && (r.Success? <==> ConnectsAll(LinksOf(graph[..k]), Vertices(n)))
    && (r.Failure? ==> r.error == if k < |graph| then VertexOutOfRange(OutOfRangeEnd(graph[k], n)) else EdgesExhausted)
    && (r.Success? ==>
          && |r.value| == (if n == 0 then 0 else n - 1)
          && IsForest(r.value)
          && ConnectsAll(LinksOf(r.value), Vertices(n))
          && SortedBy(r.value, false)
          && (forall e :: e in r.value ==> e in graph[..k])
          && (forall e :: e in graph && InRange(e, n) ==> LighterConnects(r.value, e, false)))
  }

  /** Reporting exhaustion is justified once the in-range edges are known not to connect the vertices. */
  lemma OutcomeExhausted(n: nat, graph: seq<Edge>)
    requires forall j :: 0 <= j < |graph| ==> InRange(graph[j], n)
    requires !ConnectsAll(LinksOf(graph[..|graph|]), Vertices(n))
    ensures Outcome(n, graph, Failure(EdgesExhausted))
  {
  }

  /** Reporting the first out-of-range edge is justified once the edges before it do not connect the vertices. */
  lemma OutcomeOutOfRange(n: nat, graph: seq<Edge>, i: nat)
    requires i < |graph| && !InRange(graph[i], n)
    requires forall j :: 0 <= j < i ==> InRange(graph[j], n)
    requires !ConnectsAll(LinksOf(graph[..i]), Vertices(n))
    ensures Outcome(n, graph, Failure(VertexOutOfRange(OutOfRangeEnd(graph[i], n))))
  {
    assert FirstOutOfRange(graph, n) == i;
  }

  /**
   * A spanning forest of V-1 edges taken in weight order from the first i
   * edges, all in range, with the cycle property, is a justified success.
   */
  lemma OutcomeSpans(n: nat, graph: seq<Edge>, i: nat, result: seq<Edge>)
    requires i <= |graph| && forall j :: 0 <= j < i ==> InRange(graph[j], n)
    requires |result| == (if n == 0 then 0 else n - 1)
    requires IsForest(result) && SortedBy(result, false)
    requires ConnectsAll(LinksOf(result), Vertices(n))
    requires forall e :: e in result ==> e in graph[..i]
    requires forall e :: e in graph && InRange(e, n) ==> LighterConnects(result, e, false)
    ensures Outcome(n, graph, Success(result))
  {
    var k := FirstOutOfRange(graph, n);
    assert i <= k;
    PrefixGrows(graph, i, k);
    LinksOfSubset(result, graph[..k]);
    forall a, b | a in Vertices(n) && b in Vertices(n) ensures Connected(LinksOf(graph[..k]), a, b) {
      ConnectedMono(LinksOf(result), LinksOf(graph[..k]), a, b);
    }
  }

  /**
   * With two vertices and the sorted edges 0-1 then 0-5, the first edge
   * already spans, so the loop ends before it reads the out-of-range edge:
   * the only outcome is the tree of that first edge.
   */
  lemma OutcomeStopsBeforeOutOfRange(r: Result<seq<Edge>, KruskalError>)
    requires Outcome(2, [WEdge(0, 1, 1.0), WEdge(0, 5, 2.0)], r)
    ensures r == Success([WEdge(0, 1, 1.0)])
  {
    var graph := [WEdge(0, 1, 1.0), WEdge(0, 5, 2.0)];
    assert FirstOutOfRange(graph, 2) == 1;
    FirstEdgeSpansTwo(graph);
    assert r.value[0] in graph[..1];
  }

  /** A first edge 0-1 alone connects the two vertices 0 and 1. */
  lemma FirstEdgeSpansTwo(graph: seq<Edge>)
    requires graph != [] && graph[0].u == 0 && graph[0].v == 1
    ensures ConnectsAll(LinksOf(graph[..1]), Vertices(2))
  {
    var L := LinksOf(graph[..1]);
    assert graph[..1][0] == graph[0];
    assert (0, 1) in L;
    forall a, b | a in Vertices(2) && b in Vertices(2) ensures Connected(L, a, b) {
      if a == b {
        ConnectedRefl(L, a);
      } else {
        ConnectedLink(L, a, b);
      }
    }
  }

  /** Two vertices joined by one edge: the corrected loop returns that edge as the tree. */
  lemma OutcomeSingleEdge(r: Result<seq<Edge>, KruskalError>)
    requires Outcome(2, [WEdge(0, 1, 1.0)], r)
    ensures r == Success([WEdge(0, 1, 1.0)])
  {
    var graph := [WEdge(0, 1, 1.0)];
    assert FirstOutOfRange(graph, 2) == 1;
    FirstEdgeSpansTwo(graph);
    assert r.value[0] in graph[..1];
  }

  /** The graph as `min_span_tree.Graph` keeps it: a vertex count and a list of edges. */
  class Graph {
    const V: nat
    var graph: seq<Edge>

    constructor (vertices: nat)
      ensures V == vertices && graph == []
    {
      V := vertices;
      graph := [];
    }

    /** addEdge: append exactly one [u, v, w]. */
    method AddEdge(u: nat, v: nat, w: real)
      modifies this
      ensures graph == old(graph) + [WEdge(u, v, w)]
    {
      graph := graph + [WEdge(u, v, w)];
    }

    /**
     * find_unique_edges: sort each edge's endpoints, collapse equal triples
     * through a set, and rebuild the list from that set.  The list order is the
     * set's iteration order, which Python leaves unspecified; so does the model.
     */
    method FindUniqueEdges()
      modifies this
      ensures NoDuplicates(graph)
      ensures forall e :: e in graph <==> e in CanonicalList(old(graph))
      ensures forall e :: e in graph ==> e.u <= e.v
    {
      var uniqueGraph: seq<Edge> := [];
      for k := 0 to |graph|
        invariant uniqueGraph == CanonicalList(graph[..k])
      {
        assert graph[..k + 1] == graph[..k] + [graph[k]];
        uniqueGraph := uniqueGraph + [Canonical(graph[k])];
      }
      assert graph[..|graph|] == graph;
      var unique := set e | e in uniqueGraph;
      ghost var all := unique;
      graph := [];
      while unique != {}
        invariant unique <= all
        invariant forall e :: e in graph ==> e in all && e !in unique
        invariant forall e :: e in all ==> e in graph || e in unique
        invariant NoDuplicates(graph)
        decreases |unique|
      {
        var e :| e in unique;
        graph := graph + [e];
        unique := unique - {e};
      }
    }

    /**
     * KruskalMST: sort the edges by weight (replacing self.graph), then take
     * them in order, accepting an edge when its endpoints have different roots
     * and linking those roots, until V-1 edges are accepted.
     */
    method KruskalMST() returns (r: Result<seq<Edge>, KruskalError>)
      modifies this
      ensures graph == SortByWeight(old(graph), false)
      ensures Outcome(V, graph, r)
    {
      var sorted := SortByWeight(graph, false);
      graph := sorted;
      r := KruskalOn(V, sorted);
    }
  }

  /** The loop of KruskalMST over the edges already sorted by weight, with fresh parent and rank lists. */
  method KruskalOn(V: nat, sorted: seq<Edge>) returns (r: Result<seq<Edge>, KruskalError>)
    requires SortedBy(sorted, false)
    ensures Outcome(V, sorted, r)
  {
    var result: seq<Edge> := [];
    var i, e := 0, 0;
    var parent := new nat[V](k => k);
    var rank := new nat[V](k => 0);
    StateInitially(V, sorted, parent[..], rank[..]);
    while e < V - 1
      invariant e == |result| && (V == 0 || e <= V - 1)
      invariant parent.Length == rank.Length == V
      invariant KruskalState(V, sorted, i, parent[..], rank[..], result)
      decreases |sorted| - i
      modifies parent, rank
    {
      if i >= |sorted| {
        StateShort(V, sorted, i, parent[..], rank[..], result);
        OutcomeExhausted(V, sorted);
        return Failure(EdgesExhausted);
      }
      var edge := sorted[i];
      if edge.u >= V {
        StateShort(V, sorted, i, parent[..], rank[..], result);
        OutcomeOutOfRange(V, sorted, i);
        return Failure(VertexOutOfRange(edge.u));
      }
      var x := Find(parent[..], rank[..], edge.u);
      if edge.v >= V {
        StateShort(V, sorted, i, parent[..], rank[..], result);
        OutcomeOutOfRange(V, sorted, i);
        return Failure(VertexOutOfRange(edge.v));
      }
      var y := Find(parent[..], rank[..], edge.v);
      if x != y {
        e := e + 1;
        Accept(V, sorted, i, parent, rank, result, x, y);
        result := result + [edge];
      } else {
        StateReject(V, sorted, i, parent[..], rank[..], result);
      }
      i := i + 1;
    }
    StateSpans(V, sorted, i, parent[..], rank[..], result);
    OutcomeSpans(V, sorted, i, result);
    return Success(result);
  }

  /**
   * load_nodes: a graph with one vertex per feature, an edge for every ordered
   * pair of features with different ids (so both orientations of each pair),
   * weighted by `distance`, then find_unique_edges.
   */
  method LoadNodes(nodes: seq<Point>, distance: (Coord, Coord) -> real) returns (G: Graph)
    ensures fresh(G) && G.V == |nodes|
    ensures NoDuplicates(G.graph)
    ensures forall e :: e in G.graph <==> e in CanonicalList(PairEdges(nodes, nodes, distance))
    ensures forall e :: e in G.graph ==> e.u <= e.v
  {
    G := new Graph(|nodes|);
    for i := 0 to |nodes|
      invariant G.V == |nodes|
      invariant G.graph == PairEdges(nodes[..i], nodes, distance)
    {
      assert nodes[..i + 1][..i] == nodes[..i];
      for j := 0 to |nodes|
        invariant G.V == |nodes|
        invariant G.graph == PairEdges(nodes[..i], nodes, distance) + RowEdges(nodes[i], nodes[..j], distance)
      {
        assert nodes[..j + 1][..j] == nodes[..j];
        if nodes[i].id != nodes[j].id {
          G.AddEdge(nodes[i].id, nodes[j].id, distance(nodes[i].at, nodes[j].at));
        }
      }
      assert nodes[..|nodes|] == nodes;
    }
    assert nodes[..|nodes|] == nodes;
    G.FindUniqueEdges();
  }

  /**
   * With a symmetric distance, the edges load_nodes keeps are exactly the
   * pairs of features with the smaller id first: the two orientations of a
   * pair become one triple.
   */
  lemma LoadedEdges(nodes: seq<Point>, distance: (Coord, Coord) -> real)
    requires IsDistance(distance)
    ensures forall e :: e in CanonicalList(PairEdges(nodes, nodes, distance)) <==>
              exists i, j :: 0 <= i < |nodes| && 0 <= j < |nodes| && nodes[i].id < nodes[j].id &&
                             e == PairEdge(nodes[i], nodes[j], distance)
  {
    var all := PairEdges(nodes, nodes, distance);
    var c := CanonicalList(all);
    forall e | e in c
      ensures exists i, j :: 0 <= i < |nodes| && 0 <= j < |nodes| && nodes[i].id < nodes[j].id &&
                             e == PairEdge(nodes[i], nodes[j], distance)
    {
      var k :| 0 <= k < |c| && c[k] == e;
      assert all[k] in all;
      var i, j :| 0 <= i < |nodes| && 0 <= j < |nodes| && nodes[i].id != nodes[j].id &&
                  all[k] == PairEdge(nodes[i], nodes[j], distance);
      if nodes[j].id < nodes[i].id {
        assert e == PairEdge(nodes[j], nodes[i], distance);
      }
    }
    forall i, j | 0 <= i < |nodes| && 0 <= j < |nodes| && nodes[i].id < nodes[j].id
      ensures PairEdge(nodes[i], nodes[j], distance) in c
    {
      var e := PairEdge(nodes[i], nodes[j], distance);
      assert e in all;
      var k :| 0 <= k < |all| && all[k] == e;
      assert c[k] == e;
    }
  }

  /** With distinct ids, the loaded list holds each pair of features once. */
  lemma LoadedOncePerPair(nodes: seq<Point>, distance: (Coord, Coord) -> real, graph: seq<Edge>)
    requires IsDistance(distance) && UniqueIds(nodes)
    requires NoDuplicates(graph)
    requires forall e :: e in graph <==> e in CanonicalList(PairEdges(nodes, nodes, distance))
    ensures forall k, l :: 0 <= k < l < |graph| ==> graph[k].u != graph[l].u || graph[k].v != graph[l].v
  {
    LoadedEdges(nodes, distance);
    forall k, l | 0 <= k < l < |graph| ensures graph[k].u != graph[l].u || graph[k].v != graph[l].v {
      assert graph[k] in graph && graph[l] in graph;
      var i, j :| 0 <= i < |nodes| && 0 <= j < |nodes| && nodes[i].id < nodes[j].id &&
                  graph[k] == PairEdge(nodes[i], nodes[j], distance);
      var i', j' :| 0 <= i' < |nodes| && 0 <= j' < |nodes| && nodes[i'].id < nodes[j'].id &&
                    graph[l] == PairEdge(nodes[i'], nodes[j'], distance);
      // Equal ends would mean the same two features, hence the same triple twice.
      if i != i' {
        assert nodes[i].id != nodes[i'].id;
      } else if j != j' {
        assert nodes[j].id != nodes[j'].id;
      }
    }
  }
}
