/**
 * Parent-link forests as both Kruskal implementations keep them: a map from
 * every vertex to its parent, where a vertex that is its own parent is a root.
 * `level` is a ranking that rises strictly from a child to its parent; it is
 * what makes following parent links terminate.  In the edge-list
 * implementation `level` is the union-by-rank `rank` list itself; in the
 * adjacency implementation, whose `union` ignores ranks, it is a ghost map.
 */
module DisjointSets {
  import opened Connectivity

  ghost predicate Ranked<V(!new)>(parent: map<V, V>, level: map<V, nat>) {
    && parent.Keys == level.Keys
    && parent.Values <= parent.Keys
    && (forall x {:trigger parent[x]} :: x in parent && parent[x] != x ==> level[x] < level[parent[x]])
  }

  ghost function MaxLevel<V(!new)>(level: map<V, nat>): (m: nat)
    ensures forall x :: x in level ==> level[x] <= m
    decreases |level|
  {
    if level == map[] then 0
    else
      var k :| k in level;
      var rest := level - {k};
      assert rest.Keys == level.Keys - {k};
      assert |rest| < |level| by {
        assert |rest.Keys| < |level.Keys|;
      }
      var m := MaxLevel(rest);
      assert forall x :: x in level && x != k ==> x in rest && rest[x] == level[x];
      if level[k] > m then level[k] else m
  }

  /** The representative reached by following parent links from x. */
  ghost function Root<V(!new)>(parent: map<V, V>, level: map<V, nat>, x: V): (r: V)
    requires Ranked(parent, level) && x in parent
    ensures r in parent && parent[r] == r
    ensures parent[x] == x ==> r == x
    decreases MaxLevel(level) - level[x]
  {
    if parent[x] == x then x else Root(parent, level, parent[x])
  }

  ghost function Roots<V(!new)>(parent: map<V, V>): set<V> {
    set x | x in parent && parent[x] == x
  }

  /** The root found does not depend on which ranking witnessed termination. */
  lemma {:induction false} RootLevelFree<V(!new)>(parent: map<V, V>, level1: map<V, nat>, level2: map<V, nat>, x: V)
    requires Ranked(parent, level1) && Ranked(parent, level2) && x in parent
    ensures Root(parent, level1, x) == Root(parent, level2, x)
    decreases MaxLevel(level1) - level1[x]
  {
    if parent[x] != x {
      RootLevelFree(parent, level1, level2, parent[x]);
    }
  }

  /**
   * Re-parenting one root under another root merges exactly those two classes:
   * every vertex whose root was `child` now has root `root`; nothing else moves.
   */
  lemma {:induction false} RootAfterLink<V(!new)>(parent: map<V, V>, level: map<V, nat>, level': map<V, nat>, child: V, root: V, x: V)
    requires Ranked(parent, level) && child in parent && root in parent
    requires parent[child] == child && parent[root] == root && child != root
    requires Ranked(parent[child := root], level')
    requires x in parent
    ensures Root(parent[child := root], level', x)
            == (if Root(parent, level, x) == child then root else Root(parent, level, x))
    decreases MaxLevel(level) - level[x]
  {
    var p' := parent[child := root];
    if parent[x] != x {
      assert x != child && p'[x] == parent[x];
      RootAfterLink(parent, level, level', child, root, parent[x]);
    } else if x == child {
      assert p'[x] == root && p'[root] == root;
    }
  }

  lemma RootsAfterLink<V(!new)>(parent: map<V, V>, child: V, root: V)
    requires child in parent && root in parent
    requires parent[child] == child && parent[root] == root && child != root
    ensures child in Roots(parent)
    ensures Roots(parent[child := root]) == Roots(parent) - {child}
    ensures |Roots(parent[child := root])| == |Roots(parent)| - 1
  {
  }

  /**
   * The union-find classes are exactly the connected components of the links L
   * accepted so far, over the vertex set `parent.Keys`.
   */
  ghost predicate Partitions<V(!new)>(parent: map<V, V>, level: map<V, nat>, L: set<(V, V)>) {
    && Ranked(parent, level)
    && (forall x, y {:trigger (x, y) in L} :: (x, y) in L ==> x in parent && y in parent)
    && (forall a, b {:trigger Root(parent, level, a), Root(parent, level, b)} :: a in parent && b in parent ==>
          (Root(parent, level, a) == Root(parent, level, b) <==> Connected(L, a, b)))
  }

  /** Every vertex its own root, and no links: the starting point of both Kruskals. */
  lemma PartitionsInitially<V(!new)>(parent: map<V, V>, level: map<V, nat>)
    requires parent.Keys == level.Keys
    requires forall x :: x in parent ==> parent[x] == x
    ensures Partitions(parent, level, {})
    ensures Roots(parent) == parent.Keys
  {
    forall a, b | a in parent && b in parent
      ensures Root(parent, level, a) == Root(parent, level, b) <==> Connected({}, a, b)
    {
      if a == b {
        ConnectedRefl({}, a);
      } else {
        NotConnectedAcrossCut({}, {a}, a, b);
      }
    }
  }

  /**
   * Re-parenting the root `child` under the root `root` keeps the ranking
   * valid when the new level of `root` is above the level of `child`, at
   * least its old level, and no other level changes.  (`child == root` is
   * allowed: then only the level of that root rises.)
   */
  lemma RankedAfterLink<V(!new)>(parent: map<V, V>, level: map<V, nat>, level': map<V, nat>, child: V, root: V)
    requires Ranked(parent, level) && child in parent && root in parent
    requires parent[child] == child && parent[root] == root
    requires level'.Keys == level.Keys
    requires forall x :: x in level && x != root ==> level'[x] == level[x]
    requires level[root] <= level'[root] && level[child] < level'[root]
    ensures Ranked(parent[child := root], level')
  {
    var p' := parent[child := root];
    forall x | x in p' && p'[x] != x ensures level'[x] < level'[p'[x]] {
      if x != child {
        assert p'[x] == parent[x] && x != root;
      }
    }
  }

  /**
   * Accepting the edge (u, v) whose endpoints have distinct roots, and linking
   * one of those roots under the other, keeps the classes equal to the
   * connected components.
   */
  lemma PartitionsAfterUnion<V(!new)>(parent: map<V, V>, level: map<V, nat>, level': map<V, nat>,
                                       L: set<(V, V)>, u: V, v: V, child: V, root: V)
    requires Partitions(parent, level, L)
    requires u in parent && v in parent
    requires Root(parent, level, u) != Root(parent, level, v)
    requires (child == Root(parent, level, u) && root == Root(parent, level, v))
          || (child == Root(parent, level, v) && root == Root(parent, level, u))
    requires Ranked(parent[child := root], level')
    ensures Partitions(parent[child := root], level', L + {(u, v)})
  {
    var p' := parent[child := root];
    var L' := L + {(u, v)};
    var ru, rv := Root(parent, level, u), Root(parent, level, v);
    forall a, b | a in p' && b in p'
      ensures Root(p', level', a) == Root(p', level', b) <==> Connected(L', a, b)
    {
      RootAfterLink(parent, level, level', child, root, a);
      RootAfterLink(parent, level, level', child, root, b);
      AddLinkConnected(L, u, v, a, b);
      var ra, rb := Root(parent, level, a), Root(parent, level, b);
      assert Connected(L, a, u) <==> ra == ru;
      assert Connected(L, a, v) <==> ra == rv;
      assert Connected(L, u, b) <==> ru == rb;
      assert Connected(L, v, b) <==> rv == rb;
    }
  }

  /** Rejecting an edge whose endpoints share a root adds nothing to the components. */
  lemma PartitionsAfterRejection<V(!new)>(parent: map<V, V>, level: map<V, nat>, L: set<(V, V)>, u: V, v: V)
    requires Partitions(parent, level, L)
    requires u in parent && v in parent
    requires Root(parent, level, u) == Root(parent, level, v)
    ensures forall a, b :: a in parent && b in parent ==>
              (Connected(L + {(u, v)}, a, b) <==> Connected(L, a, b))
  {
    forall a, b | a in parent && b in parent
      ensures Connected(L + {(u, v)}, a, b) <==> Connected(L, a, b)
    {
      AddLinkConnected(L, u, v, a, b);
      if Connected(L, a, u) && Connected(L, v, b) {
        assert Connected(L, u, v);
        ConnectedTrans(L, a, u, v);
        ConnectedTrans(L, a, v, b);
      }
      if Connected(L, a, v) && Connected(L, u, b) {
        assert Connected(L, v, u);
        ConnectedTrans(L, a, v, u);
        ConnectedTrans(L, a, u, b);
      }
    }
  }

  /**
   * Components and roots: with one root left, the links connect every vertex;
   * and when the links connect every vertex, at most one root is left.
   */
  lemma OneRootIffConnected<V(!new)>(parent: map<V, V>, level: map<V, nat>, L: set<(V, V)>)
    requires Partitions(parent, level, L) && parent != map[]
    ensures |Roots(parent)| == 1 <==> ConnectsAll(L, parent.Keys)
  {
    var R := Roots(parent);
    var x0 :| x0 in parent;
    var r0 := Root(parent, level, x0);
    assert r0 in R;
    if |R| == 1 {
      forall a, b | a in parent.Keys && b in parent.Keys ensures Connected(L, a, b) {
        var ra, rb := Root(parent, level, a), Root(parent, level, b);
        assert ra in R && rb in R;
        if ra != rb {
          assert {ra, rb} <= R;
          assert |{ra, rb}| == 2;
          CardinalityMono({ra, rb}, R);
        }
      }
    }
    if ConnectsAll(L, parent.Keys) {
      forall r | r in R ensures r == r0 {
        assert Root(parent, level, r) == r;
        assert Connected(L, r, x0);
      }
      assert R == {r0};
    }
  }

  lemma CardinalityMono<T>(A: set<T>, B: set<T>)
    requires A <= B
    ensures |A| <= |B|
  {
    assert B == A + (B - A);
  }

  /**
   * If every link of the input graph lies inside one class, the accepted links
   * connect whatever the input graph connects.
   */
  lemma CoveredGraphConnects<V(!new)>(parent: map<V, V>, level: map<V, nat>, L: set<(V, V)>, G: set<(V, V)>, a: V, b: V)
    requires Partitions(parent, level, L)
    requires forall x, y :: (x, y) in G ==> x in parent && y in parent && Root(parent, level, x) == Root(parent, level, y)
    requires Connected(G, a, b)
    ensures Connected(L, a, b)
  {
    ConnectedCoverAll(G, L, a, b);
  }
}
