/**
 * Undirected connectivity over a finite set of links.  A link is stored as an
 * ordered pair, but (a, b) and (b, a) name the same undirected link.  This is
 * the yardstick against which the union-find structures of both Kruskal
 * implementations, the Steiner expansion and the shortest-path tree are judged.
 */
module Connectivity {

  /** A weighted edge as the graph code passes it around: `[u, v, w]` or `(u, v, w)`. */
  datatype WEdge<V> = WEdge(u: V, v: V, w: real)

  /** The undirected links named by a sequence of weighted edges. */
  function LinksOf<V(==,!new)>(es: seq<WEdge<V>>): (L: set<(V, V)>)
    ensures forall i {:trigger (es[i].u, es[i].v) in L} :: 0 <= i < |es| ==> (es[i].u, es[i].v) in L
    ensures forall x, y {:trigger (x, y) in L} :: (x, y) in L ==> exists i :: 0 <= i < |es| && es[i].u == x && es[i].v == y
  {
    set i | 0 <= i < |es| :: (es[i].u, es[i].v)
  }

  lemma LinksOfAppend<V(!new)>(es: seq<WEdge<V>>, e: WEdge<V>)
    ensures LinksOf(es + [e]) == LinksOf(es) + {(e.u, e.v)}
  {
    var L, K := LinksOf(es + [e]), LinksOf(es) + {(e.u, e.v)};
    forall p | p in L ensures p in K {
      var i :| 0 <= i < |es + [e]| && (es + [e])[i].u == p.0 && (es + [e])[i].v == p.1;
      if i < |es| { assert es[i] == (es + [e])[i]; }
    }
    forall p | p in K ensures p in L {
      if p == (e.u, e.v) {
        assert (es + [e])[|es|] == e;
      } else {
        var i :| 0 <= i < |es| && es[i].u == p.0 && es[i].v == p.1;
        assert (es + [e])[i] == es[i];
      }
    }
  }

  /** A list whose edges are all edges of another names only links of it. */
  lemma LinksOfSubset<V(!new)>(es: seq<WEdge<V>>, fs: seq<WEdge<V>>)
    requires forall e :: e in es ==> e in fs
    ensures LinksOf(es) <= LinksOf(fs)
  {
    forall p | p in LinksOf(es) ensures p in LinksOf(fs) {
      var i :| 0 <= i < |es| && es[i].u == p.0 && es[i].v == p.1;
      assert es[i] in fs;
      var j :| 0 <= j < |fs| && fs[j] == es[i];
    }
  }

  predicate Linked<V(==,!new)>(L: set<(V, V)>, a: V, b: V) {
    (a, b) in L || (b, a) in L
  }

  /** `p` is a walk: consecutive vertices are joined by a link of L. */
  ghost predicate IsWalk<V(!new)>(L: set<(V, V)>, p: seq<V>) {
    |p| > 0 && forall i :: 0 <= i < |p| - 1 ==> Linked(L, p[i], p[i + 1])
  }

  ghost predicate Connected<V(!new)>(L: set<(V, V)>, a: V, b: V) {
    exists p :: IsWalk(L, p) && p[0] == a && p[|p| - 1] == b
  }

  /**
   * A sequence of edges is a forest when no edge closes a cycle: each edge
   * joins two vertices that the edges before it do not already connect.
   * In particular a forest has no self-loop and no repeated link.
   */
  ghost predicate IsForest<V(!new)>(es: seq<WEdge<V>>) {
    forall i {:trigger LinksOf(es[..i])} :: 0 <= i < |es| ==> !Connected(LinksOf(es[..i]), es[i].u, es[i].v)
  }

  /** Every vertex of `vs` is connected to every other one. */
  ghost predicate ConnectsAll<V(!new)>(L: set<(V, V)>, vs: set<V>) {
    forall a, b {:trigger Connected(L, a, b)} :: a in vs && b in vs ==> Connected(L, a, b)
  }

  function Reverse<V(==,!new)>(p: seq<V>): (r: seq<V>)
    ensures |r| == |p|
    ensures forall i :: 0 <= i < |p| ==> r[i] == p[|p| - 1 - i]
  {
    if p == [] then [] else Reverse(p[1..]) + [p[0]]
  }

  lemma ConnectedRefl<V(!new)>(L: set<(V, V)>, a: V)
    ensures Connected(L, a, a)
  {
    assert IsWalk(L, [a]);
  }

  lemma ConnectedLink<V(!new)>(L: set<(V, V)>, a: V, b: V)
    requires Linked(L, a, b)
    ensures Connected(L, a, b)
  {
    assert IsWalk(L, [a, b]);
  }

  lemma ConnectedSymm<V(!new)>(L: set<(V, V)>, a: V, b: V)
    requires Connected(L, a, b)
    ensures Connected(L, b, a)
  {
    var p :| IsWalk(L, p) && p[0] == a && p[|p| - 1] == b;
    var r := Reverse(p);
    forall i | 0 <= i < |r| - 1 ensures Linked(L, r[i], r[i + 1]) {
      assert Linked(L, p[|p| - 2 - i], p[|p| - 1 - i]);
    }
    assert IsWalk(L, r);
  }

  lemma ConnectedTrans<V(!new)>(L: set<(V, V)>, a: V, b: V, c: V)
    requires Connected(L, a, b) && Connected(L, b, c)
    ensures Connected(L, a, c)
  {
    var p :| IsWalk(L, p) && p[0] == a && p[|p| - 1] == b;
    var q :| IsWalk(L, q) && q[0] == b && q[|q| - 1] == c;
    var r := p + q[1..];
    forall i | 0 <= i < |r| - 1 ensures Linked(L, r[i], r[i + 1]) {
      if i < |p| - 1 {
        assert r[i] == p[i] && r[i + 1] == p[i + 1];
      } else {
        var j := i - (|p| - 1);
        assert r[i] == q[j] && r[i + 1] == q[j + 1];
      }
    }
    assert IsWalk(L, r);
  }

  /** More links never disconnect anything. */
  lemma ConnectedMono<V(!new)>(L: set<(V, V)>, K: set<(V, V)>, a: V, b: V)
    requires L <= K && Connected(L, a, b)
    ensures Connected(K, a, b)
  {
    var p :| IsWalk(L, p) && p[0] == a && p[|p| - 1] == b;
    assert IsWalk(K, p);
  }

  /** Link sets that link the same pairs connect the same pairs. */
  lemma ConnectedSameLinks<V(!new)>(L: set<(V, V)>, K: set<(V, V)>, a: V, b: V)
    requires forall x, y :: Linked(L, x, y) <==> Linked(K, x, y)
    ensures Connected(L, a, b) <==> Connected(K, a, b)
  {
    if Connected(L, a, b) {
      var p :| IsWalk(L, p) && p[0] == a && p[|p| - 1] == b;
      assert IsWalk(K, p);
    }
    if Connected(K, a, b) {
      var p :| IsWalk(K, p) && p[0] == a && p[|p| - 1] == b;
      assert IsWalk(L, p);
    }
  }

  /**
   * If every link of L joins vertices already connected by K, everything
   * connected by L is connected by K.
   */
  lemma {:induction false} ConnectedCover<V(!new)>(L: set<(V, V)>, K: set<(V, V)>, p: seq<V>)
    requires IsWalk(L, p)
    requires forall x, y :: (x, y) in L ==> Connected(K, x, y)
    ensures Connected(K, p[0], p[|p| - 1])
  {
    if |p| == 1 {
      ConnectedRefl(K, p[0]);
    } else {
      var q := p[..|p| - 1];
      assert IsWalk(L, q) by {
        forall i | 0 <= i < |q| - 1 ensures Linked(L, q[i], q[i + 1]) {
          assert q[i] == p[i] && q[i + 1] == p[i + 1];
        }
      }
      ConnectedCover(L, K, q);
      var c, b := p[|p| - 2], p[|p| - 1];
      assert Linked(L, c, b);
      if (c, b) in L {
        assert Connected(K, c, b);
      } else {
        assert Connected(K, b, c);
        ConnectedSymm(K, b, c);
      }
      ConnectedTrans(K, p[0], c, b);
    }
  }

  lemma ConnectedCoverAll<V(!new)>(L: set<(V, V)>, K: set<(V, V)>, a: V, b: V)
    requires forall x, y :: (x, y) in L ==> Connected(K, x, y)
    requires Connected(L, a, b)
    ensures Connected(K, a, b)
  {
    var p :| IsWalk(L, p) && p[0] == a && p[|p| - 1] == b;
    ConnectedCover(L, K, p);
  }

  /**
   * A set of vertices that no link leaves separates its members from the rest:
   * no walk crosses from inside to outside.
   */
  lemma {:induction false} WalkStaysInside<V(!new)>(L: set<(V, V)>, S: set<V>, p: seq<V>)
    requires IsWalk(L, p) && p[0] in S
    requires forall x, y :: (x, y) in L ==> (x in S <==> y in S)
    ensures p[|p| - 1] in S
  {
    if |p| > 1 {
      var q := p[..|p| - 1];
      assert IsWalk(L, q) by {
        forall i | 0 <= i < |q| - 1 ensures Linked(L, q[i], q[i + 1]) {
          assert q[i] == p[i] && q[i + 1] == p[i + 1];
        }
      }
      WalkStaysInside(L, S, q);
      assert Linked(L, p[|p| - 2], p[|p| - 1]);
    }
  }

  lemma NotConnectedAcrossCut<V(!new)>(L: set<(V, V)>, S: set<V>, a: V, b: V)
    requires forall x, y :: (x, y) in L ==> (x in S <==> y in S)
    requires a in S && b !in S
    ensures !Connected(L, a, b)
  {
    if Connected(L, a, b) {
      var p :| IsWalk(L, p) && p[0] == a && p[|p| - 1] == b;
      WalkStaysInside(L, S, p);
    }
  }

  /**
   * Adding one link (x, y) connects a to b exactly when a and b were already
   * connected, or a reaches one end of the new link and the other end reaches b.
   */
  lemma AddLinkConnected<V(!new)>(L: set<(V, V)>, x: V, y: V, a: V, b: V)
    ensures Connected(L + {(x, y)}, a, b) <==>
      (Connected(L, a, b)
       || (Connected(L, a, x) && Connected(L, y, b))
       || (Connected(L, a, y) && Connected(L, x, b)))
  {
    var K := L + {(x, y)};
    if Connected(K, a, b) {
      var p :| IsWalk(K, p) && p[0] == a && p[|p| - 1] == b;
      WalkSplit(L, x, y, p);
    }
    if Connected(L, a, b) {
      ConnectedMono(L, K, a, b);
    } else if Connected(L, a, x) && Connected(L, y, b) {
      ConnectedMono(L, K, a, x);
      ConnectedMono(L, K, y, b);
      ConnectedLink(K, x, y);
      ConnectedTrans(K, a, x, y);
      ConnectedTrans(K, a, y, b);
    } else if Connected(L, a, y) && Connected(L, x, b) {
      ConnectedMono(L, K, a, y);
      ConnectedMono(L, K, x, b);
      ConnectedLink(K, y, x);
      ConnectedTrans(K, a, y, x);
      ConnectedTrans(K, a, x, b);
    }
  }

  lemma {:induction false} WalkSplit<V(!new)>(L: set<(V, V)>, x: V, y: V, p: seq<V>)
    requires IsWalk(L + {(x, y)}, p)
    ensures var a, b := p[0], p[|p| - 1];
      Connected(L, a, b)
      || (Connected(L, a, x) && Connected(L, y, b))
      || (Connected(L, a, y) && Connected(L, x, b))
  {
    var K := L + {(x, y)};
    var a, b := p[0], p[|p| - 1];
    if |p| == 1 {
      ConnectedRefl(L, a);
    } else {
      var q := p[..|p| - 1];
      assert IsWalk(K, q) by {
        forall i | 0 <= i < |q| - 1 ensures Linked(K, q[i], q[i + 1]) {
          assert q[i] == p[i] && q[i + 1] == p[i + 1];
        }
      }
      WalkSplit(L, x, y, q);
      var c := p[|p| - 2];
      assert q[0] == a && q[|q| - 1] == c;
      assert Linked(K, c, b);
      if Linked(L, c, b) {
        ConnectedLink(L, c, b);
        if Connected(L, a, c) {
          ConnectedTrans(L, a, c, b);
        } else if Connected(L, a, x) && Connected(L, y, c) {
          ConnectedTrans(L, y, c, b);
        } else {
          ConnectedTrans(L, x, c, b);
        }
      } else if c == x && b == y {
        ConnectedRefl(L, y);
        if Connected(L, a, y) && Connected(L, x, c) {
          assert Connected(L, a, b);
        }
      } else {
        assert c == y && b == x;
        ConnectedRefl(L, x);
        if Connected(L, a, x) && Connected(L, y, c) {
          assert Connected(L, a, b);
        }
      }
    }
  }

  /** Appending an edge between unconnected vertices keeps a forest a forest. */
  lemma ForestAppend<V(!new)>(es: seq<WEdge<V>>, e: WEdge<V>)
    requires IsForest(es)
    requires !Connected(LinksOf(es), e.u, e.v)
    ensures IsForest(es + [e])
  {
    var fs := es + [e];
    forall i | 0 <= i < |fs| ensures !Connected(LinksOf(fs[..i]), fs[i].u, fs[i].v) {
      if i < |es| {
        assert fs[..i] == es[..i] && fs[i] == es[i];
      } else {
        assert fs[..i] == es;
      }
    }
  }

  /** A forest never contains a self-loop. */
  lemma ForestHasNoSelfLoop<V(!new)>(es: seq<WEdge<V>>, i: int)
    requires IsForest(es) && 0 <= i < |es|
    ensures es[i].u != es[i].v
  {
    if es[i].u == es[i].v {
      ConnectedRefl(LinksOf(es[..i]), es[i].u);
    }
  }

  /** A forest never names the same undirected link twice. */
  lemma ForestHasNoRepeatedLink<V(!new)>(es: seq<WEdge<V>>, i: int, j: int)
    requires IsForest(es) && 0 <= i < j < |es|
    ensures !Linked({(es[i].u, es[i].v)}, es[j].u, es[j].v)
  {
    var L := LinksOf(es[..j]);
    assert es[..j][i] == es[i];
    assert (es[i].u, es[i].v) in L;
    if Linked({(es[i].u, es[i].v)}, es[j].u, es[j].v) {
      assert Linked(L, es[j].u, es[j].v);
      ConnectedLink(L, es[j].u, es[j].v);
    }
  }
}
