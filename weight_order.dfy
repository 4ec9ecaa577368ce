/**
 * Python's `sorted(edges, key=lambda e: e[2], reverse=desc)`: a stable sort of
 * weighted edges by weight, ascending, or descending when `desc` holds.  It is
 * written as an insertion sort that places each later edge after the earlier
 * edges of equal weight, which is the order a stable sort produces.
 */
module WeightOrder {
  import opened Connectivity

  /** The sort key: the weight, negated for a descending sort. */
  function Key<V>(e: WEdge<V>, desc: bool): real {
    if desc then -e.w else e.w
  }

  /** `a` may stand before `b` in the requested order. */
  predicate InOrder<V>(a: WEdge<V>, b: WEdge<V>, desc: bool) {
    Key(a, desc) <= Key(b, desc)
  }

  predicate SortedBy<V>(es: seq<WEdge<V>>, desc: bool) {
    forall i, j {:trigger Key(es[i], desc), Key(es[j], desc)} :: 0 <= i < j < |es| ==> Key(es[i], desc) <= Key(es[j], desc)
  }

  /**
   * The edges of es, in order, that come no later than the key `bound` in the
   * chosen order: weight at most bound ascending, at least -bound descending.
   */
  function Within<V(!new)>(es: seq<WEdge<V>>, bound: real, desc: bool): (r: seq<WEdge<V>>)
    ensures forall e :: e in r <==> e in es && Key(e, desc) <= bound
    ensures (forall e :: e in es ==> Key(e, desc) <= bound) ==> r == es
  {
    if es == [] then []
    else
      var init, last := es[..|es| - 1], es[|es| - 1];
      assert es == init + [last];
      Within(init, bound, desc) + (if Key(last, desc) <= bound then [last] else [])
  }

  /**
   * The ends of e are joined by edges of `tree` that come no later than e in
   * the chosen order.  Holding for every edge of a graph, this is the cycle
   * property that makes a spanning tree minimum (maximum when descending):
   * no graph edge is lighter (heavier) than the tree path it closes a cycle with.
   */
  ghost predicate LighterConnects<V(!new)>(tree: seq<WEdge<V>>, e: WEdge<V>, desc: bool) {
    Connected(LinksOf(Within(tree, Key(e, desc), desc)), e.u, e.v)
  }

  /** One more tree edge keeps every such connection, and joins its own ends. */
  lemma LighterConnectsSnoc<V(!new)>(tree: seq<WEdge<V>>, t: WEdge<V>, e: WEdge<V>, desc: bool)
    ensures LighterConnects(tree, e, desc) ==> LighterConnects(tree + [t], e, desc)
    ensures LighterConnects(tree + [t], t, desc)
  {
    var b := Key(e, desc);
    if LighterConnects(tree, e, desc) {
      LinksOfSubset(Within(tree, b, desc), Within(tree + [t], b, desc));
      ConnectedMono(LinksOf(Within(tree, b, desc)), LinksOf(Within(tree + [t], b, desc)), e.u, e.v);
    }
    var w := Within(tree + [t], Key(t, desc), desc);
    assert t in w;
    var j :| 0 <= j < |w| && w[j] == t;
    ConnectedLink(LinksOf(w), t.u, t.v);
  }

  /** When every tree edge comes no later than e, any connection of e's ends by the tree qualifies. */
  lemma LighterConnectsAll<V(!new)>(tree: seq<WEdge<V>>, e: WEdge<V>, desc: bool)
    requires forall f :: f in tree ==> Key(f, desc) <= Key(e, desc)
    requires Connected(LinksOf(tree), e.u, e.v)
    ensures LighterConnects(tree, e, desc)
  {
  }

  /** A connection by some tree edges is a connection by the tree. */
  lemma LighterConnected<V(!new)>(tree: seq<WEdge<V>>, e: WEdge<V>, desc: bool)
    requires LighterConnects(tree, e, desc)
    ensures Connected(LinksOf(tree), e.u, e.v)
  {
    var w := Within(tree, Key(e, desc), desc);
    LinksOfSubset(w, tree);
    ConnectedMono(LinksOf(w), LinksOf(tree), e.u, e.v);
  }

  /** An edge no heavier than every edge of a sorted list may go in front of it. */
  lemma SortedCons<V>(a: WEdge<V>, t: seq<WEdge<V>>, desc: bool)
    requires SortedBy(t, desc)
    requires forall x :: x in t ==> Key(a, desc) <= Key(x, desc)
    ensures SortedBy([a] + t, desc)
  {
    var r := [a] + t;
    forall i, j | 0 <= i < j < |r| ensures Key(r[i], desc) <= Key(r[j], desc) {
      assert r[j] == t[j - 1];
      if i > 0 {
        assert r[i] == t[i - 1];
      }
    }
  }

  /** An edge no lighter than every edge of a sorted list may go behind it. */
  lemma SortedSnoc<V>(t: seq<WEdge<V>>, a: WEdge<V>, desc: bool)
    requires SortedBy(t, desc)
    requires forall x :: x in t ==> Key(x, desc) <= Key(a, desc)
    ensures SortedBy(t + [a], desc)
  {
    var r := t + [a];
    forall i, j | 0 <= i < j < |r| ensures Key(r[i], desc) <= Key(r[j], desc) {
      assert r[i] == t[i];
      if j < |t| {
        assert r[j] == t[j];
      }
    }
  }

  /** The rest of a sorted list is sorted, and its head comes no later than any of it. */
  lemma SortedTail<V>(t: seq<WEdge<V>>, desc: bool)
    requires SortedBy(t, desc) && t != []
    ensures SortedBy(t[1..], desc)
    ensures forall x :: x in t[1..] ==> Key(t[0], desc) <= Key(x, desc)
  {
    var r := t[1..];
    forall i, j | 0 <= i < j < |r| ensures Key(r[i], desc) <= Key(r[j], desc) {
      assert r[i] == t[i + 1] && r[j] == t[j + 1];
    }
    forall x | x in r ensures Key(t[0], desc) <= Key(x, desc) {
      var k :| 0 <= k < |r| && r[k] == x;
      assert r[k] == t[k + 1];
    }
  }

  /** Insert `e` behind every element of the front of `s` whose key is not larger than its own. */
  function Insert<V>(s: seq<WEdge<V>>, e: WEdge<V>, desc: bool): (r: seq<WEdge<V>>)
    ensures multiset(r) == multiset(s) + multiset{e}
  {
    if s == [] then [e]
    else if Key(e, desc) < Key(s[0], desc) then [e] + s
    else
      assert s == [s[0]] + s[1..];
      [s[0]] + Insert(s[1..], e, desc)
  }

  /** Inserting into a sorted list keeps it sorted. */
  lemma {:induction false} InsertSorted<V>(s: seq<WEdge<V>>, e: WEdge<V>, desc: bool)
    requires SortedBy(s, desc)
    ensures SortedBy(Insert(s, e, desc), desc)
  {
    if s == [] {
    } else if Key(e, desc) < Key(s[0], desc) {
      forall x | x in s ensures Key(e, desc) <= Key(x, desc) {
        var j :| 0 <= j < |s| && s[j] == x;
        assert j == 0 || Key(s[0], desc) <= Key(s[j], desc);
      }
      SortedCons(e, s, desc);
    } else {
      var t := Insert(s[1..], e, desc);
      assert SortedBy(s[1..], desc) by {
        forall i, j | 0 <= i < j < |s[1..]| ensures Key(s[1..][i], desc) <= Key(s[1..][j], desc) {
          assert s[1..][i] == s[i + 1] && s[1..][j] == s[j + 1];
        }
      }
      InsertSorted(s[1..], e, desc);
      forall x | x in t ensures Key(s[0], desc) <= Key(x, desc) {
        assert x in multiset(t);
        if x != e {
          assert x in multiset(s[1..]);
          var j :| 0 <= j < |s[1..]| && s[1..][j] == x;
          assert s[1..][j] == s[j + 1];
        }
      }
      SortedCons(s[0], t, desc);
    }
  }

  function SortByWeight<V>(es: seq<WEdge<V>>, desc: bool): (r: seq<WEdge<V>>)
    ensures multiset(r) == multiset(es)
    ensures SortedBy(r, desc)
  {
    if es == [] then []
    else
      var init := es[..|es| - 1];
      assert es == init + [es[|es| - 1]];
      var sorted := SortByWeight(init, desc);
      InsertSorted(sorted, es[|es| - 1], desc);
      Insert(sorted, es[|es| - 1], desc)
  }
}
