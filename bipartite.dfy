/**
 * `load_nodes` of draw_graph.py (and of reprex.py, the same code up to identifier names): the
 * bipartite graph of cabinets and the distribution points linked to them,
 * each edge weighted by the distance between its two ends.
 */
module Bipartite {
  import opened Geometry
  import opened NetworkX

  type Name = string

  /** A GeoJSON feature reduced to `properties.name` and its coordinates: a cabinet (a distribution point in reprex.py). */
  datatype Hub = Hub(name: Name, at: Coord)

  /** A feature with `properties.name`, `properties.link` and its coordinates: a distribution point (premises in reprex.py). */
  datatype Site = Site(name: Name, link: Name, at: Coord)

  /** The site hangs off the hub: `hub['properties']['name'] == site['properties']['link']`. */
  predicate Hangs(h: Hub, s: Site) {
    h.name == s.link
  }

  /** The first loop of `load_nodes` for the hub h: its sites in list order, each placed where it is. */
  function PlacedRow(pos: map<Name, Coord>, h: Hub, sites: seq<Site>): (r: map<Name, Coord>)
    ensures forall x :: x in r <==> x in pos || exists j :: 0 <= j < |sites| && Hangs(h, sites[j]) && sites[j].name == x
  {
    if sites == [] then pos
    else
      var init, s := sites[..|sites| - 1], sites[|sites| - 1];
      assert forall j :: 0 <= j < |init| ==> init[j] == sites[j];
      var r := PlacedRow(pos, h, init);
      if Hangs(h, s) then r[s.name := s.at] else r
  }

  /** The first loop of `load_nodes`: every hub, then the sites hanging off it, with their positions. */
  function Placed(hubs: seq<Hub>, sites: seq<Site>): (r: map<Name, Coord>)
    ensures forall x :: x in r <==>
              || (exists i :: 0 <= i < |hubs| && hubs[i].name == x)
              || (exists i, j :: 0 <= i < |hubs| && 0 <= j < |sites| && Hangs(hubs[i], sites[j]) && sites[j].name == x)
  {
    if hubs == [] then map[]
    else
      var init, h := hubs[..|hubs| - 1], hubs[|hubs| - 1];
      assert forall i :: 0 <= i < |init| ==> init[i] == hubs[i];
      PlacedRow(Placed(init, sites)[h.name := h.at], h, sites)
  }

  /** The second loop of `load_nodes` for the hub h: an edge to each site hanging off it, weighted by the distance. */
  function LinkRow(adj: map<(Name, Name), real>, h: Hub, sites: seq<Site>, distance: (Coord, Coord) -> real): (r: map<(Name, Name), real>)
    ensures forall a, b :: (a, b) in r <==>
              || (a, b) in adj
              || exists j :: 0 <= j < |sites| && Hangs(h, sites[j]) && ((a, b) == (h.name, sites[j].name) || (a, b) == (sites[j].name, h.name))
  {
    if sites == [] then adj
    else
      var init, s := sites[..|sites| - 1], sites[|sites| - 1];
      assert forall j :: 0 <= j < |init| ==> init[j] == sites[j];
      var r := LinkRow(adj, h, init, distance);
      if Hangs(h, s) then
        var d := distance(h.at, s.at);
        r[(h.name, s.name) := d][(s.name, h.name) := d]
      else r
  }

  /** The second loop of `load_nodes`: an edge between every hub and every site hanging off it. */
  function Links(hubs: seq<Hub>, sites: seq<Site>, distance: (Coord, Coord) -> real): (r: map<(Name, Name), real>)
    ensures forall a, b :: (a, b) in r <==>
              exists i, j :: 0 <= i < |hubs| && 0 <= j < |sites| && Hangs(hubs[i], sites[j]) &&
                             ((a, b) == (hubs[i].name, sites[j].name) || (a, b) == (sites[j].name, hubs[i].name))
  {
    if hubs == [] then map[]
    else
      var init := hubs[..|hubs| - 1];
      var r := LinkRow(Links(init, sites, distance), hubs[|hubs| - 1], sites, distance);
      LinksStep(hubs, init, sites, distance, Links(init, sites, distance), r);
      r
  }

  /** One more hub adds exactly the edges between it and the sites hanging off it. */
  lemma LinksStep(hubs: seq<Hub>, init: seq<Hub>, sites: seq<Site>, distance: (Coord, Coord) -> real,
                  prev: map<(Name, Name), real>, r: map<(Name, Name), real>)
    requires hubs != [] && init == hubs[..|hubs| - 1]
    requires forall a, b :: (a, b) in prev <==>
               exists i, j :: 0 <= i < |init| && 0 <= j < |sites| && Hangs(init[i], sites[j]) &&
                              ((a, b) == (init[i].name, sites[j].name) || (a, b) == (sites[j].name, init[i].name))
    requires r == LinkRow(prev, hubs[|hubs| - 1], sites, distance)
    ensures forall a, b :: (a, b) in r <==>
              exists i, j :: 0 <= i < |hubs| && 0 <= j < |sites| && Hangs(hubs[i], sites[j]) &&
                             ((a, b) == (hubs[i].name, sites[j].name) || (a, b) == (sites[j].name, hubs[i].name))
  {
    var h := hubs[|hubs| - 1];
    forall a, b ensures (a, b) in r <==>
              exists i, j :: 0 <= i < |hubs| && 0 <= j < |sites| && Hangs(hubs[i], sites[j]) &&
                             ((a, b) == (hubs[i].name, sites[j].name) || (a, b) == (sites[j].name, hubs[i].name))
    {
      if (a, b) in prev {
        var i, j :| 0 <= i < |init| && 0 <= j < |sites| && Hangs(init[i], sites[j]) &&
                    ((a, b) == (init[i].name, sites[j].name) || (a, b) == (sites[j].name, init[i].name));
        assert init[i] == hubs[i];
      } else if (a, b) in r {
        var j :| 0 <= j < |sites| && Hangs(h, sites[j]) && ((a, b) == (h.name, sites[j].name) || (a, b) == (sites[j].name, h.name));
        assert hubs[|hubs| - 1] == h;
      }
      if exists i, j :: 0 <= i < |hubs| && 0 <= j < |sites| && Hangs(hubs[i], sites[j]) &&
                        ((a, b) == (hubs[i].name, sites[j].name) || (a, b) == (sites[j].name, hubs[i].name)) {
        var i, j :| 0 <= i < |hubs| && 0 <= j < |sites| && Hangs(hubs[i], sites[j]) &&
                    ((a, b) == (hubs[i].name, sites[j].name) || (a, b) == (sites[j].name, hubs[i].name));
        if i < |init| {
          assert init[i] == hubs[i];
        }
      }
    }
  }

  /** The inner loop of the first pass for the hub h: add every site hanging off it. */
  method PlaceSites(G: NxGraph<Name, real>, h: Hub, sites: seq<Site>)
    requires G.Valid() && G.nodes == G.pos.Keys
    modifies G
    ensures G.Valid() && G.nodes == G.pos.Keys
    ensures G.pos == PlacedRow(old(G.pos), h, sites) && G.adj == old(G.adj)
  {
    ghost var front := G.pos;
    for j := 0 to |sites|
      invariant G.Valid() && G.nodes == G.pos.Keys
      invariant G.pos == PlacedRow(front, h, sites[..j]) && G.adj == old(G.adj)
    {
      assert sites[..j + 1][..j] == sites[..j];
      if Hangs(h, sites[j]) {
        G.AddNode(sites[j].name, sites[j].at);
      }
    }
    assert sites[..|sites|] == sites;
  }

  /** The inner loop of the second pass for the hub h: join it to every site hanging off it. */
  method LinkSites(G: NxGraph<Name, real>, h: Hub, sites: seq<Site>, distance: (Coord, Coord) -> real)
    requires G.Valid() && G.nodes == G.pos.Keys
    requires h.name in G.nodes && forall j :: 0 <= j < |sites| && Hangs(h, sites[j]) ==> sites[j].name in G.nodes
    modifies G
    ensures G.Valid() && G.nodes == G.pos.Keys
    ensures G.adj == LinkRow(old(G.adj), h, sites, distance) && G.pos == old(G.pos)
  {
    ghost var front := G.adj;
    for j := 0 to |sites|
      invariant G.Valid() && G.nodes == G.pos.Keys
      invariant G.adj == LinkRow(front, h, sites[..j], distance) && G.pos == old(G.pos)
    {
      assert sites[..j + 1][..j] == sites[..j];
      if Hangs(h, sites[j]) {
        G.AddEdge(h.name, sites[j].name, distance(h.at, sites[j].at));
      }
    }
    assert sites[..|sites|] == sites;
  }

  /**
   * `load_nodes(dist_point_data, cabinet_data)`: place every cabinet and the
   * points linked to it, then join each cabinet to its points.
   */
  method LoadNodes(sites: seq<Site>, hubs: seq<Hub>, distance: (Coord, Coord) -> real) returns (G: NxGraph<Name, real>)
    ensures fresh(G) && G.Valid()
    ensures G.pos == Placed(hubs, sites) && G.nodes == G.pos.Keys
    ensures G.adj == Links(hubs, sites, distance)
  {
    G := new NxGraph<Name, real>();
    PlaceHubs(G, hubs, sites);
    LinkHubs(G, hubs, sites, distance);
  }

  /** The first pass of `load_nodes`: each cabinet, then the points linked to it. */
  method PlaceHubs(G: NxGraph<Name, real>, hubs: seq<Hub>, sites: seq<Site>)
    requires G.Valid() && G.nodes == {} && G.pos == map[] && G.adj == map[]
    modifies G
    ensures G.Valid() && G.nodes == G.pos.Keys && G.pos == Placed(hubs, sites) && G.adj == map[]
  {
    for i := 0 to |hubs|
      invariant G.Valid() && G.nodes == G.pos.Keys && G.pos == Placed(hubs[..i], sites) && G.adj == map[]
    {
      assert hubs[..i + 1][..i] == hubs[..i];
      G.AddNode(hubs[i].name, hubs[i].at);
      PlaceSites(G, hubs[i], sites);
    }
    assert hubs[..|hubs|] == hubs;
  }

  /** The second pass of `load_nodes`: join each cabinet to the points linked to it. */
  method LinkHubs(G: NxGraph<Name, real>, hubs: seq<Hub>, sites: seq<Site>, distance: (Coord, Coord) -> real)
    requires G.Valid() && G.nodes == G.pos.Keys && G.pos == Placed(hubs, sites) && G.adj == map[]
    modifies G
    ensures G.Valid() && G.nodes == G.pos.Keys && G.pos == Placed(hubs, sites)
    ensures G.adj == Links(hubs, sites, distance)
  {
    for i := 0 to |hubs|
      invariant G.Valid() && G.nodes == G.pos.Keys && G.pos == Placed(hubs, sites)
      invariant G.adj == Links(hubs[..i], sites, distance)
    {
      assert hubs[..i + 1][..i] == hubs[..i];
      assert hubs[i].name in G.nodes;
      assert forall j :: 0 <= j < |sites| && Hangs(hubs[i], sites[j]) ==> sites[j].name in G.nodes;
      LinkSites(G, hubs[i], sites, distance);
    }
    assert hubs[..|hubs|] == hubs;
  }

  /** No two features share a name, whether cabinets or points. */
  predicate UniqueNames(hubs: seq<Hub>, sites: seq<Site>) {
    && (forall i, k :: 0 <= i < k < |hubs| ==> hubs[i].name != hubs[k].name)
    && (forall j, k :: 0 <= j < k < |sites| ==> sites[j].name != sites[k].name)
    && (forall i, j :: 0 <= i < |hubs| && 0 <= j < |sites| ==> hubs[i].name != sites[j].name)
  }

  /** The first pass for one hub leaves alone every name no site hanging off it carries. */
  lemma {:induction false} PlacedRowOther(pos: map<Name, Coord>, h: Hub, sites: seq<Site>, x: Name)
    requires x in pos && forall j :: 0 <= j < |sites| && Hangs(h, sites[j]) ==> sites[j].name != x
    ensures PlacedRow(pos, h, sites)[x] == pos[x]
  {
    if sites != [] {
      PlacedRowOther(pos, h, sites[..|sites| - 1], x);
    }
  }

  /** With distinct site names, a site hanging off the hub ends where it is. */
  lemma {:induction false} PlacedRowSite(pos: map<Name, Coord>, h: Hub, sites: seq<Site>, j: nat)
    requires j < |sites| && Hangs(h, sites[j])
    requires forall j, k :: 0 <= j < k < |sites| ==> sites[j].name != sites[k].name
    ensures PlacedRow(pos, h, sites)[sites[j].name] == sites[j].at
  {
    var init := sites[..|sites| - 1];
    if j < |init| {
      assert init[j] == sites[j];
      PlacedRowSite(pos, h, init, j);
    }
  }

  /** With distinct names every cabinet sits at its own coordinates. */
  lemma {:induction false} PlacedAtHub(hubs: seq<Hub>, sites: seq<Site>, i: nat)
    requires UniqueNames(hubs, sites) && i < |hubs|
    ensures Placed(hubs, sites)[hubs[i].name] == hubs[i].at
  {
    var init, h := hubs[..|hubs| - 1], hubs[|hubs| - 1];
    var pos := Placed(init, sites)[h.name := h.at];
    assert Placed(hubs, sites) == PlacedRow(pos, h, sites);
    var x := hubs[i].name;
    assert forall j :: 0 <= j < |sites| ==> sites[j].name != x;
    if i < |init| {
      assert init[i] == hubs[i] && x != h.name;
      UniqueNamesPrefix(hubs, sites);
      PlacedAtHub(init, sites, i);
      assert pos[x] == hubs[i].at;
    }
    PlacedRowOther(pos, h, sites, x);
  }

  /** Dropping the last cabinet keeps the names distinct. */
  lemma UniqueNamesPrefix(hubs: seq<Hub>, sites: seq<Site>)
    requires hubs != [] && UniqueNames(hubs, sites)
    ensures UniqueNames(hubs[..|hubs| - 1], sites)
  {
  }

  /** With distinct names every point linked to a cabinet sits at its own coordinates. */
  lemma {:induction false} PlacedAtSite(hubs: seq<Hub>, sites: seq<Site>, i: nat, j: nat)
    requires UniqueNames(hubs, sites) && i < |hubs| && j < |sites| && Hangs(hubs[i], sites[j])
    ensures Placed(hubs, sites)[sites[j].name] == sites[j].at
  {
    var init, h := hubs[..|hubs| - 1], hubs[|hubs| - 1];
    var pos := Placed(init, sites)[h.name := h.at];
    if i == |init| {
      PlacedRowSite(pos, h, sites, j);
    } else {
      assert init[i] == hubs[i];
      UniqueNamesPrefix(hubs, sites);
      PlacedAtSite(init, sites, i, j);
      forall k | 0 <= k < |sites| && Hangs(h, sites[k]) ensures sites[k].name != sites[j].name {
        assert k != j;
      }
      PlacedRowOther(pos, h, sites, sites[j].name);
    }
  }

  /** The second pass for one hub leaves alone every pair that does not join it to a site hanging off it. */
  lemma {:induction false} LinkRowOther(adj: map<(Name, Name), real>, h: Hub, sites: seq<Site>, distance: (Coord, Coord) -> real, a: Name, b: Name)
    requires (a, b) in adj
    requires forall j :: 0 <= j < |sites| && Hangs(h, sites[j]) ==> (a, b) != (h.name, sites[j].name) && (a, b) != (sites[j].name, h.name)
    ensures LinkRow(adj, h, sites, distance)[(a, b)] == adj[(a, b)]
  {
    if sites != [] {
      LinkRowOther(adj, h, sites[..|sites| - 1], distance, a, b);
    }
  }

  /** With distinct site names, the edge to a site hanging off the hub weighs their distance, both ways. */
  lemma {:induction false} LinkRowSite(adj: map<(Name, Name), real>, h: Hub, sites: seq<Site>, distance: (Coord, Coord) -> real, j: nat)
    requires j < |sites| && Hangs(h, sites[j])
    requires forall j, k :: 0 <= j < k < |sites| ==> sites[j].name != sites[k].name
    ensures LinkRow(adj, h, sites, distance)[(h.name, sites[j].name)] == distance(h.at, sites[j].at)
    ensures LinkRow(adj, h, sites, distance)[(sites[j].name, h.name)] == distance(h.at, sites[j].at)
  {
    var init, s := sites[..|sites| - 1], sites[|sites| - 1];
    var r := LinkRow(adj, h, init, distance);
    var x, d := sites[j].name, distance(h.at, sites[j].at);
    if j < |init| {
      assert init[j] == sites[j];
      LinkRowSite(adj, h, init, distance, j);
      if Hangs(h, s) {
        assert x != s.name;
        UpdatedTwiceOther(r, (h.name, s.name), (s.name, h.name), distance(h.at, s.at), (h.name, x));
        UpdatedTwiceOther(r, (h.name, s.name), (s.name, h.name), distance(h.at, s.at), (x, h.name));
      }
    }
  }

  /** Storing v under two keys leaves every other key as it was. */
  lemma UpdatedTwiceOther<K, V>(m: map<K, V>, k1: K, k2: K, v: V, k: K)
    requires k in m && k != k1 && k != k2
    ensures m[k1 := v][k2 := v][k] == m[k]
  {
  }

  /** With distinct names every edge of `load_nodes` weighs the distance between its cabinet and its point. */
  lemma {:induction false} LinkedAt(hubs: seq<Hub>, sites: seq<Site>, distance: (Coord, Coord) -> real)
    requires UniqueNames(hubs, sites)
    ensures forall i, j :: 0 <= i < |hubs| && 0 <= j < |sites| && Hangs(hubs[i], sites[j]) ==>
              && Links(hubs, sites, distance)[(hubs[i].name, sites[j].name)] == distance(hubs[i].at, sites[j].at)
              && Links(hubs, sites, distance)[(sites[j].name, hubs[i].name)] == distance(hubs[i].at, sites[j].at)
  {
    if hubs != [] {
      var init, h := hubs[..|hubs| - 1], hubs[|hubs| - 1];
      UniqueNamesPrefix(hubs, sites);
      LinkedAt(init, sites, distance);
      var adj := Links(init, sites, distance);
      forall i, j | 0 <= i < |hubs| && 0 <= j < |sites| && Hangs(hubs[i], sites[j])
        ensures Links(hubs, sites, distance)[(hubs[i].name, sites[j].name)] == distance(hubs[i].at, sites[j].at)
        ensures Links(hubs, sites, distance)[(sites[j].name, hubs[i].name)] == distance(hubs[i].at, sites[j].at)
      {
        if i == |init| {
          LinkRowSite(adj, h, sites, distance, j);
        } else {
          assert init[i] == hubs[i];
          assert hubs[i].name != h.name;
          LinkRowOther(adj, h, sites, distance, hubs[i].name, sites[j].name);
          LinkRowOther(adj, h, sites, distance, sites[j].name, hubs[i].name);
        }
      }
    }
  }
}
