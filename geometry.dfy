/**
 * Point geometry as the graph builders see it.  The distance between two
 * points (shapely's planar distance, rounded) is not modelled: every builder
 * takes it as a function parameter.
 */
module Geometry {
  import opened Connectivity

  datatype Coord = Coord(x: real, y: real)

  /** The properties every builder relies on: distances are non-negative and symmetric. */
  ghost predicate IsDistance(distance: (Coord, Coord) -> real) {
    forall p, q :: distance(p, q) >= 0.0 && distance(p, q) == distance(q, p)
  }

  /** A GeoJSON point feature reduced to what the builders read: `properties.id` and its coordinates. */
  datatype Point = Point(id: nat, at: Coord)

  /** No two features share an id. */
  predicate UniqueIds(nodes: seq<Point>) {
    forall i, j :: 0 <= i < j < |nodes| ==> nodes[i].id != nodes[j].id
  }

  /** The edge `load_nodes` adds for the ordered pair (p, q). */
  function PairEdge(p: Point, q: Point, distance: (Coord, Coord) -> real): WEdge<nat> {
    WEdge(p.id, q.id, distance(p.at, q.at))
  }

  /** The inner loop of `load_nodes` for `node1 = p`: one edge per node with another id, in list order. */
  function RowEdges(p: Point, nodes: seq<Point>, distance: (Coord, Coord) -> real): (r: seq<WEdge<nat>>)
    ensures forall e :: e in r <==> exists j :: 0 <= j < |nodes| && nodes[j].id != p.id && e == PairEdge(p, nodes[j], distance)
  {
    if nodes == [] then []
    else
      var init, q := nodes[..|nodes| - 1], nodes[|nodes| - 1];
      var r := RowEdges(p, init, distance) + (if q.id != p.id then [PairEdge(p, q, distance)] else []);
      assert forall j :: 0 <= j < |init| ==> init[j] == nodes[j];
      r
  }

  /**
   * Both loops of `load_nodes`: for every `node1` of `outer` and every `node2`
   * of `nodes`, the edge (node1, node2) when their ids differ.  Every
   * unordered pair is therefore added in both orientations.
   */
  function PairEdges(outer: seq<Point>, nodes: seq<Point>, distance: (Coord, Coord) -> real): (r: seq<WEdge<nat>>)
    ensures forall e :: e in r <==>
              exists i, j :: 0 <= i < |outer| && 0 <= j < |nodes| && outer[i].id != nodes[j].id &&
                             e == PairEdge(outer[i], nodes[j], distance)
  {
    if outer == [] then []
    else
      var init, p := outer[..|outer| - 1], outer[|outer| - 1];
      assert forall i :: 0 <= i < |init| ==> init[i] == outer[i];
      PairEdges(init, nodes, distance) + RowEdges(p, nodes, distance)
  }

  /** One more step of the inner loop of `load_nodes`. */
  lemma RowEdgesStep(front: seq<WEdge<nat>>, p: Point, nodes: seq<Point>, j: nat, distance: (Coord, Coord) -> real)
    requires j < |nodes|
    ensures front + RowEdges(p, nodes[..j + 1], distance) ==
            front + RowEdges(p, nodes[..j], distance) + (if nodes[j].id != p.id then [PairEdge(p, nodes[j], distance)] else [])
  {
    assert nodes[..j + 1][..j] == nodes[..j];
  }

  /** One more step of the outer loop of `load_nodes`. */
  lemma PairEdgesStep(outer: seq<Point>, i: nat, nodes: seq<Point>, distance: (Coord, Coord) -> real)
    requires i < |outer|
    ensures PairEdges(outer[..i + 1], nodes, distance) == PairEdges(outer[..i], nodes, distance) + RowEdges(outer[i], nodes, distance)
  {
    assert outer[..i + 1][..i] == outer[..i];
  }

  /**
   * With distinct ids and a symmetric distance, every edge `load_nodes` adds
   * between the features i and j, in either orientation, weighs their distance.
   */
  lemma PairEdgesBetween(nodes: seq<Point>, i: nat, j: nat, distance: (Coord, Coord) -> real)
    requires IsDistance(distance) && UniqueIds(nodes)
    requires i < |nodes| && j < |nodes|
    ensures forall e ::
              (e in PairEdges(nodes, nodes, distance) &&
               ((e.u == nodes[i].id && e.v == nodes[j].id) || (e.u == nodes[j].id && e.v == nodes[i].id))) ==>
              e.w == distance(nodes[i].at, nodes[j].at)
  {
    forall e | e in PairEdges(nodes, nodes, distance) &&
               ((e.u == nodes[i].id && e.v == nodes[j].id) || (e.u == nodes[j].id && e.v == nodes[i].id))
      ensures e.w == distance(nodes[i].at, nodes[j].at)
    {
      var i', j' :| 0 <= i' < |nodes| && 0 <= j' < |nodes| && nodes[i'].id != nodes[j'].id &&
                    e == PairEdge(nodes[i'], nodes[j'], distance);
      SameIdSameFeature(nodes, i, i');
      SameIdSameFeature(nodes, j, j');
      SameIdSameFeature(nodes, i, j');
      SameIdSameFeature(nodes, j, i');
    }
  }

  lemma SameIdSameFeature(nodes: seq<Point>, i: nat, k: nat)
    requires UniqueIds(nodes) && i < |nodes| && k < |nodes|
    ensures nodes[i].id == nodes[k].id <==> i == k
  {
    if i < k {
    } else if k < i {
    }
  }
}
