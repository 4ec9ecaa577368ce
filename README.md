# Network demos: spanning trees, shortest-path trees and Steiner trees, in Dafny

This project models the graph algorithms of the `my_demos` repository and
proves what they promise. The repository builds networks that link
distribution points to cabinets. It offers four pieces of logic:

- **Kruskal over an edge list** (`network_analysis/min_span_tree.py`).
  - A `Graph` holds a vertex count and a list of `[u, v, w]` edges.
  - `find_unique_edges` sorts each edge's endpoints and collapses duplicates.
  - `KruskalMST` sorts the edges by weight and accepts an edge when `find` gives its ends different roots. It then calls `union` (by rank) on the `parent` and `rank` lists, and stops at V-1 edges.
  - `load_nodes` adds an edge for every ordered pair of features with different ids.
- **Kruskal over a dict of dicts** (`network_analysis/min_span_tree2.py`).
  - `add`, `has_link`, `edges`, `sorted_by_weight` and `__len__` work on the dict of dicts.
  - `spanning_tree` uses local `parent` and `rank` dicts, `find_parent`, and a `union` that always hangs the second root under the first.
  - It also has a `load_nodes`.
- **The multi-sink Dijkstra search** `shortest_path_tree` (`network_analysis/single_source_with_roads.py`).
  - A heap-driven search from the source stops as soon as the last pending sink is made final. With no sinks it runs until the heap is empty.
  - From each sink it then walks back along the first recorded predecessor, building an undirected tree.
- **The Steiner tree pipeline** of `draw_graph.py`. `reprex.py` holds the same code up to identifier names.
  - `load_nodes` builds the bipartite graph of cabinets and the points that link to them.
  - `metric_closure` builds the complete graph of shortest routes. It checks connectivity on the first search only.
  - `steiner_tree` restricts the closure to the terminals and takes a spanning tree. It expands each tree edge into its path and returns the edge subgraph of G.

Each source file becomes one or more modules:

| source | Dafny |
|---|---|
| min_span_tree.py | `EdgeListKruskal` (class `Graph`), on `DisjointSets`, `WeightOrder`, `Geometry`, `Connectivity` |
| min_span_tree2.py | `AdjacencyKruskal` (class `Graph`), on the same shared modules |
| single_source_with_roads.py | `Dijkstra` (the search loop), `PathTree` (the walk back and the whole function) |
| draw_graph.py / reprex.py | `NetworkX` (class `NxGraph`), `Bipartite` (`load_nodes`), `Closure` (`metric_closure`), `Steiner` (`steiner_tree`) |

Code that updates state in place is modelled with classes, arrays and loops:

- the graph classes, `find_unique_edges`, `KruskalMST`, `spanning_tree`, the Dijkstra loop, the walk back, `load_nodes` and `metric_closure`;
- each such method is proved against a specification function, and the properties are proved about that function.

`steiner_tree` is a composition of calls. It is modelled as functions on values, with one method that calls `metric_closure`.

Two kinds of input are parameters rather than models:

- **Distances.** Shapely's point distance and its rounding are a function parameter.
- **networkx's algorithms.** `all_pairs_dijkstra` and `minimum_spanning_edges` are parameters, each with the promise the code relies on.

## Model

| member | source | states |
|---|---|---|
| EdgeListKruskal.Graph.constructor | network_analysis/min_span_tree.py:14-17 | a new graph has the given vertex count and no edge |
| EdgeListKruskal.Graph.AddEdge | network_analysis/min_span_tree.py:20-21 | appends exactly one edge `[u, v, w]` and changes nothing else |
| EdgeListKruskal.Canonical | network_analysis/min_span_tree.py:29-36 | the rewritten edge has the same two endpoints, smaller first, and the same weight |
| EdgeListKruskal.CanonicalList | network_analysis/min_span_tree.py:27-37 | every edge rewritten with sorted endpoints, in the original order |
| EdgeListKruskal.Graph.FindUniqueEdges | network_analysis/min_span_tree.py:23-44 | afterwards no triple is listed twice, every edge has `u <= v`, and the edges are exactly the rewritten old edges (in unspecified order) |
| EdgeListKruskal.Find | network_analysis/min_span_tree.py:50-56 | returns a vertex that is its own parent, reached through strictly rising ranks; `parent` is not changed |
| EdgeListKruskal.FindIsRoot | network_analysis/min_span_tree.py:50-56 | `find` on the lists is the representative of the parent forest the lists stand for |
| EdgeListKruskal.UnionOf | network_analysis/min_span_tree.py:60-76 | the root of lower rank goes under the other; on a tie y's root goes under x's and x's rank rises; ranks stay ordered along parent links |
| EdgeListKruskal.UnionOfRoots | network_analysis/min_span_tree.py:67-76 | for two roots, exactly the root of lower rank is re-parented (y's on a tie) |
| EdgeListKruskal.UnionOfMerges | network_analysis/min_span_tree.py:60-76 | afterwards x and y share a root, and a vertex shares it exactly when its old root was x's or y's; a vertex whose old root was neither keeps that root |
| EdgeListKruskal.Union | network_analysis/min_span_tree.py:60-76 | updates the `parent` and `rank` arrays in place exactly as `UnionOf` says |
| EdgeListKruskal.FindAfterLink | network_analysis/min_span_tree.py:67-76 | once one root is hung under another, a vertex reaches the new root exactly when its old root was the hung one; every other vertex keeps its root |
| EdgeListKruskal.StateInitially | network_analysis/min_span_tree.py:95-104 | every vertex its own parent with rank 0 is a valid start of the loop |
| EdgeListKruskal.StateAccept | network_analysis/min_span_tree.py:121-136 | accepting an edge whose ends have different roots and calling `union` keeps the classes equal to the components of the accepted forest |
| EdgeListKruskal.StateReject | network_analysis/min_span_tree.py:121-130 | skipping an edge whose ends share a root keeps the loop state |
| EdgeListKruskal.Accept | network_analysis/min_span_tree.py:130-136 | taking an edge whose ends have different roots and calling `union` on the arrays in place keeps the loop state with the edge appended to the result |
| EdgeListKruskal.StateSpans | network_analysis/min_span_tree.py:108-136 | with V-1 edges accepted, they form a forest of graph edges in weight order that connects every vertex |
| EdgeListKruskal.StateShort | network_analysis/min_span_tree.py:108-114 | fewer than V-1 edges accepted after the first i edges means those i edges do not connect the vertices |
| EdgeListKruskal.ProgressReject | network_analysis/min_span_tree.py:121-130 | skipping an edge whose ends are already connected keeps every edge looked at inside one component |
| EdgeListKruskal.ProgressAccept | network_analysis/min_span_tree.py:130-136 | accepting the next edge of the sorted list keeps the accepted edges a forest in weight order, below every edge not yet looked at |
| EdgeListKruskal.ClassesAccept | network_analysis/min_span_tree.py:130-136 | linking one root under the other after accepting an edge makes the classes the components of the longer edge list, and keeps it a forest |
| EdgeListKruskal.ListsReject | network_analysis/min_span_tree.py:121-130 | equal roots from `find` mean the edge's ends are already connected by the accepted edges |
| EdgeListKruskal.OutcomeExhausted | network_analysis/min_span_tree.py:108-114 | IndexError for running out of edges is the correct report when every edge is in range and the edges do not connect the vertices |
| EdgeListKruskal.OutcomeOutOfRange | network_analysis/min_span_tree.py:122-123 | IndexError for the first edge naming a vertex >= V is the correct report, naming that vertex, when the edges before it do not connect the vertices |
| EdgeListKruskal.OutcomeSpans | network_analysis/min_span_tree.py:108-145 | V-1 in-range graph edges forming a spanning forest in weight order, with the cycle property for every in-range edge, are the correct result |
| EdgeListKruskal.FirstOutOfRange | network_analysis/min_span_tree.py:122-123 | the index of the first edge naming a vertex >= V (the list's length if none): every edge before it is in range, and it is not |
| EdgeListKruskal.OutcomeStopsBeforeOutOfRange | network_analysis/min_span_tree.py:108-123 | with V = 2 and the sorted edges 0-1 then 0-5, the only outcome is the tree [0-1]: the loop ends before it reads the out-of-range edge |
| EdgeListKruskal.OutcomeSingleEdge | network_analysis/min_span_tree.py:108-145 | with V = 2 and the single edge 0-1, the only outcome is the tree of that edge |
| EdgeListKruskal.FindAsWritten | network_analysis/min_span_tree.py:50-56 | `find` as written returns a pair (the value of `print` second), nested once per link climbed, around the root `Find` returns |
| EdgeListKruskal.FindOf | network_analysis/min_span_tree.py:50-54 | `find` called on a pair raises TypeError at `parent[i]`, and on an int past the list raises IndexError; it succeeds exactly on an int in range |
| EdgeListKruskal.UnionAsWritten | network_analysis/min_span_tree.py:60-76 | `union` as written never returns normally, and raises TypeError when handed a pair from `find` |
| EdgeListKruskal.KruskalAsWrittenFails | network_analysis/min_span_tree.py:108-136 | as written, the loop from no accepted edge raises for every graph of two or more vertices: TypeError at the first accepted edge, IndexError otherwise |
| EdgeListKruskal.KruskalAsWrittenTypeError | network_analysis/min_span_tree.py:121-136 | as written, two vertices joined by one edge raise TypeError |
| EdgeListKruskal.Graph.KruskalMST | network_analysis/min_span_tree.py:79-145 | replaces the edge list by its stable weight sort and returns `Outcome`: success exactly when the edges before the first out-of-range one connect the vertices, with V-1 of those edges forming a spanning forest in weight order that has the cycle property of a minimum spanning tree (every in-range edge's ends are joined by tree edges no heavier than it); otherwise IndexError naming the first out-of-range edge's vertex, or for running out of edges |
| EdgeListKruskal.KruskalOn | network_analysis/min_span_tree.py:95-145 | the loop over the weight-sorted edges, from V singleton classes, ends with exactly the outcome `Outcome` fixes: the minimum spanning forest of the row above, or the one IndexError it names |
| EdgeListKruskal.LoadNodes | network_analysis/min_span_tree.py:148-172 | V is the number of features; the edges are the rewritten edges of every ordered pair of features with different ids, each triple once, smaller id first |
| EdgeListKruskal.LoadedEdges | network_analysis/min_span_tree.py:156-170 | with a symmetric distance the kept edges are exactly the pairs of features with the smaller id first, weighted by their distance |
| EdgeListKruskal.LoadedOncePerPair | network_analysis/min_span_tree.py:156-170 | with distinct ids every pair of features appears once |
| Geometry.RowEdges | network_analysis/min_span_tree.py:157-168 | the inner loop adds one edge per feature with another id, in list order |
| Geometry.PairEdges | network_analysis/min_span_tree.py:156-168 | both loops add the edge (node1, node2) exactly for the ordered pairs with different ids |
| Geometry.PairEdgesBetween | network_analysis/min_span_tree.py:156-168 | with distinct ids and a symmetric distance every edge between two features, either way round, weighs their distance |
| DisjointSets.Root | network_analysis/min_span_tree2.py:47-51 | following parent links ends at a vertex that is its own parent |
| DisjointSets.RootAfterLink | network_analysis/min_span_tree2.py:53-57 | hanging one root under another moves exactly the vertices of the first class to the second |
| DisjointSets.PartitionsAfterUnion | network_analysis/min_span_tree.py:130-136 | accepting an edge between two classes and linking their roots keeps the classes equal to the connected components |
| DisjointSets.PartitionsAfterRejection | network_analysis/min_span_tree.py:130 | an edge inside one class adds nothing to the components |
| DisjointSets.OneRootIffConnected | network_analysis/min_span_tree.py:107-108 | one root is left exactly when the accepted links connect every vertex |
| WeightOrder.Insert | network_analysis/min_span_tree2.py:39-40 | inserting keeps the multiset of edges plus the new one |
| WeightOrder.InsertSorted | network_analysis/min_span_tree2.py:39-40 | inserting into a sorted list keeps it sorted |
| WeightOrder.SortByWeight | network_analysis/min_span_tree2.py:39-40 | `sorted(..., key=weight, reverse=desc)`: a permutation of the input, sorted ascending or descending |
| WeightOrder.Within | network_analysis/min_span_tree.py:108-136 | the edges of a list whose weight is at most a bound (at least, descending), and the whole list when every edge is |
| WeightOrder.LighterConnectsSnoc | network_analysis/min_span_tree.py:130-136 | appending an edge heavier than every tree edge keeps the cycle property of every edge it held for, and gives it for the new edge |
| WeightOrder.LighterConnectsAll | network_analysis/min_span_tree.py:121-130 | when every tree edge is no heavier than e and the tree joins e's ends, e has the cycle property |
| WeightOrder.LighterConnected | network_analysis/min_span_tree.py:121-130 | an edge with the cycle property has its ends joined by the tree |
| AdjacencyKruskal.Graph.constructor | network_analysis/min_span_tree2.py:13-14 | a new graph is the empty dict |
| AdjacencyKruskal.Added | network_analysis/min_span_tree2.py:16-24 | `add` creates empty rows for new vertices, stores the weight both ways, and changes no other row |
| AdjacencyKruskal.AddedLinks | network_analysis/min_span_tree2.py:16-24 | the links after `add` are the old ones plus both directions of the new one |
| AdjacencyKruskal.AddedSymmetric | network_analysis/min_span_tree2.py:16-24 | `add` keeps every link stored both ways with one weight |
| AdjacencyKruskal.AddedSubgraph | network_analysis/min_span_tree2.py:16-24 | adding a link of g with g's weight keeps a sub-graph of g a sub-graph of g |
| AdjacencyKruskal.Graph.Add | network_analysis/min_span_tree2.py:16-24 | the dict becomes `Added` of the old one |
| AdjacencyKruskal.Graph.HasLink | network_analysis/min_span_tree2.py:26-27 | KeyError exactly when the first lookup fails, or the first test is false and the second lookup fails. Otherwise the answer is "the link is stored" |
| AdjacencyKruskal.Graph.HasLinkSymmetric | network_analysis/min_span_tree2.py:26-27 | on two vertices of the graph the answer does not depend on the argument order |
| AdjacencyKruskal.Graph.Edges | network_analysis/min_span_tree2.py:29-37 | every stored link is listed once, in one direction, with its weight |
| AdjacencyKruskal.Graph.ListNeighbours | network_analysis/min_span_tree2.py:31-35 | after one vertex's row every link of the vertices done so far is listed with its weight, no entry twice and no link in both directions |
| AdjacencyKruskal.ListingPermutation | network_analysis/min_span_tree2.py:39-40 | reordering a listing (sorting it) keeps it a listing |
| AdjacencyKruskal.ListingLinks | network_analysis/min_span_tree2.py:29-37 | a listing names exactly the stored links |
| AdjacencyKruskal.ListingConnects | network_analysis/min_span_tree2.py:29-37 | a listing connects exactly what the graph connects |
| AdjacencyKruskal.ListingCertificate | network_analysis/min_span_tree2.py:29-40 | the cycle property for every listed edge is the cycle property for every stored link |
| AdjacencyKruskal.Graph.SortedByWeight | network_analysis/min_span_tree2.py:39-40 | the listing sorted by weight, ascending or descending |
| AdjacencyKruskal.FindParent | network_analysis/min_span_tree2.py:47-51 | the loop returns the root of the vertex |
| AdjacencyKruskal.Union | network_analysis/min_span_tree2.py:53-60 | always hangs root2 under root1; on equal ranks root2's rank rises; the forest stays ranked |
| AdjacencyKruskal.Singletons | network_analysis/min_span_tree2.py:62-64 | every vertex its own parent with rank 0 |
| AdjacencyKruskal.RunStateInitially | network_analysis/min_span_tree2.py:62-64 | every vertex its own parent with rank 0 and no accepted edge is a valid start of the loop |
| AdjacencyKruskal.RunStateAccept | network_analysis/min_span_tree2.py:68-71 | adding an edge whose ends have different roots and uniting them keeps the classes equal to the tree's components, and the tree a forest |
| AdjacencyKruskal.RunStateReject | network_analysis/min_span_tree2.py:68-69 | skipping an edge whose ends share a root keeps the loop state |
| AdjacencyKruskal.RunStateComplete | network_analysis/min_span_tree2.py:66-75 | with one edge fewer than vertices accepted, the tree connects every vertex |
| AdjacencyKruskal.Step | network_analysis/min_span_tree2.py:66-75 | one turn adds the edge exactly when the roots differ, unites them, tests the break, and leaves the loop's outcome unchanged |
| AdjacencyKruskal.AddAccepted | network_analysis/min_span_tree2.py:71 | adding an accepted edge to the tree graph keeps it the graph of the accepted edges |
| AdjacencyKruskal.RunAcceptUnfold | network_analysis/min_span_tree2.py:66-75 | after an edge with different roots is added and its roots united, the loop either stops at the break or goes on with the rest |
| AdjacencyKruskal.RunRejectUnfold | network_analysis/min_span_tree2.py:66-75 | an edge whose ends share a root is passed over and the loop goes on (or stops) with the same state |
| AdjacencyKruskal.Loop | network_analysis/min_span_tree2.py:66-75 | the loop accepts exactly the edges `Run` accepts, and `mst` is the graph of those edges |
| AdjacencyKruskal.RunOutcome | network_analysis/min_span_tree2.py:66-75 | the accepted edges form a forest drawn from the input, which connects the ends of every input edge unless the loop broke early |
| AdjacencyKruskal.RunForest | network_analysis/min_span_tree2.py:66-75 | under either break rule the accepted edges are a forest of input edges |
| AdjacencyKruskal.RunSpans | network_analysis/min_span_tree2.py:66-75 | with the corrected break the accepted edges connect exactly what the input connects |
| AdjacencyKruskal.RunOrder | network_analysis/min_span_tree2.py:66-75 | sorted input gives a tree accepted in sorted order |
| AdjacencyKruskal.RunCertificate | network_analysis/min_span_tree2.py:66-75 | with the corrected break, from a state where every edge passed over is joined by lighter tree edges, the loop's tree joins the ends of every edge passed over or still to come by tree edges no heavier than it |
| AdjacencyKruskal.RejectedCertificate | network_analysis/min_span_tree2.py:68-69 | an edge skipped because its ends share a root is joined by tree edges, all no heavier than it |
| AdjacencyKruskal.CompleteCertificate | network_analysis/min_span_tree2.py:74-75 | a tree that connects every vertex when the loop breaks joins the ends of every edge left by tree edges no heavier than it |
| AdjacencyKruskal.RunCycleProperty | network_analysis/min_span_tree2.py:62-75 | from singleton classes over sorted edges, the tree joins the ends of every input edge by tree edges no heavier (no lighter, descending) than it |
| AdjacencyKruskal.GraphOfLinks | network_analysis/min_span_tree2.py:71 | the links of `mst` are the accepted edges read both ways |
| AdjacencyKruskal.GraphOfSubgraph | network_analysis/min_span_tree2.py:71 | `mst` is a sub-graph of the graph, with its weights |
| AdjacencyKruskal.GraphOfAppend | network_analysis/min_span_tree2.py:71 | adding one more accepted edge to `mst` is one more `add` |
| AdjacencyKruskal.GraphOfWeight | network_analysis/min_span_tree2.py:71 | when every accepted edge between a and b weighs w, `mst` stores w for their link |
| AdjacencyKruskal.GraphOfConnects | network_analysis/min_span_tree2.py:71 | `mst` connects exactly what its accepted edges connect |
| AdjacencyKruskal.Graph.Grow | network_analysis/min_span_tree2.py:62-75 | a fresh `mst` holding exactly the edges the loop accepts under the given break rule |
| AdjacencyKruskal.Graph.SpanningTree | network_analysis/min_span_tree2.py:42-77 | as written: a fresh forest of the graph's own links, sorted ascending for a minimum tree and descending for a maximum one, that may leave components split |
| AdjacencyKruskal.AllVerticesTouchedSplits | network_analysis/min_span_tree2.py:74-75 | on a connected graph of 4 vertices the as-written break stops with a tree that does not connect vertices 0 and 2 |
| AdjacencyKruskal.K4Run | network_analysis/min_span_tree2.py:66-75 | on the ascending listing of that graph the as-written loop accepts 0-1 and 2-3 and then breaks |
| AdjacencyKruskal.Graph.SpanningTreeCorrected | network_analysis/min_span_tree2.py:42-77 | with the break at V-1 edges: a sorted forest of the graph's links that connects exactly the vertices the graph connects, with the cycle property of a minimum (maximum, when `minimum` is false) spanning tree: every link's ends are joined by tree edges no heavier (no lighter) than it |
| AdjacencyKruskal.Graph.Len | network_analysis/min_span_tree2.py:79-80 | the vertex count, zero exactly for the empty graph |
| AdjacencyKruskal.LoadNodes | network_analysis/min_span_tree2.py:92-110 | the graph built by `add` on every ordered pair of features with different ids |
| AdjacencyKruskal.LoadedLinks | network_analysis/min_span_tree2.py:96-108 | the loaded graph links exactly two different ids of features |
| AdjacencyKruskal.LoadedWeights | network_analysis/min_span_tree2.py:96-108 | with distinct ids and a symmetric distance each link weighs the distance between its features |
| Dijkstra.Relax | network_analysis/single_source_with_roads.py:190-204 | ValueError exactly when a final neighbour gets a shorter offer. A strict improvement records it, pushes an entry and makes v the only predecessor. A tie appends v. Anything else changes nothing. After a successful offer the neighbour is seen no farther than through v |
| Dijkstra.RelaxKeeps | network_analysis/single_source_with_roads.py:194-204 | relaxing an edge out of a final node keeps the search invariant |
| Dijkstra.RelaxKeepsRecorded | network_analysis/single_source_with_roads.py:198-204 | relaxing keeps every recorded predecessor a final node whose distance plus the edge's length is the recorded distance |
| Dijkstra.RelaxKeepsEntries | network_analysis/single_source_with_roads.py:198-201 | relaxing keeps every heap entry at or above its node's tentative distance, and one entry at it for every seen node not yet final |
| Dijkstra.RelaxNoValueError | network_analysis/single_source_with_roads.py:194-197 | with non-negative lengths no offer out of the latest final node raises ValueError |
| Dijkstra.RelaxMonotone | network_analysis/single_source_with_roads.py:198-200 | relaxing keeps every fringe entry no shorter than every final distance |
| Dijkstra.RelaxDistinct | network_analysis/single_source_with_roads.py:165-167 | the counter keeps fringe entries distinct |
| Dijkstra.RelaxOffered | network_analysis/single_source_with_roads.py:194-204 | an offer raises no tentative distance and leaves the neighbour seen no farther than through v |
| Dijkstra.LeastExists | network_analysis/single_source_with_roads.py:177 | a non-empty heap has a least entry to pop |
| Dijkstra.LeastUnique | network_analysis/single_source_with_roads.py:177 | with distinct counters the least entry is unique |
| Dijkstra.Expand | network_analysis/single_source_with_roads.py:186-204 | offers every neighbour `dist[v] + length`. ValueError exactly when some neighbour is final and gets a shorter offer, and never with non-negative lengths. The invariant is kept, no tentative distance rises, and every neighbour ends up seen no farther than through v |
| Dijkstra.StartKeeps | network_analysis/single_source_with_roads.py:162-167 | the starting variables satisfy the invariant |
| Dijkstra.SkipKeeps | network_analysis/single_source_with_roads.py:178-179 | popping an entry of a final node changes nothing else |
| Dijkstra.ExpandedFrame | network_analysis/single_source_with_roads.py:178-179 | a state with the same final and tentative distances keeps every final node's neighbours offered |
| Dijkstra.ExpandedAfter | network_analysis/single_source_with_roads.py:180-204 | making a node final and expanding it keeps every final node's neighbours seen no farther than through it |
| Dijkstra.FinalizeKeeps | network_analysis/single_source_with_roads.py:177-180 | the popped least entry of a new node is its tentative distance, and making it final keeps the invariant |
| Dijkstra.FinalizeShape | network_analysis/single_source_with_roads.py:177-180 | finalising the popped node keeps the final nodes among the seen ones and ranks them in the order they became final |
| Dijkstra.FinalizeEntries | network_analysis/single_source_with_roads.py:177-180 | finalising the popped node keeps the heap's entries consistent with the tentative distances |
| Dijkstra.FinalizeRecorded | network_analysis/single_source_with_roads.py:177-180 | finalising keeps the predecessors of every final node final before it |
| Dijkstra.FinalizeMonotone | network_analysis/single_source_with_roads.py:177-180 | the node made final is at least as far as every earlier final node, and no entry left is nearer |
| Dijkstra.SkipSearching | network_analysis/single_source_with_roads.py:177-179 | popping an entry of a final node keeps the loop state and shortens the heap |
| Dijkstra.FinalizeSearching | network_analysis/single_source_with_roads.py:177-184 | finalising the least entry keeps the loop state, strikes the node from the pending sinks, and leaves fewer nodes to finalise |
| Dijkstra.SameDistSearching | network_analysis/single_source_with_roads.py:186-204 | expanding a node changes no final distance, so the loop state carries over |
| Dijkstra.FinalizeEarlyStop | network_analysis/single_source_with_roads.py:181-184 | with sinks, making a node final while a sink is still pending keeps every final node made final before the last sink, so the search does not stop early |
| Dijkstra.EmptyFringeFinal | network_analysis/single_source_with_roads.py:176 | when the heap runs empty every seen node is final |
| Dijkstra.SeenCoversReachable | network_analysis/single_source_with_roads.py:176-204 | once the heap is empty every node reachable from the source has been seen |
| Dijkstra.PathLengthNonNegative | network_analysis/single_source_with_roads.py:188-189 | with non-negative lengths no walk is shorter than 0 |
| Dijkstra.PathPrefix | network_analysis/single_source_with_roads.py:188-189 | a prefix of a walk is a walk, and with non-negative lengths no longer than the whole |
| Dijkstra.FirstOutside | network_analysis/single_source_with_roads.py:176-180 | a walk from a final node to one not final leaves the final nodes at some edge |
| Dijkstra.CrossingBound | network_analysis/single_source_with_roads.py:186-204 | where a walk from the source first leaves the final nodes, its next node is seen no farther than the whole walk |
| Dijkstra.LeastIsShortest | network_analysis/single_source_with_roads.py:177-180 | with non-negative lengths the least heap entry is no longer than any walk from the source to its node |
| Dijkstra.FinalizeShortest | network_analysis/single_source_with_roads.py:177-180 | making the least entry's node final keeps every final distance no longer than any walk from the source |
| Dijkstra.Step | network_analysis/single_source_with_roads.py:177-204 | one turn pops, skips or finalises. It stops only when the node made final was the last pending sink, and otherwise expands. It fails only with ValueError on a negative length or KeyError for a source without an adjacency entry |
| Dijkstra.Explore | network_analysis/single_source_with_roads.py:176-204 | on success the invariant holds, the final distances are shortest over all walks from the source (non-negative lengths), the search stopped no earlier than the last sink, every seen sink is final, and every reachable sink was seen. The loop ends either with every sink final or with an empty heap and every reachable node final, and with no sinks only the latter |
| PathTree.InvChained | network_analysis/single_source_with_roads.py:198-201 | every final node but the source has a first predecessor that became final earlier, so the walk back ends |
| PathTree.WalkFrom | network_analysis/single_source_with_roads.py:209-216 | the inner `while True` adds exactly the nodes and edges of the walk from the sink back to the source |
| PathTree.WalkBack | network_analysis/single_source_with_roads.py:207-216 | the loop over the sinks builds exactly `Reconstruct`'s tree or raises its exception |
| PathTree.ReconstructFailure | network_analysis/single_source_with_roads.py:208-211 | the first sink that raises decides the exception |
| PathTree.ReconstructOutcome | network_analysis/single_source_with_roads.py:208-216 | success exactly when every sink was seen and none is the source. Otherwise KeyError for an unseen sink or IndexError for the source |
| PathTree.WalkShape | network_analysis/single_source_with_roads.py:210-216 | the walk back from a final node is a path of tree edges ending at the source |
| PathTree.ReconstructShape | network_analysis/single_source_with_roads.py:207-218 | the tree holds every sink, and the source when there is a sink. Each node but the source hangs from its first predecessor by an edge of G |
| PathTree.ReconstructSnoc | network_analysis/single_source_with_roads.py:207-216 | a successful walk back over the sinks is the one over all sinks but the last, joined with the walk from the last |
| PathTree.ReconstructWalks | network_analysis/single_source_with_roads.py:207-216 | a reconstructed tree holds exactly the nodes and edges that lie on some sink's walk back, and nothing else |
| PathTree.TreeEdgesUnique | network_analysis/single_source_with_roads.py:211-213 | no node has two tree edges into it and no edge is stored both ways |
| PathTree.WalkLengthIsDist | network_analysis/single_source_with_roads.py:198-216 | the lengths along the walk back add up to the node's final distance |
| PathTree.ShortestPathTree | network_analysis/single_source_with_roads.py:151-218 | ValueError only with a negative length. KeyError only for a missing source or an unreachable sink. IndexError only when a sink is the source. Non-negative lengths with reachable sinks other than the source always succeed, with a shortest-path-tree-shaped result. The result is exactly `Reconstruct`'s tree, the union of the sinks' walks back. The tree's walk from each sink to the source is as long as the sink's final distance, and with non-negative lengths no walk of G from the source to the sink is shorter |
| NetworkX.NxGraph.constructor | draw_graph.py:7 | `nx.Graph()` has no node, position or edge |
| NetworkX.NxGraph.AddNode | draw_graph.py:12 | adds the node if new and sets its position; edges unchanged |
| NetworkX.NxGraph.AddEdge | draw_graph.py:26 | adds both ends and stores the attribute under both orientations |
| Bipartite.PlacedRow | draw_graph.py:14-18 | a name gets a position exactly when it was placed before or is a point linked to the cabinet |
| Bipartite.Placed | draw_graph.py:9-18 | the placed names are exactly the cabinets and the points whose `link` names a cabinet |
| Bipartite.LinkRow | draw_graph.py:21-26 | the pairs gaining an edge are exactly the cabinet and each point linked to it, both ways |
| Bipartite.Links | draw_graph.py:20-26 | an edge joins a cabinet and a point exactly when the point's `link` is the cabinet's name |
| Bipartite.LinksStep | draw_graph.py:20-26 | one more cabinet row keeps the edges exactly the pairs of a cabinet and a point linked to it, both ways |
| Bipartite.PlaceSites | draw_graph.py:14-18 | the inner loop of the first pass places exactly `PlacedRow` |
| Bipartite.LinkSites | draw_graph.py:21-26 | the inner loop of the second pass adds exactly `LinkRow` |
| Bipartite.LoadNodes | draw_graph.py:5-28 | the nodes are the placed names with their positions; the edges are `Links` |
| Bipartite.PlaceHubs | draw_graph.py:9-18 | the first loop leaves exactly the placed names as nodes, at the positions `Placed` gives, and no edge |
| Bipartite.LinkHubs | draw_graph.py:20-26 | the second loop adds exactly the edges `Links` gives and leaves the nodes and positions alone |
| Bipartite.PlacedRowOther | draw_graph.py:14-18 | a name no linked point carries keeps its position |
| Bipartite.PlacedRowSite | draw_graph.py:14-18 | with distinct point names a linked point sits at its own coordinates |
| Bipartite.PlacedAtHub | draw_graph.py:9-12 | with distinct names every cabinet sits at its own coordinates |
| Bipartite.PlacedAtSite | draw_graph.py:14-18 | with distinct names every linked point sits at its own coordinates |
| Bipartite.LinkRowOther | draw_graph.py:21-26 | a pair not joining the cabinet to a linked point keeps its weight |
| Bipartite.LinkRowSite | draw_graph.py:21-26 | with distinct point names the edge to a linked point weighs their distance both ways |
| Bipartite.LinkedAt | draw_graph.py:20-26 | with distinct names every edge weighs the distance between its cabinet and its point |
| Closure.RowOf | draw_graph.py:60-61 | the row joins the source to every node left, both ways, with the search's distance and path |
| Closure.FirstSearchDecides | draw_graph.py:52-58 | the first search reaches every node exactly when G is connected |
| Closure.AllCovered | draw_graph.py:52-58 | in a connected graph every search reaches every node |
| Closure.FirstSearchNegative | draw_graph.py:54-55 | the first search meets a negative weight exactly when one lies in its source's component |
| Closure.ConnectedNoNegative | draw_graph.py:54-58 | once G is connected and the first search met no negative weight, no weight of G is negative |
| Closure.MetricClosure | draw_graph.py:33-69 | StopIteration exactly for an empty G. ValueError when a negative weight is reachable from the first search's source. Otherwise NetworkXError exactly for a disconnected G. Otherwise a fresh undirected graph with the closure's edges and nodes, built from a graph with no negative weight |
| Closure.AddRow | draw_graph.py:60-61 | the inner loop adds exactly the row's edges and nodes |
| Closure.JoinedStep | draw_graph.py:64-67 | striking the next source from `Gnodes` and adding its row keeps the outer loop's state |
| Closure.JoinNext | draw_graph.py:65-67 | one turn of the outer loop keeps its state |
| Closure.JoinFrom | draw_graph.py:64-67 | the remaining turns end with every source struck and every row added |
| Closure.JoinAll | draw_graph.py:59-67 | the two loops build exactly `ClosureEdges` and `ClosureNodes` |
| Closure.SourcesStep | draw_graph.py:65 | the next source is still in `Gnodes`, so `Gnodes.remove(u)` succeeds |
| Closure.SourcesDistinct | draw_graph.py:52-65 | every search starts from a node of G and no two from the same one |
| Closure.ClosureKeysUpTo | draw_graph.py:59-67 | after k searches the edges join exactly the pairs of distinct nodes one of which is an earlier source |
| Closure.ClosureKeys | draw_graph.py:59-67 | the closure of a connected graph joins every two distinct nodes, never a node to itself |
| Closure.ClosureRouteUpTo | draw_graph.py:61-67 | every edge carries what one of the searches found from one end to the other |
| Closure.ClosureRoutes | draw_graph.py:61-67 | every edge (a, b) carries the distance and path that the search from a or from b found; the path is a walk of G between a and b |
| Closure.ClosureWeights | draw_graph.py:33-67 | every closure edge's `distance` is the weight of the walk of G in its `path`, and with no negative weight no walk of G between its ends weighs less: the shortest path distance |
| Closure.ClosureNodesAll | draw_graph.py:59-67 | the closure has every node of G when G has two or more, and none otherwise |
| Closure.ClosureNodesWithin | draw_graph.py:59-67 | every node `add_edge` brings in is a node of G |
| Closure.ClosureNodesFirst | draw_graph.py:59-61 | once the first row is in, its source and every node left stay in |
| Closure.ClosureNodesNone | draw_graph.py:59-67 | when G is a single node no row adds anything |
| Closure.ClosureNodesMany | draw_graph.py:59-61 | with two distinct nodes the first search alone brings in every node |
| Closure.ClosureNodesFew | draw_graph.py:59-67 | with at most one node no edge is added, so the closure has no node |
| Steiner.Induced | draw_graph.py:105 | `M.subgraph(terminals)` keeps the terminals that are nodes and the edges between two of them, with their attributes |
| Steiner.TerminalGraphComplete | draw_graph.py:102-105 | restricted to the terminals, the closure of a connected graph with two or more nodes is the complete graph on the terminals in G |
| Steiner.Steps | draw_graph.py:108 | `pairwise(path)` is the consecutive pairs of the path, in order |
| Steiner.RouteEdges | draw_graph.py:108 | the chained pairs are exactly the consecutive pairs on the paths of the spanning-tree edges |
| Steiner.EdgeSubgraph | draw_graph.py:109 | the view keeps the nodes that end a listed edge, and the edges of G listed in either orientation, once each |
| Steiner.SteinerTree | draw_graph.py:71-110 | raises exactly what `metric_closure` raises, including ValueError for a negative weight reachable from the first search's source; otherwise returns `SteinerOf`, the edge subgraph of G spanned by the tree edges' paths |
| Steiner.PathStepInG | draw_graph.py:107-109 | every consecutive pair on a tree edge's path is an edge of G |
| Steiner.SteinerEdges | draw_graph.py:107-109 | the result is an undirected sub-graph of G with G's weights. Its edges are exactly the consecutive pairs, either way round, on the paths of the spanning-tree edges |
| Steiner.TreeEdgeConnected | draw_graph.py:106-109 | the path of each spanning-tree edge is a walk of the result between the edge's ends |
| Steiner.SteinerConnects | draw_graph.py:102-110 | the result connects every two terminals that are nodes of G |
| Steiner.SteinerHasTerminals | draw_graph.py:102-110 | with two distinct terminals in G, every terminal in G is a node of the result |

## Left out

- Reading GeoJSON, shapely geometry, the `vincenty` distance, `round(..., 4)` and `round(..., 2)`: every builder takes the distance as a function parameter. The lemmas about weights assume only that it is non-negative and symmetric.
- Plotting, `print`/`pprint` output and the `__main__` blocks.
- `Graph.__getitem__`, `__iter__` and `__str__` of min_span_tree2.py are not modelled separately. `has_link` models the lookup of `__getitem__`, and the other two only print or iterate `edges()`.
- networkx's `all_pairs_dijkstra` and `minimum_spanning_edges` are parameters. The first must reach exactly the nodes connected to each source, along walks of G. Its first search must raise ValueError exactly when a negative weight lies in its source's component (`NegativeReachable`). This is how networkx's search, the one `Dijkstra.Relax` models, behaves on an undirected graph, but that is not proved here. The second must yield edges of H that connect whatever H connects. `subgraph`, `edge_subgraph`, `pairwise` and `chain.from_iterable` are written out.
- Steiner.SteinerTree: `minimum_spanning_edges` is a parameter promising only a connecting set of edges, so the optimality of the spanning tree over the closure is not relied on. The `(2 - 2/t)` approximation ratio in the docstring is not proved.
- Closure.ClosureWeights: that the closure's distances are shortest rests on networkx's promise for `all_pairs_dijkstra` (`AllWeighed`): each distance is the weight of the path found, and no walk from the source is lighter when no weight is negative.
- Steiner.EdgeSubgraph: networkx returns live views that also carry node attributes (positions). The model returns the nodes and edges as values.
- Dijkstra.Expand: the always-`None` `cutoff` test and the `cost is None` skip are dropped, as no edge of the graphs used lacks a `length`.
- Dictionary and set iteration order, which Python leaves to the implementation, is left unspecified. Every contract holds for any order (`edges`, `find_unique_edges`, the neighbour loop of the search, `for v in Gnodes`).
- Closure.JoinAll: the outer `for u, (distance, path) in all_paths_iter` loop is written as the recursive method `JoinFrom`, one call per search. The inner loop over `Gnodes` is a `while` loop.
- Closure.MetricClosure: the requirement that the searches start from distinct nodes of G rules out a KeyError from `Gnodes.remove(u)`. networkx guarantees this, so that path is not modelled.
- Bipartite.LoadNodes: with duplicate names the last position or weight written wins, as in networkx. The lemmas that state each node's position and each edge's weight assume distinct names.
- reprex.py:8-31 and reprex.py:34-111 are the same code as draw_graph.py:5-28 and draw_graph.py:33-110 up to identifier names. The draw_graph.py rows above model both.
- Behaviour as the code has it: `find` compresses no path, although its comment mentions path compression. It silently drops a point whose link names no cabinet and accepts duplicate ids. It raises `IndexError`, `KeyError`, `ValueError`, `StopIteration` and `NetworkXError`.
- Integer widths do not arise: weights are real numbers (`real`) with floating-point rounding not modelled.
- Negative vertex ids are excluded: ids are `nat`. In min_span_tree.py a negative id would index `parent` and `rank` from the end instead of raising.
- KruskalMST, SpanningTreeCorrected: minimality of the total weight is stated as the cycle property (every edge's ends are joined by tree edges no heavier than it), which for a spanning tree is equivalent to minimum total weight. The sums themselves are not compared.
- FinalizeEarlyStop: its property speaks of searches with sinks only. That a search with no sinks runs until the heap is empty is stated by `Dijkstra.Explore`'s exit clause.

## Findings

| source | as written | input that shows it | evidently intended | confidence | as-written member | corrected member |
|---|---|---|---|---|---|---|
| network_analysis/min_span_tree2.py:74-75 | `spanning_tree` breaks once the tree has as many vertices as the graph (`len(self) == len(mst)`) | the complete graph on 0..3 whose two lightest links 0-1 and 2-3 share no vertex: both are accepted, all four vertices are then in the tree, and the loop breaks with two components although the graph is connected | break once the tree has one edge fewer than the graph has vertices, giving a spanning tree of each component | not executed | AdjacencyKruskal.Graph.SpanningTree, AdjacencyKruskal.AllVerticesTouchedSplits | AdjacencyKruskal.Graph.SpanningTreeCorrected |
| network_analysis/min_span_tree.py:50-61 | `find` ends with `return i, print(...)`, so it returns `(root, None)`, or pairs nested once per link; `union` passes that pair back to `find`, whose `parent[i]` raises TypeError | two vertices joined by one edge, `[[0, 1, 1.0]]` with V = 2: `find` gives `(0, None)` and `(1, None)`, they differ, and `union` raises TypeError, so no tree is ever returned for two or more vertices | `find` returns the root itself, and `union` links the two roots by rank | not executed | EdgeListKruskal.FindAsWritten, EdgeListKruskal.KruskalAsWrittenFails, EdgeListKruskal.KruskalAsWrittenTypeError | EdgeListKruskal.Find, EdgeListKruskal.KruskalOn, EdgeListKruskal.OutcomeSingleEdge |
