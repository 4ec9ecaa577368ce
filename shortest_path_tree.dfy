/**
 * `shortest_path_tree` of network_analysis/single_source_with_roads.py:
 * Dijkstra's search from one source that stops once every sink is final,
 * followed by a walk back from each sink along first-recorded predecessors.
 * The graph is networkx's successor dict, `G[v][u]` being the `length` of
 * the edge from v to u.
 */
module Dijkstra {
  import opened Wrappers

  type Adjacency = map<nat, map<nat, real>>

  /** Every neighbour is itself a node of the graph, as in any networkx graph. */
  ghost predicate Closed(G: Adjacency) {
    forall v, u {:trigger G[v][u]} :: v in G && u in G[v] ==> u in G
  }

  ghost predicate NonNegative(G: Adjacency) {
    forall v, u {:trigger G[v][u]} :: v in G && u in G[v] ==> G[v][u] >= 0.0
  }

  /** A fringe entry `(distance, counter, node)`. */
  datatype Entry = Entry(d: real, count: nat, node: nat)

  /** heapq's order on entries: by distance, then by counter. */
  predicate Before(a: Entry, b: Entry) {
    a.d < b.d || (a.d == b.d && a.count <= b.count)
  }

  /** The exceptions the function raises. */
  datatype PathError =
    | NegativeWeights      // ValueError('Contradictory paths found:', 'negative weights?')
    | KeyError(node: nat)  // `G_succ[v]` on a missing node, or `pred[u]` on an unreached sink
    | IndexError           // `pred[u][0]` with `pred[u] == []`, that is a sink equal to the source

  /**
   * The local variables of the search: final distances, tentative distances,
   * predecessor lists, the heap (a set: counters make its entries distinct)
   * and the next counter value.
   */
  datatype State = State(
    dist: map<nat, real>,
    seen: map<nat, real>,
    pred: map<nat, seq<nat>>,
    fringe: set<Entry>,
    next: nat)

  /** Every seen node has a predecessor list, and every final node was seen. */
  ghost predicate Tracked(s: State) {
    forall x :: (x in s.pred <==> x in s.seen) && (x in s.dist ==> x in s.seen)
  }

  /**
   * The offer of `dist[v] + w` to the neighbour u of the node v being expanded.
   * A final u must not get a shorter offer (ValueError); a strict improvement on
   * `seen[u]` (or a first sighting) records it, pushes an entry and makes v the
   * only predecessor; an exact tie adds v as another predecessor.
   */
  function Relax(s: State, v: nat, u: nat, w: real): (r: Result<State, PathError>)
    requires v in s.dist && Tracked(s)
    ensures r.Failure? <==> u in s.dist && s.dist[v] + w < s.dist[u]
    ensures r.Failure? ==> r.error == NegativeWeights
    ensures r.Success? ==>
              && r.value.dist == s.dist
              && (forall x :: x in r.value.seen <==> x in s.seen || x == u) && Tracked(r.value)
              && (forall x :: x in s.seen && x != u ==> r.value.seen[x] == s.seen[x] && r.value.pred[x] == s.pred[x])
              && (u in s.seen ==> r.value.seen[u] <= s.seen[u])
              && u in r.value.seen && (u !in s.dist ==> r.value.seen[u] <= s.dist[v] + w)
    ensures r.Success? && u !in s.dist && (u !in s.seen || s.dist[v] + w < s.seen[u]) ==>
              && r.value.seen[u] == s.dist[v] + w && r.value.pred[u] == [v]
              && r.value.fringe == s.fringe + {Entry(s.dist[v] + w, s.next, u)} && r.value.next == s.next + 1
    ensures r.Success? && u in s.seen && u !in s.dist && s.dist[v] + w == s.seen[u] ==>
              r.value.pred[u] == s.pred[u] + [v] && r.value.fringe == s.fringe && r.value.next == s.next
    ensures r.Success? && (u in s.dist || (u in s.seen && s.dist[v] + w > s.seen[u])) ==> r.value == s
  {
    var vu := s.dist[v] + w;
    if u in s.dist then
      if vu < s.dist[u] then Failure(NegativeWeights) else Success(s)
    else if u !in s.seen || vu < s.seen[u] then
      Success(s.(seen := s.seen[u := vu], fringe := s.fringe + {Entry(vu, s.next, u)},
                 next := s.next + 1, pred := s.pred[u := [v]]))
    else if vu == s.seen[u] then
      Success(s.(pred := s.pred[u := s.pred[u] + [v]]))
    else
      Success(s)
  }

  /**
   * v was recorded as a predecessor of x: v is final, x is its neighbour, the
   * offer through v is x's tentative distance, and v became final before x.
   */
  ghost predicate Recorded(G: Adjacency, s: State, rank: map<nat, nat>, v: nat, x: nat) {
    && v in s.dist && v in rank && v in G && x in G[v] && x in s.seen
    && s.dist[v] + G[v][x] == s.seen[x]
    && (x in rank ==> rank[v] < rank[x])
  }

  /**
   * What holds of the search's variables between two steps.  `rank` (ghost)
   * numbers the final nodes in the order they became final.
   */
  ghost predicate Inv(G: Adjacency, source: nat, s: State, rank: map<nat, nat>) {
    InvShape(G, source, s, rank) && InvEntries(s) && InvRecorded(G, source, s, rank)
  }

  /**
   * The source is seen at 0 with no predecessor and becomes final first; seen
   * nodes are nodes of G; a final distance is the tentative one.
   */
  ghost predicate InvShape(G: Adjacency, source: nat, s: State, rank: map<nat, nat>) {
    && source in s.seen && s.seen[source] == 0.0 && source in s.pred && s.pred[source] == []
    && Tracked(s)
    && (forall x :: x in s.seen ==> x in G || x == source)
    && (forall x :: x in s.dist ==> s.dist[x] == s.seen[x])
    && (forall x :: x in s.seen && x != source ==> source in s.dist)
    && (forall x :: x in rank <==> x in s.dist)
    && (forall x :: x in rank ==> rank[x] < |s.dist|)
  }

  /**
   * No entry is shorter than its node's tentative distance, every counter is
   * below the next one, and a seen node not yet final has an entry at its
   * tentative distance.
   */
  ghost predicate InvEntries(s: State) {
    && (forall e :: e in s.fringe ==> e.node in s.seen && s.seen[e.node] <= e.d && e.count < s.next)
    && (forall x :: x in s.seen && x !in s.dist ==> exists c :: Entry(s.seen[x], c, x) in s.fringe)
  }

  /** Every seen node but the source has a predecessor, and every recorded predecessor is `Recorded`. */
  ghost predicate InvRecorded(G: Adjacency, source: nat, s: State, rank: map<nat, nat>) {
    && (forall x :: x in s.pred && x != source ==> s.pred[x] != [])
    && (forall x, i :: x in s.pred && 0 <= i < |s.pred[x]| ==> Recorded(G, s, rank, s.pred[x][i], x))
  }

  /**
   * With non-negative lengths no entry of the fringe is shorter than a final
   * distance: nodes become final in order of distance.
   */
  ghost predicate Monotone(G: Adjacency, s: State) {
    NonNegative(G) ==> forall x, e :: x in s.dist && e in s.fringe ==> s.dist[x] <= e.d
  }

  /** Relaxing an edge out of the final node v keeps the invariant. */
  lemma RelaxKeeps(G: Adjacency, source: nat, s: State, rank: map<nat, nat>, v: nat, u: nat)
    requires Closed(G) && Inv(G, source, s, rank) && v in s.dist && v in G && u in G[v]
    requires Relax(s, v, u, G[v][u]).Success?
    ensures Inv(G, source, Relax(s, v, u, G[v][u]).value, rank)
  {
    assert source in s.dist && u in G;
    RelaxKeepsRecorded(G, source, s, rank, v, u);
    RelaxKeepsEntries(G, source, s, rank, v, u);
  }

  lemma RelaxKeepsRecorded(G: Adjacency, source: nat, s: State, rank: map<nat, nat>, v: nat, u: nat)
    requires Inv(G, source, s, rank) && v in s.dist && v in G && u in G[v]
    requires Relax(s, v, u, G[v][u]).Success?
    ensures var t := Relax(s, v, u, G[v][u]).value;
      forall x, i :: x in t.pred && 0 <= i < |t.pred[x]| ==> Recorded(G, t, rank, t.pred[x][i], x)
  {
    var t := Relax(s, v, u, G[v][u]).value;
    forall x, i | x in t.pred && 0 <= i < |t.pred[x]| ensures Recorded(G, t, rank, t.pred[x][i], x) {
      if x != u || t == s {
        assert Recorded(G, s, rank, s.pred[x][i], x);
      } else if t.pred[u] == [v] {
        assert t.pred[x][i] == v;
      } else if i < |s.pred[u]| {
        assert t.pred[u][i] == s.pred[u][i];
        assert Recorded(G, s, rank, s.pred[x][i], x);
      } else {
        assert t.pred[x][i] == v;
      }
    }
  }

  lemma RelaxKeepsEntries(G: Adjacency, source: nat, s: State, rank: map<nat, nat>, v: nat, u: nat)
    requires Inv(G, source, s, rank) && v in s.dist && v in G && u in G[v]
    requires Relax(s, v, u, G[v][u]).Success?
    ensures var t := Relax(s, v, u, G[v][u]).value;
      && (forall e :: e in t.fringe ==> e.node in t.seen && t.seen[e.node] <= e.d && e.count < t.next)
      && (forall x :: x in t.seen && x !in t.dist ==> exists c :: Entry(t.seen[x], c, x) in t.fringe)
  {
    var t := Relax(s, v, u, G[v][u]).value;
    forall x | x in t.seen && x !in t.dist ensures exists c :: Entry(t.seen[x], c, x) in t.fringe {
      if x != u || t.fringe == s.fringe {
        var c :| Entry(s.seen[x], c, x) in s.fringe;
        assert Entry(t.seen[x], c, x) in t.fringe;
      } else {
        assert Entry(t.seen[x], s.next, x) in t.fringe;
      }
    }
  }

  /** Relaxing out of the latest final node keeps the fringe no shorter than the final distances. */
  lemma RelaxMonotone(G: Adjacency, source: nat, s: State, rank: map<nat, nat>, v: nat, u: nat)
    requires Inv(G, source, s, rank) && v in s.dist && v in G && u in G[v]
    requires Monotone(G, s) && (forall x :: x in s.dist ==> s.dist[x] <= s.dist[v])
    requires Relax(s, v, u, G[v][u]).Success?
    ensures Monotone(G, Relax(s, v, u, G[v][u]).value)
  {
  }

  /** With non-negative lengths, no offer out of the latest final node undercuts a final distance. */
  lemma RelaxNoValueError(G: Adjacency, s: State, v: nat, u: nat)
    requires NonNegative(G) && v in s.dist && v in G && u in G[v]
    requires Tracked(s)
    requires forall x :: x in s.dist ==> s.dist[x] <= s.dist[v]
    ensures Relax(s, v, u, G[v][u]).Success?
  {
  }

  /** Counters make the fringe's entries distinct, so the least entry is unique. */
  ghost predicate DistinctCounts(fringe: set<Entry>) {
    forall a, b :: a in fringe && b in fringe && a.count == b.count ==> a == b
  }

  predicate Least(e: Entry, fringe: set<Entry>) {
    e in fringe && forall x :: x in fringe ==> Before(e, x)
  }

  /** A non-empty fringe has a least entry, and with distinct counters only one. */
  lemma {:induction false} LeastExists(fringe: set<Entry>)
    requires fringe != {}
    ensures exists e :: Least(e, fringe)
    decreases |fringe|
  {
    var y :| y in fringe;
    var rest := fringe - {y};
    if rest == {} {
      assert fringe == {y};
      assert Least(y, fringe);
    } else {
      LeastExists(rest);
      var m :| Least(m, rest);
      if Before(y, m) {
        forall x | x in fringe ensures Before(y, x) {
          if x != y {
            assert Before(m, x);
          }
        }
        assert Least(y, fringe);
      } else {
        assert Least(m, fringe);
      }
    }
  }

  lemma LeastUnique(fringe: set<Entry>, a: Entry, b: Entry)
    requires DistinctCounts(fringe) && Least(a, fringe) && Least(b, fringe)
    ensures a == b
  {
    assert Before(a, b) && Before(b, a);
  }

  /** Pushing an entry with a fresh counter keeps the counters distinct. */
  lemma RelaxDistinct(G: Adjacency, source: nat, s: State, rank: map<nat, nat>, v: nat, u: nat)
    requires Inv(G, source, s, rank) && DistinctCounts(s.fringe) && v in s.dist && v in G && u in G[v]
    requires Relax(s, v, u, G[v][u]).Success?
    ensures DistinctCounts(Relax(s, v, u, G[v][u]).value.fringe)
    ensures Relax(s, v, u, G[v][u]).value.fringe >= s.fringe
  {
  }

  /**
   * Every final node with an adjacency entry has offered each neighbour its
   * distance plus the edge's length: the neighbour is seen, no farther.
   */
  ghost predicate Expanded(G: Adjacency, s: State) {
    forall x, u :: x in s.dist && x in G && u in G[x] ==> u in s.seen && s.seen[u] <= s.dist[x] + G[x][u]
  }

  /**
   * What the inner loop keeps while the neighbours in `todo` are still to be
   * offered: the invariant, final distances untouched, no tentative distance
   * forgotten or raised, and every neighbour already offered seen no farther
   * than through v.
   */
  ghost predicate Expanding(G: Adjacency, source: nat, s: State, t: State, v: nat, rank: map<nat, nat>, todo: set<nat>)
    requires v in G && v in s.dist
  {
    && todo <= G[v].Keys
    && Inv(G, source, t, rank) && DistinctCounts(t.fringe)
    && t.dist == s.dist && t.fringe >= s.fringe
    && (forall x :: x in s.seen ==> x in t.seen && t.seen[x] <= s.seen[x])
    && (forall u :: u in G[v] && u !in todo ==> u in t.seen && t.seen[u] <= s.dist[v] + G[v][u])
    && (Monotone(G, s) && (forall x :: x in s.dist ==> s.dist[x] <= s.dist[v]) ==> Monotone(G, t))
  }

  /**
   * A successful offer to u raises no tentative distance and leaves u seen
   * no farther than through v.
   */
  lemma RelaxOffered(G: Adjacency, s: State, t: State, v: nat, u: nat, todo: set<nat>)
    requires v in G && v in s.dist && t.dist == s.dist && u in todo && todo <= G[v].Keys
    requires Tracked(t) && forall x :: x in t.dist ==> t.dist[x] == t.seen[x]
    requires forall x :: x in s.seen ==> x in t.seen && t.seen[x] <= s.seen[x]
    requires forall y :: y in G[v] && y !in todo ==> y in t.seen && t.seen[y] <= s.dist[v] + G[v][y]
    requires Relax(t, v, u, G[v][u]).Success?
    ensures var r := Relax(t, v, u, G[v][u]).value;
      && (forall x :: x in s.seen ==> x in r.seen && r.seen[x] <= s.seen[x])
      && (forall y :: y in G[v] && y !in todo - {u} ==> y in r.seen && r.seen[y] <= s.dist[v] + G[v][y])
  {
  }

  /** One successful offer to a neighbour u still to do keeps the loop's invariant. */
  lemma ExpandStep(G: Adjacency, source: nat, s: State, t: State, v: nat, rank: map<nat, nat>, todo: set<nat>, u: nat)
    requires Closed(G) && v in s.dist && v in G && u in todo
    requires Expanding(G, source, s, t, v, rank, todo)
    requires Relax(t, v, u, G[v][u]).Success?
    ensures Expanding(G, source, s, Relax(t, v, u, G[v][u]).value, v, rank, todo - {u})
  {
    RelaxKeeps(G, source, t, rank, v, u);
    RelaxDistinct(G, source, t, rank, v, u);
    RelaxOffered(G, s, t, v, u, todo);
    if Monotone(G, s) && (forall y :: y in s.dist ==> s.dist[y] <= s.dist[v]) {
      RelaxMonotone(G, source, t, rank, v, u);
    }
  }

  /**
   * The inner loop over `G_succ[v].items()` for the final node v: every
   * neighbour is offered `dist[v] + length`, in an unspecified order.
   */
  method Expand(G: Adjacency, ghost source: nat, s: State, v: nat, ghost rank: map<nat, nat>) returns (r: Result<State, PathError>)
    requires Closed(G) && Inv(G, source, s, rank) && DistinctCounts(s.fringe) && v in s.dist && v in G
    ensures r.Failure? ==> r.error == NegativeWeights && exists u :: u in G[v] && u in s.dist && s.dist[v] + G[v][u] < s.dist[u]
    ensures (exists u :: u in G[v] && u in s.dist && s.dist[v] + G[v][u] < s.dist[u]) ==> r.Failure?
    ensures r.Success? ==>
              && Inv(G, source, r.value, rank) && DistinctCounts(r.value.fringe)
              && r.value.dist == s.dist && r.value.fringe >= s.fringe
              && (forall x :: x in s.seen ==> x in r.value.seen && r.value.seen[x] <= s.seen[x])
              && (forall u :: u in G[v] ==> u in r.value.seen && r.value.seen[u] <= s.dist[v] + G[v][u])
    ensures r.Success? && Monotone(G, s) && (forall x :: x in s.dist ==> s.dist[x] <= s.dist[v]) ==> Monotone(G, r.value)
    ensures NonNegative(G) && (forall x :: x in s.dist ==> s.dist[x] <= s.dist[v]) ==> r.Success?
  {
    var t := s;
    var todo := G[v].Keys;
    while todo != {}
      invariant Expanding(G, source, s, t, v, rank, todo)
      decreases |todo|
    {
      var u :| u in todo;
      var x := Relax(t, v, u, G[v][u]);
      if x.Failure? {
        if NonNegative(G) && (forall y :: y in s.dist ==> s.dist[y] <= s.dist[v]) {
          RelaxNoValueError(G, t, v, u);
        }
        return x;
      }
      ExpandStep(G, source, s, t, v, rank, todo, u);
      t := x.value;
      todo := todo - {u};
    }
    return Success(t);
  }

  /** A state with the same final and tentative distances is expanded as well. */
  lemma ExpandedFrame(G: Adjacency, s: State, t: State)
    requires Expanded(G, s) && t.dist == s.dist && t.seen == s.seen
    ensures Expanded(G, t)
  {
  }

  /**
   * Making v final and then offering each of its neighbours a distance
   * through it, without raising any tentative distance, keeps every final
   * node expanded.
   */
  lemma ExpandedAfter(G: Adjacency, s: State, t: State, r: State, v: nat, d: real)
    requires Expanded(G, s) && v !in s.dist && t.dist == s.dist[v := d] && t.seen == s.seen
    requires r.dist == t.dist && (forall x :: x in t.seen ==> x in r.seen && r.seen[x] <= t.seen[x])
    requires v in G ==> forall u :: u in G[v] ==> u in r.seen && r.seen[u] <= t.dist[v] + G[v][u]
    ensures Expanded(G, r)
  {
    forall x, u | x in r.dist && x in G && u in G[x] ensures u in r.seen && r.seen[u] <= r.dist[x] + G[x][u] {
      if x != v {
        assert x in s.dist;
        assert u in s.seen && s.seen[u] <= s.dist[x] + G[x][u];
      }
    }
  }

  /** Popping the entry of a node that is already final changes nothing else: it is skipped. */
  lemma SkipKeeps(G: Adjacency, source: nat, s: State, rank: map<nat, nat>, e: Entry)
    requires Inv(G, source, s, rank) && DistinctCounts(s.fringe) && Monotone(G, s) && Expanded(G, s)
    requires e in s.fringe && e.node in s.dist
    ensures var t := s.(fringe := s.fringe - {e});
      Inv(G, source, t, rank) && DistinctCounts(t.fringe) && Monotone(G, t) && Expanded(G, t)
  {
    var t := s.(fringe := s.fringe - {e});
    ExpandedFrame(G, s, t);
    forall x | x in t.seen && x !in t.dist ensures exists c :: Entry(t.seen[x], c, x) in t.fringe {
      var c :| Entry(s.seen[x], c, x) in s.fringe;
      assert Entry(t.seen[x], c, x) in t.fringe;
    }
    assert forall x, i :: x in t.pred && 0 <= i < |t.pred[x]| ==> Recorded(G, t, rank, t.pred[x][i], x) by {
      forall x, i | x in t.pred && 0 <= i < |t.pred[x]| ensures Recorded(G, t, rank, t.pred[x][i], x) {
        assert Recorded(G, s, rank, s.pred[x][i], x);
      }
    }
  }

  /**
   * Popping the least entry of a node not yet final makes it final at that
   * entry's distance, which is its tentative distance; it gets the next rank.
   */
  lemma FinalizeKeeps(G: Adjacency, source: nat, s: State, rank: map<nat, nat>, e: Entry, t: State, rank': map<nat, nat>)
    requires Inv(G, source, s, rank) && DistinctCounts(s.fringe)
    requires Least(e, s.fringe) && e.node !in s.dist
    requires t == s.(fringe := s.fringe - {e}, dist := s.dist[e.node := e.d]) && rank' == rank[e.node := |s.dist|]
    ensures e.d == s.seen[e.node]
    ensures Inv(G, source, t, rank') && DistinctCounts(t.fringe)
  {
    var v := e.node;
    var c :| Entry(s.seen[v], c, v) in s.fringe;
    assert Before(e, Entry(s.seen[v], c, v));
    FinalizeShape(G, source, s, rank, e, t, rank');
    FinalizeEntries(s, e, t);
    FinalizeRecorded(G, source, s, rank, e, t, rank');
  }

  lemma FinalizeShape(G: Adjacency, source: nat, s: State, rank: map<nat, nat>, e: Entry, t: State, rank': map<nat, nat>)
    requires InvShape(G, source, s, rank) && InvEntries(s) && e in s.fringe && e.node !in s.dist && e.d == s.seen[e.node]
    requires t == s.(fringe := s.fringe - {e}, dist := s.dist[e.node := e.d]) && rank' == rank[e.node := |s.dist|]
    ensures InvShape(G, source, t, rank')
  {
    assert |t.dist| == |s.dist| + 1;
  }

  lemma FinalizeEntries(s: State, e: Entry, t: State)
    requires InvEntries(s) && e in s.fringe && e.node !in s.dist
    requires t == s.(fringe := s.fringe - {e}, dist := s.dist[e.node := e.d])
    ensures InvEntries(t)
  {
    forall x | x in t.seen && x !in t.dist ensures exists c :: Entry(t.seen[x], c, x) in t.fringe {
      var c :| Entry(s.seen[x], c, x) in s.fringe;
      assert Entry(t.seen[x], c, x) in t.fringe;
    }
  }

  lemma FinalizeRecorded(G: Adjacency, source: nat, s: State, rank: map<nat, nat>, e: Entry, t: State, rank': map<nat, nat>)
    requires InvShape(G, source, s, rank) && InvRecorded(G, source, s, rank)
    requires e.node in s.seen && e.node !in s.dist && e.d == s.seen[e.node]
    requires t == s.(fringe := s.fringe - {e}, dist := s.dist[e.node := e.d]) && rank' == rank[e.node := |s.dist|]
    ensures InvRecorded(G, source, t, rank')
  {
    forall x, i | x in t.pred && 0 <= i < |t.pred[x]| ensures Recorded(G, t, rank', t.pred[x][i], x) {
      assert Recorded(G, s, rank, s.pred[x][i], x);
    }
  }

  /** The newly final node is at least as far as every earlier one, and no entry left is nearer. */
  lemma FinalizeMonotone(G: Adjacency, s: State, e: Entry)
    requires Monotone(G, s) && Least(e, s.fringe)
    ensures var t := s.(fringe := s.fringe - {e}, dist := s.dist[e.node := e.d]);
      Monotone(G, t) && (NonNegative(G) ==> forall x :: x in t.dist ==> t.dist[x] <= e.d)
  {
  }

  /** The search before its first step: only the source is seen, at distance 0, with one entry. */
  lemma StartKeeps(G: Adjacency, source: nat, s: State, rank: map<nat, nat>)
    requires s == State(map[], map[source := 0.0], map[source := []], {Entry(0.0, 0, source)}, 1) && rank == map[]
    ensures Inv(G, source, s, rank) && DistinctCounts(s.fringe) && Monotone(G, s) && Expanded(G, s)
  {
    assert Entry(s.seen[source], 0, source) in s.fringe;
  }

  /** When the fringe runs empty, every seen node is final. */
  lemma EmptyFringeFinal(s: State)
    requires InvEntries(s) && s.fringe == {}
    ensures forall x :: x in s.seen ==> x in s.dist
  {
  }

  /** Making one more node of `nodes` final leaves fewer nodes to go. */
  lemma FewerLeft(nodes: set<nat>, done: set<nat>, v: nat)
    requires v in nodes && v !in done
    ensures |nodes - (done + {v})| < |nodes - done|
  {
    assert nodes - done == (nodes - (done + {v})) + {v};
  }

  /** A walk along the adjacency: each node is a key and the next is among its neighbours. */
  ghost predicate IsPath(G: Adjacency, p: seq<nat>) {
    |p| > 0 && forall i :: 0 <= i < |p| - 1 ==> p[i] in G && p[i + 1] in G[p[i]]
  }

  ghost predicate Reachable(G: Adjacency, a: nat, b: nat) {
    exists p :: IsPath(G, p) && p[0] == a && p[|p| - 1] == b
  }

  /** Once the fringe is empty, every node reachable from the source has been seen. */
  lemma SeenCoversReachable(G: Adjacency, source: nat, s: State, b: nat)
    requires source in s.seen && (forall x :: x in s.seen ==> x in s.dist) && Expanded(G, s)
    requires Reachable(G, source, b)
    ensures b in s.seen
  {
    var p :| IsPath(G, p) && p[0] == source && p[|p| - 1] == b;
    var i := 0;
    while i < |p| - 1
      invariant 0 <= i < |p| && p[i] in s.seen
    {
      assert p[i] in s.dist && p[i] in G && p[i + 1] in G[p[i]];
      i := i + 1;
    }
  }

  /** The total length of a walk, summed from its first edge to its last. */
  ghost function PathLength(G: Adjacency, p: seq<nat>): real
    requires IsPath(G, p)
    decreases |p|
  {
    if |p| == 1 then 0.0 else PathLength(G, p[..|p| - 1]) + G[p[|p| - 2]][p[|p| - 1]]
  }

  /** With non-negative lengths no walk is shorter than 0. */
  lemma {:induction false} PathLengthNonNegative(G: Adjacency, p: seq<nat>)
    requires NonNegative(G) && IsPath(G, p)
    ensures PathLength(G, p) >= 0.0
    decreases |p|
  {
    if |p| > 1 {
      PathLengthNonNegative(G, p[..|p| - 1]);
    }
  }

  /** A prefix of a walk is a walk, and with non-negative lengths no longer than the whole. */
  lemma {:induction false} PathPrefix(G: Adjacency, p: seq<nat>, k: nat)
    requires IsPath(G, p) && 1 <= k <= |p|
    ensures IsPath(G, p[..k])
    ensures NonNegative(G) ==> PathLength(G, p[..k]) <= PathLength(G, p)
    decreases |p|
  {
    if k < |p| {
      var q := p[..|p| - 1];
      PathPrefix(G, q, k);
      assert q[..k] == p[..k];
      assert PathLength(G, p) == PathLength(G, q) + G[p[|p| - 2]][p[|p| - 1]];
      if NonNegative(G) {
        assert p[|p| - 2] in G && p[|p| - 1] in G[p[|p| - 2]];
        assert G[p[|p| - 2]][p[|p| - 1]] >= 0.0;
      }
    } else {
      assert p[..k] == p;
    }
  }

  /**
   * The final distances are shortest: with non-negative lengths no walk of G
   * from the source to a final node is shorter than its final distance.
   */
  ghost predicate Shortest(G: Adjacency, source: nat, s: State) {
    NonNegative(G) ==>
      forall p :: IsPath(G, p) && p[0] == source && p[|p| - 1] in s.dist ==> s.dist[p[|p| - 1]] <= PathLength(G, p)
  }

  /** A walk from a final node to one that is not leaves the final nodes at some edge. */
  lemma FirstOutside(s: State, p: seq<nat>) returns (k: nat)
    requires |p| > 0 && p[0] in s.dist && p[|p| - 1] !in s.dist
    ensures 1 <= k < |p| && p[k - 1] in s.dist && p[k] !in s.dist
  {
    k := 1;
    while p[k] in s.dist
      invariant 1 <= k < |p| && p[k - 1] in s.dist
      decreases |p| - k
    {
      k := k + 1;
    }
  }

  /**
   * Where a walk from the source first leaves the final nodes, its next node
   * is already seen no farther than the walk's whole length.
   */
  lemma CrossingBound(G: Adjacency, source: nat, s: State, p: seq<nat>, k: nat)
    requires NonNegative(G) && Expanded(G, s) && Shortest(G, source, s)
    requires IsPath(G, p) && p[0] == source && 1 <= k < |p| && p[k - 1] in s.dist
    ensures p[k] in s.seen && s.seen[p[k]] <= PathLength(G, p)
  {
    PathPrefix(G, p, k);
    PathPrefix(G, p, k + 1);
    assert p[..k + 1][..k] == p[..k];
    assert s.dist[p[k - 1]] <= PathLength(G, p[..k]);
  }

  /**
   * With non-negative lengths the least entry of the fringe is no longer than
   * any walk from the source to its node: such a walk leaves the final nodes
   * somewhere, and the first node outside them already has an entry no longer
   * than the walk up to it.
   */
  lemma LeastIsShortest(G: Adjacency, source: nat, s: State, rank: map<nat, nat>, e: Entry, p: seq<nat>)
    requires NonNegative(G) && Inv(G, source, s, rank) && Expanded(G, s) && Shortest(G, source, s)
    requires Least(e, s.fringe) && e.node !in s.dist
    requires IsPath(G, p) && p[0] == source && p[|p| - 1] == e.node
    ensures e.d <= PathLength(G, p)
  {
    var x: nat;
    if e.node == source {
      x := source;
      PathLengthNonNegative(G, p);
    } else {
      assert source in s.dist;
      var k := FirstOutside(s, p);
      CrossingBound(G, source, s, p, k);
      x := p[k];
    }
    var c :| Entry(s.seen[x], c, x) in s.fringe;
    assert Before(e, Entry(s.seen[x], c, x));
  }

  /** Making the least entry's node final keeps the final distances shortest. */
  lemma FinalizeShortest(G: Adjacency, source: nat, s: State, rank: map<nat, nat>, e: Entry)
    requires Inv(G, source, s, rank) && Expanded(G, s) && Shortest(G, source, s)
    requires Least(e, s.fringe) && e.node !in s.dist
    ensures Shortest(G, source, s.(fringe := s.fringe - {e}, dist := s.dist[e.node := e.d]))
  {
    var t := s.(fringe := s.fringe - {e}, dist := s.dist[e.node := e.d]);
    if NonNegative(G) {
      forall p | IsPath(G, p) && p[0] == source && p[|p| - 1] in t.dist ensures t.dist[p[|p| - 1]] <= PathLength(G, p) {
        if p[|p| - 1] == e.node {
          LeastIsShortest(G, source, s, rank, e, p);
        }
      }
    }
  }

  /**
   * With sinks, some sink was still pending when each node became final: the
   * search goes on until the last sink is final.  With no sinks this says
   * nothing, as nothing but an empty heap ends that search (`Explore`).
   */
  ghost predicate EarlyStop(sinks: seq<nat>, rank: map<nat, nat>) {
    sinks != [] ==> forall x :: x in rank ==> exists k :: 0 <= k < |sinks| && (sinks[k] !in rank || rank[sinks[k]] >= rank[x])
  }

  function SinkSet(sinks: seq<nat>): (t: set<nat>)
    ensures forall x :: x in t <==> x in sinks
  {
    set k | 0 <= k < |sinks| :: sinks[k]
  }

  /**
   * What holds between two turns of the search loop: the invariant, distinct
   * counters, no entry nearer than a final node, shortest final distances,
   * the early stop, and `targets` holding exactly the sinks not yet final.
   */
  ghost predicate Searching(G: Adjacency, source: nat, sinks: seq<nat>, s: State, rank: map<nat, nat>, targets: set<nat>) {
    && Inv(G, source, s, rank) && DistinctCounts(s.fringe) && Monotone(G, s) && Shortest(G, source, s) && EarlyStop(sinks, rank)
    && (forall x :: x in targets <==> x in sinks && x !in s.dist)
  }

  /**
   * One turn of `while fringe`: pop the least entry; skip a node already
   * final; otherwise make it final and, if it is a pending sink, strike it and
   * report `done` when none is left; otherwise expand it.  `G_succ[v]` raises KeyError
   * for a node with no adjacency entry, which can only be the source.
   */
  method Step(G: Adjacency, ghost source: nat, ghost sinks: seq<nat>, ghost nodes: set<nat>,
              s: State, ghost rank: map<nat, nat>, targets: set<nat>)
    returns (r: Result<State, PathError>, ghost rank': map<nat, nat>, targets': set<nat>, done: bool)
    requires Closed(G) && nodes == G.Keys + {source} && s.fringe != {}
    requires Searching(G, source, sinks, s, rank, targets) && Expanded(G, s) && (sinks != [] ==> targets != {})
    ensures r.Failure? ==> (r.error == NegativeWeights && !NonNegative(G)) || (r.error == KeyError(source) && source !in G)
    ensures r.Success? ==> Searching(G, source, sinks, r.value, rank', targets')
    ensures r.Success? && done ==> targets' == {} && sinks != []
    ensures r.Success? && !done ==> Expanded(G, r.value) && (sinks != [] ==> targets' != {})
    ensures r.Success? ==>
              || |nodes - r.value.dist.Keys| < |nodes - s.dist.Keys|
              || (r.value.dist == s.dist && |r.value.fringe| < |s.fringe|)
  {
    LeastExists(s.fringe);
    var e :| Least(e, s.fringe);
    var v := e.node;
    if v in s.dist {
      var t := s.(fringe := s.fringe - {e});
      SkipSearching(G, source, sinks, s, rank, targets, e, t);
      return Success(t), rank, targets, false;
    }
    rank' := rank[v := |s.dist|];
    targets' := if v in targets then targets - {v} else targets;
    var t := s.(fringe := s.fringe - {e}, dist := s.dist[v := e.d]);
    FinalizeSearching(G, source, sinks, nodes, s, rank, targets, e, t, rank', targets');
    if v in targets && targets' == {} {
      return Success(t), rank', targets', true;
    }
    if v !in G {
      return Failure(KeyError(v)), rank', targets', false;
    }
    r := Expand(G, source, t, v, rank');
    done := false;
    if r.Success? {
      SameDistSearching(G, source, sinks, t, r.value, rank', targets');
      ExpandedAfter(G, s, t, r.value, v, e.d);
    }
  }

  /** Skipping an entry keeps the search state, and shortens the fringe. */
  lemma SkipSearching(G: Adjacency, source: nat, sinks: seq<nat>, s: State, rank: map<nat, nat>, targets: set<nat>, e: Entry, t: State)
    requires Searching(G, source, sinks, s, rank, targets) && Expanded(G, s)
    requires e in s.fringe && e.node in s.dist && t == s.(fringe := s.fringe - {e})
    ensures Searching(G, source, sinks, t, rank, targets) && Expanded(G, t)
    ensures t.dist == s.dist && |t.fringe| < |s.fringe|
  {
    SkipKeeps(G, source, s, rank, e);
  }

  /** Making the least entry's node final keeps the search state, and brings the loop nearer its end. */
  lemma FinalizeSearching(G: Adjacency, source: nat, sinks: seq<nat>, nodes: set<nat>, s: State, rank: map<nat, nat>,
                          targets: set<nat>, e: Entry, t: State, rank': map<nat, nat>, targets': set<nat>)
    requires nodes == G.Keys + {source} && Searching(G, source, sinks, s, rank, targets) && (sinks != [] ==> targets != {})
    requires Expanded(G, s) && Least(e, s.fringe) && e.node !in s.dist
    requires t == s.(fringe := s.fringe - {e}, dist := s.dist[e.node := e.d]) && rank' == rank[e.node := |s.dist|]
    requires targets' == if e.node in targets then targets - {e.node} else targets
    ensures Searching(G, source, sinks, t, rank', targets')
    ensures NonNegative(G) ==> forall x :: x in t.dist ==> t.dist[x] <= t.dist[e.node]
    ensures |nodes - t.dist.Keys| < |nodes - s.dist.Keys|
  {
    var v := e.node;
    FinalizeKeeps(G, source, s, rank, e, t, rank');
    FinalizeMonotone(G, s, e);
    FinalizeShortest(G, source, s, rank, e);
    FinalizeEarlyStop(sinks, s, rank, v);
    assert v in nodes;
    FewerLeft(nodes, s.dist.Keys, v);
  }

  /** Expanding a node changes no final distance, so the search state carries over. */
  lemma SameDistSearching(G: Adjacency, source: nat, sinks: seq<nat>, s: State, t: State, rank: map<nat, nat>, targets: set<nat>)
    requires Searching(G, source, sinks, s, rank, targets)
    requires Inv(G, source, t, rank) && DistinctCounts(t.fringe) && Monotone(G, t) && t.dist == s.dist
    ensures Searching(G, source, sinks, t, rank, targets)
  {
  }

  /**
   * The search loop, `while fringe`, from the source alone at distance 0.  On
   * success every sink seen is final, every sink reachable is seen, and the
   * final distances are shortest.  It ends either at the break, every sink
   * final, or with an empty heap, every reachable node final; with no sinks
   * only the latter.
   */
  method Explore(G: Adjacency, source: nat, sinks: seq<nat>) returns (r: Result<State, PathError>, ghost rank: map<nat, nat>)
    requires Closed(G)
    ensures r.Failure? ==> (r.error == NegativeWeights && !NonNegative(G)) || (r.error == KeyError(source) && source !in G)
    ensures r.Success? ==> Inv(G, source, r.value, rank) && EarlyStop(sinks, rank)
    ensures r.Success? ==> forall x :: x in sinks && x in r.value.seen ==> x in r.value.dist
    ensures r.Success? ==> forall x :: x in sinks && Reachable(G, source, x) ==> x in r.value.seen
    ensures r.Success? ==> Shortest(G, source, r.value)
    ensures r.Success? ==>
              || (sinks != [] && forall x :: x in sinks ==> x in r.value.dist)
              || (r.value.fringe == {} && forall x :: Reachable(G, source, x) ==> x in r.value.dist)
  {
    var s := State(map[], map[source := 0.0], map[source := []], {Entry(0.0, 0, source)}, 1);
    var targets := SinkSet(sinks);
    rank := map[];
    StartKeeps(G, source, s, rank);
    assert sinks != [] ==> sinks[0] in targets;
    ghost var nodes := G.Keys + {source};
    ghost var stopped := false;
    while s.fringe != {}
      invariant Searching(G, source, sinks, s, rank, targets)
      invariant !stopped && Expanded(G, s) && (sinks != [] ==> targets != {})
      decreases |nodes - s.dist.Keys|, |s.fringe|
    {
      var x, targets', done;
      ghost var rank';
      x, rank', targets', done := Step(G, source, sinks, nodes, s, rank, targets);
      if x.Failure? {
        return x, rank';
      }
      s, rank, targets := x.value, rank', targets';
      if done {
        stopped := true;
        break;
      }
    }
    if !stopped {
      EmptyFringeFinal(s);
      forall x | Reachable(G, source, x) ensures x in s.dist {
        SeenCoversReachable(G, source, s, x);
      }
    }
    return Success(s), rank;
  }

  lemma FinalizeEarlyStop(sinks: seq<nat>, s: State, rank: map<nat, nat>, v: nat)
    requires EarlyStop(sinks, rank) && (forall x :: x in rank <==> x in s.dist) && v !in s.dist
    requires forall x :: x in rank ==> rank[x] < |s.dist|
    requires sinks != [] ==> exists k :: 0 <= k < |sinks| && sinks[k] !in s.dist
    ensures EarlyStop(sinks, rank[v := |s.dist|])
  {
    if sinks != [] {
      var rank' := rank[v := |s.dist|];
      forall x | x in rank' ensures exists k :: 0 <= k < |sinks| && (sinks[k] !in rank' || rank'[sinks[k]] >= rank'[x]) {
        if x == v {
          var k :| 0 <= k < |sinks| && sinks[k] !in s.dist;
          assert sinks[k] !in rank' || rank'[sinks[k]] >= rank'[x];
        } else {
          var k :| 0 <= k < |sinks| && (sinks[k] !in rank || rank[sinks[k]] >= rank[x]);
          assert sinks[k] !in rank' || rank'[sinks[k]] >= rank'[x];
        }
      }
    }
  }
}
