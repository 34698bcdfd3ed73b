/**
 * The graph side of `src/api/aviation.js`: its airport codes, `buildGraph`,
 * which joins every ordered pair of distinct airports by the great-circle
 * distance between them, the `heuristic` of its A*, and what the four path
 * finders there have in common. The distance is floating-point geometry
 * (Haversine) in the source; here it is a parameter `measure`.
 */
module AviationJsGraph {
  import opened Paths

  /** The codes of `airports`, in order. */
  const AIRPORTS: seq<Node> := [
    Code("DEL"), Code("BOM"), Code("MAA"), Code("BLR"), Code("CCU"), Code("HYD"),
    Code("GOI"), Code("JAI"), Code("COK"), Code("AMD"), Code("IXC"), Code("PNQ")
  ]

  /** `calculateDistance` between two airports' positions, as a whole number of km. */
  type Measure = (Node, Node) -> nat

  /** The distance never exceeds a detour through a third airport. */
  ghost predicate Triangle(measure: Measure) {
    forall a, b, c :: measure(a, c) <= measure(a, b) + measure(b, c)
  }

  /** Distinct airports are a positive distance apart. */
  ghost predicate Apart(airports: seq<Node>, measure: Measure) {
    forall a, b :: a in airports && b in airports && a != b ==> measure(a, b) > 0
  }

  /** What `buildGraph` leaves: a row per airport, holding every other airport at its distance. */
  ghost predicate Complete(graph: Weights, airports: seq<Node>, measure: Measure) {
    && (forall u :: u in graph <==> u in airports)
    && (forall u, v {:trigger v in graph[u]} :: u in graph ==> (v in graph[u] <==> v in airports && v != u))
    && (forall u, v {:trigger graph[u][v]} :: u in graph && v in graph[u] ==> graph[u][v] == measure(u, v))
  }

  /**
   * `buildGraph()`: for each airport an empty row, then one entry per other
   * airport (`airport.code !== otherAirport.code`). A repeated code starts
   * its row afresh and fills it the same way.
   */
  method BuildGraph(airports: seq<Node>, measure: Measure) returns (graph: Weights)
    ensures Complete(graph, airports, measure)
  {
    graph := map[];
    for a := 0 to |airports|
      invariant forall u :: u in graph <==> u in airports[..a]
      invariant forall u, v {:trigger v in graph[u]} :: u in graph ==> (v in graph[u] <==> v in airports && v != u)
      invariant forall u, v {:trigger graph[u][v]} :: u in graph && v in graph[u] ==> graph[u][v] == measure(u, v)
    {
      var airport := airports[a];
      var row: map<Node, int> := map[];
      for b := 0 to |airports|
        invariant forall v :: v in row <==> v in airports[..b] && v != airport
        invariant forall v :: v in row ==> row[v] == measure(airport, v)
      {
        var other := airports[b];
        if airport != other {
          row := row[other := measure(airport, other)];
        }
      }
      assert airports[..|airports|] == airports;
      graph := graph[airport := row];
      assert airports[..a + 1] == airports[..a] + [airport];
    }
    assert airports[..|airports|] == airports;
  }

  /** The flight network between the airports: every ordered pair of distinct airports at its distance. */
  ghost function Network(airports: seq<Node>, measure: Measure): (graph: Weights)
    ensures Complete(graph, airports, measure)
  {
    map u | u in airports :: map v | v in airports && v != u :: measure(u, v)
  }

  /** `buildGraph` leaves one graph only: the network. */
  lemma CompleteIsNetwork(graph: Weights, airports: seq<Node>, measure: Measure)
    requires Complete(graph, airports, measure)
    ensures graph == Network(airports, measure)
  {
    var n := Network(airports, measure);
    forall u | u in graph ensures graph[u] == n[u] {
    }
  }

  /** In the built graph every airport reaches every airport, directly. */
  lemma CompleteReachable(graph: Weights, airports: seq<Node>, measure: Measure, u: Node, v: Node)
    requires Complete(graph, airports, measure) && u in airports && v in airports
    ensures Reachable(graph, u, v)
  {
    if u == v {
      assert IsPath(graph, [u], u, v);
    } else {
      assert IsPath(graph, [u, v], u, v);
    }
  }

  /** The built graph has no self-loops, and every edge joins two airports at a non-negative distance. */
  lemma CompleteClosed(graph: Weights, airports: seq<Node>, measure: Measure)
    requires Complete(graph, airports, measure)
    ensures Closed(graph, graph.Keys) && NonNegative(graph)
    ensures forall v :: !IsEdge(graph, v, v)
  {
  }

  /** Distinct airports apart make every edge positive. */
  lemma CompletePositive(graph: Weights, airports: seq<Node>, measure: Measure)
    requires Complete(graph, airports, measure) && Apart(airports, measure)
    ensures Positive(graph)
  {
  }

  /** A symmetric distance gives a symmetric graph: each edge comes back at the same weight. */
  lemma CompleteSymmetric(graph: Weights, airports: seq<Node>, measure: Measure)
    requires Complete(graph, airports, measure)
    requires forall a, b :: measure(a, b) == measure(b, a)
    ensures forall u, v :: IsEdge(graph, u, v) ==> IsEdge(graph, v, u) && graph[v][u] == graph[u][v]
  {
  }

  /**
   * Under the triangle inequality no walk beats the direct flight: the
   * shortest distance between two airports is their distance (0 from an
   * airport to itself).
   */
  lemma DirectIsShortest(graph: Weights, airports: seq<Node>, measure: Measure, u: Node, v: Node)
    requires Complete(graph, airports, measure) && Triangle(measure)
    requires u in airports && v in airports
    ensures IsShortest(graph, u, v, Fin(if u == v then 0 else measure(u, v)))
  {
    forall p | IsPath(graph, p, u, v) ensures Le(Fin(if u == v then 0 else measure(u, v)), Fin(PathWeight(graph, p))) {
      if u != v {
        WalkAtLeastDirect(graph, airports, measure, p);
      } else {
        NonNegativeWeight(graph, p);
      }
    }
    if u == v {
      assert IsPath(graph, [u], u, v);
    } else {
      assert IsPath(graph, [u, v], u, v);
      assert PathWeight(graph, [u, v]) == measure(u, v) + PathWeight(graph, [v]);
    }
  }

  /** A walk between two airports weighs at least their distance. */
  lemma {:induction false} WalkAtLeastDirect(graph: Weights, airports: seq<Node>, measure: Measure, p: seq<Node>)
    requires Complete(graph, airports, measure) && Triangle(measure)
    requires |p| >= 2 && IsWalk(graph, p)
    ensures PathWeight(graph, p) >= measure(p[0], p[|p| - 1])
    decreases |p|
  {
    assert IsEdge(graph, p[0], p[1]);
    if |p| > 2 {
      var q := p[1..];
      assert IsWalk(graph, q) by {
        forall i | 0 <= i < |q| - 1 ensures IsEdge(graph, q[i], q[i + 1]) {
          assert q[i] == p[i + 1] && q[i + 1] == p[i + 2];
        }
      }
      WalkAtLeastDirect(graph, airports, measure, q);
      assert measure(p[0], p[|p| - 1]) <= measure(p[0], p[1]) + measure(p[1], p[|p| - 1]);
    }
  }

  /**
   * `heuristic(nodeA, nodeB)`: the distance between the two airports, or 0
   * when either code is not an airport (`!airportA || !airportB`).
   */
  function Heuristic(airports: seq<Node>, measure: Measure, a: Node, b: Node): nat {
    if a in airports && b in airports then measure(a, b) else 0
  }

  /**
   * Under the triangle inequality the heuristic towards any destination is
   * consistent on the built graph (and admissible, being 0 at the destination
   * when the distance from an airport to itself is 0).
   */
  lemma HeuristicConsistent(graph: Weights, airports: seq<Node>, measure: Measure, destination: Node)
    requires Complete(graph, airports, measure) && Triangle(measure)
    ensures Consistent(graph, (v: Node) => Heuristic(airports, measure, v, destination))
  {
    forall u, v | IsEdge(graph, u, v)
      ensures Heuristic(airports, measure, u, destination) <= graph[u][v] + Heuristic(airports, measure, v, destination)
    {
      if destination in airports {
        assert measure(u, destination) <= measure(u, v) + measure(v, destination);
      }
    }
  }

  /**
   * The part of a graph the path finders see: a neighbour that is not a
   * key has no entry in their tables, and comparing with that `undefined`
   * entry is false, so such an edge is never taken.
   */
  function Among(graph: Weights): (w: Weights)
    ensures Closed(w, graph.Keys)
    ensures forall u, v :: IsEdge(w, u, v) <==> IsEdge(graph, u, v) && v in graph
    ensures forall u, v :: IsEdge(w, u, v) ==> IsEdge(graph, u, v) && w[u][v] == graph[u][v]
  {
    map u | u in graph :: map v | v in graph[u] && v in graph :: graph[u][v]
  }

  /** The built graph is already closed, so the path finders see all of it. */
  lemma CompleteAmong(graph: Weights, airports: seq<Node>, measure: Measure)
    requires Complete(graph, airports, measure)
    ensures Among(graph) == graph
  {
    var w := Among(graph);
    forall u | u in graph ensures w[u] == graph[u] {
    }
  }

  /** What one of the four functions returns: `{ path, distance, duration }`, the duration following the distance. */
  datatype Answer = Answer(path: seq<Node>, distance: Dist)

  /** `distance * 60 / 800`: minutes at 800 km/h. */
  function FlightMinutes(distance: int): real {
    distance as real * 60.0 / 800.0
  }
}
