/**
 * `src/api/aviation.ts`: the mock backend. It builds its own graph from a
 * smaller inline table with the same loop as `createGraph`, runs the
 * Dijkstra loop of `src/utils/dijkstra.ts` (the code is the same, line for
 * line) and turns an empty or foreign path into an error.
 */
module ApiAviationTs {
  import opened Paths
  import opened TsGraph
  import opened Types
  import opened Airports
  import UtilsDijkstra

  /** `airports`, the mock airport data. */
  const AIRPORTS: seq<Airport> := [
    Airport("DEL", "Indira Gandhi International Airport", "New Delhi"),
    Airport("BOM", "Chhatrapati Shivaji International Airport", "Mumbai"),
    Airport("MAA", "Chennai International Airport", "Chennai"),
    Airport("BLR", "Kempegowda International Airport", "Bangalore"),
    Airport("CCU", "Netaji Subhas Chandra Bose International Airport", "Kolkata"),
    Airport("HYD", "Rajiv Gandhi International Airport", "Hyderabad"),
    Airport("COK", "Cochin International Airport", "Kochi"),
    Airport("PNQ", "Pune Airport", "Pune")
  ]

  /** `routes`, the mock flight routes. */
  const ROUTES: seq<RouteEntry> := [
    RouteEntry("DEL", "BOM", 1148, 130),
    RouteEntry("DEL", "MAA", 1760, 165),
    RouteEntry("DEL", "BLR", 1740, 165),
    RouteEntry("DEL", "CCU", 1305, 140),
    RouteEntry("DEL", "HYD", 1253, 140),
    RouteEntry("BOM", "MAA", 1033, 130),
    RouteEntry("BOM", "BLR", 842, 110),
    RouteEntry("BOM", "HYD", 623, 95),
    RouteEntry("BOM", "COK", 1008, 125),
    RouteEntry("BOM", "PNQ", 123, 45),
    RouteEntry("MAA", "BLR", 291, 60),
    RouteEntry("MAA", "CCU", 1382, 150),
    RouteEntry("MAA", "HYD", 565, 90),
    RouteEntry("MAA", "COK", 510, 85),
    RouteEntry("BLR", "HYD", 497, 85),
    RouteEntry("BLR", "COK", 365, 70),
    RouteEntry("CCU", "HYD", 1553, 155),
    RouteEntry("HYD", "PNQ", 520, 90)
  ]

  /** The message `calculatePath` throws. */
  const NO_PATH: string := "No path found between these airports"

  /** The codes of the inline table. */
  const CODES: set<string> := {"DEL", "BOM", "MAA", "BLR", "CCU", "HYD", "COK", "PNQ"}

  lemma CodesListed()
    ensures forall c :: c in CODES ==> Listed(AIRPORTS, Code(c))
  {
    forall c | c in CODES ensures Listed(AIRPORTS, Code(c)) {
      var k := if c == "DEL" then 0 else if c == "BOM" then 1 else if c == "MAA" then 2 else if c == "BLR" then 3
        else if c == "CCU" then 4 else if c == "HYD" then 5 else if c == "COK" then 6 else 7;
      assert Code(AIRPORTS[k].code) == Code(c);
    }
  }

  /** The 8 airport codes are distinct. */
  lemma CodesDistinct()
    ensures |AIRPORTS| == 8
    ensures forall i, j :: 0 <= i < j < |AIRPORTS| ==> AIRPORTS[i].code != AIRPORTS[j].code
  {
  }

  lemma RoutesInCodes()
    ensures forall i :: 0 <= i < |ROUTES| ==> ROUTES[i].from in CODES && ROUTES[i].to in CODES
  {
  }

  /** The 18 routes have positive weights and no self-loop. */
  lemma RoutesProper()
    ensures |ROUTES| == 18
    ensures forall i :: 0 <= i < |ROUTES| ==> ROUTES[i].from != ROUTES[i].to
    ensures forall i :: 0 <= i < |ROUTES| ==> ROUTES[i].distance > 0 && ROUTES[i].duration > 0
  {
  }

  /** The 18 routes join listed airports; the tables are usable. */
  lemma TablesValid()
    ensures Usable(AIRPORTS, ROUTES)
  {
    RoutesInCodes();
    CodesListed();
    RoutesProper();
    assert forall k :: 0 <= k < |AIRPORTS| ==> |AIRPORTS[k].code| == 3;
  }

  /** What `calculatePath(source, destination)` answers over graph `g`. */
  ghost predicate Answers(g: Graph, source: Node, destination: Node, r: Result<Route>) {
    var w := DistanceWeights(g);
    && (r.Success? <==> Reachable(w, source, destination))
    && (r.Failure? ==> r.error == NO_PATH)
    && (r.Success? ==>
          && r.value.algorithm == "dijkstra"
          && IsPath(w, r.value.path, source, destination)
          && PathWeight(w, r.value.path) == r.value.distance
          && IsShortest(w, source, destination, Fin(r.value.distance))
          && r.value.duration == PathWeight(DurationWeights(g), r.value.path) as real)
  }

  /**
   * `calculatePath(source, destination)`: a shortest route over the inline
   * tables, or the error when the destination cannot be reached.
   */
  method CalculatePath(source: Node, destination: Node) returns (r: Result<Route>)
    requires Listed(AIRPORTS, destination) || source != destination
    ensures exists g :: Built(AIRPORTS, ROUTES, g) && Answers(g, source, destination, r)
  {
    TablesValid();
    var graph := CreateGraph(AIRPORTS, ROUTES);
    BuiltUsable(AIRPORTS, ROUTES, graph);
    var w := DistanceWeights(graph);
    if destination !in graph {
      // The search never reaches it: the reconstructed path is [destination].
      NotInGraph(graph, source, destination);
      r := Failure(NO_PATH);
      return;
    }
    PositiveNonNegative(w);
    var found := UtilsDijkstra.Dijkstra(graph, source, destination);
    DijkstraAnswers(graph, source, destination, found);
    r := Verdict(found, source);
  }

  /** Lines 116-127: a path that is empty or does not start at the source is an error; otherwise the route. */
  function Verdict(found: PathResult, source: Node): (r: Result<Route>)
    ensures r.Failure? <==> |found.path| == 0 || found.path[0] != source
    ensures r.Failure? ==> r.error == NO_PATH
    ensures r.Success? && found.distance.Fin? && found.duration.Fin? ==>
      r.value == Route("dijkstra", found.path, found.distance.v, found.duration.v as real)
  {
    if |found.path| == 0 || found.path[0] != source then Failure(NO_PATH)
    else
      // `Infinity` does not arise here: a path starting at the source was found.
      var distance := if found.distance.Fin? then found.distance.v else 0;
      var duration := if found.duration.Fin? then found.duration.v else 0;
      Success(Route("dijkstra", found.path, distance, duration as real))
  }

  /** What the Dijkstra search promises, turned into the answer: a path starts at the source exactly when one exists. */
  lemma DijkstraAnswers(graph: Graph, source: Node, destination: Node, found: PathResult)
    requires WellFormed(graph) && Positive(DistanceWeights(graph))
    requires found.distance.Fin? ==>
      && IsPath(DistanceWeights(graph), found.path, source, destination)
      && PathWeight(DistanceWeights(graph), found.path) == found.distance.v
      && found.duration == Fin(PathWeight(DurationWeights(graph), found.path))
    requires found.distance.Inf? <==> !Reachable(DistanceWeights(graph), source, destination)
    requires found.distance.Inf? ==> found.path == [destination] && found.duration == Inf
    requires IsShortest(DistanceWeights(graph), source, destination, found.distance)
    ensures Answers(graph, source, destination, Verdict(found, source))
  {
    var w := DistanceWeights(graph);
    if found.distance.Inf? && source == destination {
      assert IsPath(w, [source], source, destination);
    }
  }

  /** An airport outside a well-formed graph is reached only from itself. */
  lemma NotInGraph(g: Graph, source: Node, destination: Node)
    requires WellFormed(g) && destination !in g && source != destination
    ensures !Reachable(DistanceWeights(g), source, destination)
  {
    var w := DistanceWeights(g);
    forall p ensures !IsPath(w, p, source, destination) {
      if |p| >= 2 && p[|p| - 1] == destination {
        assert !IsEdge(w, p[|p| - 2], p[|p| - 1]);
      }
    }
  }

  /** `mockBackendRequest(source, destination)`: passes `calculatePath`'s answer or error through. */
  method MockBackendRequest(source: Node, destination: Node) returns (r: Result<Route>)
    requires Listed(AIRPORTS, destination) || source != destination
    ensures exists g :: Built(AIRPORTS, ROUTES, g) && Answers(g, source, destination, r)
  {
    r := CalculatePath(source, destination);
  }

  /**
   * The worked example: from BOM to PNQ the answer is the direct route,
   * 123 km in 45 minutes.
   */
  lemma BomToPnq(g: Graph, r: Result<Route>)
    requires Built(AIRPORTS, ROUTES, g) && Answers(g, Code("BOM"), Code("PNQ"), r)
    ensures r == Success(Route("dijkstra", [Code("BOM"), Code("PNQ")], 123, 45.0))
  {
    var bom, pnq := Code("BOM"), Code("PNQ");
    var w := DistanceWeights(g);
    BomPnqInGraph(g);
    assert IsPath(w, [bom, pnq], bom, pnq);
    assert r.Success?;
    var p := r.value.path;
    assert Le(Fin(r.value.distance), Fin(PathWeight(w, [bom, pnq])));
    LegsAtLeast(g);
    WeightAtLeast(w, p, 123);
    var legs := |p| - 1;
    assert PathWeight(w, [bom, pnq]) == 123;
    assert PathWeight(w, p) == r.value.distance <= 123;
    assert 123 * legs <= PathWeight(w, p);
    assert legs <= 1;
    assert p[0] != p[|p| - 1];
    assert |p| == 2;
    assert p == [bom, pnq];
  }

  /** The leg BOM -> PNQ of the inline graph is entry 10's: 123 km, 45 minutes. */
  lemma BomPnqInGraph(g: Graph)
    requires Built(AIRPORTS, ROUTES, g)
    ensures Code("BOM") in g && Code("PNQ") in g[Code("BOM")] && g[Code("BOM")][Code("PNQ")] == Edge(123, 45)
  {
    var bom, pnq := Code("BOM"), Code("PNQ");
    BomPnqLeg();
    LastLegIs(ROUTES, |ROUTES|, 9, bom, pnq);
    assert ROUTES[..|ROUTES|] == ROUTES;
    assert Listed(AIRPORTS, bom) by {
      assert Code(AIRPORTS[1].code) == bom;
    }
    assert Lookup(g[bom], pnq) == LastLeg(ROUTES, bom, pnq);
  }

  /** Entry 10 joins BOM and PNQ, and no later entry does. */
  lemma BomPnqLeg()
    ensures Joins(ROUTES[9], Code("BOM"), Code("PNQ"))
    ensures forall j :: 9 < j < |ROUTES| ==> !Joins(ROUTES[j], Code("BOM"), Code("PNQ"))
  {
  }

  /** No leg of the inline graph is shorter than BOM-PNQ's 123 km. */
  lemma LegsAtLeast(g: Graph)
    requires Built(AIRPORTS, ROUTES, g)
    ensures forall u, v {:trigger IsEdge(DistanceWeights(g), u, v)} :: IsEdge(DistanceWeights(g), u, v) ==> DistanceWeights(g)[u][v] >= 123
  {
    assert forall i :: 0 <= i < |ROUTES| ==> ROUTES[i].distance >= 123;
    forall u, v | IsEdge(DistanceWeights(g), u, v) ensures DistanceWeights(g)[u][v] >= 123 {
      LegFromRoute(AIRPORTS, ROUTES, g, u, v);
    }
  }
}
