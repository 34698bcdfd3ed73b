/**
 * `calculatePath(source, destination, algorithm)` of `src/api/aviation.js`:
 * build the graph of the airports, run the path finder the algorithm name
 * selects (Dijkstra for any name it does not know), throw "No path found
 * from ... to ..." when there is no result or its distance is `Infinity`,
 * and otherwise return the result together with the algorithm name.
 *
 * The graph between the airports is complete, so every request succeeds:
 * each finder returns a path between the two airports, the duration
 * follows the distance, and the distance is the shortest one except for
 * the A* with a heuristic that breaks the triangle inequality.
 */
module ApiAviationJs {
  import opened Paths
  import opened Types
  import opened Relaxation
  import opened AviationJsGraph
  import JsGraph
  import AviationJsDijkstra
  import AviationJsAStar
  import AviationJsFloyd
  import AviationJsBellmanFord

  /** `if (!result || result.distance === Infinity) throw ...; return { ...result, algorithm }`. */
  function Respond(algorithm: string, source: Node, destination: Node, result: Option<Answer>): Result<Route> {
    if result.None? || result.value.distance.Inf? then Failure(JsGraph.NoPathFrom(source, destination))
    else Success(Route(algorithm, result.value.path, result.value.distance.v, FlightMinutes(result.value.distance.v)))
  }

  /**
   * The `switch (algorithm)` on the built graph: Dijkstra for any name it
   * does not know. Every finder returns a path between the two airports,
   * and nothing is thrown: the legs are non-negative, so Bellman-Ford finds
   * no negative cycle.
   */
  method Select(graph: Weights, measure: Measure, source: Node, destination: Node, algorithm: string)
    returns (thrown: Option<string>, result: Option<Answer>)
    requires Complete(graph, AIRPORTS, measure) && source in AIRPORTS && destination in AIRPORTS
    requires algorithm == "floyd-warshall" ==> Apart(AIRPORTS, measure)
    ensures thrown.None? && result.Some? && result.value.distance.Fin?
    ensures IsPath(graph, result.value.path, source, destination)
    ensures algorithm == "astar" ==> PathWeight(graph, result.value.path) <= result.value.distance.v
    ensures algorithm != "astar" || Triangle(measure) ==>
      && PathWeight(graph, result.value.path) == result.value.distance.v
      && IsShortest(graph, source, destination, result.value.distance)
  {
    CompleteAmong(graph, AIRPORTS, measure);
    CompleteClosed(graph, AIRPORTS, measure);
    CompleteReachable(graph, AIRPORTS, measure, source, destination);
    thrown := None;
    if algorithm == "astar" {
      var h := (v: Node) => Heuristic(AIRPORTS, measure, v, destination);
      result := AviationJsAStar.AStar(graph, h, source, destination);
      if Triangle(measure) {
        HeuristicConsistent(graph, AIRPORTS, measure, destination);
        assert Consistent(graph, h);
      }
    } else if algorithm == "floyd-warshall" {
      CompletePositive(graph, AIRPORTS, measure);
      var answer := AviationJsFloyd.FloydWarshall(graph, source, destination);
      result := Some(answer);
    } else if algorithm == "bellman-ford" {
      NonNegativeNoCycle(graph, source);
      var outcome := AviationJsBellmanFord.BellmanFord(graph, source, destination);
      match outcome {
        case Failure(error) => thrown, result := Some(error), None;
        case Success(answer) => result := Some(answer);
      }
    } else {
      var answer := AviationJsDijkstra.Dijkstra(graph, source, destination);
      result := Some(answer);
    }
  }

  /**
   * The request for two airports. Floyd-Warshall needs distinct airports
   * apart (with a zero-length leg its walk along `next` could go round a
   * zero cycle); the other finders need nothing. Under the triangle
   * inequality every finder reports the direct distance.
   */
  method CalculatePath(measure: Measure, source: Node, destination: Node, algorithm: string) returns (r: Result<Route>)
    requires source in AIRPORTS && destination in AIRPORTS
    requires algorithm == "floyd-warshall" ==> Apart(AIRPORTS, measure)
    ensures r.Success? && r.value.algorithm == algorithm
    ensures r.Success? ==>
      && IsPath(Network(AIRPORTS, measure), r.value.path, source, destination)
      && r.value.duration == FlightMinutes(r.value.distance)
    ensures r.Success? && algorithm == "astar" ==>
      PathWeight(Network(AIRPORTS, measure), r.value.path) <= r.value.distance
    ensures r.Success? && (algorithm != "astar" || Triangle(measure)) ==>
      && PathWeight(Network(AIRPORTS, measure), r.value.path) == r.value.distance
      && IsShortest(Network(AIRPORTS, measure), source, destination, Fin(r.value.distance))
    ensures r.Success? && Triangle(measure) ==>
      r.value.distance == if source == destination then 0 else measure(source, destination)
  {
    var graph := BuildGraph(AIRPORTS, measure);
    CompleteIsNetwork(graph, AIRPORTS, measure);
    var thrown, result := Select(graph, measure, source, destination, algorithm);
    match thrown {
      case Some(error) => r := Failure(error);
      case None => r := Respond(algorithm, source, destination, result);
    }
    if Triangle(measure) {
      DirectIsShortest(graph, AIRPORTS, measure, source, destination);
      ShortestUnique(graph, source, destination, result.value.distance,
                     Fin(if source == destination then 0 else measure(source, destination)));
    }
  }
}
