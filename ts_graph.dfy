/**
 * The graph the TypeScript utilities work on:
 * `Record<string, Record<string, { distance, duration }>>`, and the result
 * `{ path, distance, duration }` every TypeScript path finder returns.
 */
module TsGraph {
  import opened Paths

  /** One flight leg: its distance (km) and its duration (minutes). */
  datatype Edge = Edge(distance: int, duration: int)

  /** `graph[u][v]` is the leg from u to v. */
  type Graph = map<Node, map<Node, Edge>>

  /** `{ path, distance, duration }`; the numbers may be `Infinity`. */
  datatype PathResult = PathResult(path: seq<Node>, distance: Dist, duration: Dist)

  /** The graph weighted by distance. */
  function DistanceWeights(g: Graph): (w: Weights)
    ensures forall u :: u in w <==> u in g
    ensures forall u, v {:trigger v in w[u]} :: u in g ==> (v in w[u] <==> v in g[u])
    ensures forall u, v {:trigger w[u][v]} :: u in g && v in g[u] ==> w[u][v] == g[u][v].distance
  {
    map u | u in g :: map v | v in g[u] :: g[u][v].distance
  }

  /** The graph weighted by duration. */
  function DurationWeights(g: Graph): (w: Weights)
    ensures forall u :: u in w <==> u in g
    ensures forall u, v {:trigger v in w[u]} :: u in g ==> (v in w[u] <==> v in g[u])
    ensures forall u, v {:trigger w[u][v]} :: u in g && v in g[u] ==> w[u][v] == g[u][v].duration
  {
    map u | u in g :: map v | v in g[u] :: g[u][v].duration
  }

  /**
   * What the graph builders guarantee: every leg ends at an airport of the
   * graph, and no airport code is empty (the empty string is falsy, and the
   * path reconstruction loops stop on it).
   */
  ghost predicate WellFormed(g: Graph) {
    && Code("") !in g
    && forall u :: u in g ==> g[u].Keys <= g.Keys
  }

  lemma WellFormedClosed(g: Graph)
    requires WellFormed(g)
    ensures Closed(DistanceWeights(g), g.Keys) && Closed(DurationWeights(g), g.Keys)
  {
  }
}
