/**
 * The graph the JavaScript algorithms of `src/algorithms/` work on: for each
 * airport code an array of connections `{ to, distance }`, next to the list
 * of airports whose codes make up the node set. Parallel connections are
 * allowed; a leg then weighs as much as its lightest connection, which is
 * what every relaxation loop ends up using.
 */
module JsGraph {
  import opened Paths
  import opened Types

  /** One entry `{ to, distance }` of an adjacency array. */
  datatype Conn = Conn(to: Node, distance: int)

  /** `graph[code]` is the adjacency array of the airport `code`. */
  type AdjList = map<Node, seq<Conn>>

  /** The node set: the codes of the `airports` list. */
  function Codes(airports: seq<Node>): (V: set<Node>)
    ensures forall v :: v in V <==> v in airports
  {
    set v | v in airports
  }

  /** A list holds at least as many entries as distinct codes. */
  lemma {:induction false} CodesBound(airports: seq<Node>)
    ensures |Codes(airports)| <= |airports|
    decreases |airports|
  {
    if |airports| > 0 {
      var init := airports[..|airports| - 1];
      CodesBound(init);
      assert Codes(airports) == Codes(init) + {airports[|airports| - 1]} by {
        assert airports == init + [airports[|airports| - 1]];
      }
    }
  }

  /** `graph[u]`, where a missing row (`if (graph[current])`) has no connections. */
  function Row(graph: AdjList, u: Node): seq<Conn> {
    if u in graph then graph[u] else []
  }

  /** The distance of the lightest connection of `row` to `v`, if there is one. */
  function Lightest(row: seq<Conn>, v: Node): Option<int>
    decreases |row|
  {
    if |row| == 0 then None
    else
      var rest := Lightest(row[..|row| - 1], v);
      var c := row[|row| - 1];
      if c.to != v then rest
      else if rest.Some? && rest.value <= c.distance then rest
      else Some(c.distance)
  }

  /** `Lightest` finds exactly the connections to `v`, and the least of their distances. */
  lemma {:induction false} LightestFacts(row: seq<Conn>, v: Node)
    ensures Lightest(row, v).None? <==> forall k :: 0 <= k < |row| ==> row[k].to != v
    ensures Lightest(row, v).Some? ==> exists k :: 0 <= k < |row| && row[k].to == v && row[k].distance == Lightest(row, v).value
    ensures forall k :: 0 <= k < |row| && row[k].to == v ==> Lightest(row, v).Some? && Lightest(row, v).value <= row[k].distance
    decreases |row|
  {
    if |row| > 0 {
      var init := row[..|row| - 1];
      LightestFacts(init, v);
      assert forall k :: 0 <= k < |init| ==> init[k] == row[k];
      if Lightest(init, v).Some? && Lightest(row, v) == Lightest(init, v) {
        var k :| 0 <= k < |init| && init[k].to == v && init[k].distance == Lightest(init, v).value;
        assert row[k] == init[k];
      }
    }
  }

  /** One more connection changes the lightest one to its own endpoint only. */
  lemma LightestSnoc(row: seq<Conn>, i: nat, v: Node)
    requires i < |row|
    ensures Lightest(row[..i + 1], v) ==
      if row[i].to != v then Lightest(row[..i], v)
      else if Lightest(row[..i], v).Some? && Lightest(row[..i], v).value <= row[i].distance then Lightest(row[..i], v)
      else Some(row[i].distance)
  {
    assert row[..i + 1][..i] == row[..i];
  }

  /** The weight matrix of the graph over the airports `V`; connections off `V` are ignored. */
  function LegWeights(graph: AdjList, V: set<Node>): (w: Weights)
    ensures forall u :: u in w <==> u in graph && u in V
    ensures forall u, v {:trigger v in w[u]} :: u in w ==> (v in w[u] <==> v in V && Lightest(graph[u], v).Some?)
    ensures forall u, v {:trigger w[u][v]} :: u in w && v in w[u] ==> w[u][v] == Lightest(graph[u], v).value
  {
    map u | u in graph && u in V :: map v | v in V && Lightest(graph[u], v).Some? :: Lightest(graph[u], v).value
  }

  /** An edge of the weight matrix is a connection between two airports, and outweighs none of its parallels. */
  lemma EdgeOfWeights(graph: AdjList, V: set<Node>, u: Node, v: Node)
    ensures IsEdge(LegWeights(graph, V), u, v) <==> u in V && v in V && exists k :: 0 <= k < |Row(graph, u)| && Row(graph, u)[k].to == v
    ensures IsEdge(LegWeights(graph, V), u, v) ==> forall k :: 0 <= k < |graph[u]| && graph[u][k].to == v ==> LegWeights(graph, V)[u][v] <= graph[u][k].distance
  {
    LightestFacts(Row(graph, u), v);
  }

  lemma WeightsClosed(graph: AdjList, V: set<Node>)
    ensures Closed(LegWeights(graph, V), V)
  {
  }

  /** `distance / 10`: minutes at 10 km per minute. */
  function Minutes(distance: int): real {
    distance as real / 10.0
  }

  /** The message of the `Error` thrown when the destination cannot be reached. */
  function NoPathFrom(source: Node, destination: Node): string {
    "No path found from " + source.code + " to " + destination.code
  }
}
