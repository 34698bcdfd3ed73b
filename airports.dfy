/**
 * `src/utils/airports.ts`: the static airport and route tables and
 * `createGraph`, which turns them into the symmetric graph the TypeScript
 * path finders search. The same build loop, over a smaller table, is inlined
 * in `src/api/aviation.ts`; both use `CreateGraph` here.
 */
module Airports {
  import opened Paths
  import opened TsGraph

  /** The `Airport` record; its map position (floating point) is left out. */
  datatype Airport = Airport(code: string, name: string, city: string)

  /** An entry of a route table. */
  datatype RouteEntry = RouteEntry(from: string, to: string, distance: int, duration: int)

  /** `u` is the code of an airport of the table. */
  ghost predicate Listed(airports: seq<Airport>, u: Node) {
    exists k :: 0 <= k < |airports| && Code(airports[k].code) == u
  }

  /** Route `r` joins u and v, in one direction or the other. */
  predicate Joins(r: RouteEntry, u: Node, v: Node) {
    (Code(r.from) == u && Code(r.to) == v) || (Code(r.to) == u && Code(r.from) == v)
  }

  /** `row[v]`, absent or present. */
  function Lookup(row: map<Node, Edge>, v: Node): Option<Edge> {
    if v in row then Some(row[v]) else None
  }

  /**
   * The leg between u and v once every route has been written in both
   * directions: that of the last route joining them, later routes
   * overwriting earlier ones.
   */
  function LastLeg(routes: seq<RouteEntry>, u: Node, v: Node): Option<Edge>
  {
    if |routes| == 0 then None
    else
      var r := routes[|routes| - 1];
      if Joins(r, u, v) then Some(Edge(r.distance, r.duration)) else LastLeg(routes[..|routes| - 1], u, v)
  }

  /** A leg exists exactly when some route joins the pair, and it is the one of the last such route. */
  lemma {:induction false} LastLegFound(routes: seq<RouteEntry>, u: Node, v: Node)
    ensures LastLeg(routes, u, v).None? <==> forall i :: 0 <= i < |routes| ==> !Joins(routes[i], u, v)
    ensures LastLeg(routes, u, v).Some? ==>
      exists i ::
        && 0 <= i < |routes| && Joins(routes[i], u, v)
        && LastLeg(routes, u, v).value == Edge(routes[i].distance, routes[i].duration)
        && forall j :: i < j < |routes| ==> !Joins(routes[j], u, v)
    decreases |routes|
  {
    if |routes| > 0 {
      var n := |routes| - 1;
      LastLegFound(routes[..n], u, v);
      assert forall i :: 0 <= i < n ==> routes[..n][i] == routes[i];
      if Joins(routes[n], u, v) {
        assert LastLeg(routes, u, v).value == Edge(routes[n].distance, routes[n].duration);
      }
    }
  }

  /** What `createGraph` builds: a row per airport, each route in both directions, last route winning. */
  ghost predicate Built(airports: seq<Airport>, routes: seq<RouteEntry>, graph: Graph) {
    && (forall u :: u in graph <==> Listed(airports, u))
    && forall u, v {:trigger Lookup(graph[u], v)} :: u in graph ==> Lookup(graph[u], v) == LastLeg(routes, u, v)
  }

  /** Every route endpoint names an airport of the table (otherwise line 84 or 86 writes into an undefined row). */
  ghost predicate EndpointsListed(airports: seq<Airport>, routes: seq<RouteEntry>) {
    forall i :: 0 <= i < |routes| ==> Listed(airports, Code(routes[i].from)) && Listed(airports, Code(routes[i].to))
  }

  /** `createGraph()`, over the given tables. */
  method CreateGraph(airports: seq<Airport>, routes: seq<RouteEntry>) returns (graph: Graph)
    requires EndpointsListed(airports, routes)
    ensures Built(airports, routes, graph)
  {
    graph := map[];
    for a := 0 to |airports|
      invariant forall u :: u in graph <==> exists c :: 0 <= c < a && u == Code(airports[c].code)
      invariant forall u :: u in graph ==> graph[u] == map[]
    {
      graph := graph[Code(airports[a].code) := map[]];
    }
    for b := 0 to |routes|
      invariant forall u :: u in graph <==> Listed(airports, u)
      invariant forall u, v {:trigger Lookup(graph[u], v)} :: u in graph ==> Lookup(graph[u], v) == LastLeg(routes[..b], u, v)
    {
      var route := routes[b];
      var from, to := Code(route.from), Code(route.to);
      ghost var before := graph;
      graph := graph[from := graph[from][to := Edge(route.distance, route.duration)]];
      graph := graph[to := graph[to][from := Edge(route.distance, route.duration)]];
      BothWays(before, graph, route);
      forall u, v | u in graph ensures Lookup(graph[u], v) == LastLeg(routes[..b + 1], u, v) {
        LastLegStep(routes, b, u, v);
      }
    }
    assert routes[..|routes|] == routes;
  }

  /** Writing route `r` both ways changes exactly the legs it joins. */
  lemma BothWays(before: Graph, after: Graph, r: RouteEntry)
    requires Code(r.from) in before && Code(r.to) in before
    requires after == before[Code(r.from) := before[Code(r.from)][Code(r.to) := Edge(r.distance, r.duration)]]
                            [Code(r.to) := before[Code(r.from) := before[Code(r.from)][Code(r.to) := Edge(r.distance, r.duration)]][Code(r.to)][Code(r.from) := Edge(r.distance, r.duration)]]
    ensures forall u :: u in after <==> u in before
    ensures forall u, v {:trigger Lookup(after[u], v)} :: u in after ==>
      Lookup(after[u], v) == if Joins(r, u, v) then Some(Edge(r.distance, r.duration)) else Lookup(before[u], v)
  {
  }

  /** One more route overwrites exactly the legs it joins. */
  lemma LastLegStep(routes: seq<RouteEntry>, b: nat, u: Node, v: Node)
    requires b < |routes|
    ensures LastLeg(routes[..b + 1], u, v)
         == if Joins(routes[b], u, v) then Some(Edge(routes[b].distance, routes[b].duration)) else LastLeg(routes[..b], u, v)
  {
    assert routes[..b + 1][..b] == routes[..b];
  }

  /** The leg u -> v is the leg v -> u. */
  lemma {:induction false} LastLegSymmetric(routes: seq<RouteEntry>, u: Node, v: Node)
    ensures LastLeg(routes, u, v) == LastLeg(routes, v, u)
    decreases |routes|
  {
    if |routes| > 0 {
      LastLegSymmetric(routes[..|routes| - 1], u, v);
    }
  }

  /** The built graph is symmetric: a leg exists both ways, with the same weights. */
  lemma BuiltSymmetric(airports: seq<Airport>, routes: seq<RouteEntry>, graph: Graph, u: Node, v: Node)
    requires Built(airports, routes, graph) && u in graph && v in graph
    ensures v in graph[u] <==> u in graph[v]
    ensures v in graph[u] ==> graph[u][v] == graph[v][u]
  {
    LastLegSymmetric(routes, u, v);
    assert Lookup(graph[u], v) == LastLeg(routes, u, v);
    assert Lookup(graph[v], u) == LastLeg(routes, v, u);
  }

  /** The tables determine the graph: two graphs built from them are the same. */
  lemma BuiltUnique(airports: seq<Airport>, routes: seq<RouteEntry>, g1: Graph, g2: Graph)
    requires Built(airports, routes, g1) && Built(airports, routes, g2)
    ensures g1 == g2
  {
    forall u | u in g1 ensures g1[u] == g2[u] {
      forall v ensures v in g1[u] <==> v in g2[u] {
        assert Lookup(g1[u], v) == Lookup(g2[u], v);
      }
      forall v | v in g1[u] ensures g1[u][v] == g2[u][v] {
        assert Lookup(g1[u], v) == Lookup(g2[u], v);
      }
    }
  }

  /** Every route is in the graph, both ways: the one the app draws from each table entry. */
  lemma RouteInGraph(airports: seq<Airport>, routes: seq<RouteEntry>, graph: Graph, i: nat)
    requires Built(airports, routes, graph) && EndpointsListed(airports, routes) && i < |routes|
    ensures Code(routes[i].from) in graph && Code(routes[i].to) in graph
    ensures Code(routes[i].to) in graph[Code(routes[i].from)] && Code(routes[i].from) in graph[Code(routes[i].to)]
  {
    var u, v := Code(routes[i].from), Code(routes[i].to);
    assert Joins(routes[i], u, v) && Joins(routes[i], v, u);
    LastLegFound(routes, u, v);
    LastLegFound(routes, v, u);
    assert Lookup(graph[u], v) == LastLeg(routes, u, v);
    assert Lookup(graph[v], u) == LastLeg(routes, v, u);
  }

  /** Every leg of the built graph comes from a route joining its two airports. */
  lemma LegFromRoute(airports: seq<Airport>, routes: seq<RouteEntry>, graph: Graph, u: Node, v: Node)
    requires Built(airports, routes, graph) && u in graph && v in graph[u]
    ensures exists i :: 0 <= i < |routes| && Joins(routes[i], u, v) && graph[u][v] == Edge(routes[i].distance, routes[i].duration)
  {
    LastLegFound(routes, u, v);
    assert Lookup(graph[u], v) == LastLeg(routes, u, v);
  }

  /** Routes on the same pair of airports carry the same weights. */
  ghost predicate NoConflict(routes: seq<RouteEntry>) {
    forall i, j :: 0 <= i < j < |routes| && Joins(routes[i], Code(routes[j].from), Code(routes[j].to)) ==>
      routes[i].distance == routes[j].distance && routes[i].duration == routes[j].duration
  }

  /** Without conflicts the overwriting is harmless: every route's own weights end up in the graph. */
  lemma RouteWeightsKept(airports: seq<Airport>, routes: seq<RouteEntry>, graph: Graph, i: nat)
    requires Built(airports, routes, graph) && EndpointsListed(airports, routes) && NoConflict(routes) && i < |routes|
    ensures Code(routes[i].from) in graph && Code(routes[i].to) in graph[Code(routes[i].from)]
    ensures graph[Code(routes[i].from)][Code(routes[i].to)] == Edge(routes[i].distance, routes[i].duration)
  {
    var u, v := Code(routes[i].from), Code(routes[i].to);
    RouteInGraph(airports, routes, graph, i);
    LegFromRoute(airports, routes, graph, u, v);
    var k :| 0 <= k < |routes| && Joins(routes[k], u, v) && graph[u][v] == Edge(routes[k].distance, routes[k].duration);
    if k < i {
      assert Joins(routes[k], Code(routes[i].from), Code(routes[i].to));
    } else if i < k {
      assert Joins(routes[i], Code(routes[k].from), Code(routes[k].to));
    }
  }

  /** The table with entry `j` dropped. */
  function Without(routes: seq<RouteEntry>, j: nat): (rest: seq<RouteEntry>)
    requires j < |routes|
    ensures |rest| == |routes| - 1
    ensures forall i :: 0 <= i < j ==> rest[i] == routes[i]
    ensures forall i :: j < i < |routes| ==> rest[i - 1] == routes[i]
  {
    routes[..j] + routes[j + 1..]
  }

  /**
   * An entry that repeats, with the same weights, the leg its pair already
   * has when it is reached changes nothing: dropping it leaves every leg as it was.
   */
  lemma {:induction false} LastLegWithout(routes: seq<RouteEntry>, j: nat, u: Node, v: Node)
    requires j < |routes|
    requires LastLeg(routes[..j], Code(routes[j].from), Code(routes[j].to)) == Some(Edge(routes[j].distance, routes[j].duration))
    ensures LastLeg(routes, u, v) == LastLeg(Without(routes, j), u, v)
    decreases |routes|
  {
    var n := |routes| - 1;
    if j == n {
      LastLegWithoutLast(routes, u, v);
    } else {
      var front := routes[..n];
      assert front[..j] == routes[..j] && front[j] == routes[j];
      LastLegWithout(front, j, u, v);
      LastLegWithoutStep(routes, j, u, v);
    }
  }

  /** The inductive step: the entry after the dropped one is written last on both sides. */
  lemma LastLegWithoutStep(routes: seq<RouteEntry>, j: nat, u: Node, v: Node)
    requires j < |routes| - 1
    requires LastLeg(routes[..|routes| - 1], u, v) == LastLeg(Without(routes[..|routes| - 1], j), u, v)
    ensures LastLeg(routes, u, v) == LastLeg(Without(routes, j), u, v)
  {
    var n := |routes| - 1;
    WithoutSnoc(routes, j);
    LastLegSnoc(Without(routes[..n], j), routes[n], u, v);
  }

  lemma WithoutSnoc(routes: seq<RouteEntry>, j: nat)
    requires j < |routes| - 1
    ensures Without(routes, j) == Without(routes[..|routes| - 1], j) + [routes[|routes| - 1]]
  {
  }

  /** Appending a route overwrites exactly the legs it joins. */
  lemma LastLegSnoc(routes: seq<RouteEntry>, r: RouteEntry, u: Node, v: Node)
    ensures LastLeg(routes + [r], u, v) == if Joins(r, u, v) then Some(Edge(r.distance, r.duration)) else LastLeg(routes, u, v)
  {
    assert (routes + [r])[..|routes|] == routes;
  }

  /** The base case: the repeated entry is the last one. */
  lemma LastLegWithoutLast(routes: seq<RouteEntry>, u: Node, v: Node)
    requires |routes| > 0
    requires var n := |routes| - 1;
      LastLeg(routes[..n], Code(routes[n].from), Code(routes[n].to)) == Some(Edge(routes[n].distance, routes[n].duration))
    ensures LastLeg(routes, u, v) == LastLeg(Without(routes, |routes| - 1), u, v)
  {
    var n := |routes| - 1;
    assert Without(routes, n) == routes[..n];
    if Joins(routes[n], u, v) && u != Code(routes[n].from) {
      LastLegSymmetric(routes[..n], u, v);
    }
  }

  /** The leg is that of entry `i` when `i` joins the pair and no later entry of the first `n` does. */
  lemma {:induction false} LastLegIs(routes: seq<RouteEntry>, n: nat, i: nat, u: Node, v: Node)
    requires i < n <= |routes| && Joins(routes[i], u, v)
    requires forall j :: i < j < n ==> !Joins(routes[j], u, v)
    ensures LastLeg(routes[..n], u, v) == Some(Edge(routes[i].distance, routes[i].duration))
    decreases n
  {
    assert routes[..n][n - 1] == routes[n - 1];
    assert routes[..n][..n - 1] == routes[..n - 1];
    if i < n - 1 {
      LastLegIs(routes, n - 1, i, u, v);
    }
  }

  /** Tables fit to build a graph for the path finders: listed endpoints, no empty code, positive weights. */
  ghost predicate Usable(airports: seq<Airport>, routes: seq<RouteEntry>) {
    && EndpointsListed(airports, routes)
    && (forall k :: 0 <= k < |airports| ==> airports[k].code != "")
    && (forall i :: 0 <= i < |routes| ==> routes[i].distance > 0 && routes[i].duration > 0)
  }

  /** The graph built from usable tables is well formed and positively weighted by distance and by duration. */
  lemma BuiltUsable(airports: seq<Airport>, routes: seq<RouteEntry>, graph: Graph)
    requires Built(airports, routes, graph) && Usable(airports, routes)
    ensures WellFormed(graph)
    ensures Positive(DistanceWeights(graph)) && Positive(DurationWeights(graph))
  {
    forall u, v | u in graph && v in graph[u]
      ensures v in graph && graph[u][v].distance > 0 && graph[u][v].duration > 0
    {
      LegFromRoute(airports, routes, graph, u, v);
      var i :| 0 <= i < |routes| && Joins(routes[i], u, v) && graph[u][v] == Edge(routes[i].distance, routes[i].duration);
    }
  }

  /** Every pair of airports is connected once each one reaches a hub and is reached from it. */
  lemma HubConnects(w: Weights, hub: Node, V: set<Node>)
    requires forall u :: u in V ==> Reachable(w, u, hub) && Reachable(w, hub, u)
    ensures forall u, v :: u in V && v in V ==> Reachable(w, u, v)
  {
    forall u, v | u in V && v in V ensures Reachable(w, u, v) {
      var p :| IsPath(w, p, u, hub);
      var q :| IsPath(w, q, hub, v);
      PathConcat(w, p, q, u, hub, v);
    }
  }

  // ---------------------------------------------------------------------
  // The static tables
  // ---------------------------------------------------------------------

  /** `airports`. */
  const AIRPORTS: seq<Airport> := [
    Airport("DEL", "Indira Gandhi International Airport", "New Delhi"),
    Airport("BOM", "Chhatrapati Shivaji International Airport", "Mumbai"),
    Airport("MAA", "Chennai International Airport", "Chennai"),
    Airport("BLR", "Kempegowda International Airport", "Bangalore"),
    Airport("CCU", "Netaji Subhas Chandra Bose International Airport", "Kolkata"),
    Airport("HYD", "Rajiv Gandhi International Airport", "Hyderabad"),
    Airport("COK", "Cochin International Airport", "Kochi"),
    Airport("PNQ", "Pune Airport", "Pune"),
    Airport("GOI", "Dabolim Airport", "Goa"),
    Airport("AMD", "Sardar Vallabhbhai Patel International Airport", "Ahmedabad"),
    Airport("JAI", "Jaipur International Airport", "Jaipur"),
    Airport("IXC", "Chandigarh International Airport", "Chandigarh")
  ]

  /** `routes`: each entry is flown in both directions. */
  const ROUTES: seq<RouteEntry> := [
    RouteEntry("DEL", "BOM", 1148, 130),
    RouteEntry("DEL", "MAA", 1760, 165),
    RouteEntry("DEL", "BLR", 1740, 165),
    RouteEntry("DEL", "CCU", 1305, 140),
    RouteEntry("DEL", "HYD", 1253, 140),
    RouteEntry("DEL", "AMD", 780, 95),
    RouteEntry("DEL", "JAI", 240, 60),
    RouteEntry("DEL", "IXC", 230, 55),
    RouteEntry("BOM", "MAA", 1033, 130),
    RouteEntry("BOM", "BLR", 842, 110),
    RouteEntry("BOM", "HYD", 623, 95),
    RouteEntry("BOM", "COK", 1008, 125),
    RouteEntry("BOM", "PNQ", 123, 45),
    RouteEntry("BOM", "GOI", 410, 70),
    RouteEntry("BOM", "AMD", 440, 75),
    RouteEntry("MAA", "BLR", 291, 60),
    RouteEntry("MAA", "CCU", 1382, 150),
    RouteEntry("MAA", "HYD", 565, 90),
    RouteEntry("MAA", "COK", 510, 85),
    RouteEntry("BLR", "HYD", 497, 85),
    RouteEntry("BLR", "COK", 365, 70),
    RouteEntry("BLR", "PNQ", 740, 100),
    RouteEntry("CCU", "HYD", 1553, 155),
    RouteEntry("CCU", "BLR", 1560, 155),
    RouteEntry("CCU", "MAA", 1382, 150),
    RouteEntry("HYD", "PNQ", 520, 90),
    RouteEntry("HYD", "GOI", 580, 90),
    RouteEntry("HYD", "COK", 770, 100),
    RouteEntry("PNQ", "GOI", 330, 65),
    RouteEntry("PNQ", "COK", 780, 105),
    RouteEntry("GOI", "COK", 550, 85),
    RouteEntry("GOI", "AMD", 650, 95),
    RouteEntry("AMD", "JAI", 530, 85),
    RouteEntry("JAI", "IXC", 480, 80)
  ]


  /** `getAirports()`. */
  function GetAirports(): (airports: seq<Airport>)
    ensures |airports| == 12
    ensures forall k :: 0 <= k < |airports| ==> |airports[k].code| == 3
  {
    AIRPORTS
  }

  /** The airport codes are pairwise distinct. */
  lemma CodesDistinct()
    ensures forall i, j :: 0 <= i < j < |AIRPORTS| ==> AIRPORTS[i].code != AIRPORTS[j].code
  {
  }

  /** The codes of the table. */
  const CODES: set<string> := {"DEL", "BOM", "MAA", "BLR", "CCU", "HYD", "COK", "PNQ", "GOI", "AMD", "JAI", "IXC"}

  lemma CodesListed()
    ensures forall c :: c in CODES ==> Listed(AIRPORTS, Code(c))
  {
    forall c | c in CODES ensures Listed(AIRPORTS, Code(c)) {
      var k := if c == "DEL" then 0 else if c == "BOM" then 1 else if c == "MAA" then 2 else if c == "BLR" then 3
        else if c == "CCU" then 4 else if c == "HYD" then 5 else if c == "COK" then 6 else if c == "PNQ" then 7
        else if c == "GOI" then 8 else if c == "AMD" then 9 else if c == "JAI" then 10 else 11;
      assert Code(AIRPORTS[k].code) == Code(c);
    }
  }

  lemma RoutesInCodes()
    ensures forall i :: 0 <= i < |ROUTES| ==> ROUTES[i].from in CODES
    ensures forall i :: 0 <= i < |ROUTES| ==> ROUTES[i].to in CODES
  {
  }

  /** No route joins an airport to itself, and every distance and duration is positive. */
  lemma RoutesProper()
    ensures forall i :: 0 <= i < |ROUTES| ==> ROUTES[i].from != ROUTES[i].to
    ensures forall i :: 0 <= i < |ROUTES| ==> ROUTES[i].distance > 0 && ROUTES[i].duration > 0
  {
  }

  /** The static tables are usable: every endpoint is listed, no code is empty, every weight positive. */
  lemma RoutesValid()
    ensures Usable(AIRPORTS, ROUTES)
  {
    RoutesInCodes();
    CodesListed();
    RoutesProper();
    assert GetAirports() == AIRPORTS;
  }

  /**
   * The only repeated pair, CCU-MAA (entries 17 and 25 of the table), is
   * repeated with identical weights, so the graph is the one built without
   * the repetition.
   */
  lemma DuplicateHarmless(graph: Graph)
    ensures Joins(ROUTES[16], Code(ROUTES[24].from), Code(ROUTES[24].to))
    ensures ROUTES[16].distance == ROUTES[24].distance && ROUTES[16].duration == ROUTES[24].duration
    ensures Built(AIRPORTS, ROUTES, graph) <==> Built(AIRPORTS, Without(ROUTES, 24), graph)
  {
    var u, v := Code(ROUTES[24].from), Code(ROUTES[24].to);
    CcuMaaOnce();
    LastLegIs(ROUTES, 24, 16, u, v);
    forall u', v' ensures LastLeg(ROUTES, u', v') == LastLeg(Without(ROUTES, 24), u', v') {
      LastLegWithout(ROUTES, 24, u', v');
    }
  }

  /** Entries 18 to 24 of the table do not join CCU and MAA. */
  lemma CcuMaaOnce()
    ensures Joins(ROUTES[16], Code(ROUTES[24].from), Code(ROUTES[24].to))
    ensures forall j :: 16 < j < 24 ==> !Joins(ROUTES[j], Code(ROUTES[24].from), Code(ROUTES[24].to))
  {
  }

  /** The graph of the static tables, as the comment on the route table says, connects every pair of airports. */
  lemma StaticGraph(graph: Graph)
    requires Built(AIRPORTS, ROUTES, graph)
    ensures WellFormed(graph)
    ensures Positive(DistanceWeights(graph)) && Positive(DurationWeights(graph))
    ensures forall u :: u in graph ==> u !in graph[u]
    ensures forall u, v :: u in graph && v in graph ==> Reachable(DistanceWeights(graph), u, v)
  {
    RoutesValid();
    BuiltUsable(AIRPORTS, ROUTES, graph);
    forall u | u in graph ensures u !in graph[u] {
      if u in graph[u] {
        LegFromRoute(AIRPORTS, ROUTES, graph, u, u);
        RoutesProper();
      }
    }
    var w := DistanceWeights(graph);
    HubLegs(graph);
    forall u | u in graph ensures Reachable(w, u, Code("DEL")) && Reachable(w, Code("DEL"), u) {
      var k :| 0 <= k < |AIRPORTS| && Code(AIRPORTS[k].code) == u;
      HubReach(w, k);
    }
    HubConnects(w, Code("DEL"), graph.Keys);
  }

  /** The legs to the DEL hub and, through BOM, to the airports DEL has no route to. */
  lemma HubLegs(graph: Graph)
    requires Built(AIRPORTS, ROUTES, graph)
    ensures forall i :: 0 <= i < 8 || 11 <= i < 14 ==>
      IsEdge(DistanceWeights(graph), Code(ROUTES[i].from), Code(ROUTES[i].to)) && IsEdge(DistanceWeights(graph), Code(ROUTES[i].to), Code(ROUTES[i].from))
  {
    RoutesValid();
    forall i | 0 <= i < 8 || 11 <= i < 14
      ensures IsEdge(DistanceWeights(graph), Code(ROUTES[i].from), Code(ROUTES[i].to)) && IsEdge(DistanceWeights(graph), Code(ROUTES[i].to), Code(ROUTES[i].from))
    {
      RouteInGraph(AIRPORTS, ROUTES, graph, i);
    }
  }

  /** Every airport reaches DEL and is reached from it. */
  lemma HubReach(w: Weights, k: nat)
    requires k < |AIRPORTS|
    requires forall i :: 0 <= i < 8 || 11 <= i < 14 ==>
      IsEdge(w, Code(ROUTES[i].from), Code(ROUTES[i].to)) && IsEdge(w, Code(ROUTES[i].to), Code(ROUTES[i].from))
    ensures Reachable(w, Code(AIRPORTS[k].code), Code("DEL")) && Reachable(w, Code("DEL"), Code(AIRPORTS[k].code))
  {
    if k == 0 {
      assert IsPath(w, [Code("DEL")], Code("DEL"), Code("DEL"));
    } else if 6 <= k <= 8 {
      HubReachBom(w, k);
    } else {
      HubReachDirect(w, k);
    }
  }

  lemma HubReachDirect(w: Weights, k: nat)
    requires 1 <= k <= 5 || 9 <= k <= 11
    requires forall i :: 0 <= i < 8 ==>
      IsEdge(w, Code(ROUTES[i].from), Code(ROUTES[i].to)) && IsEdge(w, Code(ROUTES[i].to), Code(ROUTES[i].from))
    ensures Reachable(w, Code(AIRPORTS[k].code), Code("DEL")) && Reachable(w, Code("DEL"), Code(AIRPORTS[k].code))
  {
    var i := if k <= 5 then k - 1 else k - 4;
    assert ROUTES[i].to == AIRPORTS[k].code;
    Direct(w, i);
  }

  lemma HubReachBom(w: Weights, k: nat)
    requires 6 <= k <= 8
    requires forall i :: i == 0 || 11 <= i < 14 ==>
      IsEdge(w, Code(ROUTES[i].from), Code(ROUTES[i].to)) && IsEdge(w, Code(ROUTES[i].to), Code(ROUTES[i].from))
    ensures Reachable(w, Code(AIRPORTS[k].code), Code("DEL")) && Reachable(w, Code("DEL"), Code(AIRPORTS[k].code))
  {
    assert ROUTES[k + 5].to == AIRPORTS[k].code;
    ViaBom(w, k + 5);
  }

  /** DEL has a route of its own to the airport at the other end of entry `i`. */
  lemma Direct(w: Weights, i: nat)
    requires i < 8
    requires IsEdge(w, Code(ROUTES[i].from), Code(ROUTES[i].to)) && IsEdge(w, Code(ROUTES[i].to), Code(ROUTES[i].from))
    ensures ROUTES[i].from == "DEL"
    ensures Reachable(w, Code(ROUTES[i].to), Code("DEL")) && Reachable(w, Code("DEL"), Code(ROUTES[i].to))
  {
    var u, del := Code(ROUTES[i].to), Code(ROUTES[i].from);
    assert IsPath(w, [u, del], u, del);
    assert IsPath(w, [del, u], del, u);
  }

  /** The airport at the other end of entry `i` is reached from DEL through BOM, entry 1. */
  lemma ViaBom(w: Weights, i: nat)
    requires 11 <= i < 14
    requires IsEdge(w, Code(ROUTES[i].from), Code(ROUTES[i].to)) && IsEdge(w, Code(ROUTES[i].to), Code(ROUTES[i].from))
    requires IsEdge(w, Code(ROUTES[0].from), Code(ROUTES[0].to)) && IsEdge(w, Code(ROUTES[0].to), Code(ROUTES[0].from))
    ensures Reachable(w, Code(ROUTES[i].to), Code("DEL")) && Reachable(w, Code("DEL"), Code(ROUTES[i].to))
  {
    var u, bom, del := Code(ROUTES[i].to), Code(ROUTES[i].from), Code(ROUTES[0].from);
    assert ROUTES[0].to == ROUTES[i].from;
    assert IsPath(w, [u, bom, del], u, del);
    assert IsPath(w, [del, bom, u], del, u);
  }
}
