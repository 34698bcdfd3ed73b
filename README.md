# India Sky Paths: the route finders, verified

This project models the route-finding core of an app that plans flights
between Indian airports, and proves what each route finder returns.

The app holds its airports and flight routes in static tables. It builds a
graph from them and answers "the best path from airport A to airport B" with
one of four shortest-path algorithms: Dijkstra, A*, Floyd-Warshall or
Bellman-Ford. It also prices a distance by flight class. The core exists in
several copies, and each is modelled apart, because the copies differ in
their edge cases. The copies are:

- `src/utils/airports.ts`: the 12 airports, the 34 routes and `createGraph`.
  The graph holds each route in both directions, with distance and duration.
- `src/utils/dijkstra.ts`, `src/utils/astar.ts`, `src/utils/floydWarshall.ts`:
  finders over that graph. They track distance and duration. On failure,
  Dijkstra returns the path `[destination]` at `Infinity`. A* and
  Floyd-Warshall return an empty path at 0.
- `src/algorithms/*.js`: finders over an adjacency list of connections and
  an airport list. They throw "No path found from X to Y", and they give the
  duration as distance / 10.
- `src/api/aviation.ts`: the mock backend. It repeats the graph building and
  the Dijkstra loop over its own 8-airport, 18-route table, and throws when
  the path does not start at the source. `mockBackendRequest` passes the
  result through.
- `src/api/aviation.js`: a complete graph whose legs are the distances
  between every pair of distinct airports. It has four finders, one of them
  an A* without a closed set, and the `calculatePath` dispatcher.
- `src/utils/costCalculator.ts` and `.js`: fares per km by class, and the
  class display names.

Shared modules hold the specification that all copies are proved against:

- `Paths`: weighted graphs, paths, reachability and shortest distances.
- `Frontier`: the settle argument of Dijkstra and A*, predecessor chains and
  reconstruction.
- `Relaxation`: Bellman-Ford tables, rounds, and the negative-cycle check.
- `UtilsFloyd`: the Floyd-Warshall invariant.

The results cover the error cases as well:

- A finite distance always comes with a path of that weight.
- `Infinity` or an error means "unreachable", in both directions of the
  if-and-only-if.
- With non-negative legs, or a consistent heuristic for A*, the distance is
  the shortest one.
- Bellman-Ford throws exactly when a negative cycle is reachable.

Real-valued inputs appear as integers:

- Distances and durations are integers, and the finders compute on them
  exactly.
- The durations derived by division (`/ 10`, `* 60 / 800`) are `real`.
- The straight-line and Haversine measures that use floating point are
  parameters, `straight` and `measure`.

## Model

| member | source | states |
|---|---|---|
| Paths.ShortestUnique | src/api/aviation.js:377-391 | two shortest distances between the same airports are equal, so every algorithm the dispatcher selects reports the same distance |
| Paths.ShortestInf | src/utils/dijkstra.ts:16-21 | the shortest distance is `Infinity` exactly when the destination cannot be reached |
| Paths.PathAppend | src/utils/dijkstra.ts:40-52 | a path extended by a leg is a path, one leg heavier |
| Paths.PathConcat | src/utils/floydWarshall.ts:42-46 | two paths meeting at an airport join into one whose weight is the sum, the step of the `i-k-j` relaxation |
| Paths.SubPath | src/utils/floydWarshall.ts:39-49 | a slice of a path is a path between the slice's ends |
| Paths.DistinctBound | src/api/aviation.js:322 | a repetition-free walk visits no more airports than there are, the reason `nodes.length - 1` rounds suffice |
| Paths.WeightAtLeast | src/algorithms/floydWarshall.js:56-62 | with every leg at least `m`, a walk of `n` legs weighs at least `m * n`, the measure that ends the `next` walk |
| Paths.PotentialAlongPath | src/utils/astar.ts:12-22 | a consistent heuristic never drops along a path by more than the path's weight |
| Paths.KeyList | src/api/aviation.js:261 | `Object.keys(graph)` lists every key exactly once |
| Frontier.SelectMin | src/api/aviation.js:145-150 | the selection loop returns an airport of least finite score, or none exactly when every candidate is at `Infinity` |
| Frontier.SelectedIsSettled | src/utils/dijkstra.ts:27-38 | with a consistent potential, the unvisited airport of least key has a score that no path to it beats |
| Frontier.AllInfUnreachable | src/utils/dijkstra.ts:34-36 | when every unvisited airport is at `Infinity`, none of them is reachable, so the `break` loses nothing |
| Frontier.Reconstruct | src/api/aviation.js:169-175 | following the predecessors back from the destination yields the chain of predecessor links ending there |
| Frontier.ChainIsPath | src/utils/dijkstra.ts:55-63 | that chain is a path from the source weighing the destination's score, and is the one-node chain at `Infinity` |
| Frontier.SingleChain | src/api/aviation.js:172-175 | a destination with no predecessor gives the one-element path |
| Frontier.RankAcyclic | src/utils/dijkstra.ts:55-63 | ranked predecessor tables have no cycle, so the reconstruction loop ends |
| Relaxation.RelaxThrough | src/algorithms/bellmanFord.js:26-29 | lowering `d[v]` through `u` keeps every finite distance witnessed by a walk from the source of that weight |
| Relaxation.BoundStep | src/algorithms/bellmanFord.js:16-37 | each round extends "no walk of at most k legs beats the distance" to k + 1 legs |
| Relaxation.CalmNoCycle | src/algorithms/bellmanFord.js:40-51 | when no leg can still lower a distance, no negative cycle is reachable from the source |
| Relaxation.NoCycleCalm | src/algorithms/bellmanFord.js:40-51 | after enough rounds, with no reachable negative cycle, no leg can still lower a distance |
| Relaxation.TenseMeansCycle | src/algorithms/bellmanFord.js:46-47 | a leg that can still lower a distance after enough rounds proves a reachable negative cycle, so the throw is justified |
| Relaxation.CycleIsNegative | src/algorithms/bellmanFord.js:26-29 | a cycle of predecessor links is a closed walk of negative weight reachable from the source |
| Relaxation.Acyclic | src/algorithms/bellmanFord.js:57-60 | with no reachable negative cycle the predecessor links form no cycle, so reconstruction ends |
| Relaxation.NonNegativeNoCycle | src/api/aviation.js:336-350 | non-negative legs have no negative cycle, so the built graph never throws |
| Relaxation.Conclude | src/algorithms/bellmanFord.js:53-65 | after a passed check, the chain starts at the source exactly when the destination is reachable, and it is then a shortest path of the destination's distance |
| TsGraph.DistanceWeights | src/utils/airports.ts:84-86 | the distance matrix has exactly the legs of the graph, each at its distance |
| TsGraph.DurationWeights | src/utils/airports.ts:84-86 | the duration matrix has exactly the legs of the graph, each at its duration |
| TsGraph.WellFormedClosed | src/utils/airports.ts:78-87 | in a well-formed graph every leg ends at an airport of the graph |
| Airports.CreateGraph | src/utils/airports.ts:74-90 | `createGraph` builds one row per airport and every route in both directions, the last route on a pair winning |
| Airports.LastLegFound | src/utils/airports.ts:83-87 | a leg exists exactly when some route joins the pair, and it carries the weights of the last such route |
| Airports.BothWays | src/utils/airports.ts:84-86 | writing one route changes exactly the two legs it joins |
| Airports.LastLegSymmetric | src/utils/airports.ts:84-86 | the leg u to v equals the leg v to u |
| Airports.BuiltSymmetric | src/utils/airports.ts:85-86 | the built graph is undirected: a leg exists both ways, with the same weights |
| Airports.BuiltUnique | src/utils/airports.ts:74-90 | the tables determine the graph |
| Airports.RouteInGraph | src/utils/airports.ts:83-87 | every route of the table is a leg of the graph, both ways |
| Airports.LegFromRoute | src/utils/airports.ts:83-87 | every leg of the graph comes from a route on that pair, with its weights |
| Airports.RouteWeightsKept | src/utils/airports.ts:83-87 | when repeated pairs carry equal weights, every route's own weights are in the graph |
| Airports.LastLegWithout | src/utils/airports.ts:83-87 | a route that repeats the leg its pair already has changes no leg |
| Airports.BuiltUsable | src/utils/airports.ts:74-90 | tables with listed endpoints, non-empty codes and positive weights give a well-formed, positively weighted graph |
| Airports.HubConnects | src/utils/airports.ts:20 | airports that all reach a hub and are reached from it are pairwise connected |
| Airports.GetAirports | src/utils/airports.ts:69-71 | `getAirports()` returns the 12 airports, each with a three-letter code |
| Airports.CodesDistinct | src/utils/airports.ts:5-18 | the airport codes are pairwise distinct |
| Airports.RoutesValid | src/utils/airports.ts:21-66 | every route joins two listed airports with non-empty codes, with positive distance and duration |
| Airports.RoutesProper | src/utils/airports.ts:21-66 | no route joins an airport to itself, and every weight is positive |
| Airports.DuplicateHarmless | src/utils/airports.ts:41 | the CCU-MAA route appears twice, at lines 41 and 51, with the same weights, and the graph is the one built without line 51 |
| Airports.StaticGraph | src/utils/airports.ts:20-66 | the graph of the static tables is well formed, positive and loop-free, and connects every pair of airports, as the routes' comment says |
| Airports.HubReach | src/utils/airports.ts:22-38 | every airport reaches DEL and is reached from it, directly or through BOM |
| UtilsDijkstra.RelaxNeighbors | src/utils/dijkstra.ts:40-52 | an unvisited neighbour that the leg brings closer gets the new distance, the summed duration and the current airport as its predecessor; every other entry stays |
| UtilsDijkstra.BoundsStop | src/utils/dijkstra.ts:34-36 | at the `break`, the destination's distance is final: it is the shortest distance when finite, and `Infinity` only when unreachable |
| UtilsDijkstra.InvStep | src/utils/dijkstra.ts:23-53 | settling the least airport and relaxing its legs keeps the loop invariant |
| UtilsDijkstra.ChainsConclude | src/utils/dijkstra.ts:55-69 | the reconstructed chain is a path of the reported distance whose durations sum to the reported duration, `[destination]` at `Infinity` exactly when unreachable, and shortest under non-negative legs |
| UtilsDijkstra.Visit | src/utils/dijkstra.ts:23-53 | one pass either stops with the destination final, or settles one more airport and keeps the invariant |
| UtilsDijkstra.Dijkstra | src/utils/dijkstra.ts:1-71 | a finite distance comes with a path of that weight whose durations sum to the duration; `Infinity` (path `[destination]`) exactly when unreachable; shortest under non-negative distances; from an airport to itself the path `[source]` with distance and duration 0, since the first selection is the source |
| UtilsAStar.Heuristic | src/utils/astar.ts:12-22 | 0 when either airport has no position, otherwise the straight-line measure of the two positions; never negative |
| UtilsAStar.InitEstimates | src/utils/astar.ts:24-38 | the initial estimates are `h(source)` at the source and `Infinity` elsewhere |
| UtilsAStar.RelaxNeighbors | src/utils/astar.ts:76-94 | a neighbour outside the closed set that the leg brings closer gets the new score, estimate, duration and predecessor, and joins the open set |
| UtilsAStar.LeastOutsideClosed | src/utils/astar.ts:45-50 | the open airport of least estimate has the least estimate of every airport outside the closed set |
| UtilsAStar.InvStep | src/utils/astar.ts:72-94 | closing the selected airport and rescoring its neighbours keeps the loop invariant |
| UtilsAStar.Expand | src/utils/astar.ts:72-94 | one expansion closes the selected airport and keeps the invariant |
| UtilsAStar.Found | src/utils/astar.ts:54-70 | on selecting the destination, the chain is a path of the reported distance and duration, and shortest under a consistent heuristic |
| UtilsAStar.Exhausted | src/utils/astar.ts:52 | an open set with no scored airport means the destination is unreachable |
| UtilsAStar.Visit | src/utils/astar.ts:40-95 | one pass halts when the destination is unreachable, answers with a correct path when it selects the destination, or expands one more airport |
| UtilsAStar.AStar | src/utils/astar.ts:1-100 | a non-empty path leads from source to destination with the distance and duration as its leg sums, shortest for a consistent heuristic; the empty result at 0 comes back exactly when the destination is unknown or unreachable; from an airport of the graph to itself the path `[source]` with distance and duration 0, since the first selection is the source |
| UtilsFloyd.Store | src/utils/floydWarshall.ts:43-45 | writing one entry changes that entry and no other |
| UtilsFloyd.InitTables | src/utils/floydWarshall.ts:16-36 | one row per airport: 0 and no hop on the diagonal, the leg's distance, duration and hop where there is a leg, `Infinity` elsewhere |
| UtilsFloyd.InitFacts | src/utils/floydWarshall.ts:16-36 | before the main loop every entry is witnessed by a walk and bounds the walks with no inner airport |
| UtilsFloyd.StepBound | src/utils/floydWarshall.ts:42-43 | the smaller of `dist[i][j]` and `dist[i][k] + dist[k][j]` bounds the walks whose inner airports are the earlier `k`s or this one |
| UtilsFloyd.ThroughK | src/utils/floydWarshall.ts:42 | a walk through `k` weighs no less than its part up to the first `k` plus its part from the last `k` |
| UtilsFloyd.RelaxCell | src/utils/floydWarshall.ts:42-46 | one test at (k, i, j) makes the entry the smaller of itself and the way through `k`, moves duration and hop with it, and leaves every other entry |
| UtilsFloyd.RelaxRow | src/utils/floydWarshall.ts:41-47 | after the `j` loop, row `i` bounds the walks through `k` |
| UtilsFloyd.RelaxRound | src/utils/floydWarshall.ts:40-48 | after the `i` loop, the tables bound the walks whose inner airports include `k` |
| UtilsFloyd.RelaxAll | src/utils/floydWarshall.ts:39-49 | after the `k` loop, every entry bounds every walk between two airports |
| UtilsFloyd.BoundShrink | src/utils/floydWarshall.ts:39-49 | a bound over walks through more airports is a bound over walks through fewer |
| UtilsFloyd.TablesShortest | src/utils/floydWarshall.ts:39-49 | once every airport has been `k`, each entry is the shortest distance |
| UtilsFloyd.HopToward | src/utils/floydWarshall.ts:59-62 | every finite entry between distinct airports has a next hop that is a leg whose weight plus the rest equals the entry |
| UtilsFloyd.EntriesFacts | src/utils/floydWarshall.ts:22-23 | finished entries are non-negative and the diagonal is 0 |
| UtilsFloyd.FollowNext | src/utils/floydWarshall.ts:56-63 | with positive legs, following `next` reaches the destination along a path weighing the entry; from an airport to itself it gives `[source]` |
| UtilsFloyd.FloydWarshall | src/utils/floydWarshall.ts:1-70 | an empty path at 0 exactly when unreachable; otherwise a shortest path with its distance, and a duration that belongs to some shortest walk; `[source]` at 0 from an airport to itself |
| JsGraph.Codes | src/algorithms/dijkstra.js:11-14 | the node set is exactly the codes of the airport list |
| JsGraph.CodesBound | src/algorithms/dijkstra.js:16 | a list has at least as many entries as distinct codes |
| JsGraph.LightestFacts | src/algorithms/dijkstra.js:34-40 | the lightest connection to `v` exists exactly when some connection leads to `v`, and no connection to `v` is lighter |
| JsGraph.LegWeights | src/algorithms/dijkstra.js:33-41 | the weight matrix over the airports: a leg where some connection leads to a listed airport, at the lightest such distance |
| JsGraph.EdgeOfWeights | src/algorithms/dijkstra.js:33-41 | a matrix edge is a connection between two listed airports and weighs no more than any parallel connection |
| JsGraph.WeightsClosed | src/algorithms/dijkstra.js:36 | every matrix edge ends at a listed airport |
| JsDijkstra.SelectFirst | src/algorithms/dijkstra.js:18-28 | the first unvisited airport of least finite distance in list order, or none when all unvisited airports are at `Infinity` |
| JsDijkstra.RelaxRow | src/algorithms/dijkstra.js:33-41 | each connection that lowers a listed target's distance sets that distance and predecessor; the rest stay |
| JsDijkstra.Visit | src/algorithms/dijkstra.js:16-42 | one round stops with every unvisited airport at `Infinity`, or visits one more airport keeping the invariant |
| JsDijkstra.Conclude | src/algorithms/dijkstra.js:44-56 | the reconstructed chain starts at the source exactly when the destination is reachable, and is then a shortest path of its distance |
| JsDijkstra.Search | src/algorithms/dijkstra.js:16-42 | the main loop ends with every unvisited airport at `Infinity` and the invariant holding |
| JsDijkstra.Dijkstra | src/algorithms/dijkstra.js:2-68 | success exactly when the destination is reachable, with a shortest path, its distance and `distance / 10` as duration; otherwise the "No path found" error |
| JsAStar.FindFacts | src/algorithms/astar.js:7-8 | `find` gives the position of the first airport with the code, and nothing when there is none |
| JsAStar.Heuristic | src/algorithms/astar.js:6-15 | 0 when either airport is missing from the list, otherwise the straight-line measure of their positions |
| JsAStar.InitEstimates | src/algorithms/astar.js:25-29 | initial estimates: `h(source)` at the source, `Infinity` elsewhere |
| JsAStar.ScoreRow | src/algorithms/astar.js:69-85 | each connection to a target outside the closed set opens it, and rescores it when new or strictly better |
| JsAStar.Expand | src/algorithms/astar.js:65-85 | one expansion closes the selected airport and keeps the invariant |
| JsAStar.Found | src/algorithms/astar.js:43-62 | on selecting the destination, the chain is a path of the reported distance, shortest under a consistent heuristic |
| JsAStar.Exhausted | src/algorithms/astar.js:31 | an empty open set means the destination is unreachable |
| JsAStar.Visit | src/algorithms/astar.js:31-86 | one round answers with a correct route when it selects the destination, or expands one more airport |
| JsAStar.SearchNodes | src/algorithms/astar.js:25-83 | the nodes the search scores are exactly the listed airports and the targets of connections, and every connection of such a node leads to another |
| JsAStar.UnlistedStopover | src/algorithms/astar.js:75-83 | a connection target missing from the airport list is scored like any airport, so a route can pass through it where the listed airports alone have no leg |
| JsAStar.AStar | src/algorithms/astar.js:2-89 | over the listed airports and every connection's target, success exactly when the destination is reachable, with a path weighing the distance (shortest for a consistent heuristic) and `distance / 10` as duration; otherwise the "No path found" error |
| JsBellmanFord.RelaxRow | src/algorithms/bellmanFord.js:21-32 | the connections of one row are relaxed, no distance rises, and the flag is unset only when nothing changed |
| JsBellmanFord.Round | src/algorithms/bellmanFord.js:17-36 | a round lowers or keeps every distance and relaxes every connection once |
| JsBellmanFord.Rounds | src/algorithms/bellmanFord.js:10-37 | after the rounds, with the early `break`, the tables are calm or `airports.length - 1` rounds have run |
| JsBellmanFord.HasNegativeCycle | src/algorithms/bellmanFord.js:40-51 | the check fires exactly when some connection could still lower a distance |
| JsBellmanFord.BellmanFord | src/algorithms/bellmanFord.js:2-77 | the negative-cycle error exactly when a negative cycle is reachable; otherwise success exactly when the destination is reachable, with a shortest path of the reported distance |
| JsFloyd.IndexCodes | src/algorithms/floydWarshall.js:5-12 | `codeToIndex` maps each code to its last index, and inverts a list of distinct codes |
| JsFloyd.NewMatrices | src/algorithms/floydWarshall.js:15-21 | `Infinity` everywhere but 0 on the diagonal, and no hops |
| JsFloyd.LastWeights | src/algorithms/floydWarshall.js:24-31 | the matrix the algorithm sees: each leg weighs as much as the last connection listed for it |
| JsFloyd.LastIsLightest | src/algorithms/floydWarshall.js:26-30 | where a row has one connection to `v`, the last one is also the lightest |
| JsFloyd.SameWeights | src/algorithms/floydWarshall.js:24-31 | without parallel connections the matrix equals the one the other JavaScript finders use |
| JsFloyd.CopyConnections | src/algorithms/floydWarshall.js:24-31 | after copying, each entry holds the last connection's distance and its target as hop |
| JsFloyd.InitFacts | src/algorithms/floydWarshall.js:15-31 | the initial matrices are witnessed and bound the walks with no inner airport |
| JsFloyd.RelaxAll | src/algorithms/floydWarshall.js:34-43 | after the triple loop every entry bounds every walk, and no entry rose |
| JsFloyd.MatrixShortest | src/algorithms/floydWarshall.js:34-43 | each finished entry is the shortest distance |
| JsFloyd.FollowNext | src/algorithms/floydWarshall.js:53-63 | with positive legs the `next` walk reaches the destination along a path weighing the entry, and the `null` hop never happens |
| JsFloyd.FloydWarshall | src/algorithms/floydWarshall.js:2-75 | the "No path found" error exactly when unreachable; otherwise a shortest path with its distance and `distance / 10` as duration |
| AviationJsGraph.BuildGraph | src/api/aviation.js:109-126 | `buildGraph` gives every airport a row holding every other airport at their distance |
| AviationJsGraph.Network | src/api/aviation.js:109-126 | the complete network between the airports exists and is what `buildGraph` describes |
| AviationJsGraph.CompleteIsNetwork | src/api/aviation.js:109-126 | `buildGraph` can leave one graph only |
| AviationJsGraph.CompleteReachable | src/api/aviation.js:112-122 | in the built graph every airport reaches every airport |
| AviationJsGraph.CompleteClosed | src/api/aviation.js:115 | the built graph is closed, non-negative and loop-free |
| AviationJsGraph.CompletePositive | src/api/aviation.js:115-120 | airports a positive distance apart make every leg positive |
| AviationJsGraph.CompleteSymmetric | src/api/aviation.js:116-120 | a symmetric measure gives a symmetric graph |
| AviationJsGraph.DirectIsShortest | src/api/aviation.js:116-120 | under the triangle inequality the direct distance is the shortest (0 to itself) |
| AviationJsGraph.WalkAtLeastDirect | src/api/aviation.js:116-120 | under the triangle inequality no walk weighs less than its ends' distance |
| AviationJsGraph.HeuristicConsistent | src/api/aviation.js:247-257 | under the triangle inequality the straight-line heuristic is consistent on the built graph |
| AviationJsGraph.Among | src/api/aviation.js:157-165 | the legs the finders can take: those that end at a key of the graph, at the same weight |
| AviationJsGraph.CompleteAmong | src/api/aviation.js:109-126 | the finders see all of the built graph |
| AviationJsDijkstra.RelaxNeighbors | src/api/aviation.js:157-165 | an unvisited neighbour that the leg brings closer gets the new distance and predecessor; every other entry stays |
| AviationJsDijkstra.InvStep | src/api/aviation.js:152-165 | visiting the least airport keeps the loop invariant |
| AviationJsDijkstra.Visit | src/api/aviation.js:140-166 | one pass stops with the end final, or visits one more node keeping the invariant |
| AviationJsDijkstra.Dijkstra | src/api/aviation.js:129-182 | a finite distance comes with a path of that weight; `Infinity`, with path `[end]`, exactly when unreachable; shortest under non-negative legs; `[start]` at 0 to itself |
| AviationJsAStar.RelaxNeighbors | src/api/aviation.js:228-240 | a neighbour whose tentative score is lower takes it, with `cameFrom` and estimate, and joins the open set |
| AviationJsAStar.InvStep | src/api/aviation.js:226-240 | expanding the open node of least estimate keeps the invariant, with no closed set |
| AviationJsAStar.Progress | src/api/aviation.js:197-241 | each expansion lowers the loop's measure, so the search ends under non-negative legs |
| AviationJsAStar.Found | src/api/aviation.js:209-224 | on selecting the end, the `cameFrom` chain is a path no heavier than the end's score, equal to it and shortest under consistency |
| AviationJsAStar.Exhausted | src/api/aviation.js:243 | an empty open set means the end is unreachable |
| AviationJsAStar.AStar | src/api/aviation.js:185-244 | `null` exactly when unreachable; otherwise a path to the end no heavier than the distance, both shortest under a consistent heuristic; `[start]` at 0 to itself |
| AviationJsFloyd.InitTables | src/api/aviation.js:266-279 | 0 on the diagonal, the leg and its hop where there is one, `Infinity` and no hop elsewhere |
| AviationJsFloyd.InitFacts | src/api/aviation.js:266-279 | before the main loop the tables are witnessed, have no hop at `Infinity`, and bound the walks with no inner node |
| AviationJsFloyd.RelaxAll | src/api/aviation.js:282-291 | after the triple loop every entry bounds every walk, and an entry at `Infinity` still has no hop |
| AviationJsFloyd.FollowNext | src/api/aviation.js:294-301 | with positive legs a finite entry is walked to the end along a path of its weight; an entry at `Infinity` gives `[start]` |
| AviationJsFloyd.FloydWarshall | src/api/aviation.js:260-308 | `Infinity`, with path `[start]`, exactly when unreachable; otherwise a shortest path of the reported distance |
| AviationJsBellmanFord.Round | src/api/aviation.js:323-333 | one round lowers or keeps every distance and relaxes every leg from a finite node |
| AviationJsBellmanFord.Rounds | src/api/aviation.js:316-334 | after `nodes.length - 1` rounds no walk of at most that many legs beats a distance |
| AviationJsBellmanFord.HasNegativeCycle | src/api/aviation.js:337-346 | the flag is set exactly when some leg could still lower a distance |
| AviationJsBellmanFord.BellmanFord | src/api/aviation.js:311-366 | the negative-weight-cycle error exactly when one is reachable; otherwise `Infinity`, with path `[end]`, exactly when unreachable, and else a shortest path of the distance |
| ApiAviationJs.Select | src/api/aviation.js:377-391 | on the built graph each selected finder returns a finite answer with a path between the airports, exact and shortest except for the A* under an inconsistent heuristic |
| ApiAviationJs.CalculatePath | src/api/aviation.js:369-409 | every request succeeds: the algorithm name, a path of the network, the duration from the distance, shortest except for an A* with a heuristic that breaks the triangle inequality, and the direct distance under the triangle inequality |
| ApiAviationTs.CodesDistinct | src/api/aviation.ts:5-14 | the 8 airport codes are distinct |
| ApiAviationTs.RoutesProper | src/api/aviation.ts:17-36 | the 18 routes have positive weights and no self-loop |
| ApiAviationTs.TablesValid | src/api/aviation.ts:5-36 | the inline tables are usable for building a graph |
| ApiAviationTs.Verdict | src/api/aviation.ts:116-127 | an empty path or one not starting at the source is the "No path found" error; otherwise the route with its distance and duration |
| ApiAviationTs.DijkstraAnswers | src/api/aviation.ts:57-127 | the Dijkstra result, turned into the answer, succeeds exactly when the destination is reachable, with a shortest path and its duration |
| ApiAviationTs.NotInGraph | src/api/aviation.ts:106-119 | an airport outside the graph is reachable only from itself |
| ApiAviationTs.CalculatePath | src/api/aviation.ts:39-133 | over the graph of the inline tables: success exactly when reachable, with a shortest path, its distance and its duration; otherwise the "No path found" error |
| ApiAviationTs.MockBackendRequest | src/api/aviation.ts:136-143 | passes the answer or the error of `calculatePath` through unchanged |
| ApiAviationTs.BomToPnq | src/api/aviation.ts:27 | from BOM to PNQ the answer is the direct route, 123 km in 45 minutes |
| ApiAviationTs.LegsAtLeast | src/api/aviation.ts:17-36 | no leg of the inline graph is shorter than 123 km |
| CostCalculatorTs.FlightRate | src/utils/costCalculator.ts:2-5 | ₹3 per km in economy, ₹7 in business |
| CostCalculatorTs.CalculateFlightCost | src/utils/costCalculator.ts:9-11 | the fare is zero exactly for a zero distance, at least the distance for a non-negative one, and negative for a negative one |
| CostCalculatorTs.CostAdditive | src/utils/costCalculator.ts:9-11 | the fare of two legs is the sum of their fares |
| CostCalculatorTs.CostMonotone | src/utils/costCalculator.ts:9-11 | a longer flight never costs less |
| CostCalculatorTs.BusinessAtLeastEconomy | src/utils/costCalculator.ts:2-11 | business never costs less than economy, and costs strictly more for a positive distance |
| CostCalculatorTs.GetFlightClassDisplayName | src/utils/costCalculator.ts:17-19 | "Economy Class" exactly for economy, "Business Class" exactly for business |
| CostCalculatorJs.CostPerKm | src/utils/costCalculator.js:7-13 | 7 for business, and 3 for economy and for any other string that is not an inherited property name, since the missing own entry is falsy |
| CostCalculatorJs.CalculateFlightCost | src/utils/costCalculator.js:12-15 | the distance times 7 for business, times 3 otherwise |
| CostCalculatorJs.GetFlightClassName | src/utils/costCalculator.js:21-29 | "Business Class" exactly for business, "Economy Class" exactly otherwise |
| CostCalculatorJs.AgreesWithTs | src/utils/costCalculator.js:7-29 | fares and names agree with the TypeScript calculator once an unknown class is read as economy |
| CostCalculatorJs.UnknownIsEconomy | src/utils/costCalculator.js:13 | a class that is not a key of `COST_PER_KM` and not an inherited property name is billed and named exactly like economy |

## Left out

- Floating point: positions, `calculateDistance` (Haversine) and the Euclidean heuristic are not modelled. Distances between airports are a `measure` parameter returning a natural number, and the straight-line measure of two positions is a `straight` parameter. Airports keep only code, name and city; `state` and `position` are dropped.
- Results and cost are on unbounded integers. `Infinity` is the `Inf` case of `Dist`, and a JavaScript `NaN` comparison is modelled as false.
- `performance.now`, `Date.now`, `computationTime`, `console.log`/`console.error` and the `setTimeout` delay of aviation.ts are left out. They do not affect any result.
- `formatCurrency` is left out because it is locale formatting (`toLocaleString`). The UI components, `mocks.ts` and `mapUtils.ts` are not part of this model.
- The iteration order of `Object.keys`, `Object.entries` and `Set` is not modelled: each loop takes its keys in an arbitrary order. Ties in selecting a minimum may go to any least node. The algorithms/*.js Dijkstra scans its airport list in order, and `JsDijkstra.SelectFirst` keeps the first one.
- The default `algorithm = 'dijkstra'` of aviation.js `calculatePath` is left to the caller. Any unknown name selects Dijkstra, as the `default:` case does.
- The `async`/`Promise` wrapping is left out. A thrown `Error` is the `Failure` case of `Result`, and `mockBackendRequest`'s rethrow passes it through.
- ApiAviationJs.CalculatePath: requires both codes to be airports. With an unknown code, some finders read rows or entries that do not exist, and `Object.keys(undefined)` throws a `TypeError`. For Floyd-Warshall it also requires distinct airports a positive distance apart: with a zero-length leg the `next` walk can circle a zero cycle.
- ApiAviationJs.Select: the Bellman-Ford error cannot happen on the built graph, because its legs are non-negative. The model proves this edge case instead of reproducing it.
- AviationJsAStar.AStar: requires non-negative legs. Without a closed set, a negative cycle would reopen nodes forever. The contract only promises a path no heavier than the reported distance: with an inconsistent heuristic, a `cameFrom` link rewritten after the end was scored can make the path lighter than the distance. The two are equal, and shortest, under a consistent heuristic.
- AviationJsDijkstra.Dijkstra: shortest only under non-negative legs. With negative legs only the weight and reachability facts hold.
- AviationJsFloyd.FloydWarshall: requires positive legs. With a zero-weight cycle the `next` walk need not end.
- UtilsDijkstra.Dijkstra: requires a well-formed graph whose destination is a key. An unknown destination makes `distances[destination]` undefined.
- UtilsAStar.AStar: consistency is an explicit hypothesis for optimality. The heuristic is a function parameter standing for `heuristic(node, destination)`.
- UtilsFloyd.FloydWarshall: requires source and destination to be graph keys. An unknown source makes `dist[source]` undefined and the read of line 52 throws a `TypeError`. An unknown destination (with a known source) returns the path `[source]` with `distance` and `duration` undefined, because `next[source][destination]` is undefined and the walk of lines 58-63 stops. Neither case is modelled. It also requires positive distances, for the termination of the `next` walk. Only the existence of a shortest walk with the reported duration is promised: `durations[source][destination]` follows the relaxation, not the reconstructed path.
- JsDijkstra.Dijkstra: requires a listed destination, because otherwise reconstruction reads an undefined predecessor. It also requires non-negative distances: with a negative one a visited airport can be lowered again, and the predecessor chain can close into a loop.
- JsAStar.AStar: requires a listed source. An unlisted source has an undefined `fScore`, so no node is ever selected (`current` stays `null`), nothing leaves the open set, and the loop does not end. Unlisted connection targets are modelled: they have no initial entry, are scored when first opened, and the heuristic is 0 for them.
- JsBellmanFord.BellmanFord: requires a listed destination, because otherwise the reconstruction loop never ends.
- JsFloyd.FloydWarshall: requires listed source and destination codes. An unknown source makes `codeToIndex[sourceCode]` undefined and the read `dist[undefined][...]` of line 49 throws a `TypeError`. An unknown destination (with a listed source) returns the path `[sourceCode, undefined]`: the walk of lines 56-62 pushes the source and stops at `next[sourceIndex][undefined]`, and line 63 appends `airportCodes[undefined]`. Its distance is the entry `dist[sourceIndex]["undefined"]`, which lines 27-28 write for every connection of the source's row to an unlisted code. So when the source has such connections, `distance` is the last one's distance and `duration` that distance / 10, whichever unlisted code was asked for. Otherwise `distance` is undefined (the comparison with `Infinity` at line 49 is false) and `duration` is `NaN`. Neither case is modelled. It also requires distinct codes, rows only for listed airports (otherwise `codeToIndex[from]` is undefined and indexing throws), no self-loop connections and positive legs. A self-loop overwrites the diagonal, so a path from an airport to itself would report the loop's distance. Positive legs keep the `next` walk finite. Parallel connections are modelled: the last one wins (`JsFloyd.LastWeights`), where the other finders relax every connection and keep the lightest.
- ApiAviationTs.CalculatePath: requires a listed destination or distinct endpoints. From an unknown airport to itself the source returns a route whose distance is `undefined`. Its Dijkstra loop is the one of `src/utils/dijkstra.ts`, shared through `UtilsDijkstra`.
- CostCalculatorJs.CostPerKm: `COST_PER_KM` is modelled by its own two keys only. A class named after a property every JavaScript object inherits (`constructor`, `toString`, `__proto__`, ...) finds a truthy non-number there, so the source's rate is that value and the cost is `NaN`, where the model bills the economy rate. Such names are not part of this model.
- CostCalculatorJs.CalculateFlightCost: the same restriction. For an inherited property name the source returns `NaN`, not the economy fare.
- CostCalculatorJs.UnknownIsEconomy: its hypothesis `flightClass !in COST_PER_KM` speaks of the own keys only. An inherited property name is not billed like economy in the source.
- The empty airport code `""` is excluded from the TypeScript graphs (`WellFormed`), because the reconstruction loops treat it as falsy and stop.
