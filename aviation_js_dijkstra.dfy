/**
 * `dijkstra(graph, start, end)` of `src/api/aviation.js`. Distances start at
 * `Infinity` (0 at the start); the unvisited node of least finite distance
 * is taken, the search stops when there is none or it is the end, and
 * otherwise its legs towards unvisited nodes are relaxed. The previous
 * table is then followed back from the end. The invariant is the one of the
 * TypeScript Dijkstra, whose duration table is here the distance table
 * itself.
 */
module AviationJsDijkstra {
  import opened Paths
  import opened Frontier
  import opened AviationJsGraph
  import UtilsDijkstra

  /** `unvisited.has(neighbor)` and `newDistance < distances[neighbor]`. */
  predicate Improves(graph: Weights, unvisited: set<Node>, dist: Scores, u: Node, v: Node)
    requires u in graph && u in dist && v in dist
  {
    v in unvisited && v in graph[u] && Lt(AddW(dist[u], graph[u][v]), dist[v])
  }

  /**
   * The legs from `u` to the nodes of `legs` have been relaxed: an unvisited
   * neighbour that the leg brings closer takes the new distance and `u` as
   * its previous node; every other entry is as before.
   */
  ghost predicate RelaxedAlong(graph: Weights, unvisited: set<Node>, u: Node, legs: set<Node>,
                               dist: Scores, prev: Preds, dist': Scores, prev': Preds)
    requires u in graph && Domain(dist, graph.Keys) && Domain(prev, graph.Keys)
  {
    && Domain(dist', graph.Keys) && Domain(prev', graph.Keys)
    && forall v {:trigger dist'[v]} :: v in graph ==>
      if v in legs && Improves(graph, unvisited, dist, u, v) then
        dist'[v] == AddW(dist[u], graph[u][v]) && prev'[v] == Some(u)
      else
        dist'[v] == dist[v] && prev'[v] == prev[v]
  }

  /** `Object.keys(graph[current]).forEach(...)`, for a `current` already removed from `unvisited`. */
  method RelaxNeighbors(graph: Weights, unvisited: set<Node>, u: Node, dist: Scores, prev: Preds)
    returns (dist': Scores, prev': Preds)
    requires u in graph && u !in unvisited && unvisited <= graph.Keys
    requires Domain(dist, graph.Keys) && Domain(prev, graph.Keys)
    ensures RelaxedAlong(graph, unvisited, u, graph[u].Keys, dist, prev, dist', prev')
  {
    dist', prev' := dist, prev;
    var rest := graph[u].Keys;
    while rest != {}
      invariant rest <= graph[u].Keys
      invariant RelaxedAlong(graph, unvisited, u, graph[u].Keys - rest, dist, prev, dist', prev')
      invariant dist'[u] == dist[u]
      decreases rest
    {
      var neighbor :| neighbor in rest;
      if neighbor in unvisited {
        var newDistance := AddW(dist'[u], graph[u][neighbor]);
        if Lt(newDistance, dist'[neighbor]) {
          dist' := dist'[neighbor := newDistance];
          prev' := prev'[neighbor := Some(u)];
        }
      }
      rest := rest - {neighbor};
    }
  }

  /** The main loop's invariant, on the part of the graph among its keys. */
  ghost predicate Inv(graph: Weights, start: Node, end: Node, unvisited: set<Node>,
                      dist: Scores, prev: Preds, rank: map<Node, nat>)
  {
    && UtilsDijkstra.Shape(graph.Keys, start, end, unvisited, dist, dist, prev)
    && UtilsDijkstra.Chains(Among(graph), Among(graph), graph.Keys, start, unvisited, dist, dist, prev, rank)
    && UtilsDijkstra.Bounds(Among(graph), graph.Keys, start, unvisited, dist)
  }

  lemma InvInit(graph: Weights, start: Node, end: Node)
    requires end in graph
    ensures Inv(graph, start, end, graph.Keys, InitScores(graph.Keys, start),
                map v | v in graph :: None, map v | v in graph :: |graph.Keys|)
  {
    UtilsDijkstra.ChainsInit(Among(graph), Among(graph), graph.Keys, start);
    UtilsDijkstra.BoundsInit(Among(graph), graph.Keys, start);
  }

  /** The relaxation, read as one step of the predecessor chains. */
  lemma RelaxEffectStep(graph: Weights, unvisited: set<Node>, dist: Scores, prev: Preds,
                        u: Node, dist': Scores, prev': Preds)
    requires u in graph && Domain(dist, graph.Keys) && Domain(prev, graph.Keys)
    requires unvisited <= graph.Keys && u in unvisited
    requires RelaxedAlong(graph, unvisited - {u}, u, graph[u].Keys, dist, prev, dist', prev')
    ensures StepFrom(Among(graph), graph.Keys, graph.Keys - (unvisited - {u}), dist, prev, u, dist', prev')
  {
  }

  /** The relaxation, read as a lowering of the distance table. */
  lemma RelaxEffectLowered(graph: Weights, unvisited: set<Node>, dist: Scores, prev: Preds,
                           u: Node, dist': Scores, prev': Preds)
    requires u in graph && Domain(dist, graph.Keys) && Domain(prev, graph.Keys)
    requires unvisited <= graph.Keys && u in unvisited
    requires RelaxedAlong(graph, unvisited - {u}, u, graph[u].Keys, dist, prev, dist', prev')
    ensures Lowered(Among(graph), graph.Keys, graph.Keys - unvisited, dist, u, dist')
  {
    RelaxEffectNoneRaised(graph, unvisited, dist, prev, u, dist', prev');
    RelaxEffectEdges(graph, unvisited, dist, prev, u, dist', prev');
  }

  lemma RelaxEffectNoneRaised(graph: Weights, unvisited: set<Node>, dist: Scores, prev: Preds,
                              u: Node, dist': Scores, prev': Preds)
    requires u in graph && Domain(dist, graph.Keys) && Domain(prev, graph.Keys)
    requires unvisited <= graph.Keys && u in unvisited
    requires RelaxedAlong(graph, unvisited - {u}, u, graph[u].Keys, dist, prev, dist', prev')
    ensures NoneRaised(graph.Keys, graph.Keys - unvisited, dist, u, dist')
  {
  }

  lemma RelaxEffectEdges(graph: Weights, unvisited: set<Node>, dist: Scores, prev: Preds,
                         u: Node, dist': Scores, prev': Preds)
    requires u in graph && Domain(dist, graph.Keys) && Domain(prev, graph.Keys)
    requires unvisited <= graph.Keys && u in unvisited
    requires RelaxedAlong(graph, unvisited - {u}, u, graph[u].Keys, dist, prev, dist', prev')
    ensures EdgesRelaxed(Among(graph), graph.Keys, graph.Keys - unvisited, dist, u, dist')
  {
    var w := Among(graph);
    forall v | v in graph.Keys && v !in graph.Keys - unvisited && v != u && IsEdge(w, u, v)
      ensures Le(dist'[v], AddW(dist[u], w[u][v]))
    {
      assert v in graph[u] && w[u][v] == graph[u][v];
      assert dist'[v] == dist'[v];
    }
  }

  /** Visiting the selected node and relaxing its legs keeps the invariant. */
  lemma InvStep(graph: Weights, start: Node, end: Node, unvisited: set<Node>,
                dist: Scores, prev: Preds, rank: map<Node, nat>, u: Node, dist': Scores, prev': Preds)
    requires Inv(graph, start, end, unvisited, dist, prev, rank)
    requires u in unvisited && u != end && dist[u].Fin?
    requires forall v :: v in unvisited ==> Le(dist[u], dist[v])
    requires RelaxedAlong(graph, unvisited - {u}, u, graph[u].Keys, dist, prev, dist', prev')
    ensures Inv(graph, start, end, unvisited - {u}, dist', prev', rank[u := |graph.Keys - unvisited|])
  {
    var w, V := Among(graph), graph.Keys;
    RelaxEffectStep(graph, unvisited, dist, prev, u, dist', prev');
    RelaxEffectLowered(graph, unvisited, dist, prev, u, dist', prev');
    UtilsDijkstra.ShapeStep(V, start, end, unvisited, dist, dist, prev, u, dist', dist', prev');
    UtilsDijkstra.ChainsStep(w, w, V, start, end, unvisited, dist, dist, prev, rank, u, dist', dist', prev');
    UtilsDijkstra.BoundsStep(w, V, start, end, unvisited, dist, dist, prev, u, dist');
  }

  /**
   * One pass of `while (unvisited.size > 0)`: select the unvisited node of
   * least finite distance; stop if there is none (`current === null`) or it
   * is the end; otherwise delete it from `unvisited` and relax its legs.
   */
  method Visit(graph: Weights, start: Node, end: Node, unvisited: set<Node>,
               dist: Scores, prev: Preds, ghost rank: map<Node, nat>)
    returns (stop: bool, unvisited': set<Node>, dist': Scores, prev': Preds, ghost rank': map<Node, nat>)
    requires Inv(graph, start, end, unvisited, dist, prev, rank)
    ensures Inv(graph, start, end, unvisited', dist', prev', rank')
    ensures stop ==> unvisited' == unvisited && dist' == dist && prev' == prev
    ensures stop ==> UtilsDijkstra.Stopped(Among(graph), start, end, dist)
    ensures !stop ==> |unvisited'| < |unvisited|
    ensures start == end && unvisited == graph.Keys && dist == InitScores(graph.Keys, start) ==> stop
  {
    var current, minDistance := SelectMin(unvisited, dist);
    if current.None? || current.value == end {
      UtilsDijkstra.BoundsStop(Among(graph), graph.Keys, start, end, unvisited, dist, dist, prev, current);
      return true, unvisited, dist, prev, rank;
    }
    var u := current.value;
    dist', prev' := RelaxNeighbors(graph, unvisited - {u}, u, dist, prev);
    InvStep(graph, start, end, unvisited, dist, prev, rank, u, dist', prev');
    rank' := rank[u := |graph.Keys - unvisited|];
    unvisited' := unvisited - {u};
    stop := false;
  }

  /**
   * The aviation.js Dijkstra, on the legs among the graph's keys. A finite
   * distance comes with a path of that weight, `Infinity` (with the path
   * `[end]`) means the end cannot be reached, and with non-negative legs the
   * distance is the shortest one. An unknown start leaves every distance at
   * `Infinity`.
   */
  method Dijkstra(graph: Weights, start: Node, end: Node) returns (r: Answer)
    requires end in graph
    ensures r.distance.Fin? ==>
      IsPath(Among(graph), r.path, start, end) && PathWeight(Among(graph), r.path) == r.distance.v
    ensures r.distance.Inf? <==> !Reachable(Among(graph), start, end)
    ensures r.distance.Inf? ==> r.path == [end]
    ensures NonNegative(Among(graph)) ==> IsShortest(Among(graph), start, end, r.distance)
    ensures start == end ==> r == Answer([start], Fin(0))
  {
    var dist := InitScores(graph.Keys, start);
    var prev: Preds := map v | v in graph :: None;
    var unvisited := graph.Keys;
    ghost var rank: map<Node, nat> := map v | v in graph :: |graph.Keys|;
    ghost var dist0, prev0 := dist, prev;
    InvInit(graph, start, end);

    while unvisited != {}
      invariant Inv(graph, start, end, unvisited, dist, prev, rank)
      // From an airport to itself the first selection is that airport, and the tables stay initial.
      invariant start == end ==> unvisited == graph.Keys && dist == dist0 && prev == prev0
      decreases |unvisited|
    {
      var stop;
      stop, unvisited, dist, prev, rank := Visit(graph, start, end, unvisited, dist, prev, rank);
      if stop {
        break;
      }
    }

    UtilsDijkstra.ChainsAcyclic(Among(graph), Among(graph), graph.Keys, start, end, unvisited, dist, dist, prev, rank);
    var path := Reconstruct(prev, graph.Keys, end);
    UtilsDijkstra.ChainsConclude(Among(graph), Among(graph), graph.Keys, start, end, unvisited, dist, dist, prev, rank, path);
    if start == end {
      SingleChain(prev, path, end);
    }
    r := Answer(path, dist[end]);
  }
}
