/**
 * `dijkstra(graph, source, destination)` of the TypeScript utilities: the
 * path finder behind the mock backend. Tentative distances and durations
 * start at `Infinity` (0 at the source); the unvisited airport of least
 * distance is settled, and its legs towards unvisited airports are relaxed,
 * durations following the distances; the search stops at the destination
 * or when no unvisited airport is finite.
 */
module UtilsDijkstra {
  import opened Paths
  import opened Frontier
  import opened TsGraph

  /** The relaxation test of the inner loop: `newDistance < distances[neighbor]`. */
  predicate Improves(graph: Graph, unvisited: set<Node>, dist: Scores, u: Node, v: Node)
    requires u in graph && u in dist && v in dist
  {
    v in unvisited && v in graph[u] && Lt(AddW(dist[u], graph[u][v].distance), dist[v])
  }

  /**
   * The legs from `u` to the airports of `legs` have been relaxed: an
   * unvisited neighbour whose distance the leg shortens takes the new
   * distance, the matching duration and `u` as predecessor; every other
   * entry is as before.
   */
  ghost predicate RelaxedAlong(graph: Graph, unvisited: set<Node>, u: Node, legs: set<Node>,
                         dist: Scores, dur: Scores, prev: Preds, dist': Scores, dur': Scores, prev': Preds)
    requires u in graph && Domain(dist, graph.Keys) && Domain(dur, graph.Keys) && Domain(prev, graph.Keys)
  {
    && Domain(dist', graph.Keys) && Domain(dur', graph.Keys) && Domain(prev', graph.Keys)
    && forall v {:trigger dist'[v]} :: v in graph ==>
      if v in legs && Improves(graph, unvisited, dist, u, v) then
        && dist'[v] == AddW(dist[u], graph[u][v].distance)
        && dur'[v] == AddW(dur[u], graph[u][v].duration)
        && prev'[v] == Some(u)
      else
        dist'[v] == dist[v] && dur'[v] == dur[v] && prev'[v] == prev[v]
  }

  /** `for (const neighbor in graph[current])`, for a `current` already removed from `unvisited`. */
  method RelaxNeighbors(graph: Graph, unvisited: set<Node>, u: Node, dist: Scores, dur: Scores, prev: Preds)
    returns (dist': Scores, dur': Scores, prev': Preds)
    requires u in graph && u !in unvisited
    requires Domain(dist, graph.Keys) && Domain(dur, graph.Keys) && Domain(prev, graph.Keys) && unvisited <= graph.Keys
    ensures RelaxedAlong(graph, unvisited, u, graph[u].Keys, dist, dur, prev, dist', dur', prev')
  {
    dist', dur', prev' := dist, dur, prev;
    var rest := graph[u].Keys;
    while rest != {}
      invariant rest <= graph[u].Keys
      invariant RelaxedAlong(graph, unvisited, u, graph[u].Keys - rest, dist, dur, prev, dist', dur', prev')
      invariant dist'[u] == dist[u] && dur'[u] == dur[u]
      decreases rest
    {
      var neighbor :| neighbor in rest;
      if neighbor in unvisited {
        var edge := graph[u][neighbor];
        var newDistance := AddW(dist'[u], edge.distance);
        var newDuration := AddW(dur'[u], edge.duration);
        if Lt(newDistance, dist'[neighbor]) {
          dist' := dist'[neighbor := newDistance];
          dur' := dur'[neighbor := newDuration];
          prev' := prev'[neighbor := Some(u)];
        }
      }
      rest := rest - {neighbor};
    }
  }

  /** The table shapes; `V - unvisited` is the set of visited airports. */
  ghost predicate Shape(V: set<Node>, source: Node, destination: Node, unvisited: set<Node>,
                        dist: Scores, dur: Scores, prev: Preds)
  {
    && unvisited <= V && destination in unvisited
    && Domain(dist, V) && Domain(dur, V) && Domain(prev, V)
    && (forall v {:trigger dist[v]} :: v in V ==> (dist[v].Fin? <==> dur[v].Fin?))
    && (forall x {:trigger dist[x]} :: x in V - unvisited ==> dist[x].Fin?)
    && (source in V ==> dist[source] == Fin(0))
    && (source !in V ==> unvisited == V && forall v {:trigger dist[v]} :: v in V ==> dist[v] == Inf && prev[v] == None)
    && (source in unvisited ==> unvisited == V && forall v {:trigger dist[v]} :: v in V && v != source ==> dist[v] == Inf)
  }

  /** The predecessor chains agree with both tables. */
  ghost predicate Chains(w: Weights, t: Weights, V: set<Node>, source: Node, unvisited: set<Node>,
                         dist: Scores, dur: Scores, prev: Preds, rank: map<Node, nat>)
  {
    source in V ==>
      && PredOk(w, V, V - unvisited, dist, prev, rank, source)
      && PredOk(t, V, V - unvisited, dur, prev, rank, source)
      && RankFacts(V, V - unvisited, rank)
  }

  /** Visited airports hold lower bounds (for non-negative distances); their legs are relaxed. */
  ghost predicate Bounds(w: Weights, V: set<Node>, source: Node, unvisited: set<Node>, dist: Scores) {
    && Relaxed(w, V - unvisited, V, dist)
    && (NonNegative(w) ==> Settled(w, source, V - unvisited, dist))
  }

  /** The main loop's invariant. */
  ghost predicate Inv(graph: Graph, source: Node, destination: Node, unvisited: set<Node>,
                      dist: Scores, dur: Scores, prev: Preds, rank: map<Node, nat>)
  {
    && WellFormed(graph)
    && Shape(graph.Keys, source, destination, unvisited, dist, dur, prev)
    && Chains(DistanceWeights(graph), DurationWeights(graph), graph.Keys, source, unvisited, dist, dur, prev, rank)
    && Bounds(DistanceWeights(graph), graph.Keys, source, unvisited, dist)
  }

  /** What holds of the destination's distance when the search stops. */
  ghost predicate Stopped(w: Weights, source: Node, destination: Node, dist: Scores)
    requires destination in dist
  {
    && (dist[destination].Inf? ==> !Reachable(w, source, destination))
    && (NonNegative(w) ==> forall p {:trigger IsPath(w, p, source, destination)} :: IsPath(w, p, source, destination) ==> Le(dist[destination], Fin(PathWeight(w, p))))
  }

  lemma InvInit(graph: Graph, source: Node, destination: Node)
    requires WellFormed(graph) && destination in graph
    ensures Inv(graph, source, destination, graph.Keys, InitScores(graph.Keys, source), InitScores(graph.Keys, source),
                map v | v in graph :: None, map v | v in graph :: |graph.Keys|)
  {
    var V, g := graph.Keys, InitScores(graph.Keys, source);
    ChainsInit(DistanceWeights(graph), DurationWeights(graph), V, source);
    BoundsInit(DistanceWeights(graph), V, source);
  }

  lemma ChainsInit(w: Weights, t: Weights, V: set<Node>, source: Node)
    ensures Chains(w, t, V, source, V, InitScores(V, source), InitScores(V, source), map v | v in V :: None, map v | v in V :: |V|)
  {
    if source in V {
      InitPredOk(w, V, source);
      InitPredOk(t, V, source);
    }
  }

  lemma BoundsInit(w: Weights, V: set<Node>, source: Node)
    ensures Bounds(w, V, source, V, InitScores(V, source))
  {
    assert V - V == {};
  }

  /** The break: no finite unvisited airport, or the destination selected. */
  lemma BoundsStop(w: Weights, V: set<Node>, source: Node, destination: Node, unvisited: set<Node>,
                   dist: Scores, dur: Scores, prev: Preds, current: Option<Node>)
    requires Closed(w, V) && Shape(V, source, destination, unvisited, dist, dur, prev) && Bounds(w, V, source, unvisited, dist)
    requires current.None? ==> forall v :: v in unvisited ==> dist[v] == Inf
    requires current.Some? ==> current.value == destination && dist[destination].Fin?
    requires current.Some? ==> forall v :: v in unvisited ==> Le(dist[destination], dist[v])
    ensures Stopped(w, source, destination, dist)
  {
    var S := V - unvisited;
    if current.None? {
      if source in V {
        AllInfUnreachable(w, V, S, dist, source, destination);
      } else if Reachable(w, source, destination) {
        var p :| IsPath(w, p, source, destination);
        PathStartsInside(w, V, p, source, destination);
      }
    } else if source in V && NonNegative(w) {
      ZeroPotential(w);
      SelectedIsSettled(w, (v: Node) => 0, V, S, dist, source, destination);
    }
  }

  /** The relaxation, read as a change of the distance table and the predecessors. */
  lemma RelaxEffectDistance(graph: Graph, unvisited: set<Node>, dist: Scores, dur: Scores, prev: Preds,
                            u: Node, dist': Scores, dur': Scores, prev': Preds)
    requires u in graph && Domain(dist, graph.Keys) && Domain(dur, graph.Keys) && Domain(prev, graph.Keys)
    requires unvisited <= graph.Keys && u in unvisited
    requires RelaxedAlong(graph, unvisited - {u}, u, graph[u].Keys, dist, dur, prev, dist', dur', prev')
    ensures StepFrom(DistanceWeights(graph), graph.Keys, graph.Keys - (unvisited - {u}), dist, prev, u, dist', prev')
  {
  }

  /** The relaxation, read as a change of the duration table and the predecessors. */
  lemma RelaxEffectDuration(graph: Graph, unvisited: set<Node>, dist: Scores, dur: Scores, prev: Preds,
                            u: Node, dist': Scores, dur': Scores, prev': Preds)
    requires u in graph && Domain(dist, graph.Keys) && Domain(dur, graph.Keys) && Domain(prev, graph.Keys)
    requires unvisited <= graph.Keys && u in unvisited
    requires RelaxedAlong(graph, unvisited - {u}, u, graph[u].Keys, dist, dur, prev, dist', dur', prev')
    ensures StepFrom(DurationWeights(graph), graph.Keys, graph.Keys - (unvisited - {u}), dur, prev, u, dur', prev')
  {
  }

  /** The relaxation, read as a lowering of the distance table. */
  lemma RelaxEffectLowered(graph: Graph, unvisited: set<Node>, dist: Scores, dur: Scores, prev: Preds,
                           u: Node, dist': Scores, dur': Scores, prev': Preds)
    requires u in graph && Domain(dist, graph.Keys) && Domain(dur, graph.Keys) && Domain(prev, graph.Keys)
    requires unvisited <= graph.Keys && u in unvisited
    requires RelaxedAlong(graph, unvisited - {u}, u, graph[u].Keys, dist, dur, prev, dist', dur', prev')
    ensures Lowered(DistanceWeights(graph), graph.Keys, graph.Keys - unvisited, dist, u, dist')
  {
    RelaxEffectNoneRaised(graph, unvisited, dist, dur, prev, u, dist', dur', prev');
    RelaxEffectEdges(graph, unvisited, dist, dur, prev, u, dist', dur', prev');
  }

  lemma RelaxEffectNoneRaised(graph: Graph, unvisited: set<Node>, dist: Scores, dur: Scores, prev: Preds,
                              u: Node, dist': Scores, dur': Scores, prev': Preds)
    requires u in graph && Domain(dist, graph.Keys) && Domain(dur, graph.Keys) && Domain(prev, graph.Keys)
    requires unvisited <= graph.Keys && u in unvisited
    requires RelaxedAlong(graph, unvisited - {u}, u, graph[u].Keys, dist, dur, prev, dist', dur', prev')
    ensures forall v {:trigger dist'[v]} :: v in graph.Keys ==>
      Le(dist'[v], dist[v]) && (v in graph.Keys - unvisited || v == u ==> dist'[v] == dist[v])
  {
  }

  lemma RelaxEffectEdges(graph: Graph, unvisited: set<Node>, dist: Scores, dur: Scores, prev: Preds,
                         u: Node, dist': Scores, dur': Scores, prev': Preds)
    requires u in graph && Domain(dist, graph.Keys) && Domain(dur, graph.Keys) && Domain(prev, graph.Keys)
    requires unvisited <= graph.Keys && u in unvisited
    requires RelaxedAlong(graph, unvisited - {u}, u, graph[u].Keys, dist, dur, prev, dist', dur', prev')
    ensures forall v {:trigger IsEdge(DistanceWeights(graph), u, v)} ::
      v in graph.Keys && v !in graph.Keys - unvisited && v != u && IsEdge(DistanceWeights(graph), u, v) ==>
        Le(dist'[v], AddW(dist[u], DistanceWeights(graph)[u][v]))
  {
    var w := DistanceWeights(graph);
    forall v | v in graph.Keys && v !in graph.Keys - unvisited && v != u && IsEdge(w, u, v)
      ensures Le(dist'[v], AddW(dist[u], w[u][v]))
    {
      assert v in graph[u] && w[u][v] == graph[u][v].distance;
      assert dist'[v] == dist'[v];
    }
  }

  lemma ShapeStep(V: set<Node>, source: Node, destination: Node, unvisited: set<Node>,
                  dist: Scores, dur: Scores, prev: Preds, u: Node, dist': Scores, dur': Scores, prev': Preds)
    requires Shape(V, source, destination, unvisited, dist, dur, prev)
    requires u in unvisited && u != destination && dist[u].Fin?
    requires Domain(dist', V) && Domain(dur', V) && Domain(prev', V)
    requires forall v {:trigger dist'[v]} :: v in V ==>
      || (dist'[v] == dist[v] && dur'[v] == dur[v] && prev'[v] == prev[v])
      || (v in unvisited - {u} && dist'[v].Fin? && dur'[v].Fin?)
    ensures Shape(V, source, destination, unvisited - {u}, dist', dur', prev')
  {
    if source in V {
      assert dist'[source] == dist[source];
    }
  }

  lemma ChainsStep(w: Weights, t: Weights, V: set<Node>, source: Node, destination: Node, unvisited: set<Node>,
                   dist: Scores, dur: Scores, prev: Preds, rank: map<Node, nat>,
                   u: Node, dist': Scores, dur': Scores, prev': Preds)
    requires Shape(V, source, destination, unvisited, dist, dur, prev)
    requires Chains(w, t, V, source, unvisited, dist, dur, prev, rank)
    requires u in unvisited && dist[u].Fin?
    requires V <= dist'.Keys && V <= dur'.Keys
    requires StepFrom(w, V, V - (unvisited - {u}), dist, prev, u, dist', prev')
    requires StepFrom(t, V, V - (unvisited - {u}), dur, prev, u, dur', prev')
    ensures Chains(w, t, V, source, unvisited - {u}, dist', dur', prev', rank[u := |V - unvisited|])
  {
    var S := V - unvisited;
    assert V - (unvisited - {u}) == S + {u};
    if source in V {
      PredOkStep(w, V, S, dist, prev, rank, source, u, dist', prev');
      PredOkStep(t, V, S, dur, prev, rank, source, u, dur', prev');
    }
  }

  lemma BoundsStep(w: Weights, V: set<Node>, source: Node, destination: Node, unvisited: set<Node>,
                   dist: Scores, dur: Scores, prev: Preds, u: Node, dist': Scores)
    requires Closed(w, V) && Shape(V, source, destination, unvisited, dist, dur, prev)
    requires Bounds(w, V, source, unvisited, dist)
    requires u in unvisited && dist[u].Fin?
    requires forall v :: v in unvisited ==> Le(dist[u], dist[v])
    requires V <= dist'.Keys && Lowered(w, V, V - unvisited, dist, u, dist')
    ensures Bounds(w, V, source, unvisited - {u}, dist')
  {
    var S := V - unvisited;
    assert V - (unvisited - {u}) == S + {u};
    if source in V {
      if NonNegative(w) {
        ZeroPotential(w);
        SelectedIsSettled(w, (v: Node) => 0, V, S, dist, source, u);
        SettledStep(w, V, source, S, dist, u, dist');
      }
      RelaxedStep(w, V, S, dist, u, dist');
    }
  }

  /** Settling the selected airport and relaxing its legs keeps the invariant. */
  lemma InvStep(graph: Graph, source: Node, destination: Node, unvisited: set<Node>,
                dist: Scores, dur: Scores, prev: Preds, rank: map<Node, nat>, u: Node,
                dist': Scores, dur': Scores, prev': Preds)
    requires Inv(graph, source, destination, unvisited, dist, dur, prev, rank)
    requires u in unvisited && u != destination && dist[u].Fin?
    requires forall v :: v in unvisited ==> Le(dist[u], dist[v])
    requires RelaxedAlong(graph, unvisited - {u}, u, graph[u].Keys, dist, dur, prev, dist', dur', prev')
    ensures Inv(graph, source, destination, unvisited - {u}, dist', dur', prev', rank[u := |graph.Keys - unvisited|])
  {
    var w, t, V := DistanceWeights(graph), DurationWeights(graph), graph.Keys;
    WellFormedClosed(graph);
    RelaxEffectDistance(graph, unvisited, dist, dur, prev, u, dist', dur', prev');
    RelaxEffectDuration(graph, unvisited, dist, dur, prev, u, dist', dur', prev');
    RelaxEffectLowered(graph, unvisited, dist, dur, prev, u, dist', dur', prev');
    ShapeStep(V, source, destination, unvisited, dist, dur, prev, u, dist', dur', prev');
    ChainsStep(w, t, V, source, destination, unvisited, dist, dur, prev, rank, u, dist', dur', prev');
    BoundsStep(w, V, source, destination, unvisited, dist, dur, prev, u, dist');
  }

  /** The reconstructed chain and the destination's entries make the answer. */
  lemma ChainsConclude(w: Weights, t: Weights, V: set<Node>, source: Node, destination: Node, unvisited: set<Node>,
                       dist: Scores, dur: Scores, prev: Preds, rank: map<Node, nat>, path: seq<Node>)
    requires Shape(V, source, destination, unvisited, dist, dur, prev)
    requires Chains(w, t, V, source, unvisited, dist, dur, prev, rank)
    requires Stopped(w, source, destination, dist) && IsChain(prev, path, destination)
    ensures dist[destination].Fin? ==>
      && IsPath(w, path, source, destination)
      && PathWeight(w, path) == dist[destination].v
      && dur[destination] == Fin(PathWeight(t, path))
    ensures dist[destination].Inf? <==> !Reachable(w, source, destination)
    ensures dist[destination].Inf? ==> path == [destination] && dur[destination] == Inf
    ensures NonNegative(w) ==> IsShortest(w, source, destination, dist[destination])
  {
    if source in V {
      ChainIsPath(w, V, V - unvisited, dist, prev, rank, source, path, destination);
      ChainIsPath(t, V, V - unvisited, dur, prev, rank, source, path, destination);
    } else {
      SingleChain(prev, path, destination);
    }
  }

  lemma ChainsAcyclic(w: Weights, t: Weights, V: set<Node>, source: Node, destination: Node, unvisited: set<Node>,
                      dist: Scores, dur: Scores, prev: Preds, rank: map<Node, nat>)
    requires Shape(V, source, destination, unvisited, dist, dur, prev)
    requires Chains(w, t, V, source, unvisited, dist, dur, prev, rank)
    ensures PredAcyclic(prev) && PredInside(prev, V)
  {
    if source in V {
      RankAcyclic(w, V, V - unvisited, dist, prev, rank, source);
    }
  }

  /**
   * One pass of the main loop: select the unvisited airport of least
   * distance; stop (`break`) if there is none, it is the destination, or its
   * distance is `Infinity`; otherwise mark it visited and relax its legs.
   */
  method Visit(graph: Graph, source: Node, destination: Node, unvisited: set<Node>,
               dist: Scores, dur: Scores, prev: Preds, ghost rank: map<Node, nat>)
    returns (stop: bool, unvisited': set<Node>, dist': Scores, dur': Scores, prev': Preds, ghost rank': map<Node, nat>)
    requires Inv(graph, source, destination, unvisited, dist, dur, prev, rank)
    ensures Inv(graph, source, destination, unvisited', dist', dur', prev', rank')
    ensures stop ==> unvisited' == unvisited && dist' == dist && dur' == dur && prev' == prev
    ensures stop ==> Stopped(DistanceWeights(graph), source, destination, dist)
    ensures !stop ==> |unvisited'| < |unvisited|
    ensures source == destination && unvisited == graph.Keys && dist == InitScores(graph.Keys, source) ==> stop
  {
    var current, minDistance := SelectMin(unvisited, dist);
    if current.None? || current.value == destination || minDistance.Inf? {
      WellFormedClosed(graph);
      BoundsStop(DistanceWeights(graph), graph.Keys, source, destination, unvisited, dist, dur, prev, current);
      return true, unvisited, dist, dur, prev, rank;
    }
    var u := current.value;
    dist', dur', prev' := RelaxNeighbors(graph, unvisited - {u}, u, dist, dur, prev);
    InvStep(graph, source, destination, unvisited, dist, dur, prev, rank, u, dist', dur', prev');
    rank' := rank[u := |graph.Keys - unvisited|];
    unvisited' := unvisited - {u};
    stop := false;
  }

  /**
   * The TypeScript Dijkstra. Whatever the weights, a finite distance comes
   * with a path of that distance whose legs add up to the reported duration,
   * and `Infinity` means the destination is unreachable. With non-negative
   * distances the reported distance is the shortest one.
   */
  method Dijkstra(graph: Graph, source: Node, destination: Node) returns (r: PathResult)
    requires WellFormed(graph) && destination in graph
    ensures r.distance.Fin? ==>
      && IsPath(DistanceWeights(graph), r.path, source, destination)
      && PathWeight(DistanceWeights(graph), r.path) == r.distance.v
      && r.duration == Fin(PathWeight(DurationWeights(graph), r.path))
    ensures r.distance.Inf? <==> !Reachable(DistanceWeights(graph), source, destination)
    ensures r.distance.Inf? ==> r.path == [destination] && r.duration == Inf
    ensures NonNegative(DistanceWeights(graph)) ==> IsShortest(DistanceWeights(graph), source, destination, r.distance)
    ensures source == destination ==> r == PathResult([source], Fin(0), Fin(0))
  {
    var dist := InitScores(graph.Keys, source);
    var dur := InitScores(graph.Keys, source);
    var prev: Preds := map v | v in graph :: None;
    var unvisited := graph.Keys;
    ghost var rank: map<Node, nat> := map v | v in graph :: |graph.Keys|;
    ghost var dist0, prev0 := dist, prev;
    InvInit(graph, source, destination);

    while unvisited != {}
      invariant Inv(graph, source, destination, unvisited, dist, dur, prev, rank)
      // From a source to itself the first selection is the source, and the tables stay initial.
      invariant source == destination ==> unvisited == graph.Keys && dist == dist0 && dur == dist0 && prev == prev0
      decreases |unvisited|
    {
      var stop;
      stop, unvisited, dist, dur, prev, rank := Visit(graph, source, destination, unvisited, dist, dur, prev, rank);
      if stop {
        break;
      }
    }

    ChainsAcyclic(DistanceWeights(graph), DurationWeights(graph), graph.Keys, source, destination, unvisited, dist, dur, prev, rank);
    var path := Reconstruct(prev, graph.Keys, destination);
    ChainsConclude(DistanceWeights(graph), DurationWeights(graph), graph.Keys, source, destination, unvisited, dist, dur, prev, rank, path);
    if source == destination {
      SingleChain(prev, path, destination);
    }
    r := PathResult(path, dist[destination], dur[destination]);
  }
}
