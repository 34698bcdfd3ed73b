/**
 * `dijkstra(graph, airports, sourceCode, destinationCode)` of
 * `src/algorithms/dijkstra.js`. Every airport of the list starts at
 * `Infinity` (0 for the source); each round visits the first unvisited
 * airport, in list order, of least finite distance and relaxes all of its
 * connections, visited targets included. There is no early stop at the
 * destination. The predecessor chain of the destination is the path, and a
 * chain that does not start at the source is an error.
 */
module JsDijkstra {
  import opened Paths
  import opened Frontier
  import opened Types
  import opened JsGraph

  /**
   * `for (const airport of airports)`: the first airport of the list that
   * is not visited and has the least finite distance (an airport replaces
   * the current pick only when strictly nearer), or none when every
   * unvisited airport is at `Infinity`. `at` is its position in the list.
   */
  method SelectFirst(airports: seq<Node>, visited: set<Node>, dist: Scores) returns (current: Option<Node>, minDistance: Dist, ghost at: nat)
    requires forall k :: 0 <= k < |airports| ==> airports[k] in dist
    ensures current.None? ==> minDistance == Inf
    ensures current.None? ==> forall k :: 0 <= k < |airports| && airports[k] !in visited ==> dist[airports[k]] == Inf
    ensures current.Some? ==> at < |airports| && airports[at] == current.value && current.value !in visited
    ensures current.Some? ==> minDistance.Fin? && dist[current.value] == minDistance
    ensures current.Some? ==> forall k :: 0 <= k < |airports| && airports[k] !in visited ==> Le(minDistance, dist[airports[k]])
    ensures current.Some? ==> forall k :: 0 <= k < at && airports[k] !in visited ==> Lt(minDistance, dist[airports[k]])
  {
    current, minDistance, at := None, Inf, 0;
    for i := 0 to |airports|
      invariant current.None? ==> minDistance == Inf
      invariant current.None? ==> forall k :: 0 <= k < i && airports[k] !in visited ==> dist[airports[k]] == Inf
      invariant current.Some? ==> at < i && airports[at] == current.value && current.value !in visited
      invariant current.Some? ==> minDistance.Fin? && dist[current.value] == minDistance
      invariant current.Some? ==> forall k :: 0 <= k < i && airports[k] !in visited ==> Le(minDistance, dist[airports[k]])
      invariant current.Some? ==> forall k :: 0 <= k < at && airports[k] !in visited ==> Lt(minDistance, dist[airports[k]])
    {
      var code := airports[i];
      if code !in visited && Lt(dist[code], minDistance) {
        minDistance := dist[code];
        current := Some(code);
        at := i;
      }
    }
  }

  /**
   * The connections of `row`, leaving `u`, have been relaxed: an airport
   * whose distance the lightest connection from `u` strictly lowers takes
   * that distance and `u` as predecessor; every other entry is as before.
   */
  ghost predicate RelaxedBy(row: seq<Conn>, V: set<Node>, u: Node, dist: Scores, pred: Preds, dist': Scores, pred': Preds)
    requires u in dist && Domain(dist, V) && Domain(pred, V)
  {
    && Domain(dist', V) && Domain(pred', V)
    && forall v {:trigger Entry(row, u, dist, pred, dist', pred', v)} :: v in V ==> Entry(row, u, dist, pred, dist', pred', v)
  }

  /**
   * `graph[currentNode].forEach(...)`: `distances[neighbor.to]` is
   * `undefined` for a target that is not an airport, and the comparison
   * with it is false.
   */
  method RelaxRow(row: seq<Conn>, V: set<Node>, u: Node, dist: Scores, pred: Preds) returns (dist': Scores, pred': Preds)
    requires u in V && Domain(dist, V) && Domain(pred, V)
    requires forall k :: 0 <= k < |row| && row[k].to == u ==> row[k].distance >= 0
    ensures RelaxedBy(row, V, u, dist, pred, dist', pred')
  {
    dist', pred' := dist, pred;
    for i := 0 to |row|
      invariant RelaxedBy(row[..i], V, u, dist, pred, dist', pred')
      invariant dist'[u] == dist[u]
    {
      var neighbor := row[i];
      var newDistance := AddW(dist'[u], neighbor.distance);
      ghost var before, beforePred := dist', pred';
      if neighbor.to in dist' && Lt(newDistance, dist'[neighbor.to]) {
        dist' := dist'[neighbor.to := newDistance];
        pred' := pred'[neighbor.to := Some(u)];
        RelaxedByLower(row, V, u, dist, pred, before, beforePred, i);
      } else {
        RelaxedByKeep(row, V, u, dist, pred, before, beforePred, i);
      }
    }
    assert row[..|row|] == row;
  }

  lemma RelaxedByLower(row: seq<Conn>, V: set<Node>, u: Node, dist: Scores, pred: Preds, dist': Scores, pred': Preds, i: nat)
    requires i < |row| && u in V && Domain(dist, V) && Domain(pred, V)
    requires forall k :: 0 <= k < |row| && row[k].to == u ==> row[k].distance >= 0
    requires RelaxedBy(row[..i], V, u, dist, pred, dist', pred') && dist'[u] == dist[u]
    requires row[i].to in dist' && Lt(AddW(dist'[u], row[i].distance), dist'[row[i].to])
    ensures RelaxedBy(row[..i + 1], V, u, dist, pred, dist'[row[i].to := AddW(dist'[u], row[i].distance)], pred'[row[i].to := Some(u)])
  {
    var t := row[i].to;
    var dist'', pred'' := dist'[t := AddW(dist'[u], row[i].distance)], pred'[t := Some(u)];
    forall v | v in V
      ensures Entry(row[..i + 1], u, dist, pred, dist'', pred'', v)
    {
      assert Entry(row[..i], u, dist, pred, dist', pred', v);
      if v == t {
        LowerAt(row, u, dist, pred, dist', pred', i);
      } else {
        LightestSnoc(row, i, v);
      }
    }
  }

  /** Entry `v` of the tables after relaxing the connections `row` of `u`. */
  ghost predicate Entry(row: seq<Conn>, u: Node, dist: Scores, pred: Preds, dist': Scores, pred': Preds, v: Node)
    requires u in dist && v in dist && v in pred && v in dist' && v in pred'
  {
    if Lightest(row, v).Some? && Lt(AddW(dist[u], Lightest(row, v).value), dist[v]) then
      dist'[v] == AddW(dist[u], Lightest(row, v).value) && pred'[v] == Some(u)
    else
      dist'[v] == dist[v] && pred'[v] == pred[v]
  }

  lemma LowerAt(row: seq<Conn>, u: Node, dist: Scores, pred: Preds, dist': Scores, pred': Preds, i: nat)
    requires i < |row| && u in dist && row[i].to in dist && row[i].to in pred && row[i].to in dist' && row[i].to in pred'
    requires u in dist' && dist'[u] == dist[u]
    requires row[i].to == u ==> row[i].distance >= 0
    requires Entry(row[..i], u, dist, pred, dist', pred', row[i].to)
    requires Lt(AddW(dist'[u], row[i].distance), dist'[row[i].to])
    ensures Entry(row[..i + 1], u, dist, pred, dist'[row[i].to := AddW(dist'[u], row[i].distance)], pred'[row[i].to := Some(u)], row[i].to)
  {
    LightestSnoc(row, i, row[i].to);
  }

  lemma RelaxedByKeep(row: seq<Conn>, V: set<Node>, u: Node, dist: Scores, pred: Preds, dist': Scores, pred': Preds, i: nat)
    requires i < |row| && u in V && Domain(dist, V) && Domain(pred, V)
    requires RelaxedBy(row[..i], V, u, dist, pred, dist', pred') && dist'[u] == dist[u]
    requires !(row[i].to in dist' && Lt(AddW(dist'[u], row[i].distance), dist'[row[i].to]))
    ensures RelaxedBy(row[..i + 1], V, u, dist, pred, dist', pred')
  {
    forall v | v in V
      ensures Entry(row[..i + 1], u, dist, pred, dist', pred', v)
    {
      assert Entry(row[..i], u, dist, pred, dist', pred', v);
      LightestSnoc(row, i, v);
    }
  }

  /** The table shapes and what holds before the first visit. */
  ghost predicate Shape(V: set<Node>, source: Node, visited: set<Node>, dist: Scores, pred: Preds) {
    && visited <= V
    && Domain(dist, V) && Domain(pred, V)
    && (forall x {:trigger dist[x]} :: x in visited ==> dist[x].Fin?)
    && (source in V ==> dist[source] == Fin(0))
    && (visited != {} ==> source in visited)
    && (visited == {} ==> forall v {:trigger dist[v]} :: v in V && v != source ==> dist[v] == Inf)
    && (source !in V ==> forall v {:trigger pred[v]} :: v in V ==> pred[v] == None)
  }

  /** No visited airport is farther than an unvisited one. */
  ghost predicate Ordered(V: set<Node>, visited: set<Node>, dist: Scores)
    requires Domain(dist, V) && visited <= V
  {
    forall x, y {:trigger dist[x], dist[y]} :: x in visited && y in V && y !in visited ==> Le(dist[x], dist[y])
  }

  /** The main loop's invariant, for the weights `w` of the graph over the airports `V`. */
  ghost predicate Inv(w: Weights, V: set<Node>, source: Node, visited: set<Node>, dist: Scores, pred: Preds, rank: map<Node, nat>) {
    && NonNegative(w) && Closed(w, V)
    && Shape(V, source, visited, dist, pred)
    && Ordered(V, visited, dist)
    && (source in V ==> PredOk(w, V, visited, dist, pred, rank, source) && RankFacts(V, visited, rank))
    && Relaxed(w, visited, V, dist)
    && Settled(w, source, visited, dist)
  }

  lemma InvInit(graph: AdjList, airports: seq<Node>, source: Node)
    requires NonNegative(LegWeights(graph, Codes(airports)))
    ensures Inv(LegWeights(graph, Codes(airports)), Codes(airports), source, {}, InitScores(Codes(airports), source),
                map v | v in Codes(airports) :: None, map v | v in Codes(airports) :: |Codes(airports)|)
  {
    var V := Codes(airports);
    WeightsClosed(graph, V);
    if source in V {
      InitPredOk(LegWeights(graph, V), V, source);
    }
  }

  /** The connections of `u` to airports are exactly its edges in the weight matrix, at their lightest. */
  lemma RowEdges(graph: AdjList, V: set<Node>, u: Node)
    requires u in V
    ensures forall v {:trigger IsEdge(LegWeights(graph, V), u, v)} :: v in V ==>
      (Lightest(Row(graph, u), v).Some? <==> IsEdge(LegWeights(graph, V), u, v))
    ensures forall v {:trigger IsEdge(LegWeights(graph, V), u, v)} :: IsEdge(LegWeights(graph, V), u, v) ==>
      Lightest(Row(graph, u), v) == Some(LegWeights(graph, V)[u][v])
  {
  }

  /** Relaxing the connections of the selected `u`, read as the shared step of a score table and its predecessors. */
  lemma VisitStep(graph: AdjList, V: set<Node>, source: Node, visited: set<Node>, dist: Scores, pred: Preds,
                  u: Node, dist': Scores, pred': Preds)
    requires Shape(V, source, visited, dist, pred) && Ordered(V, visited, dist)
    requires NonNegative(LegWeights(graph, V))
    requires u in V && u !in visited && dist[u].Fin?
    requires RelaxedBy(Row(graph, u), V, u, dist, pred, dist', pred')
    ensures StepFrom(LegWeights(graph, V), V, visited + {u}, dist, pred, u, dist', pred')
  {
    var w := LegWeights(graph, V);
    RowEdges(graph, V, u);
    forall v | v in V
      ensures || (dist'[v] == dist[v] && Pred(pred', v) == Pred(pred, v))
              || (v !in visited + {u} && IsEdge(w, u, v) && dist'[v] == AddW(dist[u], w[u][v]) && Pred(pred', v) == Some(u))
    {
      assert Entry(Row(graph, u), u, dist, pred, dist', pred', v);
      if v in visited {
        assert Le(dist[v], dist[u]);
      }
      if IsEdge(w, u, v) {
        assert w[u][v] >= 0;
      }
    }
  }

  /** Relaxing the connections of the selected `u` lowers no visited airport, and nothing below `u`. */
  lemma VisitLowered(graph: AdjList, V: set<Node>, source: Node, visited: set<Node>, dist: Scores, pred: Preds,
                     u: Node, dist': Scores, pred': Preds)
    requires Shape(V, source, visited, dist, pred) && Ordered(V, visited, dist)
    requires NonNegative(LegWeights(graph, V))
    requires u in V && u !in visited && dist[u].Fin?
    requires RelaxedBy(Row(graph, u), V, u, dist, pred, dist', pred')
    ensures Lowered(LegWeights(graph, V), V, visited, dist, u, dist')
    ensures forall v {:trigger dist'[v]} :: v in V ==> Le(dist'[v], dist[v]) && (dist'[v] == dist[v] || Le(dist[u], dist'[v]))
  {
    var w := LegWeights(graph, V);
    RowEdges(graph, V, u);
    forall v | v in V
      ensures Le(dist'[v], dist[v]) && (dist'[v] == dist[v] || Le(dist[u], dist'[v]))
      ensures v in visited || v == u ==> dist'[v] == dist[v]
      ensures v !in visited && v != u && IsEdge(w, u, v) ==> Le(dist'[v], AddW(dist[u], w[u][v]))
    {
      assert Entry(Row(graph, u), u, dist, pred, dist', pred', v);
      if v in visited {
        assert Le(dist[v], dist[u]);
      }
      if IsEdge(w, u, v) {
        assert w[u][v] >= 0;
      }
    }
  }

  /** Visiting the selected airport keeps the invariant. */
  lemma InvStep(graph: AdjList, V: set<Node>, source: Node, visited: set<Node>, dist: Scores, pred: Preds, rank: map<Node, nat>,
                u: Node, dist': Scores, pred': Preds)
    requires Inv(LegWeights(graph, V), V, source, visited, dist, pred, rank)
    requires u in V && u !in visited && dist[u].Fin?
    requires forall v :: v in V && v !in visited ==> Le(dist[u], dist[v])
    requires RelaxedBy(Row(graph, u), V, u, dist, pred, dist', pred')
    ensures Inv(LegWeights(graph, V), V, source, visited + {u}, dist', pred', rank[u := |visited|])
  {
    var w := LegWeights(graph, V);
    VisitStep(graph, V, source, visited, dist, pred, u, dist', pred');
    VisitLowered(graph, V, source, visited, dist, pred, u, dist', pred');
    ShapeStep(V, source, visited, dist, pred, u, dist', pred');
    OrderedStep(V, visited, dist, u, dist');
    PredOkStep(w, V, visited, dist, pred, rank, source, u, dist', pred');
    RelaxedStep(w, V, visited, dist, u, dist');
    ZeroPotential(w);
    SelectedIsSettled(w, (v: Node) => 0, V, visited, dist, source, u);
    SettledStep(w, V, source, visited, dist, u, dist');
  }

  lemma ShapeStep(V: set<Node>, source: Node, visited: set<Node>, dist: Scores, pred: Preds, u: Node, dist': Scores, pred': Preds)
    requires Shape(V, source, visited, dist, pred)
    requires u in V && u !in visited && dist[u].Fin?
    requires Domain(dist', V) && Domain(pred', V)
    requires forall v {:trigger dist'[v]} :: v in visited || v == u ==> dist'[v] == dist[v]
    ensures Shape(V, source, visited + {u}, dist', pred')
  {
    assert source in visited + {u};
  }

  lemma OrderedStep(V: set<Node>, visited: set<Node>, dist: Scores, u: Node, dist': Scores)
    requires visited <= V && Domain(dist, V) && Domain(dist', V) && Ordered(V, visited, dist)
    requires u in V && u !in visited
    requires forall v :: v in V && v !in visited ==> Le(dist[u], dist[v])
    requires forall v {:trigger dist'[v]} :: v in V ==> (dist'[v] == dist[v] || Le(dist[u], dist'[v]))
    requires forall v {:trigger dist'[v]} :: v in visited || v == u ==> dist'[v] == dist[v]
    ensures Ordered(V, visited + {u}, dist')
  {
    forall x, y | x in visited + {u} && y in V && y !in visited + {u} ensures Le(dist'[x], dist'[y]) {
      assert dist'[x] == dist[x] && Le(dist[x], dist[u]);
    }
  }

  /**
   * One round of `while (visited.size < airports.length)`: select, stop
   * (`break`) when no unvisited airport is finite, otherwise visit.
   */
  method Visit(graph: AdjList, airports: seq<Node>, source: Node, visited: set<Node>, dist: Scores, pred: Preds, ghost rank: map<Node, nat>)
    returns (stop: bool, visited': set<Node>, dist': Scores, pred': Preds, ghost rank': map<Node, nat>)
    requires Inv(LegWeights(graph, Codes(airports)), Codes(airports), source, visited, dist, pred, rank)
    ensures Inv(LegWeights(graph, Codes(airports)), Codes(airports), source, visited', dist', pred', rank')
    ensures stop ==> visited' == visited && dist' == dist && pred' == pred
    ensures stop ==> forall v :: v in Codes(airports) && v !in visited ==> dist[v] == Inf
    ensures !stop ==> |visited'| == |visited| + 1
  {
    var V := Codes(airports);
    var currentNode, minDistance, at := SelectFirst(airports, visited, dist);
    if currentNode.None? || minDistance.Inf? {
      return true, visited, dist, pred, rank;
    }
    var u := currentNode.value;
    assert forall v :: v in V && v !in visited ==> Le(dist[u], dist[v]);
    forall k | 0 <= k < |Row(graph, u)| && Row(graph, u)[k].to == u ensures Row(graph, u)[k].distance >= 0 {
      EdgeOfWeights(graph, V, u, u);
    }
    dist', pred' := RelaxRow(Row(graph, u), V, u, dist, pred);
    InvStep(graph, V, source, visited, dist, pred, rank, u, dist', pred');
    visited' := visited + {u};
    rank' := rank[u := |visited|];
    stop := false;
  }

  lemma {:induction false} SubsetBound(A: set<Node>, B: set<Node>)
    requires A <= B
    ensures |A| <= |B|
    ensures |A| >= |B| ==> A == B
    decreases |B|
  {
    if B != {} {
      var x :| x in B;
      SubsetBound(A - {x}, B - {x});
      if x in A {
        assert A == (A - {x}) + {x};
      } else {
        assert A - {x} == A;
      }
    }
  }

  /**
   * The reconstructed chain answers the query: it starts at the source
   * exactly when the destination is reachable, it is then a shortest path
   * of the destination's distance, and otherwise it is `[destination]`.
   */
  lemma Conclude(w: Weights, V: set<Node>, source: Node, destination: Node, visited: set<Node>, dist: Scores, pred: Preds,
                 rank: map<Node, nat>, path: seq<Node>)
    requires Inv(w, V, source, visited, dist, pred, rank) && destination in V
    requires forall v :: v in V && v !in visited ==> dist[v] == Inf
    requires IsChain(pred, path, destination)
    ensures path[0] == source <==> dist[destination].Fin?
    ensures dist[destination].Fin? <==> Reachable(w, source, destination)
    ensures dist[destination].Fin? ==> IsPath(w, path, source, destination) && PathWeight(w, path) == dist[destination].v
    ensures dist[destination].Fin? ==> IsShortest(w, source, destination, dist[destination])
    ensures source == destination ==> path == [source] && dist[destination] == Fin(0)
  {
    if source in V {
      ChainIsPath(w, V, visited, dist, pred, rank, source, path, destination);
      if dist[destination].Inf? {
        AllInfUnreachable(w, V, visited, dist, source, destination);
      } else {
        assert IsPath(w, path, source, destination);
      }
      if source == destination {
        SingleChain(pred, path, destination);
      }
    } else {
      SingleChain(pred, path, destination);
      forall p ensures !IsPath(w, p, source, destination) {
        if |p| > 1 && p[0] == source {
          assert !IsEdge(w, p[0], p[1]);
        }
      }
    }
  }

  lemma Acyclic(w: Weights, V: set<Node>, source: Node, visited: set<Node>, dist: Scores, pred: Preds, rank: map<Node, nat>)
    requires Inv(w, V, source, visited, dist, pred, rank)
    ensures PredAcyclic(pred) && PredInside(pred, V)
  {
    if source in V {
      RankAcyclic(w, V, visited, dist, pred, rank, source);
    }
  }

  /** `while (visited.size < airports.length)`: the search ends with every unvisited airport at `Infinity`. */
  method Search(graph: AdjList, airports: seq<Node>, source: Node)
    returns (visited: set<Node>, dist: Scores, pred: Preds, ghost rank: map<Node, nat>)
    requires NonNegative(LegWeights(graph, Codes(airports)))
    ensures Inv(LegWeights(graph, Codes(airports)), Codes(airports), source, visited, dist, pred, rank)
    ensures forall v :: v in Codes(airports) && v !in visited ==> dist[v] == Inf
  {
    var V := Codes(airports);
    dist := InitScores(V, source);
    pred := map v | v in V :: None;
    visited := {};
    rank := map v | v in V :: |V|;
    InvInit(graph, airports, source);

    while |visited| < |airports|
      invariant Inv(LegWeights(graph, V), V, source, visited, dist, pred, rank)
      decreases |V| - |visited|
    {
      SubsetBound(visited, V);
      var stop;
      stop, visited, dist, pred, rank := Visit(graph, airports, source, visited, dist, pred, rank);
      if stop {
        break;
      }
      SubsetBound(visited, V);
    }
    CodesBound(airports);
    SubsetBound(visited, V);
    assert forall v :: v in V && v !in visited ==> dist[v] == Inf;
  }

  /**
   * The JavaScript Dijkstra, for non-negative connection distances (with a
   * negative one a visited airport can be lowered again and the
   * predecessor chain can close into a loop). It succeeds exactly when the
   * destination is reachable, with a shortest path, its distance and
   * `duration = distance / 10`; otherwise it throws "No path found".
   */
  method Dijkstra(graph: AdjList, airports: seq<Node>, source: Node, destination: Node) returns (r: Result<Route>)
    requires destination in airports
    requires NonNegative(LegWeights(graph, Codes(airports)))
    ensures r.Success? <==> Reachable(LegWeights(graph, Codes(airports)), source, destination)
    ensures r.Failure? ==> r.error == NoPathFrom(source, destination)
    ensures r.Success? ==>
      && r.value.algorithm == "dijkstra"
      && IsPath(LegWeights(graph, Codes(airports)), r.value.path, source, destination)
      && PathWeight(LegWeights(graph, Codes(airports)), r.value.path) == r.value.distance
      && IsShortest(LegWeights(graph, Codes(airports)), source, destination, Fin(r.value.distance))
      && r.value.duration == Minutes(r.value.distance)
    ensures source == destination ==> r == Success(Route("dijkstra", [source], 0, Minutes(0)))
  {
    var V := Codes(airports);
    var visited, dist, pred, rank := Search(graph, airports, source);
    Acyclic(LegWeights(graph, V), V, source, visited, dist, pred, rank);
    var path := Reconstruct(pred, V, destination);
    Conclude(LegWeights(graph, V), V, source, destination, visited, dist, pred, rank, path);
    if path[0] != source {
      return Failure(NoPathFrom(source, destination));
    }
    var distance := dist[destination].v;
    r := Success(Route("dijkstra", path, distance, Minutes(distance)));
  }
}
