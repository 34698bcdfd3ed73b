/**
 * `bellmanFord(graph, airports, sourceCode, destinationCode)` of
 * `src/algorithms/bellmanFord.js`: `airports.length - 1` rounds over every
 * connection of `Object.entries(graph)`, stopping after a round that changes
 * nothing; then one more pass that throws "Graph contains a negative cycle"
 * if any connection could still lower a distance; then the predecessor
 * chain of the destination, which must start at the source.
 *
 * Negative distances are allowed here. The rows of connections are read
 * as the weight matrix `LegWeights`; what a round establishes about that
 * matrix, and the bookkeeping behind it, is the `Relaxation` module.
 */
module JsBellmanFord {
  import opened Paths
  import opened Frontier
  import opened Types
  import opened JsGraph
  import opened Relaxation

  const NEGATIVE_CYCLE: string := "Graph contains a negative cycle"


  /**
   * Every connection of `row` out of `u` between airports leaves its
   * target at most `d0[u]` plus its distance.
   */
  ghost predicate RowDone(row: seq<Conn>, u: Node, V: set<Node>, d0: Scores, d: Scores)
    requires Domain(d0, V) && Domain(d, V)
  {
    u in V ==> forall k {:trigger row[k]} :: 0 <= k < |row| && row[k].to in V ==>
      Le(d[row[k].to], AddW(d0[u], row[k].distance))
  }

  /** A full round from `d0` has been made: every row is done. */
  ghost predicate RoundDone(graph: AdjList, V: set<Node>, d0: Scores, d: Scores)
    requires Domain(d0, V) && Domain(d, V)
  {
    forall u {:trigger graph[u]} :: u in graph ==> RowDone(graph[u], u, V, d0, d)
  }

  /** No connection can lower a distance: the negative-cycle check passes. */
  ghost predicate RowsCalm(graph: AdjList, V: set<Node>, d: Scores)
    requires Domain(d, V)
  {
    RoundDone(graph, V, d, d)
  }

  /** Lowering `v` through the connection `graph[u][k]` keeps the tables. */
  lemma RelaxTables(graph: AdjList, V: set<Node>, s: Node, d: Scores, pred: Preds, ts: Stamps, wit: Walks, time: nat,
                    u: Node, k: nat)
    requires Tables(LegWeights(graph, V), V, s, d, pred, ts, wit, time)
    requires u in graph && u in V && k < |graph[u]| && graph[u][k].to in V && d[u].Fin? && u in wit
    requires Lt(AddW(d[u], graph[u][k].distance), d[graph[u][k].to])
    ensures Tables(LegWeights(graph, V), V, s,
                   d[graph[u][k].to := AddW(d[u], graph[u][k].distance)], pred[graph[u][k].to := Some(u)],
                   ts[graph[u][k].to := time], wit[graph[u][k].to := wit[u] + [graph[u][k].to]], time + 1)
  {
    var w := LegWeights(graph, V);
    var v, c := graph[u][k].to, graph[u][k].distance;
    assert Row(graph, u)[k].to == v;
    EdgeOfWeights(graph, V, u, v);
    assert At(w, s, d, pred, ts, wit, time, u);
    PathAppend(w, wit[u], s, u, v);
    RelaxEdge(w, V, s, d, pred, ts, wit, time, u, v, c, wit[u] + [v]);
  }

  /** The same, for any weights: the edge `u -> v` weighs no more than `c`. */

  lemma RowDoneMono(row: seq<Conn>, u: Node, V: set<Node>, d0: Scores, d: Scores, d': Scores)
    requires Below(V, d', d) && Domain(d0, V) && RowDone(row, u, V, d0, d)
    ensures RowDone(row, u, V, d0, d')
  {
  }

  /**
   * `connections.forEach(...)` for the row of `from`, entered when
   * `distances[from] !== Infinity`. Each connection reads the current
   * `distances[from]`, which a negative self-loop may just have lowered.
   * For a code outside the airports, `undefined + weight` is `NaN` and no
   * comparison with `undefined` holds, so nothing changes.
   */
  method RelaxRow(graph: AdjList, V: set<Node>, from: Node, d: Scores, pred: Preds,
                  ghost s: Node, ghost d0: Scores, ghost ts: Stamps, ghost wit: Walks, ghost time: nat)
    returns (d': Scores, pred': Preds, updated: bool, ghost ts': Stamps, ghost wit': Walks, ghost time': nat)
    requires from in graph
    requires Tables(LegWeights(graph, V), V, s, d, pred, ts, wit, time) && Below(V, d, d0)
    ensures Tables(LegWeights(graph, V), V, s, d', pred', ts', wit', time')
    ensures Below(V, d', d) && Below(V, d', d0)
    ensures RowDone(graph[from], from, V, d0, d')
    ensures !updated ==> d' == d && pred' == pred
  {
    d', pred', updated := d, pred, false;
    ts', wit', time' := ts, wit, time;
    assert Below(V, d, d);
    if from !in d' || d'[from].Fin? {
      var connections := graph[from];
      for k := 0 to |connections|
        invariant Tables(LegWeights(graph, V), V, s, d', pred', ts', wit', time')
        invariant Below(V, d', d) && Below(V, d', d0)
        invariant from in V ==> d'[from].Fin?
        invariant RowDone(connections[..k], from, V, d0, d')
        invariant !updated ==> d' == d && pred' == pred
      {
        ghost var d1 := d';
        var changed;
        d', pred', changed, ts', wit', time' := RelaxOne(graph, V, from, k, d', pred', s, ts', wit', time');
        BelowTrans(V, d', d1, d);
        BelowTrans(V, d', d1, d0);
        RowDoneSnoc(connections, k, from, V, d0, d1, d');
        updated := updated || changed;
      }
      assert connections[..|connections|] == connections;
    } else {
      assert RowDone(graph[from], from, V, d0, d');
    }
  }

  /**
   * One connection: `if (distances[from] + weight < distances[to])`, with
   * `undefined + weight` being `NaN` for a code outside the airports and no
   * comparison with `undefined` holding.
   */
  method RelaxOne(graph: AdjList, V: set<Node>, from: Node, k: nat, d: Scores, pred: Preds,
                  ghost s: Node, ghost ts: Stamps, ghost wit: Walks, ghost time: nat)
    returns (d': Scores, pred': Preds, updated: bool, ghost ts': Stamps, ghost wit': Walks, ghost time': nat)
    requires Tables(LegWeights(graph, V), V, s, d, pred, ts, wit, time)
    requires from in graph && k < |graph[from]| && (from in V ==> d[from].Fin?)
    ensures Tables(LegWeights(graph, V), V, s, d', pred', ts', wit', time')
    ensures Below(V, d', d)
    ensures from in V && graph[from][k].to in V ==> Le(d'[graph[from][k].to], AddW(d[from], graph[from][k].distance))
    ensures !updated ==> d' == d && pred' == pred
  {
    var to, weight := graph[from][k].to, graph[from][k].distance;
    if from in d && to in d && Lt(AddW(d[from], weight), d[to]) {
      assert At(LegWeights(graph, V), s, d, pred, ts, wit, time, from);
      RelaxTables(graph, V, s, d, pred, ts, wit, time, from, k);
      d' := d[to := AddW(d[from], weight)];
      pred' := pred[to := Some(from)];
      ts', wit', time' := ts[to := time], wit[to := wit[from] + [to]], time + 1;
      updated := true;
    } else {
      d', pred', updated := d, pred, false;
      ts', wit', time' := ts, wit, time;
    }
  }


  lemma RowDoneSnoc(row: seq<Conn>, k: nat, u: Node, V: set<Node>, d0: Scores, d: Scores, d': Scores)
    requires k < |row| && Below(V, d', d) && Below(V, d, d0) && RowDone(row[..k], u, V, d0, d)
    requires u in V && row[k].to in V ==> Le(d'[row[k].to], AddW(d[u], row[k].distance))
    ensures RowDone(row[..k + 1], u, V, d0, d')
  {
    if u in V {
      var r := row[..k + 1];
      forall j | 0 <= j < k + 1 && r[j].to in V ensures Le(d'[r[j].to], AddW(d0[u], r[j].distance)) {
        if j < k {
          assert r[j] == row[..k][j];
        }
      }
    }
  }

  /**
   * One round: `for (const [from, connections] of Object.entries(graph))`,
   * in an arbitrary key order, with the `updated` flag.
   */
  method Round(graph: AdjList, V: set<Node>, d: Scores, pred: Preds,
               ghost s: Node, ghost ts: Stamps, ghost wit: Walks, ghost time: nat)
    returns (d': Scores, pred': Preds, updated: bool, ghost ts': Stamps, ghost wit': Walks, ghost time': nat)
    requires Tables(LegWeights(graph, V), V, s, d, pred, ts, wit, time)
    ensures Tables(LegWeights(graph, V), V, s, d', pred', ts', wit', time')
    ensures Below(V, d', d) && RoundDone(graph, V, d, d')
    ensures !updated ==> d' == d && pred' == pred
  {
    var entries := KeyList(graph);
    d', pred', updated := d, pred, false;
    ts', wit', time' := ts, wit, time;
    assert Below(V, d, d);
    for j := 0 to |entries|
      invariant Tables(LegWeights(graph, V), V, s, d', pred', ts', wit', time')
      invariant Below(V, d', d)
      invariant forall i {:trigger entries[i]} :: 0 <= i < j ==> RowDone(graph[entries[i]], entries[i], V, d, d')
      invariant !updated ==> d' == d && pred' == pred
    {
      ghost var d1 := d';
      var rowUpdated;
      d', pred', rowUpdated, ts', wit', time' := RelaxRow(graph, V, entries[j], d', pred', s, d, ts', wit', time');
      forall i | 0 <= i < j ensures RowDone(graph[entries[i]], entries[i], V, d, d') {
        RowDoneMono(graph[entries[i]], entries[i], V, d, d1, d');
      }
      updated := updated || rowUpdated;
    }
    forall u | u in graph ensures RowDone(graph[u], u, V, d, d') {
      var i :| 0 <= i < |entries| && entries[i] == u;
    }
  }

  // ---------------------------------------------------------------------
  // What the rounds establish
  // ---------------------------------------------------------------------

  /** After a round from `d0`, an edge leaves its target at most `d0` of its tail plus its weight. */
  lemma RoundEdge(graph: AdjList, V: set<Node>, d0: Scores, d: Scores, u: Node, v: Node)
    requires Domain(d0, V) && Domain(d, V) && RoundDone(graph, V, d0, d)
    requires IsEdge(LegWeights(graph, V), u, v)
    ensures u in V && v in V && Le(d[v], AddW(d0[u], LegWeights(graph, V)[u][v]))
  {
    LightestFacts(graph[u], v);
    var k :| 0 <= k < |graph[u]| && graph[u][k].to == v && graph[u][k].distance == Lightest(graph[u], v).value;
    assert RowDone(graph[u], u, V, d0, d);
  }

  /** A full round from `d0` is, on the weight matrix, every edge relaxed from `d0`. */
  lemma RoundEdges(graph: AdjList, V: set<Node>, d0: Scores, d: Scores)
    requires Domain(d0, V) && Domain(d, V) && RoundDone(graph, V, d0, d)
    ensures EdgesDone(LegWeights(graph, V), V, d0, d)
  {
    forall u, v | IsEdge(LegWeights(graph, V), u, v) && u in V && v in V
      ensures Le(d[v], AddW(d0[u], LegWeights(graph, V)[u][v]))
    {
      RoundEdge(graph, V, d0, d, u, v);
    }
  }

  /** The check over the connections passes exactly when no edge of the weight matrix can lower a distance. */
  lemma CalmRows(graph: AdjList, V: set<Node>, d: Scores)
    requires Domain(d, V)
    ensures RowsCalm(graph, V, d) <==> Calm(LegWeights(graph, V), V, d)
  {
    if RowsCalm(graph, V, d) {
      RoundEdges(graph, V, d, d);
    }
    if Calm(LegWeights(graph, V), V, d) {
      forall u | u in graph ensures RowDone(graph[u], u, V, d, d) {
        if u in V {
          forall k | 0 <= k < |graph[u]| && graph[u][k].to in V
            ensures Le(d[graph[u][k].to], AddW(d[u], graph[u][k].distance))
          {
            ConnectionCalm(graph, V, d, u, k);
          }
        }
      }
    }
  }

  lemma ConnectionCalm(graph: AdjList, V: set<Node>, d: Scores, u: Node, k: nat)
    requires Domain(d, V) && Calm(LegWeights(graph, V), V, d)
    requires u in graph && u in V && k < |graph[u]| && graph[u][k].to in V
    ensures Le(d[graph[u][k].to], AddW(d[u], graph[u][k].distance))
  {
    var v := graph[u][k].to;
    assert Row(graph, u)[k].to == v;
    EdgeOfWeights(graph, V, u, v);
  }

  // ---------------------------------------------------------------------
  // The algorithm
  // ---------------------------------------------------------------------

  /**
   * The initial tables and `for (let i = 0; i < airports.length - 1; i++)`
   * with its early `break` when a round changes nothing. On leaving, either
   * the tables are already calm or `airports.length - 1` rounds have run.
   */
  method Rounds(graph: AdjList, airports: seq<Node>, source: Node)
    returns (d: Scores, pred: Preds, ghost ts: Stamps, ghost wit: Walks, ghost time: nat)
    requires |airports| > 0
    ensures Tables(LegWeights(graph, Codes(airports)), Codes(airports), source, d, pred, ts, wit, time)
    ensures RowsCalm(graph, Codes(airports), d) || Bound(LegWeights(graph, Codes(airports)), Codes(airports), source, d, |airports| - 1)
  {
    var V := Codes(airports);
    d := map v | v in V :: if v == source then Fin(0) else Inf;
    pred := map v | v in V :: None;
    ts, wit, time := map v | v in V :: 0, map[source := [source]], 1;
    assert d == InitScores(V, source);
    InitTables(LegWeights(graph, V), V, source);
    WeightsClosed(graph, V);
    for i := 0 to |airports| - 1
      invariant Tables(LegWeights(graph, V), V, source, d, pred, ts, wit, time)
      invariant Bound(LegWeights(graph, V), V, source, d, i)
    {
      var d', pred', updated;
      d', pred', updated, ts, wit, time := Round(graph, V, d, pred, source, ts, wit, time);
      RoundEdges(graph, V, d, d');
      BoundStep(LegWeights(graph, V), V, source, d, d', i);
      d, pred := d', pred';
      if !updated {
        return;
      }
    }
  }

  /**
   * The JavaScript Bellman-Ford, for a destination in the airport list
   * (otherwise the reconstruction loop never ends). It throws the
   * negative-cycle error exactly when a negative cycle is reachable from
   * the source; otherwise it succeeds exactly when the destination is
   * reachable, with a shortest path whose weight is the reported distance.
   */
  method BellmanFord(graph: AdjList, airports: seq<Node>, source: Node, destination: Node) returns (r: Result<Route>)
    requires destination in airports
    ensures r.Failure? && r.error == NEGATIVE_CYCLE <==> NegativeCycleFrom(LegWeights(graph, Codes(airports)), source)
    ensures r.Success? <==>
      !NegativeCycleFrom(LegWeights(graph, Codes(airports)), source) && Reachable(LegWeights(graph, Codes(airports)), source, destination)
    ensures r.Failure? && r.error != NEGATIVE_CYCLE ==> r.error == NoPathFrom(source, destination)
    ensures r.Success? ==>
      && r.value.algorithm == "bellman-ford"
      && IsPath(LegWeights(graph, Codes(airports)), r.value.path, source, destination)
      && PathWeight(LegWeights(graph, Codes(airports)), r.value.path) == r.value.distance
      && IsShortest(LegWeights(graph, Codes(airports)), source, destination, Fin(r.value.distance))
      && r.value.duration == Minutes(r.value.distance)
    ensures source == destination && !NegativeCycleFrom(LegWeights(graph, Codes(airports)), source) ==>
      r == Success(Route("bellman-ford", [source], 0, Minutes(0)))
  {
    var V := Codes(airports);
    ghost var w := LegWeights(graph, V);
    var d, pred, ts, wit, time := Rounds(graph, airports, source);
    var negative := HasNegativeCycle(graph, V, d);
    if negative {
      CodesBound(airports);
      CalmRows(graph, V, d);
      WeightsClosed(graph, V);
      TenseMeansCycle(w, V, source, d, pred, ts, wit, time, |airports| - 1);
      return Failure(NEGATIVE_CYCLE);
    }
    CalmRows(graph, V, d);
    WeightsClosed(graph, V);
    CalmNoCycle(w, V, source, d, pred, ts, wit, time);
    Acyclic(w, V, source, d, pred, ts, wit, time);
    var path := Reconstruct(pred, V, destination);
    Conclude(w, V, source, d, pred, ts, wit, time, path, destination);
    assert NoPathFrom(source, destination)[0] != NEGATIVE_CYCLE[0];
    if path[0] != source {
      return Failure(NoPathFrom(source, destination));
    }
    var distance := d[destination].v;
    r := Success(Route("bellman-ford", path, distance, Minutes(distance)));
  }

  /**
   * The check `for (const [from, connections] of Object.entries(graph))`:
   * true (the throw) as soon as a connection could still lower a distance.
   */
  method HasNegativeCycle(graph: AdjList, V: set<Node>, d: Scores) returns (negative: bool)
    requires Domain(d, V)
    ensures negative <==> !RowsCalm(graph, V, d)
  {
    var entries := KeyList(graph);
    for j := 0 to |entries|
      invariant forall i {:trigger entries[i]} :: 0 <= i < j ==> RowDone(graph[entries[i]], entries[i], V, d, d)
    {
      var from := entries[j];
      if from !in d || d[from].Fin? {
        var connections := graph[from];
        for k := 0 to |connections|
          invariant RowDone(connections[..k], from, V, d, d)
        {
          var to, weight := connections[k].to, connections[k].distance;
          if from in d && to in d && Lt(AddW(d[from], weight), d[to]) {
            assert !RowDone(graph[from], from, V, d, d) by {
              assert connections[k].to == to;
            }
            return true;
          }
          assert Below(V, d, d);
          RowDoneSnoc(connections, k, from, V, d, d, d);
        }
        assert connections[..|connections|] == connections;
      }
    }
    forall u | u in graph ensures RowDone(graph[u], u, V, d, d) {
      var i :| 0 <= i < |entries| && entries[i] == u;
    }
    return false;
  }
}
