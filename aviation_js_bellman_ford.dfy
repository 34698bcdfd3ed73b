/**
 * `bellmanFord(graph, start, end)` of `src/api/aviation.js`: distances 0 at
 * the start and `Infinity` elsewhere, exactly `nodes.length - 1` rounds over
 * every leg out of a finitely distant node (no early exit), a last pass that
 * throws "Graph contains a negative-weight cycle" if a leg could still lower
 * a distance, then the previous table followed back from the end.
 *
 * A leg towards a code that is not a key compares a number with
 * `undefined`, which is false, so the rounds see only the legs among the
 * keys (`Among`). What a round establishes, and the bookkeeping behind it,
 * is the `Relaxation` module.
 */
module AviationJsBellmanFord {
  import opened Paths
  import opened Frontier
  import opened Types
  import opened Relaxation
  import opened AviationJsGraph

  const NEGATIVE_WEIGHT_CYCLE: string := "Graph contains a negative-weight cycle"

  /** Every leg of `legs` out of `u` towards a key leaves its target at most `d0[u]` plus the leg. */
  ghost predicate LegsDone(graph: Weights, u: Node, legs: set<Node>, d0: Scores, d: Scores)
    requires u in graph && Domain(d0, graph.Keys) && Domain(d, graph.Keys)
  {
    forall v {:trigger graph[u][v]} :: v in legs && v in graph[u] && v in graph ==> Le(d[v], AddW(d0[u], graph[u][v]))
  }

  /** Lowering distances keeps the legs done. */
  lemma LegsDoneMono(graph: Weights, u: Node, legs: set<Node>, d0: Scores, d: Scores, d': Scores)
    requires u in graph && Domain(d0, graph.Keys) && Below(graph.Keys, d', d)
    requires LegsDone(graph, u, legs, d0, d)
    ensures LegsDone(graph, u, legs, d0, d')
  {
    forall v | v in legs && v in graph[u] && v in graph ensures Le(d'[v], AddW(d0[u], graph[u][v])) {
      assert Le(d'[v], d[v]);
    }
  }

  /** Every node's legs done from `d0` is every edge among the keys relaxed from `d0`. */
  lemma AllLegsDone(graph: Weights, nodes: seq<Node>, d0: Scores, d: Scores)
    requires (forall v :: v in nodes <==> v in graph) && Domain(d0, graph.Keys) && Domain(d, graph.Keys)
    requires forall c {:trigger nodes[c]} :: 0 <= c < |nodes| ==> LegsDone(graph, nodes[c], graph[nodes[c]].Keys, d0, d)
    ensures EdgesDone(Among(graph), graph.Keys, d0, d)
  {
    var w := Among(graph);
    forall u, v | IsEdge(w, u, v) && u in graph && v in graph ensures Le(d[v], AddW(d0[u], w[u][v])) {
      var c :| 0 <= c < |nodes| && nodes[c] == u;
      assert LegsDone(graph, nodes[c], graph[nodes[c]].Keys, d0, d);
      assert v in graph[u] && w[u][v] == graph[u][v];
    }
  }

  /** The legs out of a node at `Infinity` lower nothing. */
  lemma InfLegsDone(graph: Weights, u: Node, d0: Scores, d: Scores)
    requires u in graph && Below(graph.Keys, d, d0) && d[u] == Inf
    ensures LegsDone(graph, u, graph[u].Keys, d0, d)
  {
    assert Le(d[u], d0[u]);
  }

  /** The rows before `nodes[a]` stay done while `nodes[a]` is relaxed. */
  lemma RoundStep(graph: Weights, nodes: seq<Node>, a: nat, d0: Scores, d: Scores, d': Scores)
    requires a < |nodes| && nodes[a] in graph && (forall c :: 0 <= c < a ==> nodes[c] in graph)
    requires Domain(d0, graph.Keys) && Below(graph.Keys, d', d)
    requires forall c {:trigger nodes[c]} :: 0 <= c < a ==> LegsDone(graph, nodes[c], graph[nodes[c]].Keys, d0, d)
    requires LegsDone(graph, nodes[a], graph[nodes[a]].Keys, d0, d')
    ensures forall c {:trigger nodes[c]} :: 0 <= c < a + 1 ==> LegsDone(graph, nodes[c], graph[nodes[c]].Keys, d0, d')
  {
    forall c | 0 <= c < a ensures LegsDone(graph, nodes[c], graph[nodes[c]].Keys, d0, d') {
      LegsDoneMono(graph, nodes[c], graph[nodes[c]].Keys, d0, d, d');
    }
  }

  /** A leg that can still lower its target shows that the tables are not calm. */
  lemma TenseLeg(graph: Weights, d: Scores, u: Node, v: Node)
    requires Domain(d, graph.Keys) && u in graph && v in graph[u] && v in graph
    requires Lt(AddW(d[u], graph[u][v]), d[v])
    ensures !Calm(Among(graph), graph.Keys, d)
  {
    var w := Among(graph);
    assert IsEdge(w, u, v) && w[u][v] == graph[u][v];
  }

  /**
   * `Object.keys(graph[u]).forEach(v => ...)`, entered when
   * `distances[u] !== Infinity`. Each leg reads the current `distances[u]`,
   * which a negative self-loop may just have lowered.
   */
  method RelaxLegs(graph: Weights, u: Node, d: Scores, pred: Preds,
                   ghost s: Node, ghost d0: Scores, ghost ts: Stamps, ghost wit: Walks, ghost time: nat)
    returns (d': Scores, pred': Preds, ghost ts': Stamps, ghost wit': Walks, ghost time': nat)
    requires u in graph
    requires Tables(Among(graph), graph.Keys, s, d, pred, ts, wit, time) && Below(graph.Keys, d, d0)
    requires d[u].Fin?
    ensures Tables(Among(graph), graph.Keys, s, d', pred', ts', wit', time')
    ensures Below(graph.Keys, d', d) && Below(graph.Keys, d', d0)
    ensures LegsDone(graph, u, graph[u].Keys, d0, d')
  {
    d', pred', ts', wit', time' := d, pred, ts, wit, time;
    var rest := graph[u].Keys;
    while rest != {}
      invariant rest <= graph[u].Keys
      invariant Tables(Among(graph), graph.Keys, s, d', pred', ts', wit', time')
      invariant Below(graph.Keys, d', d) && Below(graph.Keys, d', d0)
      invariant d'[u].Fin?
      invariant LegsDone(graph, u, graph[u].Keys - rest, d0, d')
      decreases rest
    {
      var v :| v in rest;
      if v in d' {
        var newDistance := AddW(d'[u], graph[u][v]);
        if Lt(newDistance, d'[v]) {
          d', pred', ts', wit', time' := Lower(graph, u, v, d', pred', s, d, d0, ts', wit', time', graph[u].Keys - rest);
        }
      }
      rest := rest - {v};
    }
  }

  /** `distances[v] = newDistance; previous[v] = u;` */
  method Lower(graph: Weights, u: Node, v: Node, d: Scores, pred: Preds,
               ghost s: Node, ghost d1: Scores, ghost d0: Scores, ghost ts: Stamps, ghost wit: Walks, ghost time: nat,
               ghost legs: set<Node>)
    returns (d': Scores, pred': Preds, ghost ts': Stamps, ghost wit': Walks, ghost time': nat)
    requires u in graph && v in graph[u] && v in graph
    requires Tables(Among(graph), graph.Keys, s, d, pred, ts, wit, time)
    requires Below(graph.Keys, d, d1) && Below(graph.Keys, d, d0) && d[u].Fin?
    requires LegsDone(graph, u, legs, d0, d)
    requires Lt(AddW(d[u], graph[u][v]), d[v])
    ensures d' == d[v := AddW(d[u], graph[u][v])] && pred' == pred[v := Some(u)]
    ensures Tables(Among(graph), graph.Keys, s, d', pred', ts', wit', time')
    ensures Below(graph.Keys, d', d1) && Below(graph.Keys, d', d0) && d'[u].Fin?
    ensures LegsDone(graph, u, legs + {v}, d0, d')
  {
    ghost var w := Among(graph);
    assert IsEdge(w, u, v) && w[u][v] == graph[u][v];
    RelaxThrough(w, graph.Keys, s, d, pred, ts, wit, time, u, v);
    d', pred' := d[v := AddW(d[u], graph[u][v])], pred[v := Some(u)];
    ts', wit', time' := ts[v := time], wit[v := wit[u] + [v]], time + 1;
    assert Below(graph.Keys, d', d);
    BelowTrans(graph.Keys, d', d, d1);
    BelowTrans(graph.Keys, d', d, d0);
    LegsDoneMono(graph, u, legs, d0, d, d');
    assert Le(d[u], d0[u]);
  }

  /** One node of a round: `if (distances[u] !== Infinity)`, then its legs. */
  method Visit(graph: Weights, u: Node, d: Scores, pred: Preds,
               ghost s: Node, ghost d0: Scores, ghost ts: Stamps, ghost wit: Walks, ghost time: nat)
    returns (d': Scores, pred': Preds, ghost ts': Stamps, ghost wit': Walks, ghost time': nat)
    requires u in graph
    requires Tables(Among(graph), graph.Keys, s, d, pred, ts, wit, time) && Below(graph.Keys, d, d0)
    ensures Tables(Among(graph), graph.Keys, s, d', pred', ts', wit', time')
    ensures Below(graph.Keys, d', d) && Below(graph.Keys, d', d0)
    ensures LegsDone(graph, u, graph[u].Keys, d0, d')
  {
    if d[u] != Inf {
      d', pred', ts', wit', time' := RelaxLegs(graph, u, d, pred, s, d0, ts, wit, time);
    } else {
      d', pred', ts', wit', time' := d, pred, ts, wit, time;
      assert Below(graph.Keys, d, d);
      InfLegsDone(graph, u, d0, d);
    }
  }

  /** One round: `nodes.forEach(u => ...)`, skipping a node still at `Infinity`. */
  method Round(graph: Weights, nodes: seq<Node>, d: Scores, pred: Preds,
               ghost s: Node, ghost ts: Stamps, ghost wit: Walks, ghost time: nat)
    returns (d': Scores, pred': Preds, ghost ts': Stamps, ghost wit': Walks, ghost time': nat)
    requires forall v :: v in nodes <==> v in graph
    requires Tables(Among(graph), graph.Keys, s, d, pred, ts, wit, time)
    ensures Tables(Among(graph), graph.Keys, s, d', pred', ts', wit', time')
    ensures Below(graph.Keys, d', d) && EdgesDone(Among(graph), graph.Keys, d, d')
  {
    d', pred', ts', wit', time' := d, pred, ts, wit, time;
    assert Below(graph.Keys, d, d);
    for a := 0 to |nodes|
      invariant Tables(Among(graph), graph.Keys, s, d', pred', ts', wit', time')
      invariant Below(graph.Keys, d', d)
      invariant forall c {:trigger nodes[c]} :: 0 <= c < a ==> LegsDone(graph, nodes[c], graph[nodes[c]].Keys, d, d')
    {
      ghost var d1 := d';
      d', pred', ts', wit', time' := Visit(graph, nodes[a], d', pred', s, d, ts', wit', time');
      RoundStep(graph, nodes, a, d, d1, d');
    }
    AllLegsDone(graph, nodes, d, d');
  }

  /**
   * The initial tables and `for (let i = 0; i < nodes.length - 1; i++)`:
   * afterwards every walk from the start with at most `rounds` legs is no
   * lighter than the distance of its end, and `rounds + 1` covers every node.
   */
  method Rounds(graph: Weights, nodes: seq<Node>, start: Node)
    returns (d: Scores, pred: Preds, ghost ts: Stamps, ghost wit: Walks, ghost time: nat, ghost rounds: nat)
    requires Distinct(nodes) && (forall v :: v in nodes <==> v in graph) && |nodes| == |graph.Keys|
    ensures Tables(Among(graph), graph.Keys, start, d, pred, ts, wit, time)
    ensures Bound(Among(graph), graph.Keys, start, d, rounds) && |graph.Keys| <= rounds + 1
  {
    ghost var w, V := Among(graph), graph.Keys;
    d := map v | v in graph :: if v == start then Fin(0) else Inf;
    pred := map v | v in graph :: None;
    ts, wit, time := map v | v in graph :: 0, map[start := [start]], 1;
    assert d == InitScores(V, start);
    InitTables(w, V, start);
    var i := 0;
    while i < |nodes| - 1
      invariant 0 <= i && (|nodes| > 0 ==> i <= |nodes| - 1)
      invariant Tables(w, V, start, d, pred, ts, wit, time)
      invariant Bound(w, V, start, d, i)
    {
      var d', pred';
      d', pred', ts, wit, time := Round(graph, nodes, d, pred, start, ts, wit, time);
      BoundStep(w, V, start, d, d', i);
      d, pred := d', pred';
      i := i + 1;
    }
    rounds := i;
  }

  /** The check: `hasNegativeCycle` is set exactly when some leg could still lower a distance. */
  method HasNegativeCycle(graph: Weights, nodes: seq<Node>, d: Scores) returns (negative: bool)
    requires (forall v :: v in nodes <==> v in graph) && Domain(d, graph.Keys)
    ensures negative <==> !Calm(Among(graph), graph.Keys, d)
  {
    negative := false;
    assert Below(graph.Keys, d, d);
    for a := 0 to |nodes|
      invariant !negative ==> forall c {:trigger nodes[c]} :: 0 <= c < a ==> LegsDone(graph, nodes[c], graph[nodes[c]].Keys, d, d)
      invariant negative ==> !Calm(Among(graph), graph.Keys, d)
    {
      var u := nodes[a];
      if d[u] != Inf {
        var tense := CheckLegs(graph, u, d);
        negative := negative || tense;
      } else {
        InfLegsDone(graph, u, d, d);
      }
    }
    if !negative {
      AllLegsDone(graph, nodes, d, d);
    }
  }

  /** `Object.keys(graph[u]).forEach(v => ...)` of the check, for one node. */
  method CheckLegs(graph: Weights, u: Node, d: Scores) returns (tense: bool)
    requires u in graph && Domain(d, graph.Keys)
    ensures !tense ==> LegsDone(graph, u, graph[u].Keys, d, d)
    ensures tense ==> !Calm(Among(graph), graph.Keys, d)
  {
    tense := false;
    var rest := graph[u].Keys;
    while rest != {}
      invariant rest <= graph[u].Keys
      invariant !tense ==> LegsDone(graph, u, graph[u].Keys - rest, d, d)
      invariant tense ==> !Calm(Among(graph), graph.Keys, d)
      decreases rest
    {
      var v :| v in rest;
      if v in d && Lt(AddW(d[u], graph[u][v]), d[v]) {
        TenseLeg(graph, d, u, v);
        tense := true;
      }
      rest := rest - {v};
    }
    assert graph[u].Keys - rest == graph[u].Keys;
  }

  /**
   * The aviation.js Bellman-Ford, for an end among the graph's keys. It
   * throws the negative-cycle error exactly when a negative cycle is
   * reachable from the start. Otherwise the distance is `Infinity`, with
   * the path `[end]`, exactly when the end cannot be reached, and is
   * else the weight of the returned path, which is a shortest one.
   */
  method BellmanFord(graph: Weights, start: Node, end: Node) returns (r: Result<Answer>)
    requires end in graph
    ensures r.Failure? <==> NegativeCycleFrom(Among(graph), start)
    ensures r.Failure? ==> r.error == NEGATIVE_WEIGHT_CYCLE
    ensures r.Success? ==>
      && (r.value.distance.Inf? <==> !Reachable(Among(graph), start, end))
      && (r.value.distance.Inf? ==> r.value.path == [end])
      && (r.value.distance.Fin? ==>
            && IsPath(Among(graph), r.value.path, start, end)
            && PathWeight(Among(graph), r.value.path) == r.value.distance.v
            && IsShortest(Among(graph), start, end, r.value.distance))
    ensures r.Success? && start == end ==> r.value == Answer([start], Fin(0))
  {
    ghost var w, V := Among(graph), graph.Keys;
    var nodes := KeyList(graph);
    var d, pred, ts, wit, time, rounds := Rounds(graph, nodes, start);
    var negative := HasNegativeCycle(graph, nodes, d);
    if negative {
      TenseMeansCycle(w, V, start, d, pred, ts, wit, time, rounds);
      return Failure(NEGATIVE_WEIGHT_CYCLE);
    }
    CalmNoCycle(w, V, start, d, pred, ts, wit, time);
    Acyclic(w, V, start, d, pred, ts, wit, time);
    var path := Reconstruct(pred, V, end);
    Conclude(w, V, start, d, pred, ts, wit, time, path, end);
    r := Success(Answer(path, d[end]));
  }
}
