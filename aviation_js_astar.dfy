/**
 * `aStar(graph, start, end)` of `src/api/aviation.js`. Unlike the other A*
 * variants it keeps no closed set: a node leaves the open set when it is
 * expanded and comes back whenever a later leg lowers its score, so the
 * scores only ever change by relaxing one edge, and the relaxation theory
 * applies. The search returns when the end is selected and gives up
 * (`null`) when the open set runs dry.
 *
 * With an inconsistent heuristic the end can be selected while a node on its
 * predecessor chain has since been lowered; the path read back then weighs
 * less than the reported distance. With a consistent heuristic (the
 * straight-line distance is one) both agree and are the shortest distance.
 */
module AviationJsAStar {
  import opened Paths
  import opened Frontier
  import opened Relaxation
  import opened AviationJsGraph

  /** The initial `fScore`: the heuristic at the start (`0 + h`), `Infinity` elsewhere. */
  function InitEstimates(V: set<Node>, h: Node -> int, start: Node): (f: Scores)
    ensures Domain(f, V)
    ensures forall v :: v in V ==> f[v] == AddW(InitScores(V, start)[v], h(v))
  {
    map v | v in V :: if v == start then Fin(h(start)) else Inf
  }

  /** `fScore[v] === gScore[v] + heuristic(v, end)` for every node. */
  ghost predicate Scored(V: set<Node>, h: Node -> int, g: Scores, f: Scores) {
    && Domain(g, V) && Domain(f, V)
    && forall v {:trigger f[v]} :: v in V ==> f[v] == AddW(g[v], h(v))
  }

  /** Finite scores are never negative. */
  ghost predicate NonNegScores(V: set<Node>, g: Scores)
    requires Domain(g, V)
  {
    forall v {:trigger g[v]} :: v in V && g[v].Fin? ==> g[v].v >= 0
  }

  /** The expanded nodes: out of the open set with a finite score. */
  ghost function Done(V: set<Node>, open: set<Node>, g: Scores): set<Node>
    requires Domain(g, V)
  {
    set x | x in V && x !in open && g[x].Fin?
  }

  /** Every leg out of an expanded node is relaxed, whatever it leads to. */
  ghost predicate Expanded(w: Weights, V: set<Node>, open: set<Node>, g: Scores)
    requires Domain(g, V) && Closed(w, V)
  {
    forall x, v {:trigger IsEdge(w, x, v)} :: x in V && x !in open && g[x].Fin? && IsEdge(w, x, v) ==>
      Le(g[v], AddW(g[x], w[x][v]))
  }

  /** The open set: known nodes with finite scores; the end stays in it once reached. */
  ghost predicate OpenOk(V: set<Node>, start: Node, end: Node, open: set<Node>, g: Scores)
    requires Domain(g, V)
  {
    && open <= V
    && (forall v {:trigger g[v]} :: v in open ==> g[v].Fin?)
    && start in V && g[start] == Fin(0)
    && (end in V && g[end].Fin? ==> end in open)
  }

  /** The main loop's invariant, on the legs among the graph's keys. */
  ghost predicate Inv(graph: Weights, h: Node -> int, start: Node, end: Node, open: set<Node>, g: Scores, f: Scores,
                      came: Preds, ts: Stamps, wit: Walks, time: nat)
  {
    && Tables(Among(graph), graph.Keys, start, g, came, ts, wit, time)
    && Scored(graph.Keys, h, g, f)
    && NonNegScores(graph.Keys, g)
    && OpenOk(graph.Keys, start, end, open, g)
    && Expanded(Among(graph), graph.Keys, open, g)
    && (Consistent(Among(graph), h) ==> Settled(Among(graph), start, Done(graph.Keys, open, g), g))
  }

  lemma InvInit(graph: Weights, h: Node -> int, start: Node, end: Node)
    requires start in graph
    ensures Inv(graph, h, start, end, {start}, InitScores(graph.Keys, start), InitEstimates(graph.Keys, h, start),
                map v | v in graph :: None, map v | v in graph :: 0, map[start := [start]], 1)
  {
    var V, g := graph.Keys, InitScores(graph.Keys, start);
    InitTables(Among(graph), V, start);
    assert Done(V, {start}, g) == {};
  }

  // ---------------------------------------------------------------------
  // Expanding one node
  // ---------------------------------------------------------------------

  /** The state of `forEach(neighbor => ...)` once the legs to `legs` have been seen. */
  ghost predicate Relaxing(graph: Weights, h: Node -> int, start: Node, u: Node, legs: set<Node>,
                           open: set<Node>, g: Scores, open': set<Node>, g': Scores, f': Scores,
                           came': Preds, ts': Stamps, wit': Walks, time': nat)
    requires u in graph && Domain(g, graph.Keys)
  {
    Tables(Among(graph), graph.Keys, start, g', came', ts', wit', time') && Lowers(graph, h, u, legs, open, g, open', g', f')
  }

  /** The scores of `Relaxing`: lowered only, `u`'s kept, the lowered ones opened, the legs seen relaxed. */
  ghost predicate Lowers(graph: Weights, h: Node -> int, u: Node, legs: set<Node>,
                         open: set<Node>, g: Scores, open': set<Node>, g': Scores, f': Scores)
    requires u in graph && Domain(g, graph.Keys)
  {
    && Scored(graph.Keys, h, g', f') && NonNegScores(graph.Keys, g')
    && Below(graph.Keys, g', g) && g'[u] == g[u]
    && Reopened(graph.Keys, open, g, open', g')
    && LegsRelaxed(graph, u, legs, g, g')
  }

  /** The open set gains exactly the nodes whose scores went down. */
  ghost predicate Reopened(V: set<Node>, open: set<Node>, g: Scores, open': set<Node>, g': Scores)
    requires Domain(g, V) && Domain(g', V)
  {
    forall v {:trigger v in open'} :: v in open' <==> v in open || (v in V && Lt(g'[v], g[v]))
  }

  /** The legs from `u` to `legs` leave their targets no higher than through `u`. */
  ghost predicate LegsRelaxed(graph: Weights, u: Node, legs: set<Node>, g: Scores, g': Scores)
    requires u in graph && Domain(g, graph.Keys)
  {
    forall v {:trigger v in legs} :: v in legs && v in graph && v in graph[u] ==> v in g' && Le(g'[v], AddW(g[u], graph[u][v]))
  }

  /**
   * `openSet.delete(current)` done, the legs of `current`: a tentative score
   * `gScore[current] + graph[current][neighbor]` below the neighbour's score
   * (a neighbour with no score never is) becomes its score, `current` its
   * `cameFrom`, the score plus the heuristic its `fScore`, and the neighbour
   * joins the open set.
   */
  method RelaxNeighbors(graph: Weights, h: Node -> int, u: Node, open: set<Node>, g: Scores, f: Scores, came: Preds,
                        ghost start: Node, ghost ts: Stamps, ghost wit: Walks, ghost time: nat)
    returns (open': set<Node>, g': Scores, f': Scores, came': Preds, ghost ts': Stamps, ghost wit': Walks, ghost time': nat)
    requires u in graph && Domain(g, graph.Keys) && g[u].Fin? && open <= graph.Keys
    requires Tables(Among(graph), graph.Keys, start, g, came, ts, wit, time)
    requires Scored(graph.Keys, h, g, f) && NonNegScores(graph.Keys, g) && NonNegative(Among(graph))
    ensures Relaxing(graph, h, start, u, graph[u].Keys, open, g, open', g', f', came', ts', wit', time')
    ensures forall v {:trigger IsEdge(Among(graph), u, v)} :: IsEdge(Among(graph), u, v) ==>
      Le(g'[v], AddW(g[u], Among(graph)[u][v]))
  {
    open', g', f', came', ts', wit', time' := open, g, f, came, ts, wit, time;
    var rest := graph[u].Keys;
    while rest != {}
      invariant rest <= graph[u].Keys
      invariant Relaxing(graph, h, start, u, graph[u].Keys - rest, open, g, open', g', f', came', ts', wit', time')
      decreases rest
    {
      var neighbor :| neighbor in rest;
      var tentative := AddW(g'[u], graph[u][neighbor]);
      ghost var legs := graph[u].Keys - rest;
      assert graph[u].Keys - (rest - {neighbor}) == legs + {neighbor};
      if neighbor in g' && Lt(tentative, g'[neighbor]) {
        open', g', f', came', ts', wit', time' := Lower(graph, h, u, open, g, open', g', f', came', start, ts', wit', time', neighbor, legs);
      } else {
        RelaxingSkip(graph, h, start, u, legs, open, g, open', g', f', came', ts', wit', time', neighbor);
      }
      rest := rest - {neighbor};
    }
    assert graph[u].Keys - rest == graph[u].Keys;
    RelaxingDone(graph, h, start, u, open, g, open', g', f', came', ts', wit', time');
  }

  /**
   * One leg that lowers the neighbour's score: `cameFrom`, `gScore` and
   * `fScore` of the neighbour updated, the neighbour added to the open set.
   */
  method Lower(graph: Weights, h: Node -> int, u: Node, ghost open: set<Node>, ghost g: Scores,
               open': set<Node>, g': Scores, f': Scores, came': Preds,
               ghost start: Node, ghost ts': Stamps, ghost wit': Walks, ghost time': nat, n: Node, ghost legs: set<Node>)
    returns (open'': set<Node>, g'': Scores, f'': Scores, came'': Preds, ghost ts'': Stamps, ghost wit'': Walks, ghost time'': nat)
    requires u in graph && Domain(g, graph.Keys) && g[u].Fin? && NonNegative(Among(graph))
    requires Relaxing(graph, h, start, u, legs, open, g, open', g', f', came', ts', wit', time')
    requires n in graph[u] && n in g' && Lt(AddW(g'[u], graph[u][n]), g'[n])
    ensures Relaxing(graph, h, start, u, legs + {n}, open, g, open'', g'', f'', came'', ts'', wit'', time'')
  {
    var tentative := AddW(g'[u], graph[u][n]);
    RelaxingStep(graph, h, start, u, legs, open, g, open', g', f', came', ts', wit', time', n);
    wit'' := wit'[n := wit'[u] + [n]];
    ts'' := ts'[n := time'];
    time'' := time' + 1;
    came'' := came'[n := Some(u)];
    g'' := g'[n := tentative];
    f'' := f'[n := AddW(tentative, h(n))];
    open'' := open';
    if n !in open'' {
      open'' := open'' + {n};
    }
  }

  /** A leg that lowers its neighbour's score: the relaxed state, the neighbour opened. */
  lemma RelaxingStep(graph: Weights, h: Node -> int, start: Node, u: Node, legs: set<Node>,
                     open: set<Node>, g: Scores, open': set<Node>, g': Scores, f': Scores,
                     came': Preds, ts': Stamps, wit': Walks, time': nat, n: Node)
    requires u in graph && Domain(g, graph.Keys) && g[u].Fin? && NonNegative(Among(graph))
    requires Relaxing(graph, h, start, u, legs, open, g, open', g', f', came', ts', wit', time')
    requires n in graph[u] && n in g' && Lt(AddW(g'[u], graph[u][n]), g'[n])
    ensures u in wit'
    ensures var t := AddW(g'[u], graph[u][n]);
      Relaxing(graph, h, start, u, legs + {n}, open, g, open' + {n}, g'[n := t], f'[n := AddW(t, h(n))],
               came'[n := Some(u)], ts'[n := time'], wit'[n := wit'[u] + [n]], time' + 1)
  {
    var w, V := Among(graph), graph.Keys;
    assert IsEdge(w, u, n) && w[u][n] == graph[u][n];
    RelaxThrough(w, V, start, g', came', ts', wit', time', u, n);
    LowersStep(graph, h, u, legs, open, g, open', g', f', n);
  }

  lemma LowersStep(graph: Weights, h: Node -> int, u: Node, legs: set<Node>,
                   open: set<Node>, g: Scores, open': set<Node>, g': Scores, f': Scores, n: Node)
    requires u in graph && Domain(g, graph.Keys) && g[u].Fin? && NonNegative(Among(graph))
    requires Lowers(graph, h, u, legs, open, g, open', g', f')
    requires n in graph[u] && n in g' && Lt(AddW(g'[u], graph[u][n]), g'[n])
    ensures var t := AddW(g'[u], graph[u][n]);
      Lowers(graph, h, u, legs + {n}, open, g, open' + {n}, g'[n := t], f'[n := AddW(t, h(n))])
  {
    var V := graph.Keys;
    var t := AddW(g'[u], graph[u][n]);
    assert IsEdge(Among(graph), u, n) && Among(graph)[u][n] == graph[u][n];
    assert t.Fin? && t.v >= 0;
    LowerScores(V, h, g, g', f', n, t);
    assert n != u;
    LowerOpen(V, open, g, open', g', n, t);
    LowerLegs(graph, u, legs, g, g', n, t);
  }

  lemma LowerScores(V: set<Node>, h: Node -> int, g: Scores, g': Scores, f': Scores, n: Node, t: Dist)
    requires Domain(g, V) && Scored(V, h, g', f') && NonNegScores(V, g') && Below(V, g', g)
    requires n in V && Lt(t, g'[n]) && t.Fin? && t.v >= 0
    ensures Scored(V, h, g'[n := t], f'[n := AddW(t, h(n))]) && NonNegScores(V, g'[n := t]) && Below(V, g'[n := t], g)
  {
    var g'' := g'[n := t];
    forall v | v in V ensures Le(g''[v], g[v]) {
      assert Le(g'[v], g[v]);
    }
  }

  lemma LowerOpen(V: set<Node>, open: set<Node>, g: Scores, open': set<Node>, g': Scores, n: Node, t: Dist)
    requires Domain(g, V) && Domain(g', V) && Below(V, g', g) && Reopened(V, open, g, open', g')
    requires n in V && Lt(t, g'[n])
    ensures Reopened(V, open, g, open' + {n}, g'[n := t])
  {
    assert Le(g'[n], g[n]);
  }

  lemma LowerLegs(graph: Weights, u: Node, legs: set<Node>, g: Scores, g': Scores, n: Node, t: Dist)
    requires u in graph && Domain(g, graph.Keys) && Domain(g', graph.Keys) && LegsRelaxed(graph, u, legs, g, g')
    requires n in graph && n in graph[u] && n != u && g'[u] == g[u] && t == AddW(g'[u], graph[u][n]) && Lt(t, g'[n])
    ensures LegsRelaxed(graph, u, legs + {n}, g, g'[n := t])
  {
  }

  /** A leg that does not lower its neighbour's score changes nothing. */
  lemma RelaxingSkip(graph: Weights, h: Node -> int, start: Node, u: Node, legs: set<Node>,
                     open: set<Node>, g: Scores, open': set<Node>, g': Scores, f': Scores,
                     came': Preds, ts': Stamps, wit': Walks, time': nat, n: Node)
    requires u in graph && Domain(g, graph.Keys)
    requires Relaxing(graph, h, start, u, legs, open, g, open', g', f', came', ts', wit', time')
    requires n in graph[u] && !(n in g' && Lt(AddW(g'[u], graph[u][n]), g'[n]))
    ensures Relaxing(graph, h, start, u, legs + {n}, open, g, open', g', f', came', ts', wit', time')
  {
  }

  /** All legs seen: every leg of `u` among the keys is relaxed. */
  lemma RelaxingDone(graph: Weights, h: Node -> int, start: Node, u: Node,
                     open: set<Node>, g: Scores, open': set<Node>, g': Scores, f': Scores,
                     came': Preds, ts': Stamps, wit': Walks, time': nat)
    requires u in graph && Domain(g, graph.Keys)
    requires Relaxing(graph, h, start, u, graph[u].Keys, open, g, open', g', f', came', ts', wit', time')
    ensures forall v {:trigger IsEdge(Among(graph), u, v)} :: IsEdge(Among(graph), u, v) ==>
      Le(g'[v], AddW(g[u], Among(graph)[u][v]))
  {
    forall v | IsEdge(Among(graph), u, v) ensures Le(g'[v], AddW(g[u], Among(graph)[u][v])) {
      assert v in graph[u].Keys && v in graph;
    }
  }

  /** Expanding the open node of least estimate keeps the invariant. */
  lemma InvStep(graph: Weights, h: Node -> int, start: Node, end: Node, open: set<Node>, g: Scores, f: Scores,
                came: Preds, ts: Stamps, wit: Walks, time: nat, u: Node,
                open': set<Node>, g': Scores, f': Scores, came': Preds, ts': Stamps, wit': Walks, time': nat)
    requires Inv(graph, h, start, end, open, g, f, came, ts, wit, time)
    requires u in open && u != end && forall y :: y in open ==> Le(f[u], f[y])
    requires Relaxing(graph, h, start, u, graph[u].Keys, open - {u}, g, open', g', f', came', ts', wit', time')
    requires forall v {:trigger IsEdge(Among(graph), u, v)} :: IsEdge(Among(graph), u, v) ==>
      Le(g'[v], AddW(g[u], Among(graph)[u][v]))
    ensures Inv(graph, h, start, end, open', g', f', came', ts', wit', time')
  {
    var w, V := Among(graph), graph.Keys;
    OpenStep(V, start, end, open, g, u, open', g');
    ExpandedStep(w, V, open, g, u, open', g');
    if Consistent(w, h) {
      DoneStep(w, h, V, start, end, open, g, f, u, open', g');
    }
  }

  lemma OpenStep(V: set<Node>, start: Node, end: Node, open: set<Node>, g: Scores, u: Node, open': set<Node>, g': Scores)
    requires Domain(g, V) && Domain(g', V) && OpenOk(V, start, end, open, g) && NonNegScores(V, g')
    requires u in open && u != end && Below(V, g', g)
    requires forall v {:trigger v in open'} :: v in open' <==> v in open - {u} || (v in V && Lt(g'[v], g[v]))
    ensures OpenOk(V, start, end, open', g')
  {
    assert Le(g'[start], g[start]);
    forall v | v in open' ensures g'[v].Fin? {
      assert Le(g'[v], g[v]);
    }
    if end in V {
      assert Le(g'[end], g[end]);
    }
  }

  lemma ExpandedStep(w: Weights, V: set<Node>, open: set<Node>, g: Scores, u: Node, open': set<Node>, g': Scores)
    requires Closed(w, V) && Domain(g, V) && Domain(g', V) && Expanded(w, V, open, g)
    requires u in open && Below(V, g', g)
    requires forall v {:trigger v in open'} :: v in open' <==> v in open - {u} || (v in V && Lt(g'[v], g[v]))
    requires forall v {:trigger IsEdge(w, u, v)} :: IsEdge(w, u, v) ==> Le(g'[v], AddW(g[u], w[u][v]))
    ensures Expanded(w, V, open', g')
  {
    forall x, v | x in V && x !in open' && g'[x].Fin? && IsEdge(w, x, v) ensures Le(g'[v], AddW(g'[x], w[x][v])) {
      assert Le(g'[x], g[x]);
      assert g'[x] == g[x];
      if x != u {
        assert Le(g[v], AddW(g[x], w[x][v])) && Le(g'[v], g[v]);
      }
    }
  }

  /** Under a consistent heuristic the selected node is settled, and so is every node the expansion leaves closed. */
  lemma DoneStep(w: Weights, h: Node -> int, V: set<Node>, start: Node, end: Node, open: set<Node>, g: Scores, f: Scores,
                 u: Node, open': set<Node>, g': Scores)
    requires Closed(w, V) && Consistent(w, h) && Scored(V, h, g, f) && OpenOk(V, start, end, open, g)
    requires Settled(w, start, Done(V, open, g), g) && Expanded(w, V, open, g)
    requires u in open && (forall y :: y in open ==> Le(f[u], f[y]))
    requires Domain(g', V) && Below(V, g', g)
    requires forall v {:trigger v in open'} :: v in open' <==> v in open - {u} || (v in V && Lt(g'[v], g[v]))
    ensures Settled(w, start, Done(V, open', g'), g')
  {
    var S := Done(V, open, g);
    forall y | y in V && y !in S ensures Le(Key(g, h, u), Key(g, h, y)) {
      if y in open {
        assert Le(f[u], f[y]);
      }
    }
    assert Relaxed(w, S, V, g);
    SelectedIsSettled(w, h, V, S, g, start, u);
    forall x, p | x in Done(V, open', g') && x in g' && IsPath(w, p, start, x) ensures Le(g'[x], Fin(PathWeight(w, p))) {
      assert Le(g'[x], g[x]);
      assert g'[x] == g[x];
      if x != u {
        assert x in S;
      }
    }
  }

  // ---------------------------------------------------------------------
  // Termination: unreached nodes, then the sum of the finite scores, then the open set
  // ---------------------------------------------------------------------

  /** How many of `nodes` still score `Infinity`. */
  function Unknown(g: Scores, nodes: seq<Node>): nat {
    if nodes == [] then 0 else (if nodes[0] in g && g[nodes[0]].Fin? then 0 else 1) + Unknown(g, nodes[1..])
  }

  /** The sum of the finite, non-negative scores of `nodes`. */
  function Total(g: Scores, nodes: seq<Node>): nat {
    if nodes == [] then 0
    else (if nodes[0] in g && g[nodes[0]].Fin? && g[nodes[0]].v >= 0 then g[nodes[0]].v else 0) + Total(g, nodes[1..])
  }

  ghost predicate Lowering(g: Scores, g': Scores, nodes: seq<Node>) {
    forall v {:trigger v in nodes} :: v in nodes ==>
      v in g && v in g' && Le(g'[v], g[v]) && (g[v].Fin? ==> g[v].v >= 0) && (g'[v].Fin? ==> g'[v].v >= 0)
  }

  /** Lowering scores never adds an unreached node, and with as many unreached nodes never adds to the sum. */
  lemma {:induction false} DescentLe(g: Scores, g': Scores, nodes: seq<Node>)
    requires Lowering(g, g', nodes)
    ensures Unknown(g', nodes) <= Unknown(g, nodes)
    ensures Unknown(g', nodes) == Unknown(g, nodes) ==> Total(g', nodes) <= Total(g, nodes)
  {
    if nodes != [] {
      assert nodes[0] in nodes;
      assert Lowering(g, g', nodes[1..]) by {
        forall v | v in nodes[1..] ensures v in nodes {
        }
      }
      DescentLe(g, g', nodes[1..]);
    }
  }

  /** Strictly lowering one of them strictly lowers the pair. */
  lemma {:induction false} DescentLt(g: Scores, g': Scores, nodes: seq<Node>, x: Node)
    requires Lowering(g, g', nodes) && x in nodes && x in g && x in g' && Lt(g'[x], g[x])
    ensures Unknown(g', nodes) < Unknown(g, nodes) || (Unknown(g', nodes) == Unknown(g, nodes) && Total(g', nodes) < Total(g, nodes))
  {
    assert nodes[0] in nodes;
    assert Lowering(g, g', nodes[1..]) by {
      forall v | v in nodes[1..] ensures v in nodes {
      }
    }
    DescentLe(g, g', nodes[1..]);
    if nodes[0] != x {
      DescentLt(g, g', nodes[1..], x);
    }
  }

  /** One expansion lowers the loop's measure. */
  lemma Progress(V: set<Node>, nodes: seq<Node>, u: Node, open: set<Node>, g: Scores, open': set<Node>, g': Scores)
    requires forall v :: v in nodes <==> v in V
    requires Domain(g, V) && Domain(g', V) && Below(V, g', g) && NonNegScores(V, g) && NonNegScores(V, g')
    requires u in open && open <= V
    requires forall v {:trigger v in open'} :: v in open' <==> v in open - {u} || (v in V && Lt(g'[v], g[v]))
    ensures Unknown(g', nodes) < Unknown(g, nodes)
      || (Unknown(g', nodes) == Unknown(g, nodes) && Total(g', nodes) < Total(g, nodes))
      || (Unknown(g', nodes) == Unknown(g, nodes) && Total(g', nodes) == Total(g, nodes) && |open'| < |open|)
  {
    assert Lowering(g, g', nodes);
    DescentLe(g, g', nodes);
    if x :| x in V && Lt(g'[x], g[x]) {
      DescentLt(g, g', nodes, x);
    } else {
      assert open' == open - {u};
    }
  }

  // ---------------------------------------------------------------------
  // The two ways out
  // ---------------------------------------------------------------------

  /** The end selected: its `cameFrom` chain is a path no heavier than its score, and equal under consistency. */
  lemma Found(graph: Weights, h: Node -> int, start: Node, end: Node, open: set<Node>, g: Scores, f: Scores,
              came: Preds, ts: Stamps, wit: Walks, time: nat, path: seq<Node>)
    requires Inv(graph, h, start, end, open, g, f, came, ts, wit, time)
    requires end in open && forall y :: y in open ==> Le(f[end], f[y])
    requires IsChain(came, path, end)
    ensures g[end].Fin? && IsPath(Among(graph), path, start, end) && PathWeight(Among(graph), path) <= g[end].v
    ensures Consistent(Among(graph), h) ==>
      PathWeight(Among(graph), path) == g[end].v && IsShortest(Among(graph), start, end, g[end])
    ensures start == end ==> path == [start] && g[end] == Fin(0)
  {
    var w, V := Among(graph), graph.Keys;
    ChainBelow(w, V, start, g, came, ts, wit, time, path, end);
    if Consistent(w, h) {
      var S := Done(V, open, g);
      forall y | y in V && y !in S ensures Le(Key(g, h, end), Key(g, h, y)) {
        if y in open {
          assert Le(f[end], f[y]);
        }
      }
      SelectedIsSettled(w, h, V, S, g, start, end);
    }
    if start == end {
      SingleChain(came, path, end);
    }
  }

  /** The open set empty: every node reachable from the start has a finite score, and the end has none. */
  lemma Exhausted(graph: Weights, h: Node -> int, start: Node, end: Node, g: Scores, f: Scores,
                  came: Preds, ts: Stamps, wit: Walks, time: nat)
    requires Inv(graph, h, start, end, {}, g, f, came, ts, wit, time)
    ensures !Reachable(Among(graph), start, end)
  {
    var w, V := Among(graph), graph.Keys;
    var S := Done(V, {}, g);
    if p :| IsPath(w, p, start, end) {
      PathInside(w, V, p, start, end);
      AllInfUnreachable(w, V, S, g, start, end);
    }
  }

  /**
   * The aviation.js A*, for a start among the graph's keys and non-negative
   * legs (a negative cycle would keep it reopening nodes forever). `null`
   * exactly when the end cannot be reached; otherwise a path to the end no
   * heavier than the reported distance, both the shortest distance when the
   * heuristic is consistent. From the start to itself: `[start]` at 0.
   */
  method AStar(graph: Weights, h: Node -> int, start: Node, end: Node) returns (r: Option<Answer>)
    requires start in graph && NonNegative(Among(graph))
    ensures r.None? <==> !Reachable(Among(graph), start, end)
    ensures r.Some? ==>
      && IsPath(Among(graph), r.value.path, start, end) && r.value.distance.Fin?
      && PathWeight(Among(graph), r.value.path) <= r.value.distance.v
    ensures r.Some? && Consistent(Among(graph), h) ==>
      PathWeight(Among(graph), r.value.path) == r.value.distance.v && IsShortest(Among(graph), start, end, r.value.distance)
    ensures start == end ==> r == Some(Answer([start], Fin(0)))
  {
    var open := {start};
    var came: Preds := map v | v in graph :: None;
    var g := InitScores(graph.Keys, start);
    var f := InitEstimates(graph.Keys, h, start);
    ghost var ts: Stamps, wit: Walks, time: nat := map v | v in graph :: 0, map[start := [start]], 1;
    ghost var nodes := KeyList(graph);
    InvInit(graph, h, start, end);

    while open != {}
      invariant Inv(graph, h, start, end, open, g, f, came, ts, wit, time)
      decreases Unknown(g, nodes), Total(g, nodes), |open|
    {
      var current, minF := SelectMin(open, f);
      ghost var any :| any in open;
      assert Score(f, any).Fin?;
      var u := current.value;
      if u == end {
        NonNegativeNoCycle(Among(graph), start);
        Acyclic(Among(graph), graph.Keys, start, g, came, ts, wit, time);
        var path := Reconstruct(came, graph.Keys, end);
        Found(graph, h, start, end, open, g, f, came, ts, wit, time, path);
        return Some(Answer(path, g[end]));
      }
      var open', g', f', came', ts', wit', time' := RelaxNeighbors(graph, h, u, open - {u}, g, f, came, start, ts, wit, time);
      InvStep(graph, h, start, end, open, g, f, came, ts, wit, time, u, open', g', f', came', ts', wit', time');
      Progress(graph.Keys, nodes, u, open, g, open', g');
      open, g, f, came, ts, wit, time := open', g', f', came', ts', wit', time';
    }
    Exhausted(graph, h, start, end, g, f, came, ts, wit, time);
    return None;
  }
}
