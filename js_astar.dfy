/**
 * `aStar(graph, airports, sourceCode, destinationCode)` of
 * `src/algorithms/astar.js`. The open set starts as the source alone; each
 * round takes an open airport of least `f = g + h`, answers if it is the
 * destination, and otherwise closes it and scores its connections: a closed
 * target is skipped, a target seen for the first time is opened and scored,
 * an open one is rescored only on a strictly smaller `g`. An open set that
 * runs empty is an error.
 *
 * The heuristic is the floating-point straight-line distance between the
 * airports' positions; in the search it is the parameter `h`, where `h(v)`
 * stands for `heuristic(v, destinationCode)`.
 */
module JsAStar {
  import opened Paths
  import opened Frontier
  import opened Types
  import opened JsGraph
  import UtilsAStar

  /** `airports.find(a => a.code === code)`, where `positions[k]` is the position of `airports[k]`. */
  function Find(airports: seq<Node>, positions: seq<UtilsAStar.Position>, code: Node): Option<UtilsAStar.Position>
    requires |positions| == |airports|
    decreases |airports|
  {
    if |airports| == 0 then None
    else if airports[0] == code then Some(positions[0])
    else Find(airports[1..], positions[1..], code)
  }

  /** `find` answers the position of the first airport with the code, and nothing when there is none. */
  lemma {:induction false} FindFacts(airports: seq<Node>, positions: seq<UtilsAStar.Position>, code: Node)
    requires |positions| == |airports|
    ensures Find(airports, positions, code).None? <==> code !in airports
    ensures Find(airports, positions, code).Some? ==>
      exists k :: 0 <= k < |airports| && airports[k] == code && Find(airports, positions, code) == Some(positions[k])
        && forall j :: 0 <= j < k ==> airports[j] != code
    decreases |airports|
  {
    if |airports| > 0 && airports[0] != code {
      FindFacts(airports[1..], positions[1..], code);
      if Find(airports[1..], positions[1..], code).Some? {
        var k :| 0 <= k < |airports[1..]| && airports[1..][k] == code && Find(airports[1..], positions[1..], code) == Some(positions[1..][k])
          && forall j :: 0 <= j < k ==> airports[1..][j] != code;
        assert airports[k + 1] == code && positions[k + 1] == positions[1..][k];
        assert forall j :: 0 <= j < k + 1 ==> airports[j] != code by {
          forall j | 0 <= j < k + 1 ensures airports[j] != code {
            if j > 0 {
              assert airports[j] == airports[1..][j - 1];
            }
          }
        }
      }
    }
  }

  /**
   * `heuristic(from, to)`: 0 when either airport is not in the list,
   * otherwise the straight-line measure `straight` of their positions
   * (Euclidean degrees times 111 in the source, in floating point).
   */
  function Heuristic(airports: seq<Node>, positions: seq<UtilsAStar.Position>, straight: (UtilsAStar.Position, UtilsAStar.Position) -> nat,
                     from: Node, to: Node): (r: int)
    requires |positions| == |airports|
    ensures r >= 0
    ensures from !in airports || to !in airports ==> r == 0
    ensures from in airports && to in airports ==>
      Find(airports, positions, from).Some? && Find(airports, positions, to).Some? &&
      r == straight(Find(airports, positions, from).value, Find(airports, positions, to).value)
  {
    FindFacts(airports, positions, from);
    FindFacts(airports, positions, to);
    var fromAirport, toAirport := Find(airports, positions, from), Find(airports, positions, to);
    if fromAirport.None? || toAirport.None? then 0 else straight(fromAirport.value, toAirport.value)
  }

  /** Every connection of a node in `V` leads into `V`: each node the search meets has scores. */
  ghost predicate TargetsInside(graph: AdjList, V: set<Node>) {
    forall u, k {:trigger graph[u][k]} :: u in graph && u in V && 0 <= k < |graph[u]| ==> graph[u][k].to in V
  }

  /**
   * The nodes the search can score: the listed airports and the target of
   * every connection. An unlisted target has no `gScore` entry at first,
   * but the branch `!openSet.has(neighbor.to)` scores it as soon as it is
   * opened, and no comparison reads it before; starting it at `Infinity`
   * gives the same scoring.
   */
  function SearchNodes(graph: AdjList, airports: seq<Node>): (V: set<Node>)
    ensures forall v :: v in V <==> v in airports || exists u, k :: u in graph && 0 <= k < |graph[u]| && graph[u][k].to == v
    ensures TargetsInside(graph, V)
  {
    Codes(airports) + set u, k | u in graph && 0 <= k < |graph[u]| :: graph[u][k].to
  }

  /**
   * Entry `v` after scoring the connections `row` of `u`: an airport
   * outside the closed set that the lightest connection strictly betters
   * takes that `g`, `f = g + h` and `u` as predecessor; otherwise it is as
   * before. (A target seen for the first time is at `Infinity`, so adding
   * it unconditionally is a strict improvement.)
   */
  ghost predicate Entry(row: seq<Conn>, h: Node -> int, closed: set<Node>, u: Node,
                        g: Scores, f: Scores, pred: Preds, g': Scores, f': Scores, pred': Preds, v: Node)
    requires u in g && v in g && v in f && v in pred && v in g' && v in f' && v in pred'
  {
    if v !in closed && Lightest(row, v).Some? && Lt(AddW(g[u], Lightest(row, v).value), g[v]) then
      g'[v] == AddW(g[u], Lightest(row, v).value) && f'[v] == AddW(g'[v], h(v)) && pred'[v] == Some(u)
    else
      g'[v] == g[v] && f'[v] == f[v] && pred'[v] == pred[v]
  }

  /** The connections `row` of `u` have been scored; the open set gains the targets outside the closed set. */
  ghost predicate ScoredBy(row: seq<Conn>, V: set<Node>, h: Node -> int, closed: set<Node>, u: Node,
                           open: set<Node>, g: Scores, f: Scores, pred: Preds,
                           open': set<Node>, g': Scores, f': Scores, pred': Preds)
    requires u in g && Domain(g, V) && Domain(f, V) && Domain(pred, V)
  {
    && Domain(g', V) && Domain(f', V) && Domain(pred', V)
    && (forall v {:trigger v in open'} :: v in open' <==> v in open || (v in V && v !in closed && Lightest(row, v).Some?))
    && forall v {:trigger Entry(row, h, closed, u, g, f, pred, g', f', pred', v)} :: v in V ==>
      Entry(row, h, closed, u, g, f, pred, g', f', pred', v)
  }

  /**
   * `graph[current].forEach(neighbor => ...)`, after `current` has moved to
   * the closed set. A target outside both sets is at `Infinity`.
   */
  method ScoreRow(row: seq<Conn>, V: set<Node>, h: Node -> int, closed: set<Node>, u: Node,
                  open: set<Node>, g: Scores, f: Scores, pred: Preds)
    returns (open': set<Node>, g': Scores, f': Scores, pred': Preds)
    requires u in V && u in closed && Domain(g, V) && Domain(f, V) && Domain(pred, V)
    requires forall k :: 0 <= k < |row| ==> row[k].to in V
    requires forall v {:trigger g[v]} :: v in V && v !in open && v !in closed ==> g[v] == Inf
    requires g[u].Fin?
    ensures ScoredBy(row, V, h, closed, u, open, g, f, pred, open', g', f', pred')
  {
    open', g', f', pred' := open, g, f, pred;
    for i := 0 to |row|
      invariant ScoredBy(row[..i], V, h, closed, u, open, g, f, pred, open', g', f', pred')
    {
      ghost var open0, g0, f0, pred0 := open', g', f', pred';
      var neighbor := row[i];
      if neighbor.to !in closed {
        var tentativeGScore := AddW(g'[u], neighbor.distance);
        if neighbor.to !in open' {
          open' := open' + {neighbor.to};
          pred', g', f' := pred'[neighbor.to := Some(u)], g'[neighbor.to := tentativeGScore], f'[neighbor.to := AddW(tentativeGScore, h(neighbor.to))];
          ScoredAdd(row, V, h, closed, u, open, g, f, pred, open0, g0, f0, pred0, i);
        } else if Le(g'[neighbor.to], tentativeGScore) {
          ScoredSkip(row, V, h, closed, u, open, g, f, pred, open0, g0, f0, pred0, i);
        } else {
          pred', g', f' := pred'[neighbor.to := Some(u)], g'[neighbor.to := tentativeGScore], f'[neighbor.to := AddW(tentativeGScore, h(neighbor.to))];
          ScoredBetter(row, V, h, closed, u, open, g, f, pred, open0, g0, f0, pred0, i);
        }
      } else {
        ScoredSkip(row, V, h, closed, u, open, g, f, pred, open0, g0, f0, pred0, i);
      }
    }
    assert row[..|row|] == row;
  }

  /** The open set after connection `i`: its target joins unless it is closed. */
  lemma OpenSnoc(row: seq<Conn>, V: set<Node>, closed: set<Node>, open: set<Node>, open': set<Node>, i: nat)
    requires i < |row| && row[i].to in V
    requires forall v {:trigger v in open'} :: v in open' <==> v in open || (v in V && v !in closed && Lightest(row[..i], v).Some?)
    ensures row[i].to in closed || row[i].to in open' ==>
      forall v {:trigger v in open'} :: v in open' <==> v in open || (v in V && v !in closed && Lightest(row[..i + 1], v).Some?)
    ensures row[i].to !in closed ==>
      forall v {:trigger v in open' + {row[i].to}} :: v in open' + {row[i].to} <==> v in open || (v in V && v !in closed && Lightest(row[..i + 1], v).Some?)
  {
    forall v ensures Lightest(row[..i + 1], v).Some? <==> Lightest(row[..i], v).Some? || v == row[i].to {
      LightestSnoc(row, i, v);
    }
  }

  lemma ScoredSkip(row: seq<Conn>, V: set<Node>, h: Node -> int, closed: set<Node>, u: Node,
                   open: set<Node>, g: Scores, f: Scores, pred: Preds,
                   open': set<Node>, g': Scores, f': Scores, pred': Preds, i: nat)
    requires i < |row| && u in V && u in closed && Domain(g, V) && Domain(f, V) && Domain(pred, V) && row[i].to in V
    requires ScoredBy(row[..i], V, h, closed, u, open, g, f, pred, open', g', f', pred')
    requires row[i].to in closed || (row[i].to in open' && Le(g'[row[i].to], AddW(g'[u], row[i].distance)))
    ensures ScoredBy(row[..i + 1], V, h, closed, u, open, g, f, pred, open', g', f', pred')
  {
    assert Entry(row[..i], h, closed, u, g, f, pred, g', f', pred', u);
    forall v | v in V ensures Entry(row[..i + 1], h, closed, u, g, f, pred, g', f', pred', v) {
      assert Entry(row[..i], h, closed, u, g, f, pred, g', f', pred', v);
      LightestSnoc(row, i, v);
    }
    OpenSnoc(row, V, closed, open, open', i);
  }

  lemma ScoredAdd(row: seq<Conn>, V: set<Node>, h: Node -> int, closed: set<Node>, u: Node,
                  open: set<Node>, g: Scores, f: Scores, pred: Preds,
                  open': set<Node>, g': Scores, f': Scores, pred': Preds, i: nat)
    requires i < |row| && u in V && u in closed && Domain(g, V) && Domain(f, V) && Domain(pred, V) && row[i].to in V
    requires forall v {:trigger g[v]} :: v in V && v !in open && v !in closed ==> g[v] == Inf
    requires g[u].Fin?
    requires ScoredBy(row[..i], V, h, closed, u, open, g, f, pred, open', g', f', pred')
    requires row[i].to !in closed && row[i].to !in open'
    ensures ScoredBy(row[..i + 1], V, h, closed, u, open, g, f, pred, open' + {row[i].to},
                     g'[row[i].to := AddW(g'[u], row[i].distance)], f'[row[i].to := AddW(AddW(g'[u], row[i].distance), h(row[i].to))],
                     pred'[row[i].to := Some(u)])
  {
    var t := row[i].to;
    assert Entry(row[..i], h, closed, u, g, f, pred, g', f', pred', u);
    assert Entry(row[..i], h, closed, u, g, f, pred, g', f', pred', t);
    LightestFacts(row[..i], t);
    ScoredUpdate(row, V, h, closed, u, open, g, f, pred, open', g', f', pred', i);
    OpenSnoc(row, V, closed, open, open', i);
  }

  lemma ScoredBetter(row: seq<Conn>, V: set<Node>, h: Node -> int, closed: set<Node>, u: Node,
                     open: set<Node>, g: Scores, f: Scores, pred: Preds,
                     open': set<Node>, g': Scores, f': Scores, pred': Preds, i: nat)
    requires i < |row| && u in V && u in closed && Domain(g, V) && Domain(f, V) && Domain(pred, V) && row[i].to in V
    requires ScoredBy(row[..i], V, h, closed, u, open, g, f, pred, open', g', f', pred')
    requires row[i].to !in closed && row[i].to in open' && !Le(g'[row[i].to], AddW(g'[u], row[i].distance))
    ensures ScoredBy(row[..i + 1], V, h, closed, u, open, g, f, pred, open',
                     g'[row[i].to := AddW(g'[u], row[i].distance)], f'[row[i].to := AddW(AddW(g'[u], row[i].distance), h(row[i].to))],
                     pred'[row[i].to := Some(u)])
  {
    var t := row[i].to;
    assert Entry(row[..i], h, closed, u, g, f, pred, g', f', pred', u);
    NotLeIsLt(AddW(g'[u], row[i].distance), g'[t]);
    ScoredUpdate(row, V, h, closed, u, open, g, f, pred, open', g', f', pred', i);
    OpenSnoc(row, V, closed, open, open', i);
  }

  lemma NotLeIsLt(a: Dist, b: Dist)
    ensures !Le(b, a) ==> Lt(a, b)
  {
  }

  /** The tables after a strict improvement of `row[i].to` from `u`. */
  lemma ScoredUpdate(row: seq<Conn>, V: set<Node>, h: Node -> int, closed: set<Node>, u: Node,
                     open: set<Node>, g: Scores, f: Scores, pred: Preds,
                     open': set<Node>, g': Scores, f': Scores, pred': Preds, i: nat)
    requires i < |row| && u in V && u in closed && Domain(g, V) && Domain(f, V) && Domain(pred, V) && row[i].to in V
    requires ScoredBy(row[..i], V, h, closed, u, open, g, f, pred, open', g', f', pred')
    requires g'[u] == g[u] && row[i].to !in closed
    requires Lt(AddW(g'[u], row[i].distance), g'[row[i].to])
    ensures forall v {:trigger v in V} :: v in V ==>
      Entry(row[..i + 1], h, closed, u, g, f, pred,
            g'[row[i].to := AddW(g'[u], row[i].distance)], f'[row[i].to := AddW(AddW(g'[u], row[i].distance), h(row[i].to))],
            pred'[row[i].to := Some(u)], v)
    ensures Domain(g'[row[i].to := AddW(g'[u], row[i].distance)], V)
    ensures Domain(f'[row[i].to := AddW(AddW(g'[u], row[i].distance), h(row[i].to))], V)
    ensures Domain(pred'[row[i].to := Some(u)], V)
  {
    var t := row[i].to;
    var g'', f'', pred'' := g'[t := AddW(g'[u], row[i].distance)], f'[t := AddW(AddW(g'[u], row[i].distance), h(t))], pred'[t := Some(u)];
    forall v | v in V ensures Entry(row[..i + 1], h, closed, u, g, f, pred, g'', f'', pred'', v) {
      assert Entry(row[..i], h, closed, u, g, f, pred, g', f', pred', v);
      LightestSnoc(row, i, v);
    }
  }

  /**
   * The table shapes: `f = g + h` everywhere, the open set is exactly the
   * scored airports outside the closed set, closed airports are scored, and
   * before the source is closed it is the only scored airport.
   */
  ghost predicate Shape(V: set<Node>, h: Node -> int, source: Node, open: set<Node>, closed: set<Node>,
                        g: Scores, f: Scores, pred: Preds)
  {
    && source in V && closed <= V && open <= V
    && Domain(g, V) && Domain(f, V) && Domain(pred, V)
    && g[source] == Fin(0)
    && (forall v {:trigger g[v]} :: v in V ==> f[v] == Key(g, h, v))
    && (forall v {:trigger g[v]} :: v in V ==> (v in open <==> v !in closed && g[v].Fin?))
    && (forall x {:trigger g[x]} :: x in closed ==> g[x].Fin?)
    && (source !in closed ==> closed == {} && forall v {:trigger g[v]} :: v in V && v != source ==> g[v] == Inf)
  }

  /** The main loop's invariant, for the weights `w` of the graph over the airports `V`. */
  ghost predicate Inv(w: Weights, V: set<Node>, h: Node -> int, source: Node, open: set<Node>, closed: set<Node>,
                      g: Scores, f: Scores, pred: Preds, rank: map<Node, nat>)
  {
    && Closed(w, V)
    && Shape(V, h, source, open, closed, g, f, pred)
    && PredOk(w, V, closed, g, pred, rank, source) && RankFacts(V, closed, rank)
    && Relaxed(w, closed, V, g)
    && (Consistent(w, h) ==> Settled(w, source, closed, g))
  }

  /** The initial estimates: `h(source)` at the source, `Infinity` elsewhere. */
  function InitEstimates(V: set<Node>, h: Node -> int, source: Node): (f: Scores)
    ensures Domain(f, V)
    ensures forall v {:trigger f[v]} :: v in V ==> f[v] == Key(InitScores(V, source), h, v)
  {
    map v | v in V :: if v == source then Fin(h(source)) else Inf
  }

  lemma InvInit(graph: AdjList, V: set<Node>, h: Node -> int, source: Node)
    requires source in V
    ensures Inv(LegWeights(graph, V), V, h, source, {source}, {}, InitScores(V, source), InitEstimates(V, h, source),
                map v | v in V :: None, map v | v in V :: |V|)
  {
    WeightsClosed(graph, V);
    InitPredOk(LegWeights(graph, V), V, source);
  }

  /** The connections of `u` to airports are exactly its edges in the weight matrix, at their lightest. */
  lemma RowEdges(graph: AdjList, V: set<Node>, u: Node)
    requires u in V
    ensures forall v {:trigger IsEdge(LegWeights(graph, V), u, v)} :: v in V ==>
      (Lightest(Row(graph, u), v).Some? <==> IsEdge(LegWeights(graph, V), u, v))
    ensures forall v {:trigger IsEdge(LegWeights(graph, V), u, v)} :: IsEdge(LegWeights(graph, V), u, v) ==>
      Lightest(Row(graph, u), v) == Some(LegWeights(graph, V)[u][v])
  {
  }

  /** The scoring, read as the shared step of the `g` table and the predecessors. */
  lemma ExpandStep(graph: AdjList, V: set<Node>, h: Node -> int, source: Node, open: set<Node>, closed: set<Node>,
                   g: Scores, f: Scores, pred: Preds, u: Node, open': set<Node>, g': Scores, f': Scores, pred': Preds)
    requires Shape(V, h, source, open, closed, g, f, pred) && u in open
    requires ScoredBy(Row(graph, u), V, h, closed + {u}, u, open - {u}, g, f, pred, open', g', f', pred')
    ensures StepFrom(LegWeights(graph, V), V, closed + {u}, g, pred, u, g', pred')
    ensures Lowered(LegWeights(graph, V), V, closed, g, u, g')
  {
    var w := LegWeights(graph, V);
    RowEdges(graph, V, u);
    forall v | v in V
      ensures || (g'[v] == g[v] && Pred(pred', v) == Pred(pred, v))
              || (v !in closed + {u} && IsEdge(w, u, v) && g'[v] == AddW(g[u], w[u][v]) && Pred(pred', v) == Some(u))
      ensures Le(g'[v], g[v]) && (v in closed || v == u ==> g'[v] == g[v])
      ensures v !in closed && v != u && IsEdge(w, u, v) ==> Le(g'[v], AddW(g[u], w[u][v]))
    {
      assert Entry(Row(graph, u), h, closed + {u}, u, g, f, pred, g', f', pred', v);
    }
  }

  /** The scoring keeps the table shapes. */
  lemma ShapeStep(graph: AdjList, V: set<Node>, h: Node -> int, source: Node, open: set<Node>, closed: set<Node>,
                  g: Scores, f: Scores, pred: Preds, u: Node, open': set<Node>, g': Scores, f': Scores, pred': Preds)
    requires Shape(V, h, source, open, closed, g, f, pred) && u in open
    requires ScoredBy(Row(graph, u), V, h, closed + {u}, u, open - {u}, g, f, pred, open', g', f', pred')
    ensures Shape(V, h, source, open', closed + {u}, g', f', pred')
  {
    assert source in closed + {u};
    forall v | v in V
      ensures f'[v] == Key(g', h, v)
      ensures v in open' <==> v !in closed + {u} && g'[v].Fin?
      ensures v in closed + {u} ==> g'[v] == g[v]
    {
      assert Entry(Row(graph, u), h, closed + {u}, u, g, f, pred, g', f', pred', v);
    }
  }

  /** The selected open airport has the least key of all airports outside the closed set. */
  lemma LeastOutsideClosed(V: set<Node>, h: Node -> int, source: Node, open: set<Node>, closed: set<Node>,
                           g: Scores, f: Scores, pred: Preds, u: Node)
    requires Shape(V, h, source, open, closed, g, f, pred)
    requires u in open && forall v :: v in open ==> Le(Score(f, u), Score(f, v))
    ensures forall y :: y in V && y !in closed ==> Le(Key(g, h, u), Key(g, h, y))
  {
    forall y | y in V && y !in closed ensures Le(Key(g, h, u), Key(g, h, y)) {
      assert f[y] == Key(g, h, y) && f[u] == Key(g, h, u);
    }
  }

  /** Closing the selected airport and scoring its connections keeps the invariant. */
  lemma InvStep(graph: AdjList, V: set<Node>, h: Node -> int, source: Node, open: set<Node>, closed: set<Node>,
                g: Scores, f: Scores, pred: Preds, rank: map<Node, nat>, u: Node,
                open': set<Node>, g': Scores, f': Scores, pred': Preds)
    requires Inv(LegWeights(graph, V), V, h, source, open, closed, g, f, pred, rank)
    requires u in open && forall v :: v in open ==> Le(Score(f, u), Score(f, v))
    requires ScoredBy(Row(graph, u), V, h, closed + {u}, u, open - {u}, g, f, pred, open', g', f', pred')
    ensures Inv(LegWeights(graph, V), V, h, source, open', closed + {u}, g', f', pred', rank[u := |closed|])
  {
    var w := LegWeights(graph, V);
    ExpandStep(graph, V, h, source, open, closed, g, f, pred, u, open', g', f', pred');
    ShapeStep(graph, V, h, source, open, closed, g, f, pred, u, open', g', f', pred');
    PredOkStep(w, V, closed, g, pred, rank, source, u, g', pred');
    RelaxedStep(w, V, closed, g, u, g');
    if Consistent(w, h) {
      LeastOutsideClosed(V, h, source, open, closed, g, f, pred, u);
      SelectedIsSettled(w, h, V, closed, g, source, u);
      SettledStep(w, V, source, closed, g, u, g');
    }
  }

  /**
   * `openSet.delete(current); closedSet.add(current)` and the scoring of
   * its connections.
   */
  method Expand(graph: AdjList, V: set<Node>, h: Node -> int, ghost source: Node, open: set<Node>, closed: set<Node>,
                g: Scores, f: Scores, pred: Preds, ghost rank: map<Node, nat>, u: Node)
    returns (open': set<Node>, closed': set<Node>, g': Scores, f': Scores, pred': Preds, ghost rank': map<Node, nat>)
    requires TargetsInside(graph, V)
    requires Inv(LegWeights(graph, V), V, h, source, open, closed, g, f, pred, rank)
    requires u in open && forall v :: v in open ==> Le(Score(f, u), Score(f, v))
    ensures Inv(LegWeights(graph, V), V, h, source, open', closed', g', f', pred', rank')
    ensures closed' == closed + {u} && |V - closed'| < |V - closed|
  {
    UtilsAStar.FewerOutside(V, closed, u);
    open', closed' := open - {u}, closed + {u};
    open', g', f', pred' := ScoreRow(Row(graph, u), V, h, closed', u, open', g, f, pred);
    InvStep(graph, V, h, source, open, closed, g, f, pred, rank, u, open', g', f', pred');
    rank' := rank[u := |closed|];
  }

  /** Selecting the destination: the chain is a path of the reported distance, optimal for a consistent heuristic. */
  lemma Found(w: Weights, V: set<Node>, h: Node -> int, source: Node, destination: Node, open: set<Node>, closed: set<Node>,
              g: Scores, f: Scores, pred: Preds, rank: map<Node, nat>, path: seq<Node>)
    requires Inv(w, V, h, source, open, closed, g, f, pred, rank)
    requires destination in open && forall v :: v in open ==> Le(Score(f, destination), Score(f, v))
    requires IsChain(pred, path, destination)
    ensures g[destination].Fin?
    ensures IsPath(w, path, source, destination) && g[destination] == Fin(PathWeight(w, path))
    ensures Consistent(w, h) ==> IsShortest(w, source, destination, g[destination])
    ensures source == destination ==> path == [source] && g[destination] == Fin(0)
  {
    ChainIsPath(w, V, closed, g, pred, rank, source, path, destination);
    if Consistent(w, h) {
      LeastOutsideClosed(V, h, source, open, closed, g, f, pred, destination);
      SelectedIsSettled(w, h, V, closed, g, source, destination);
    }
    if source == destination {
      SingleChain(pred, path, destination);
    }
  }

  /** An empty open set leaves every airport outside the closed set at `Infinity`: the destination cannot be reached. */
  lemma Exhausted(w: Weights, V: set<Node>, h: Node -> int, source: Node, destination: Node, closed: set<Node>,
                  g: Scores, f: Scores, pred: Preds, rank: map<Node, nat>)
    requires Inv(w, V, h, source, {}, closed, g, f, pred, rank) && destination !in closed
    ensures !Reachable(w, source, destination)
  {
    if destination in V {
      AllInfUnreachable(w, V, closed, g, source, destination);
    } else {
      forall p ensures !IsPath(w, p, source, destination) {
        if IsPath(w, p, source, destination) {
          PathInside(w, V, p, source, destination);
        }
      }
    }
  }

  /** How one round of the main loop ends. */
  datatype Outcome = Arrived(route: Route) | Continued

  /**
   * One round of `while (openSet.size > 0)`: select an open airport of
   * least `f` (every open airport is scored, so there is one), answer if it
   * is the destination, expand it otherwise.
   */
  method Visit(graph: AdjList, V: set<Node>, h: Node -> int, source: Node, destination: Node,
               open: set<Node>, closed: set<Node>, g: Scores, f: Scores, pred: Preds, ghost rank: map<Node, nat>)
    returns (outcome: Outcome, open': set<Node>, closed': set<Node>, g': Scores, f': Scores, pred': Preds, ghost rank': map<Node, nat>)
    requires TargetsInside(graph, V) && open != {} && destination !in closed
    requires Inv(LegWeights(graph, V), V, h, source, open, closed, g, f, pred, rank)
    ensures outcome.Continued? ==> Inv(LegWeights(graph, V), V, h, source, open', closed', g', f', pred', rank')
    ensures outcome.Continued? ==> destination !in closed' && |V - closed'| < |V - closed|
    ensures outcome.Arrived? ==>
      && outcome.route.algorithm == "astar"
      && IsPath(LegWeights(graph, V), outcome.route.path, source, destination)
      && PathWeight(LegWeights(graph, V), outcome.route.path) == outcome.route.distance
      && outcome.route.duration == Minutes(outcome.route.distance)
      && (Consistent(LegWeights(graph, V), h) ==> IsShortest(LegWeights(graph, V), source, destination, Fin(outcome.route.distance)))
      && (source == destination ==> outcome.route == Route("astar", [source], 0, Minutes(0)))
  {
    var current, minFScore := SelectMin(open, f);
    var u := current.value;
    if u == destination {
      RankAcyclic(LegWeights(graph, V), V, closed, g, pred, rank, source);
      var path := Reconstruct(pred, V, destination);
      Found(LegWeights(graph, V), V, h, source, destination, open, closed, g, f, pred, rank, path);
      var distance := g[destination].v;
      return Arrived(Route("astar", path, distance, Minutes(distance))), open, closed, g, f, pred, rank;
    }
    open', closed', g', f', pred', rank' := Expand(graph, V, h, source, open, closed, g, f, pred, rank, u);
    outcome := Continued;
  }

  /**
   * A stopover off the airport list: with `A` connected to an unlisted `X`
   * and `X` to `B`, the search reaches `B` through `X` at distance 2, while
   * the listed airports alone have no leg from `A` at all.
   */
  lemma UnlistedStopover()
    ensures var a, x, b := Code("A"), Code("X"), Code("B");
      var graph: AdjList := map[a := [Conn(x, 1)], x := [Conn(b, 1)]];
      && x !in Codes([a, b])
      && IsPath(LegWeights(graph, SearchNodes(graph, [a, b])), [a, x, b], a, b)
      && PathWeight(LegWeights(graph, SearchNodes(graph, [a, b])), [a, x, b]) == 2
      && !IsEdge(LegWeights(graph, Codes([a, b])), a, b)
  {
    var a, x, b := Code("A"), Code("X"), Code("B");
    assert a != x && a != b && x != b by {
      assert "A"[0] != "X"[0] && "A"[0] != "B"[0] && "X"[0] != "B"[0];
    }
    var graph: AdjList := map[a := [Conn(x, 1)], x := [Conn(b, 1)]];
    assert graph[a][0].to == x;
    var V := SearchNodes(graph, [a, b]);
    assert x in V && a in V && b in V;
    var w := LegWeights(graph, V);
    assert Lightest(graph[a], x) == Some(1);
    assert Lightest(graph[x], b) == Some(1);
    assert IsEdge(w, a, x) && IsEdge(w, x, b) && w[a][x] == 1 && w[x][b] == 1;
    assert [a, x, b][1..] == [x, b];
    assert PathWeight(w, [x, b]) == 1;
    assert Lightest(graph[a], b) == None;
  }

  /**
   * The JavaScript A*, for a source in the airport list, on the connections
   * among the listed airports and the connections' targets: an unlisted
   * target is opened and scored (with heuristic 0) like any other, so a
   * route may pass through it. It succeeds exactly when the destination is
   * reachable, with a path whose weight is the reported distance, a shortest
   * one when the heuristic is consistent, and `duration = distance / 10`;
   * otherwise it throws "No path found".
   */
  method AStar(graph: AdjList, airports: seq<Node>, source: Node, destination: Node, h: Node -> int) returns (r: Result<Route>)
    requires source in airports
    ensures r.Success? <==> Reachable(LegWeights(graph, SearchNodes(graph, airports)), source, destination)
    ensures r.Failure? ==> r.error == NoPathFrom(source, destination)
    ensures r.Success? ==>
      && r.value.algorithm == "astar"
      && IsPath(LegWeights(graph, SearchNodes(graph, airports)), r.value.path, source, destination)
      && PathWeight(LegWeights(graph, SearchNodes(graph, airports)), r.value.path) == r.value.distance
      && r.value.duration == Minutes(r.value.distance)
    ensures r.Success? && Consistent(LegWeights(graph, SearchNodes(graph, airports)), h) ==>
      IsShortest(LegWeights(graph, SearchNodes(graph, airports)), source, destination, Fin(r.value.distance))
    ensures source == destination ==> r == Success(Route("astar", [source], 0, Minutes(0)))
  {
    var V := SearchNodes(graph, airports);
    var open := {source};
    var closed: set<Node> := {};
    var g := InitScores(V, source);
    var f := InitEstimates(V, h, source);
    var pred: Preds := map v | v in V :: None;
    ghost var rank: map<Node, nat> := map v | v in V :: |V|;
    InvInit(graph, V, h, source);

    while |open| > 0
      invariant Inv(LegWeights(graph, V), V, h, source, open, closed, g, f, pred, rank)
      invariant destination !in closed
      invariant source == destination ==> open == {source} && closed == {}
      decreases |V - closed|
    {
      var outcome;
      outcome, open, closed, g, f, pred, rank := Visit(graph, V, h, source, destination, open, closed, g, f, pred, rank);
      if outcome.Arrived? {
        return Success(outcome.route);
      }
    }
    Exhausted(LegWeights(graph, V), V, h, source, destination, closed, g, f, pred, rank);
    r := Failure(NoPathFrom(source, destination));
  }
}
