/**
 * `aStarSearch(graph, source, destination, airportPositions)` of the
 * TypeScript utilities. The open set holds the scored airports still to
 * expand, the closed set the expanded ones; `gScore` is the distance found
 * so far, `fScore` adds the heuristic estimate towards the destination.
 *
 * The heuristic is the floating-point straight-line distance between the
 * airports' positions; here it is the parameter `h`, where `h(v)` stands
 * for `heuristic(v, destination)`.
 */
module UtilsAStar {
  import opened Paths
  import opened Frontier
  import opened TsGraph

  /** An airport position (`{ lat, lng }`). */
  datatype Position = Position(lat: real, lng: real)

  /**
   * `heuristic(from, to)`: 0 when either airport has no position, otherwise
   * the straight-line measure `straight` of the two positions (the source
   * scales a Euclidean distance, which is floating point).
   */
  function Heuristic(positions: map<Node, Position>, straight: (Position, Position) -> nat, from: Node, to: Node): (r: int)
    ensures r >= 0
    ensures from !in positions || to !in positions ==> r == 0
    ensures from in positions && to in positions ==> r == straight(positions[from], positions[to])
  {
    if from !in positions || to !in positions then 0 else straight(positions[from], positions[to])
  }

  /**
   * Whether the inner loop rescores `v` from `u`: an airport outside the
   * closed set that is not yet open (it is added unconditionally), or an
   * open one whose tentative score is strictly smaller
   * (`tentativeGScore >= gScore[neighbor]` skips it).
   */
  predicate Improves(graph: Graph, closed: set<Node>, open: set<Node>, g: Scores, u: Node, v: Node)
    requires u in graph && u in g && v in g
  {
    v in graph[u] && v !in closed && (v !in open || Lt(AddW(g[u], graph[u][v].distance), g[v]))
  }

  /**
   * The legs from `u` to the airports of `legs` have been handled: a
   * rescored airport takes the tentative distance and duration, `u` as its
   * predecessor, `f = g + h`, and joins the open set; every other entry is
   * as before.
   */
  ghost predicate RelaxedFrom(graph: Graph, h: Node -> int, closed: set<Node>, u: Node, legs: set<Node>,
                              open: set<Node>, g: Scores, f: Scores, dur: Scores, prev: Preds,
                              open': set<Node>, g': Scores, f': Scores, dur': Scores, prev': Preds)
    requires u in graph && Domain(g, graph.Keys) && Domain(f, graph.Keys) && Domain(dur, graph.Keys) && Domain(prev, graph.Keys)
  {
    Opened(graph, closed, u, legs, open, g, open') && Rescored(graph, h, closed, u, legs, open, g, f, dur, prev, g', f', dur', prev')
  }

  /** The open set gains exactly the rescored airports. */
  ghost predicate Opened(graph: Graph, closed: set<Node>, u: Node, legs: set<Node>, open: set<Node>, g: Scores, open': set<Node>)
    requires u in graph && Domain(g, graph.Keys)
  {
    forall v {:trigger v in open'} :: v in open' <==> v in open || (v in graph && v in legs && Improves(graph, closed, open, g, u, v))
  }

  ghost predicate Rescored(graph: Graph, h: Node -> int, closed: set<Node>, u: Node, legs: set<Node>,
                           open: set<Node>, g: Scores, f: Scores, dur: Scores, prev: Preds,
                           g': Scores, f': Scores, dur': Scores, prev': Preds)
    requires u in graph && Domain(g, graph.Keys) && Domain(f, graph.Keys) && Domain(dur, graph.Keys) && Domain(prev, graph.Keys)
  {
    && Domain(g', graph.Keys) && Domain(f', graph.Keys) && Domain(dur', graph.Keys) && Domain(prev', graph.Keys)
    && forall v {:trigger g'[v]} :: v in graph ==>
      if v in legs && Improves(graph, closed, open, g, u, v) then
        && g'[v] == AddW(g[u], graph[u][v].distance)
        && dur'[v] == AddW(dur[u], graph[u][v].duration)
        && prev'[v] == Some(u)
        && f'[v] == AddW(g'[v], h(v))
      else
        g'[v] == g[v] && f'[v] == f[v] && dur'[v] == dur[v] && prev'[v] == prev[v]
  }

  /** `for (const neighbor in graph[current])`, after `current` has moved to the closed set. */
  method RelaxNeighbors(graph: Graph, h: Node -> int, closed: set<Node>, u: Node,
                        open: set<Node>, g: Scores, f: Scores, dur: Scores, prev: Preds)
    returns (open': set<Node>, g': Scores, f': Scores, dur': Scores, prev': Preds)
    requires u in graph && u in closed
    requires Domain(g, graph.Keys) && Domain(f, graph.Keys) && Domain(dur, graph.Keys) && Domain(prev, graph.Keys) && graph[u].Keys <= graph.Keys
    ensures RelaxedFrom(graph, h, closed, u, graph[u].Keys, open, g, f, dur, prev, open', g', f', dur', prev')
  {
    open', g', f', dur', prev' := open, g, f, dur, prev;
    var rest := graph[u].Keys;
    while rest != {}
      invariant rest <= graph[u].Keys
      invariant RelaxedFrom(graph, h, closed, u, graph[u].Keys - rest, open, g, f, dur, prev, open', g', f', dur', prev')
      decreases rest
    {
      var neighbor :| neighbor in rest;
      open', g', f', dur', prev' := Rescore(graph, h, closed, u, graph[u].Keys - rest, open, g, f, dur, prev,
                                            neighbor, open', g', f', dur', prev');
      HandledOneMore(graph[u].Keys, rest, neighbor);
      rest := rest - {neighbor};
    }
  }

  lemma HandledOneMore(all: set<Node>, rest: set<Node>, x: Node)
    requires x in rest && rest <= all
    ensures all - rest + {x} == all - (rest - {x})
  {
  }

  /** The body of the inner loop, for one neighbour of `u`. */
  method Rescore(graph: Graph, h: Node -> int, closed: set<Node>, u: Node, ghost legs: set<Node>,
                 ghost open: set<Node>, ghost g: Scores, ghost f: Scores, ghost dur: Scores, ghost prev: Preds,
                 neighbor: Node, open': set<Node>, g': Scores, f': Scores, dur': Scores, prev': Preds)
    returns (open'': set<Node>, g'': Scores, f'': Scores, dur'': Scores, prev'': Preds)
    requires u in graph && u in closed
    requires Domain(g, graph.Keys) && Domain(f, graph.Keys) && Domain(dur, graph.Keys) && Domain(prev, graph.Keys) && graph[u].Keys <= graph.Keys
    requires neighbor in graph[u] && neighbor !in legs
    requires RelaxedFrom(graph, h, closed, u, legs, open, g, f, dur, prev, open', g', f', dur', prev')
    ensures RelaxedFrom(graph, h, closed, u, legs + {neighbor}, open, g, f, dur, prev, open'', g'', f'', dur'', prev'')
  {
    open'', g'', f'', dur'', prev'' := open', g', f', dur', prev';
    assert g'[u] == g[u] && dur'[u] == dur[u] && g'[neighbor] == g[neighbor];
    assert neighbor in open' <==> neighbor in open;
    ghost var improves := Improves(graph, closed, open, g, u, neighbor);
    if neighbor !in closed {
      var edge := graph[u][neighbor];
      var tentativeGScore := AddW(g'[u], edge.distance);
      var tentativeDuration := AddW(dur'[u], edge.duration);
      if neighbor !in open' {
        open'' := open' + {neighbor};
        prev'' := prev'[neighbor := Some(u)];
        g'' := g'[neighbor := tentativeGScore];
        dur'' := dur'[neighbor := tentativeDuration];
        f'' := f'[neighbor := AddW(tentativeGScore, h(neighbor))];
      } else if Lt(tentativeGScore, g'[neighbor]) {
        assert open' + {neighbor} == open';
        prev'' := prev'[neighbor := Some(u)];
        g'' := g'[neighbor := tentativeGScore];
        dur'' := dur'[neighbor := tentativeDuration];
        f'' := f'[neighbor := AddW(tentativeGScore, h(neighbor))];
      }
    }
    if improves {
      OpenedAdd(graph, closed, u, legs, open, g, open', neighbor);
      RescoredUpdate(graph, h, closed, u, legs, open, g, f, dur, prev, g', f', dur', prev', neighbor);
    } else {
      OpenedSkip(graph, closed, u, legs, open, g, open', neighbor);
      RescoredSkip(graph, h, closed, u, legs, open, g, f, dur, prev, g', f', dur', prev', neighbor);
    }
  }

  lemma OpenedSkip(graph: Graph, closed: set<Node>, u: Node, legs: set<Node>, open: set<Node>, g: Scores, open': set<Node>, n: Node)
    requires u in graph && Domain(g, graph.Keys) && n in graph
    requires Opened(graph, closed, u, legs, open, g, open') && !Improves(graph, closed, open, g, u, n)
    ensures Opened(graph, closed, u, legs + {n}, open, g, open')
  {
  }

  lemma OpenedAdd(graph: Graph, closed: set<Node>, u: Node, legs: set<Node>, open: set<Node>, g: Scores, open': set<Node>, n: Node)
    requires u in graph && Domain(g, graph.Keys) && n in graph
    requires Opened(graph, closed, u, legs, open, g, open') && Improves(graph, closed, open, g, u, n)
    ensures Opened(graph, closed, u, legs + {n}, open, g, open' + {n})
  {
  }

  lemma RescoredSkip(graph: Graph, h: Node -> int, closed: set<Node>, u: Node, legs: set<Node>,
                     open: set<Node>, g: Scores, f: Scores, dur: Scores, prev: Preds,
                     g': Scores, f': Scores, dur': Scores, prev': Preds, n: Node)
    requires u in graph && Domain(g, graph.Keys) && Domain(f, graph.Keys) && Domain(dur, graph.Keys) && Domain(prev, graph.Keys) && n in graph
    requires Rescored(graph, h, closed, u, legs, open, g, f, dur, prev, g', f', dur', prev')
    requires !Improves(graph, closed, open, g, u, n)
    ensures Rescored(graph, h, closed, u, legs + {n}, open, g, f, dur, prev, g', f', dur', prev')
  {
  }

  lemma RescoredUpdate(graph: Graph, h: Node -> int, closed: set<Node>, u: Node, legs: set<Node>,
                       open: set<Node>, g: Scores, f: Scores, dur: Scores, prev: Preds,
                       g': Scores, f': Scores, dur': Scores, prev': Preds, n: Node)
    requires u in graph && Domain(g, graph.Keys) && Domain(f, graph.Keys) && Domain(dur, graph.Keys) && Domain(prev, graph.Keys) && n in graph && n !in legs
    requires Rescored(graph, h, closed, u, legs, open, g, f, dur, prev, g', f', dur', prev')
    requires Improves(graph, closed, open, g, u, n)
    ensures Rescored(graph, h, closed, u, legs + {n}, open, g, f, dur, prev,
                     g'[n := AddW(g[u], graph[u][n].distance)], f'[n := AddW(AddW(g[u], graph[u][n].distance), h(n))],
                     dur'[n := AddW(dur[u], graph[u][n].duration)], prev'[n := Some(u)])
  {
    var g'', f'', dur'', prev'' := g'[n := AddW(g[u], graph[u][n].distance)], f'[n := AddW(AddW(g[u], graph[u][n].distance), h(n))],
                                   dur'[n := AddW(dur[u], graph[u][n].duration)], prev'[n := Some(u)];
    DomainUpdate(g', graph.Keys, n, AddW(g[u], graph[u][n].distance));
    DomainUpdate(f', graph.Keys, n, AddW(AddW(g[u], graph[u][n].distance), h(n)));
    DomainUpdate(dur', graph.Keys, n, AddW(dur[u], graph[u][n].duration));
    DomainUpdate(prev', graph.Keys, n, Some(u));
    forall v | v in graph ensures
      if v in legs + {n} && Improves(graph, closed, open, g, u, v) then
        && g''[v] == AddW(g[u], graph[u][v].distance)
        && dur''[v] == AddW(dur[u], graph[u][v].duration)
        && prev''[v] == Some(u)
        && f''[v] == AddW(g''[v], h(v))
      else
        g''[v] == g[v] && f''[v] == f[v] && dur''[v] == dur[v] && prev''[v] == prev[v]
    {
      if v != n {
        assert g''[v] == g'[v] && f''[v] == f'[v] && dur''[v] == dur'[v] && prev''[v] == prev'[v];
      }
    }
  }

  /**
   * The table shapes: `f = g + h` everywhere, the open set is exactly the
   * scored airports outside the closed set, and closed airports are scored.
   * A source outside the graph stays the lone, unscored open entry.
   */
  ghost predicate Shape(V: set<Node>, h: Node -> int, source: Node, destination: Node, open: set<Node>, closed: set<Node>,
                        g: Scores, f: Scores, dur: Scores, prev: Preds)
  {
    && closed <= V && destination !in closed
    && Domain(g, V) && Domain(f, V) && Domain(dur, V) && Domain(prev, V)
    && Tables(V, h, closed, g, f, dur)
    && OpenSet(V, source, open, closed, g)
    && (source !in V ==> open == {source} && closed == {} && source !in f && forall v {:trigger g[v]} :: v in V ==> g[v] == Inf && prev[v] == None)
  }

  /** `f = g + h`, a duration is finite with its distance, and closed airports are scored. */
  ghost predicate Tables(V: set<Node>, h: Node -> int, closed: set<Node>, g: Scores, f: Scores, dur: Scores)
    requires V <= g.Keys && V <= f.Keys && V <= dur.Keys && closed <= V
  {
    && (forall v {:trigger g[v]} :: v in V ==> (g[v].Fin? <==> dur[v].Fin?) && f[v] == Key(g, h, v))
    && (forall x {:trigger g[x]} :: x in closed ==> g[x].Fin?)
  }

  /**
   * The open set is exactly the scored airports outside the closed set;
   * before the source is closed it is the only scored airport.
   */
  ghost predicate OpenSet(V: set<Node>, source: Node, open: set<Node>, closed: set<Node>, g: Scores)
    requires V <= g.Keys
  {
    && (source in V ==> g[source] == Fin(0) && open <= V)
    && (source in V ==> forall v {:trigger g[v]} :: v in V ==> (v in open <==> v !in closed && g[v].Fin?))
    && (source in V && source !in closed ==> closed == {} && forall v {:trigger g[v]} :: v in V && v != source ==> g[v] == Inf)
  }

  /** The predecessor chains agree with the distance and the duration tables. */
  ghost predicate Chains(w: Weights, t: Weights, V: set<Node>, source: Node, closed: set<Node>,
                         g: Scores, dur: Scores, prev: Preds, rank: map<Node, nat>)
  {
    source in V ==>
      && PredOk(w, V, closed, g, prev, rank, source)
      && PredOk(t, V, closed, dur, prev, rank, source)
      && RankFacts(V, closed, rank)
  }

  /** Closed airports hold lower bounds (for a consistent heuristic); their legs are relaxed. */
  ghost predicate Bounds(w: Weights, h: Node -> int, V: set<Node>, source: Node, closed: set<Node>, g: Scores) {
    && Relaxed(w, closed, V, g)
    && (Consistent(w, h) ==> Settled(w, source, closed, g))
  }

  /** The main loop's invariant. */
  ghost predicate Inv(graph: Graph, h: Node -> int, source: Node, destination: Node, open: set<Node>, closed: set<Node>,
                      g: Scores, f: Scores, dur: Scores, prev: Preds, rank: map<Node, nat>)
  {
    && WellFormed(graph)
    && Shape(graph.Keys, h, source, destination, open, closed, g, f, dur, prev)
    && Chains(DistanceWeights(graph), DurationWeights(graph), graph.Keys, source, closed, g, dur, prev, rank)
    && Bounds(DistanceWeights(graph), h, graph.Keys, source, closed, g)
  }

  /** The initial estimates: `h(source)` at the source, `Infinity` elsewhere. */
  function InitEstimates(V: set<Node>, h: Node -> int, source: Node): (f: Scores)
    ensures Domain(f, V)
    ensures forall v {:trigger f[v]} :: v in V ==> f[v] == Key(InitScores(V, source), h, v)
  {
    map v | v in V :: if v == source then Fin(h(source)) else Inf
  }

  lemma InvInit(graph: Graph, h: Node -> int, source: Node, destination: Node)
    requires WellFormed(graph)
    ensures Inv(graph, h, source, destination, {source}, {}, InitScores(graph.Keys, source), InitEstimates(graph.Keys, h, source),
                InitScores(graph.Keys, source), map v | v in graph :: None, map v | v in graph :: |graph.Keys|)
  {
    var V := graph.Keys;
    if source in V {
      InitPredOk(DistanceWeights(graph), V, source);
      InitPredOk(DurationWeights(graph), V, source);
    }
  }

  /** The rescoring, read as a change of the distance table and the predecessors. */
  lemma RelaxEffectDistance(graph: Graph, h: Node -> int, open: set<Node>, closed: set<Node>,
                            g: Scores, f: Scores, dur: Scores, prev: Preds, u: Node,
                            open': set<Node>, g': Scores, f': Scores, dur': Scores, prev': Preds)
    requires u in graph && Domain(g, graph.Keys) && Domain(f, graph.Keys) && Domain(dur, graph.Keys) && Domain(prev, graph.Keys)
    requires RelaxedFrom(graph, h, closed + {u}, u, graph[u].Keys, open - {u}, g, f, dur, prev, open', g', f', dur', prev')
    ensures StepFrom(DistanceWeights(graph), graph.Keys, closed + {u}, g, prev, u, g', prev')
  {
  }

  /** The rescoring, read as a change of the duration table and the predecessors. */
  lemma RelaxEffectDuration(graph: Graph, h: Node -> int, open: set<Node>, closed: set<Node>,
                            g: Scores, f: Scores, dur: Scores, prev: Preds, u: Node,
                            open': set<Node>, g': Scores, f': Scores, dur': Scores, prev': Preds)
    requires u in graph && Domain(g, graph.Keys) && Domain(f, graph.Keys) && Domain(dur, graph.Keys) && Domain(prev, graph.Keys)
    requires RelaxedFrom(graph, h, closed + {u}, u, graph[u].Keys, open - {u}, g, f, dur, prev, open', g', f', dur', prev')
    ensures StepFrom(DurationWeights(graph), graph.Keys, closed + {u}, dur, prev, u, dur', prev')
  {
  }

  /**
   * An airport outside both sets is at `Infinity`, so adding it
   * unconditionally is a strict improvement: the rescoring only lowers.
   */
  lemma RelaxEffectNoneRaised(graph: Graph, h: Node -> int, open: set<Node>, closed: set<Node>,
                              g: Scores, f: Scores, dur: Scores, prev: Preds, u: Node,
                              open': set<Node>, g': Scores, f': Scores, dur': Scores, prev': Preds)
    requires u in graph && Domain(g, graph.Keys) && Domain(f, graph.Keys) && Domain(dur, graph.Keys) && Domain(prev, graph.Keys) && u !in closed && g[u].Fin?
    requires forall v {:trigger g[v]} :: v in graph.Keys && v !in open && v !in closed ==> g[v] == Inf
    requires RelaxedFrom(graph, h, closed + {u}, u, graph[u].Keys, open - {u}, g, f, dur, prev, open', g', f', dur', prev')
    ensures forall v {:trigger g'[v]} :: v in graph.Keys ==> Le(g'[v], g[v]) && (v in closed || v == u ==> g'[v] == g[v])
  {
  }

  lemma RelaxEffectEdges(graph: Graph, h: Node -> int, open: set<Node>, closed: set<Node>,
                         g: Scores, f: Scores, dur: Scores, prev: Preds, u: Node,
                         open': set<Node>, g': Scores, f': Scores, dur': Scores, prev': Preds)
    requires u in graph && Domain(g, graph.Keys) && Domain(f, graph.Keys) && Domain(dur, graph.Keys) && Domain(prev, graph.Keys) && g[u].Fin?
    requires RelaxedFrom(graph, h, closed + {u}, u, graph[u].Keys, open - {u}, g, f, dur, prev, open', g', f', dur', prev')
    ensures forall v {:trigger IsEdge(DistanceWeights(graph), u, v)} ::
      v in graph.Keys && v !in closed && v != u && IsEdge(DistanceWeights(graph), u, v) ==>
        Le(g'[v], AddW(g[u], DistanceWeights(graph)[u][v]))
  {
    var w := DistanceWeights(graph);
    forall v | v in graph.Keys && v !in closed && v != u && IsEdge(w, u, v)
      ensures Le(g'[v], AddW(g[u], w[u][v]))
    {
      assert v in graph[u] && w[u][v] == graph[u][v].distance;
      assert g'[v] == g'[v];
    }
  }

  lemma RelaxEffectLowered(graph: Graph, h: Node -> int, open: set<Node>, closed: set<Node>,
                           g: Scores, f: Scores, dur: Scores, prev: Preds, u: Node,
                           open': set<Node>, g': Scores, f': Scores, dur': Scores, prev': Preds)
    requires u in graph && Domain(g, graph.Keys) && Domain(f, graph.Keys) && Domain(dur, graph.Keys) && Domain(prev, graph.Keys) && u !in closed && g[u].Fin?
    requires forall v {:trigger g[v]} :: v in graph.Keys && v !in open && v !in closed ==> g[v] == Inf
    requires RelaxedFrom(graph, h, closed + {u}, u, graph[u].Keys, open - {u}, g, f, dur, prev, open', g', f', dur', prev')
    ensures Lowered(DistanceWeights(graph), graph.Keys, closed, g, u, g')
  {
    RelaxEffectNoneRaised(graph, h, open, closed, g, f, dur, prev, u, open', g', f', dur', prev');
    RelaxEffectEdges(graph, h, open, closed, g, f, dur, prev, u, open', g', f', dur', prev');
  }

  lemma ShapeStep(graph: Graph, h: Node -> int, source: Node, destination: Node, open: set<Node>, closed: set<Node>,
                  g: Scores, f: Scores, dur: Scores, prev: Preds, u: Node,
                  open': set<Node>, g': Scores, f': Scores, dur': Scores, prev': Preds)
    requires WellFormed(graph) && Shape(graph.Keys, h, source, destination, open, closed, g, f, dur, prev)
    requires u in graph && u in open && u != destination && g[u].Fin?
    requires RelaxedFrom(graph, h, closed + {u}, u, graph[u].Keys, open - {u}, g, f, dur, prev, open', g', f', dur', prev')
    ensures Shape(graph.Keys, h, source, destination, open', closed + {u}, g', f', dur', prev')
  {
    assert source in graph;
    ShapeTables(graph, h, closed, u, open - {u}, g, f, dur, prev, g', f', dur', prev');
    ShapeOpen(graph, h, source, closed, u, open, g, f, dur, prev, open', g', f', dur', prev');
  }

  lemma ShapeTables(graph: Graph, h: Node -> int, closed: set<Node>, u: Node, open: set<Node>,
                    g: Scores, f: Scores, dur: Scores, prev: Preds, g': Scores, f': Scores, dur': Scores, prev': Preds)
    requires u in graph && Domain(g, graph.Keys) && Domain(f, graph.Keys) && Domain(dur, graph.Keys) && Domain(prev, graph.Keys) && closed <= graph.Keys
    requires Tables(graph.Keys, h, closed, g, f, dur) && g[u].Fin?
    requires Rescored(graph, h, closed + {u}, u, graph[u].Keys, open, g, f, dur, prev, g', f', dur', prev')
    ensures Tables(graph.Keys, h, closed + {u}, g', f', dur')
  {
    forall v | v in graph.Keys ensures (g'[v].Fin? <==> dur'[v].Fin?) && f'[v] == Key(g', h, v) {
      if v in graph[u].Keys && Improves(graph, closed + {u}, open, g, u, v) {
      } else {
        assert g'[v] == g[v] && f'[v] == f[v] && dur'[v] == dur[v];
      }
    }
  }

  lemma ShapeOpen(graph: Graph, h: Node -> int, source: Node, closed: set<Node>, u: Node, open: set<Node>,
                  g: Scores, f: Scores, dur: Scores, prev: Preds,
                  open': set<Node>, g': Scores, f': Scores, dur': Scores, prev': Preds)
    requires WellFormed(graph) && Domain(g, graph.Keys) && Domain(f, graph.Keys) && Domain(dur, graph.Keys) && Domain(prev, graph.Keys) && closed <= graph.Keys
    requires source in graph && OpenSet(graph.Keys, source, open, closed, g)
    requires u in graph && u in open && g[u].Fin?
    requires RelaxedFrom(graph, h, closed + {u}, u, graph[u].Keys, open - {u}, g, f, dur, prev, open', g', f', dur', prev')
    ensures OpenSet(graph.Keys, source, open', closed + {u}, g')
  {
    assert source in closed + {u};
    OpenAfter(graph, h, source, closed, u, open, g, f, dur, prev, open', g', f', dur', prev');
  }

  lemma OpenAfter(graph: Graph, h: Node -> int, source: Node, closed: set<Node>, u: Node, open: set<Node>,
                  g: Scores, f: Scores, dur: Scores, prev: Preds,
                  open': set<Node>, g': Scores, f': Scores, dur': Scores, prev': Preds)
    requires Domain(g, graph.Keys) && Domain(f, graph.Keys) && Domain(dur, graph.Keys) && Domain(prev, graph.Keys)
    requires source in graph && OpenSet(graph.Keys, source, open, closed, g)
    requires u in graph && u in open && g[u].Fin?
    requires RelaxedFrom(graph, h, closed + {u}, u, graph[u].Keys, open - {u}, g, f, dur, prev, open', g', f', dur', prev')
    ensures forall v {:trigger g'[v]} :: v in graph.Keys ==> (v in open' <==> v !in closed + {u} && g'[v].Fin?)
  {
    forall v | v in graph.Keys ensures v in open' <==> v !in closed + {u} && g'[v].Fin? {
      if v in graph[u] && Improves(graph, closed + {u}, open - {u}, g, u, v) {
        assert g'[v].Fin? && v in open';
      } else {
        assert g'[v] == g[v];
      }
    }
  }

  lemma ChainsStep(w: Weights, t: Weights, V: set<Node>, source: Node, closed: set<Node>,
                   g: Scores, dur: Scores, prev: Preds, rank: map<Node, nat>,
                   u: Node, g': Scores, dur': Scores, prev': Preds)
    requires source in V && Chains(w, t, V, source, closed, g, dur, prev, rank)
    requires u in V && u !in closed && g[u].Fin? && dur[u].Fin? && (u != source ==> source in closed)
    requires V <= g'.Keys && V <= dur'.Keys
    requires StepFrom(w, V, closed + {u}, g, prev, u, g', prev')
    requires StepFrom(t, V, closed + {u}, dur, prev, u, dur', prev')
    ensures Chains(w, t, V, source, closed + {u}, g', dur', prev', rank[u := |closed|])
  {
    PredOkStep(w, V, closed, g, prev, rank, source, u, g', prev');
    PredOkStep(t, V, closed, dur, prev, rank, source, u, dur', prev');
  }

  lemma BoundsStep(w: Weights, h: Node -> int, V: set<Node>, source: Node, closed: set<Node>, g: Scores, u: Node, g': Scores)
    requires Closed(w, V) && V <= g.Keys && closed <= V && source in V && g[source] == Fin(0)
    requires Bounds(w, h, V, source, closed, g)
    requires u in V && u !in closed
    requires forall y :: y in V && y !in closed ==> Le(Key(g, h, u), Key(g, h, y))
    requires V <= g'.Keys && Lowered(w, V, closed, g, u, g')
    ensures Bounds(w, h, V, source, closed + {u}, g')
  {
    if Consistent(w, h) {
      SelectedIsSettled(w, h, V, closed, g, source, u);
      SettledStep(w, V, source, closed, g, u, g');
    }
    RelaxedStep(w, V, closed, g, u, g');
  }

  /** The selected open airport has the least `f` of all airports outside the closed set. */
  lemma LeastOutsideClosed(V: set<Node>, h: Node -> int, source: Node, destination: Node, open: set<Node>, closed: set<Node>,
                           g: Scores, f: Scores, dur: Scores, prev: Preds, u: Node)
    requires Shape(V, h, source, destination, open, closed, g, f, dur, prev) && source in V
    requires u in open && forall v :: v in open ==> Le(Score(f, u), Score(f, v))
    ensures forall y :: y in V && y !in closed ==> Le(Key(g, h, u), Key(g, h, y))
  {
    forall y | y in V && y !in closed ensures Le(Key(g, h, u), Key(g, h, y)) {
      assert f[y] == Key(g, h, y) && f[u] == Key(g, h, u);
    }
  }

  /** Expanding the selected airport keeps the invariant. */
  lemma InvStep(graph: Graph, h: Node -> int, source: Node, destination: Node, open: set<Node>, closed: set<Node>,
                g: Scores, f: Scores, dur: Scores, prev: Preds, rank: map<Node, nat>, u: Node,
                open': set<Node>, g': Scores, f': Scores, dur': Scores, prev': Preds)
    requires Inv(graph, h, source, destination, open, closed, g, f, dur, prev, rank)
    requires u in open && u != destination && Score(f, u).Fin?
    requires forall v :: v in open ==> Le(Score(f, u), Score(f, v))
    requires RelaxedFrom(graph, h, closed + {u}, u, graph[u].Keys, open - {u}, g, f, dur, prev, open', g', f', dur', prev')
    ensures Inv(graph, h, source, destination, open', closed + {u}, g', f', dur', prev', rank[u := |closed|])
  {
    InvStepShape(graph, h, source, destination, open, closed, g, f, dur, prev, rank, u, open', g', f', dur', prev');
    InvStepChains(graph, h, source, destination, open, closed, g, f, dur, prev, rank, u, open', g', f', dur', prev');
    InvStepBounds(graph, h, source, destination, open, closed, g, f, dur, prev, rank, u, open', g', f', dur', prev');
  }

  lemma InvStepShape(graph: Graph, h: Node -> int, source: Node, destination: Node, open: set<Node>, closed: set<Node>,
                g: Scores, f: Scores, dur: Scores, prev: Preds, rank: map<Node, nat>, u: Node,
                open': set<Node>, g': Scores, f': Scores, dur': Scores, prev': Preds)
    requires Inv(graph, h, source, destination, open, closed, g, f, dur, prev, rank)
    requires u in open && u != destination && Score(f, u).Fin?
    requires forall v :: v in open ==> Le(Score(f, u), Score(f, v))
    requires RelaxedFrom(graph, h, closed + {u}, u, graph[u].Keys, open - {u}, g, f, dur, prev, open', g', f', dur', prev')
    ensures Shape(graph.Keys, h, source, destination, open', closed + {u}, g', f', dur', prev')
  {
    assert u in graph && g[u].Fin?;
    ShapeStep(graph, h, source, destination, open, closed, g, f, dur, prev, u, open', g', f', dur', prev');
  }

  lemma InvStepChains(graph: Graph, h: Node -> int, source: Node, destination: Node, open: set<Node>, closed: set<Node>,
                g: Scores, f: Scores, dur: Scores, prev: Preds, rank: map<Node, nat>, u: Node,
                open': set<Node>, g': Scores, f': Scores, dur': Scores, prev': Preds)
    requires Inv(graph, h, source, destination, open, closed, g, f, dur, prev, rank)
    requires u in open && u != destination && Score(f, u).Fin?
    requires forall v :: v in open ==> Le(Score(f, u), Score(f, v))
    requires RelaxedFrom(graph, h, closed + {u}, u, graph[u].Keys, open - {u}, g, f, dur, prev, open', g', f', dur', prev')
    ensures Chains(DistanceWeights(graph), DurationWeights(graph), graph.Keys, source, closed + {u}, g', dur', prev', rank[u := |closed|])
  {
    var w, t, V := DistanceWeights(graph), DurationWeights(graph), graph.Keys;
    assert source in V && u in V && g[u].Fin?;
    RelaxEffectDistance(graph, h, open, closed, g, f, dur, prev, u, open', g', f', dur', prev');
    RelaxEffectDuration(graph, h, open, closed, g, f, dur, prev, u, open', g', f', dur', prev');
    ChainsStep(w, t, V, source, closed, g, dur, prev, rank, u, g', dur', prev');
  }

  lemma InvStepBounds(graph: Graph, h: Node -> int, source: Node, destination: Node, open: set<Node>, closed: set<Node>,
                g: Scores, f: Scores, dur: Scores, prev: Preds, rank: map<Node, nat>, u: Node,
                open': set<Node>, g': Scores, f': Scores, dur': Scores, prev': Preds)
    requires Inv(graph, h, source, destination, open, closed, g, f, dur, prev, rank)
    requires u in open && u != destination && Score(f, u).Fin?
    requires forall v :: v in open ==> Le(Score(f, u), Score(f, v))
    requires RelaxedFrom(graph, h, closed + {u}, u, graph[u].Keys, open - {u}, g, f, dur, prev, open', g', f', dur', prev')
    ensures Bounds(DistanceWeights(graph), h, graph.Keys, source, closed + {u}, g')
  {
    var w, V := DistanceWeights(graph), graph.Keys;
    assert source in V && u in V && g[u].Fin?;
    WellFormedClosed(graph);
    RelaxEffectLowered(graph, h, open, closed, g, f, dur, prev, u, open', g', f', dur', prev');
    LeastOutsideClosed(V, h, source, destination, open, closed, g, f, dur, prev, u);
    BoundsStep(w, h, V, source, closed, g, u, g');
  }

  /**
   * One pass of the main loop after selection: move `current` from the
   * open to the closed set and rescore its neighbours.
   */
  method Expand(graph: Graph, h: Node -> int, ghost source: Node, ghost destination: Node, open: set<Node>, closed: set<Node>,
                g: Scores, f: Scores, dur: Scores, prev: Preds, ghost rank: map<Node, nat>, u: Node)
    returns (open': set<Node>, closed': set<Node>, g': Scores, f': Scores, dur': Scores, prev': Preds, ghost rank': map<Node, nat>)
    requires Inv(graph, h, source, destination, open, closed, g, f, dur, prev, rank)
    requires u in open && u != destination && Score(f, u).Fin?
    requires forall v :: v in open ==> Le(Score(f, u), Score(f, v))
    ensures Inv(graph, h, source, destination, open', closed', g', f', dur', prev', rank')
    ensures closed' == closed + {u} && |graph.Keys - closed'| < |graph.Keys - closed|
  {
    assert u in graph && u !in closed;
    FewerOutside(graph.Keys, closed, u);
    open', closed' := open - {u}, closed + {u};
    open', g', f', dur', prev' := RelaxNeighbors(graph, h, closed', u, open', g, f, dur, prev);
    InvStep(graph, h, source, destination, open, closed, g, f, dur, prev, rank, u, open', g', f', dur', prev');
    rank' := rank[u := |closed|];
  }

  lemma FewerOutside(V: set<Node>, closed: set<Node>, u: Node)
    requires u in V && u !in closed
    ensures |V - (closed + {u})| < |V - closed|
  {
    assert V - closed == (V - (closed + {u})) + {u};
  }

  /** Selecting the destination: the chain is a path of the reported distance and duration, optimal for a consistent heuristic. */
  lemma Found(graph: Graph, h: Node -> int, source: Node, destination: Node, open: set<Node>, closed: set<Node>,
              g: Scores, f: Scores, dur: Scores, prev: Preds, rank: map<Node, nat>, path: seq<Node>)
    requires Inv(graph, h, source, destination, open, closed, g, f, dur, prev, rank)
    requires destination in open && Score(f, destination).Fin?
    requires forall v :: v in open ==> Le(Score(f, destination), Score(f, v))
    requires IsChain(prev, path, destination)
    ensures g[destination].Fin?
    ensures IsPath(DistanceWeights(graph), path, source, destination)
    ensures g[destination] == Fin(PathWeight(DistanceWeights(graph), path))
    ensures dur[destination] == Fin(PathWeight(DurationWeights(graph), path))
    ensures Consistent(DistanceWeights(graph), h) ==> IsShortest(DistanceWeights(graph), source, destination, g[destination])
  {
    var w, t, V := DistanceWeights(graph), DurationWeights(graph), graph.Keys;
    assert source in V && destination in V;
    ChainIsPath(w, V, closed, g, prev, rank, source, path, destination);
    ChainIsPath(t, V, closed, dur, prev, rank, source, path, destination);
    if Consistent(w, h) {
      WellFormedClosed(graph);
      LeastOutsideClosed(V, h, source, destination, open, closed, g, f, dur, prev, destination);
      SelectedIsSettled(w, h, V, closed, g, source, destination);
    }
  }

  /** An open set without a scored airport: the destination cannot be reached. */
  lemma Exhausted(graph: Graph, h: Node -> int, source: Node, destination: Node, open: set<Node>, closed: set<Node>,
                  g: Scores, f: Scores, dur: Scores, prev: Preds, rank: map<Node, nat>)
    requires Inv(graph, h, source, destination, open, closed, g, f, dur, prev, rank)
    requires forall v :: v in open ==> Score(f, v) == Inf
    requires destination in graph
    ensures !Reachable(DistanceWeights(graph), source, destination)
  {
    var w, V := DistanceWeights(graph), graph.Keys;
    WellFormedClosed(graph);
    if source in V {
      forall y | y in V && y !in closed ensures g[y] == Inf {
      }
      AllInfUnreachable(w, V, closed, g, source, destination);
    } else if Reachable(w, source, destination) {
      var p :| IsPath(w, p, source, destination);
      PathStartsInside(w, V, p, source, destination);
    }
  }

  /** How one pass of the main loop ends. */
  datatype Outcome = Halted | Arrived(result: PathResult) | Continued

  /**
   * One pass of the main loop: select the open airport of least `f`; stop
   * if there is none with a finite score, answer with the reconstructed
   * path if it is the destination, and expand it otherwise.
   */
  method Visit(graph: Graph, h: Node -> int, source: Node, destination: Node, open: set<Node>, closed: set<Node>,
               g: Scores, f: Scores, dur: Scores, prev: Preds, ghost rank: map<Node, nat>)
    returns (outcome: Outcome, open': set<Node>, closed': set<Node>, g': Scores, f': Scores, dur': Scores, prev': Preds,
             ghost rank': map<Node, nat>)
    requires Inv(graph, h, source, destination, open, closed, g, f, dur, prev, rank)
    ensures !outcome.Arrived? ==> Inv(graph, h, source, destination, open', closed', g', f', dur', prev', rank')
    ensures outcome.Continued? ==> |graph.Keys - closed'| < |graph.Keys - closed|
    ensures outcome.Halted? && destination in graph ==> !Reachable(DistanceWeights(graph), source, destination)
    ensures outcome.Arrived? ==>
      && destination in graph && outcome.result.path != []
      && IsPath(DistanceWeights(graph), outcome.result.path, source, destination)
      && outcome.result.distance == Fin(PathWeight(DistanceWeights(graph), outcome.result.path))
      && outcome.result.duration == Fin(PathWeight(DurationWeights(graph), outcome.result.path))
      && (Consistent(DistanceWeights(graph), h) ==> IsShortest(DistanceWeights(graph), source, destination, outcome.result.distance))
    ensures source == destination && source in graph && open == {source} && Score(g, source) == Fin(0)
            && Score(dur, source) == Fin(0) && Pred(prev, source) == None ==>
      outcome == Arrived(PathResult([source], Fin(0), Fin(0)))
  {
    var current, lowestFScore := SelectMin(open, f);
    if current.None? || current.value.code == "" {
      if current.Some? {
        assert false;
      }
      if destination in graph {
        Exhausted(graph, h, source, destination, open, closed, g, f, dur, prev, rank);
      }
      return Halted, open, closed, g, f, dur, prev, rank;
    }
    if current.value == destination {
      ghost var V := graph.Keys;
      assert source in V;
      RankAcyclic(DistanceWeights(graph), V, closed, g, prev, rank, source);
      var path := Reconstruct(prev, V, destination);
      Found(graph, h, source, destination, open, closed, g, f, dur, prev, rank, path);
      if source == destination && Pred(prev, source) == None {
        SingleChain(prev, path, destination);
      }
      return Arrived(PathResult(path, g[destination], dur[destination])), open, closed, g, f, dur, prev, rank;
    }
    open', closed', g', f', dur', prev', rank' := Expand(graph, h, source, destination, open, closed, g, f, dur, prev, rank, current.value);
    outcome := Continued;
  }

  /**
   * The TypeScript A*. A non-empty path leads from the source to the
   * destination with the reported distance and duration as its leg sums,
   * and it is a shortest one when the heuristic is consistent; the empty
   * result `{ path: [], distance: 0, duration: 0 }` comes back exactly when
   * the destination is not an airport of the graph or cannot be reached.
   */
  method AStar(graph: Graph, source: Node, destination: Node, h: Node -> int) returns (r: PathResult)
    requires WellFormed(graph)
    ensures r.path != [] ==>
      && IsPath(DistanceWeights(graph), r.path, source, destination)
      && r.distance == Fin(PathWeight(DistanceWeights(graph), r.path))
      && r.duration == Fin(PathWeight(DurationWeights(graph), r.path))
    ensures r.path != [] && Consistent(DistanceWeights(graph), h) ==>
      IsShortest(DistanceWeights(graph), source, destination, r.distance)
    ensures r.path == [] ==> r.distance == Fin(0) && r.duration == Fin(0)
    ensures r.path == [] <==> destination !in graph || !Reachable(DistanceWeights(graph), source, destination)
    ensures source == destination && source in graph ==> r == PathResult([source], Fin(0), Fin(0))
  {
    var open := {source};
    var closed: set<Node> := {};
    var g := InitScores(graph.Keys, source);
    var f := InitEstimates(graph.Keys, h, source);
    var prev: Preds := map v | v in graph :: None;
    var dur := InitScores(graph.Keys, source);
    ghost var rank: map<Node, nat> := map v | v in graph :: |graph.Keys|;
    InvInit(graph, h, source, destination);

    while |open| > 0
      invariant Inv(graph, h, source, destination, open, closed, g, f, dur, prev, rank)
      // From an airport to itself the first selection is that airport, so nothing is expanded.
      invariant source == destination && source in graph ==>
        open == {source} && Score(g, source) == Fin(0) && Score(dur, source) == Fin(0) && Pred(prev, source) == None
      decreases |graph.Keys - closed|
    {
      var outcome;
      outcome, open, closed, g, f, dur, prev, rank := Visit(graph, h, source, destination, open, closed, g, f, dur, prev, rank);
      match outcome
      case Arrived(result) =>
        return result;
      case Halted =>
        break;
      case Continued =>
    }

    if destination in graph && |open| == 0 {
      Exhausted(graph, h, source, destination, open, closed, g, f, dur, prev, rank);
    }
    return PathResult([], Fin(0), Fin(0));
  }
}
