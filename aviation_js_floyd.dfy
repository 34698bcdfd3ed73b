/**
 * `floydWarshall(graph, start, end)` of `src/api/aviation.js`: all-pairs
 * tables `dist` and `next` keyed by code, filled from the direct legs
 * (`next` left unset on the diagonal and where there is no leg), improved
 * through every node `k` in turn, then a walk along `next` from the start
 * that stops at the end or at the first unset hop.
 *
 * The reasoning is that of the TypeScript Floyd-Warshall, whose duration
 * table is here the distance table itself; next to the tables the model
 * keeps, as ghost state, the walk that each finite entry measures.
 */
module AviationJsFloyd {
  import opened Paths
  import opened AviationJsGraph
  import UtilsFloyd

  type Table<T> = UtilsFloyd.Table<T>

  /** `dist[i][j]` before the main loop: 0 on the diagonal, the leg if there is one, else `Infinity`. */
  function Direct(graph: Weights, i: Node, j: Node): Dist
    requires i in graph
  {
    if i == j then Fin(0) else if j in graph[i] then Fin(graph[i][j]) else Inf
  }

  /** `next[i][j]` before the main loop: `j` where there is a leg, unset elsewhere. */
  function DirectHop(graph: Weights, i: Node, j: Node): Option<Node>
    requires i in graph
  {
    if i != j && j in graph[i] then Some(j) else None
  }

  /** An absent entry of a row reads `undefined`. */
  function Get(row: map<Node, Option<Node>>, j: Node): Option<Node> {
    if j in row then row[j] else None
  }

  /** Entry `j` of row `i` as the initialisation leaves it. */
  ghost predicate InitialEntry(graph: Weights, i: Node, j: Node, distRow: map<Node, Dist>,
                               nextRow: map<Node, Option<Node>>, walksRow: map<Node, seq<Node>>)
    requires i in graph
  {
    && j in distRow && j in walksRow
    && distRow[j] == Direct(graph, i, j)
    && Get(nextRow, j) == DirectHop(graph, i, j)
    && walksRow[j] == (if i == j then [i] else [i, j])
  }

  /** `nodes.forEach(j => ...)` for one row `i` of the initialisation. */
  method InitRow(graph: Weights, nodes: seq<Node>, i: Node)
    returns (distRow: map<Node, Dist>, nextRow: map<Node, Option<Node>>, ghost walksRow: map<Node, seq<Node>>)
    requires i in graph
    ensures forall j :: j in nodes ==> InitialEntry(graph, i, j, distRow, nextRow, walksRow)
  {
    distRow, nextRow, walksRow := map[], map[], map[];
    for b := 0 to |nodes|
      invariant forall c :: 0 <= c < b ==> InitialEntry(graph, i, nodes[c], distRow, nextRow, walksRow)
      invariant forall j :: j in nextRow ==> nextRow[j] == DirectHop(graph, i, j)
    {
      var j := nodes[b];
      if i == j {
        distRow := distRow[j := Fin(0)];
      } else if j in graph[i] {
        distRow := distRow[j := Fin(graph[i][j])];
        nextRow := nextRow[j := Some(j)];
      } else {
        distRow := distRow[j := Inf];
      }
      walksRow := walksRow[j := if i == j then [i] else [i, j]];
    }
  }

  /** The tables before the main loop. */
  ghost predicate Initial(graph: Weights, dist: Table<Dist>, next: Table<Option<Node>>, walks: Table<seq<Node>>) {
    forall i, j {:trigger UtilsFloyd.Cell(dist, i, j, Inf)} :: i in graph && j in graph ==>
      && UtilsFloyd.Cell(dist, i, j, Inf) == Direct(graph, i, j)
      && UtilsFloyd.Cell(next, i, j, None) == DirectHop(graph, i, j)
      && UtilsFloyd.Cell(walks, i, j, []) == (if i == j then [i] else [i, j])
  }

  ghost predicate InitialRow(graph: Weights, nodes: seq<Node>, i: Node, dist: Table<Dist>,
                             next: Table<Option<Node>>, walks: Table<seq<Node>>)
    requires i in graph
  {
    && i in dist && i in next && i in walks
    && forall j :: j in nodes ==> InitialEntry(graph, i, j, dist[i], next[i], walks[i])
  }

  /** Every table has a row for every node. */
  ghost predicate Rows(V: set<Node>, dist: Table<Dist>, next: Table<Option<Node>>, walks: Table<seq<Node>>) {
    UtilsFloyd.Rows(V, dist, dist, next, walks)
  }

  /** Every finite entry is the weight of its recorded walk, whose second node is the entry's hop. */
  ghost predicate Sound(w: Weights, V: set<Node>, dist: Table<Dist>, next: Table<Option<Node>>, walks: Table<seq<Node>>) {
    UtilsFloyd.Sound(w, w, V, dist, dist, next, walks)
  }

  /** An entry at `Infinity` has no hop. */
  ghost predicate NoHop(V: set<Node>, dist: Table<Dist>, next: Table<Option<Node>>) {
    forall i, j {:trigger UtilsFloyd.Cell(dist, i, j, Inf)} :: i in V && j in V && UtilsFloyd.Cell(dist, i, j, Inf) == Inf ==>
      UtilsFloyd.Cell(next, i, j, None) == None
  }

  /** `nodes.forEach(i => ...)`: one row per node. */
  method InitTables(graph: Weights, nodes: seq<Node>)
    returns (dist: Table<Dist>, next: Table<Option<Node>>, ghost walks: Table<seq<Node>>)
    requires forall v :: v in nodes <==> v in graph
    ensures Rows(graph.Keys, dist, next, walks)
    ensures Initial(graph, dist, next, walks)
  {
    dist, next, walks := map[], map[], map[];
    for a := 0 to |nodes|
      invariant forall c :: 0 <= c < a ==> InitialRow(graph, nodes, nodes[c], dist, next, walks)
    {
      var i := nodes[a];
      var distRow, nextRow, walksRow := InitRow(graph, nodes, i);
      ghost var dist0, next0, walks0 := dist, next, walks;
      dist, next, walks := dist[i := distRow], next[i := nextRow], walks[i := walksRow];
      forall c | 0 <= c < a + 1 ensures InitialRow(graph, nodes, nodes[c], dist, next, walks) {
        if nodes[c] != i {
          InitialRowKept(graph, nodes, nodes[c], dist0, next0, walks0, dist, next, walks);
        }
      }
    }
    InitialAll(graph, nodes, dist, next, walks);
  }

  lemma InitialRowKept(graph: Weights, nodes: seq<Node>, x: Node, dist: Table<Dist>, next: Table<Option<Node>>, walks: Table<seq<Node>>,
                       dist': Table<Dist>, next': Table<Option<Node>>, walks': Table<seq<Node>>)
    requires x in graph && InitialRow(graph, nodes, x, dist, next, walks)
    requires x in dist' && x in next' && x in walks'
    requires dist'[x] == dist[x] && next'[x] == next[x] && walks'[x] == walks[x]
    ensures InitialRow(graph, nodes, x, dist', next', walks')
  {
  }

  lemma InitialAll(graph: Weights, nodes: seq<Node>, dist: Table<Dist>, next: Table<Option<Node>>, walks: Table<seq<Node>>)
    requires forall v :: v in nodes <==> v in graph
    requires forall c :: 0 <= c < |nodes| ==> InitialRow(graph, nodes, nodes[c], dist, next, walks)
    ensures Rows(graph.Keys, dist, next, walks)
    ensures Initial(graph, dist, next, walks)
  {
    forall i | i in graph ensures InitialRow(graph, nodes, i, dist, next, walks) {
      var c :| 0 <= c < |nodes| && nodes[c] == i;
    }
    forall i, j | i in graph && j in graph
      ensures UtilsFloyd.Cell(next, i, j, None) == DirectHop(graph, i, j)
    {
      assert InitialEntry(graph, i, j, dist[i], next[i], walks[i]);
    }
  }

  /** Before the main loop the tables are sound, hop-free at `Infinity`, and bound the walks without inner nodes. */
  lemma InitFacts(graph: Weights, dist: Table<Dist>, next: Table<Option<Node>>, walks: Table<seq<Node>>)
    requires NonNegative(Among(graph)) && Initial(graph, dist, next, walks)
    ensures Sound(Among(graph), graph.Keys, dist, next, walks)
    ensures NoHop(graph.Keys, dist, next)
    ensures UtilsFloyd.Bound(Among(graph), graph.Keys, {}, dist)
  {
    var w, V := Among(graph), graph.Keys;
    forall i, j | i in V && j in V ensures UtilsFloyd.Witnessed(w, w, dist, dist, next, walks, i, j) {
      assert UtilsFloyd.Cell(dist, i, j, Inf) == Direct(graph, i, j);
      if i != j && j in graph[i] {
        assert IsEdge(w, i, j);
        assert IsPath(w, [i, j], i, j);
      }
    }
    forall i, j | i in V && j in V ensures UtilsFloyd.Below(w, {}, i, j, UtilsFloyd.Cell(dist, i, j, Inf)) {
      InitBelow(graph, i, j, UtilsFloyd.Cell(dist, i, j, Inf));
    }
  }

  lemma InitBelow(graph: Weights, i: Node, j: Node, d: Dist)
    requires NonNegative(Among(graph)) && i in graph && d == Direct(graph, i, j)
    ensures UtilsFloyd.Below(Among(graph), {}, i, j, d)
  {
    var w := Among(graph);
    forall p | IsPath(w, p, i, j) && UtilsFloyd.Inner(p, {}) ensures Le(d, Fin(PathWeight(w, p))) {
      UtilsFloyd.InnerFirst(p, {});
      if |p| == 2 {
        assert IsEdge(w, p[0], p[1]);
        assert PathWeight(w, p[1..]) == 0;
      }
    }
  }

  // ---------------------------------------------------------------------
  // The three nested loops
  // ---------------------------------------------------------------------

  /**
   * The test at (k, i, j): `dist[i][k] + dist[k][j] < dist[i][j]` stores the
   * sum and copies `next[i][k]` into `next[i][j]`.
   */
  method RelaxCell(ghost w: Weights, ghost V: set<Node>, ghost K: set<Node>, k: Node, i: Node, j: Node,
                   dist: Table<Dist>, next: Table<Option<Node>>, ghost walks: Table<seq<Node>>)
    returns (dist': Table<Dist>, next': Table<Option<Node>>, ghost walks': Table<seq<Node>>)
    requires NonNegative(w) && i in V && j in V && k in V
    requires Rows(V, dist, next, walks) && Sound(w, V, dist, next, walks) && NoHop(V, dist, next)
    requires UtilsFloyd.Bound(w, V, K, dist)
    ensures UtilsFloyd.Cell(dist', i, j, Inf) ==
      Min(UtilsFloyd.Cell(dist, i, j, Inf), Add(UtilsFloyd.Cell(dist, i, k, Inf), UtilsFloyd.Cell(dist, k, j, Inf)))
    ensures UtilsFloyd.Cell(next', i, j, None) ==
      if UtilsFloyd.Cell(dist', i, j, Inf) != UtilsFloyd.Cell(dist, i, j, Inf) then UtilsFloyd.Cell(next, i, k, None)
      else UtilsFloyd.Cell(next, i, j, None)
    ensures forall a, b {:trigger UtilsFloyd.Cell(dist', a, b, Inf)} :: a != i || b != j ==>
      UtilsFloyd.Cell(dist', a, b, Inf) == UtilsFloyd.Cell(dist, a, b, Inf) && UtilsFloyd.Cell(next', a, b, None) == UtilsFloyd.Cell(next, a, b, None)
    ensures Rows(V, dist', next', walks') && Sound(w, V, dist', next', walks') && NoHop(V, dist', next')
    ensures UtilsFloyd.Bound(w, V, K, dist') && UtilsFloyd.Drops(dist, dist')
    ensures UtilsFloyd.Below(w, K + {k}, i, j, UtilsFloyd.Cell(dist', i, j, Inf))
  {
    UtilsFloyd.StepBound(w, K, k, i, j, UtilsFloyd.Cell(dist, i, j, Inf), UtilsFloyd.Cell(dist, i, k, Inf), UtilsFloyd.Cell(dist, k, j, Inf));
    dist', next', walks' := dist, next, walks;
    var through := Add(UtilsFloyd.Cell(dist, i, k, Inf), UtilsFloyd.Cell(dist, k, j, Inf));
    if Lt(through, UtilsFloyd.Cell(dist, i, j, Inf)) {
      assert UtilsFloyd.Witnessed(w, w, dist, dist, next, walks, k, j);
      UtilsFloyd.SoundStore(w, w, V, dist, dist, next, walks, k, i, j);
      UtilsFloyd.DropsStore(dist, i, j, through);
      UtilsFloyd.BoundDrops(w, V, K, dist, UtilsFloyd.Store(dist, i, j, through));
      dist' := UtilsFloyd.Store(dist, i, j, through);
      next' := UtilsFloyd.Store(next, i, j, UtilsFloyd.Cell(next, i, k, None));
      walks' := UtilsFloyd.Store(walks, i, j, UtilsFloyd.Cell(walks, i, k, []) + UtilsFloyd.Cell(walks, k, j, [])[1..]);
    }
  }

  /** `nodes.forEach(j => ...)` for one `k` and one `i`. */
  method RelaxRow(ghost w: Weights, ghost V: set<Node>, ghost K: set<Node>, nodes: seq<Node>, k: Node, i: Node,
                  dist: Table<Dist>, next: Table<Option<Node>>, ghost walks: Table<seq<Node>>)
    returns (dist': Table<Dist>, next': Table<Option<Node>>, ghost walks': Table<seq<Node>>)
    requires NonNegative(w) && (forall v :: v in nodes <==> v in V) && i in V && k in V
    requires Rows(V, dist, next, walks) && Sound(w, V, dist, next, walks) && NoHop(V, dist, next)
    requires UtilsFloyd.Bound(w, V, K, dist)
    ensures Rows(V, dist', next', walks') && Sound(w, V, dist', next', walks') && NoHop(V, dist', next')
    ensures UtilsFloyd.Bound(w, V, K, dist') && UtilsFloyd.Drops(dist, dist')
    ensures forall j :: j in V ==> UtilsFloyd.Below(w, K + {k}, i, j, UtilsFloyd.Cell(dist', i, j, Inf))
  {
    dist', next', walks' := dist, next, walks;
    for b := 0 to |nodes|
      invariant Rows(V, dist', next', walks') && Sound(w, V, dist', next', walks') && NoHop(V, dist', next')
      invariant UtilsFloyd.Bound(w, V, K, dist') && UtilsFloyd.Drops(dist, dist')
      invariant UtilsFloyd.DoneCols(w, K + {k}, nodes, i, b, dist')
    {
      ghost var before := dist';
      dist', next', walks' := RelaxCell(w, V, K, k, i, nodes[b], dist', next', walks');
      UtilsFloyd.DropsTrans(dist, before, dist');
      UtilsFloyd.DoneColsStep(w, K + {k}, nodes, i, b, before, dist');
    }
    UtilsFloyd.DoneColsAll(w, V, K + {k}, nodes, i, dist');
  }

  /** `nodes.forEach(i => ...)` for one `k`: afterwards the tables bound the walks through `K + {k}`. */
  method RelaxRound(ghost w: Weights, ghost V: set<Node>, ghost K: set<Node>, nodes: seq<Node>, k: Node,
                    dist: Table<Dist>, next: Table<Option<Node>>, ghost walks: Table<seq<Node>>)
    returns (dist': Table<Dist>, next': Table<Option<Node>>, ghost walks': Table<seq<Node>>)
    requires NonNegative(w) && (forall v :: v in nodes <==> v in V) && k in V
    requires Rows(V, dist, next, walks) && Sound(w, V, dist, next, walks) && NoHop(V, dist, next)
    requires UtilsFloyd.Bound(w, V, K, dist)
    ensures Rows(V, dist', next', walks') && Sound(w, V, dist', next', walks') && NoHop(V, dist', next')
    ensures UtilsFloyd.Bound(w, V, K + {k}, dist')
  {
    dist', next', walks' := dist, next, walks;
    for a := 0 to |nodes|
      invariant Rows(V, dist', next', walks') && Sound(w, V, dist', next', walks') && NoHop(V, dist', next')
      invariant UtilsFloyd.Bound(w, V, K, dist')
      invariant UtilsFloyd.DoneRows(w, V, K + {k}, nodes, a, dist')
    {
      ghost var before := dist';
      dist', next', walks' := RelaxRow(w, V, K, nodes, k, nodes[a], dist', next', walks');
      UtilsFloyd.DoneRowsStep(w, V, K + {k}, nodes, a, before, dist');
    }
    UtilsFloyd.DoneRowsAll(w, V, K + {k}, nodes, dist');
  }

  /** `nodes.forEach(k => ...)`: afterwards the tables bound every walk between two nodes. */
  method RelaxAll(ghost w: Weights, ghost V: set<Node>, nodes: seq<Node>,
                  dist: Table<Dist>, next: Table<Option<Node>>, ghost walks: Table<seq<Node>>)
    returns (dist': Table<Dist>, next': Table<Option<Node>>, ghost walks': Table<seq<Node>>)
    requires NonNegative(w) && (forall v :: v in nodes <==> v in V)
    requires Rows(V, dist, next, walks) && Sound(w, V, dist, next, walks) && NoHop(V, dist, next)
    requires UtilsFloyd.Bound(w, V, {}, dist)
    ensures Rows(V, dist', next', walks') && Sound(w, V, dist', next', walks') && NoHop(V, dist', next')
    ensures UtilsFloyd.Bound(w, V, V, dist')
  {
    dist', next', walks' := dist, next, walks;
    ghost var K: set<Node> := {};
    for a := 0 to |nodes|
      invariant Rows(V, dist', next', walks') && Sound(w, V, dist', next', walks') && NoHop(V, dist', next')
      invariant UtilsFloyd.Bound(w, V, K, dist')
      invariant forall c :: 0 <= c < a ==> nodes[c] in K
    {
      dist', next', walks' := RelaxRound(w, V, K, nodes, nodes[a], dist', next', walks');
      K := K + {nodes[a]};
    }
    UtilsFloyd.BoundShrink(w, V, K, V, dist');
  }

  // ---------------------------------------------------------------------
  // Reading the path
  // ---------------------------------------------------------------------

  /**
   * `path = [start]`, then `current = next[current][end]` until the end,
   * stopping at the first unset hop. With positive legs each hop brings the
   * distance left strictly down, so a finite entry is walked to the end
   * along a shortest path; an entry at `Infinity` has no first hop.
   */
  method FollowNext(ghost w: Weights, ghost V: set<Node>, dist: Table<Dist>, next: Table<Option<Node>>,
                    ghost walks: Table<seq<Node>>, start: Node, end: Node)
    returns (path: seq<Node>)
    requires Positive(w) && Closed(w, V) && start in V && end in V
    requires Sound(w, V, dist, next, walks) && NoHop(V, dist, next) && UtilsFloyd.Bound(w, V, V, dist)
    ensures UtilsFloyd.Cell(dist, start, end, Inf).Fin? ==>
      IsPath(w, path, start, end) && PathWeight(w, path) == UtilsFloyd.Cell(dist, start, end, Inf).v
    ensures UtilsFloyd.Cell(dist, start, end, Inf).Inf? ==> path == [start]
    ensures start == end ==> path == [start]
  {
    PositiveNonNegative(w);
    UtilsFloyd.EntriesFacts(w, w, V, dist, dist, next, walks, start, end);
    ghost var total := UtilsFloyd.Cell(dist, start, end, Inf);
    path := [start];
    var current := start;
    while current != end
      invariant current in V && IsPath(w, path, start, current)
      invariant total.Inf? ==> path == [start] && current == start
      invariant start == end ==> path == [start] && current == start
      invariant total.Fin? ==>
        && UtilsFloyd.Cell(dist, current, end, Inf).Fin? && UtilsFloyd.Cell(dist, current, end, Inf).v >= 0
        && PathWeight(w, path) + UtilsFloyd.Cell(dist, current, end, Inf).v == total.v
      decreases if total.Fin? then UtilsFloyd.Cell(dist, current, end, Inf).v else 0
    {
      if total.Fin? {
        UtilsFloyd.HopToward(w, w, V, dist, dist, next, walks, current, end);
      }
      var hop := UtilsFloyd.Cell(next, current, end, None);
      if hop.None? {
        break;
      }
      ghost var previous := current;
      current := hop.value;
      UtilsFloyd.EntriesFacts(w, w, V, dist, dist, next, walks, current, end);
      PathAppend(w, path, start, previous, current);
      path := path + [current];
    }
  }

  /**
   * The aviation.js Floyd-Warshall, for two of the graph's keys and
   * positive legs. The distance is `Infinity`, with the path `[start]`,
   * exactly when the end cannot be reached; otherwise the path is a shortest
   * one and the distance its weight.
   */
  method FloydWarshall(graph: Weights, start: Node, end: Node) returns (r: Answer)
    requires start in graph && end in graph && Positive(Among(graph))
    ensures r.distance.Inf? <==> !Reachable(Among(graph), start, end)
    ensures r.distance.Inf? ==> r.path == [start]
    ensures r.distance.Fin? ==>
      && IsPath(Among(graph), r.path, start, end)
      && PathWeight(Among(graph), r.path) == r.distance.v
      && IsShortest(Among(graph), start, end, r.distance)
    ensures start == end ==> r == Answer([start], Fin(0))
  {
    ghost var w, V := Among(graph), graph.Keys;
    PositiveNonNegative(w);
    var nodes := KeyList(graph);
    var dist, next, walks := InitTables(graph, nodes);
    InitFacts(graph, dist, next, walks);
    dist, next, walks := RelaxAll(w, V, nodes, dist, next, walks);
    UtilsFloyd.TablesShortest(w, w, V, dist, dist, next, walks, start, end);
    ShortestInf(w, start, end, UtilsFloyd.Cell(dist, start, end, Inf));
    UtilsFloyd.EntriesFacts(w, w, V, dist, dist, next, walks, start, end);
    var path := FollowNext(w, V, dist, next, walks, start, end);
    r := Answer(path, UtilsFloyd.Cell(dist, start, end, Inf));
  }
}
