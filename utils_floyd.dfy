/**
 * `floydWarshall(graph, source, destination)` of the TypeScript utilities:
 * all-pairs tables `dist`, `durations` and `next` keyed by airport code,
 * filled from the direct legs, improved through every airport `k` in turn,
 * and a next-hop walk from the source to the destination.
 *
 * Next to the tables the model keeps, as ghost state, the walk `walks[i][j]`
 * that each finite `dist[i][j]` measures; it is what the invariants talk about.
 */
module UtilsFloyd {
  import opened Paths
  import opened TsGraph

  /** `Record<string, Record<string, T>>`. */
  type Table<T> = map<Node, map<Node, T>>

  /** `m[i][j]`; `missing` stands for an absent entry. */
  function Cell<T>(m: Table<T>, i: Node, j: Node, missing: T): T {
    if i in m && j in m[i] then m[i][j] else missing
  }

  /** `m[i][j] = x` on an existing row. */
  function Store<T(!new)>(m: Table<T>, i: Node, j: Node, x: T): (m': Table<T>)
    requires i in m
    ensures m'.Keys == m.Keys
    ensures forall a, b, missing {:trigger Cell(m', a, b, missing)} ::
      Cell(m', a, b, missing) == if a == i && b == j then x else Cell(m, a, b, missing)
  {
    m[i := m[i][j := x]]
  }

  // ---------------------------------------------------------------------
  // What the tables mean
  // ---------------------------------------------------------------------

  /** The inner airports of `p` (all but its ends) lie in `K`. */
  ghost predicate Inner(p: seq<Node>, K: set<Node>) {
    forall m :: 0 < m < |p| - 1 ==> p[m] in K
  }

  /** `d` is at most the weight of every walk from i to j whose inner airports lie in `K`. */
  ghost predicate Below(w: Weights, K: set<Node>, i: Node, j: Node, d: Dist) {
    forall p {:trigger IsPath(w, p, i, j)} :: IsPath(w, p, i, j) && Inner(p, K) ==> Le(d, Fin(PathWeight(w, p)))
  }

  /**
   * A finite `dist[i][j]` is the distance of the recorded walk from i to j,
   * `durations[i][j]` is that walk's duration, and for i != j `next[i][j]`
   * is the walk's second airport.
   */
  ghost predicate Witnessed(w: Weights, t: Weights, dist: Table<Dist>, durations: Table<Dist>,
                            next: Table<Option<Node>>, walks: Table<seq<Node>>, i: Node, j: Node)
  {
    var p := Cell(walks, i, j, []);
    Cell(dist, i, j, Inf).Fin? ==>
      && IsPath(w, p, i, j) && PathWeight(w, p) == Cell(dist, i, j, Inf).v
      && Cell(durations, i, j, Inf) == Fin(PathWeight(t, p))
      && (i != j ==> |p| >= 2 && Cell(next, i, j, None) == Some(p[1]))
  }

  ghost predicate Sound(w: Weights, t: Weights, V: set<Node>, dist: Table<Dist>, durations: Table<Dist>,
                        next: Table<Option<Node>>, walks: Table<seq<Node>>)
  {
    forall i, j {:trigger Witnessed(w, t, dist, durations, next, walks, i, j)} ::
      i in V && j in V ==> Witnessed(w, t, dist, durations, next, walks, i, j)
  }

  /** Every entry is a lower bound for the walks through `K`. */
  ghost predicate Bound(w: Weights, V: set<Node>, K: set<Node>, dist: Table<Dist>) {
    forall i, j {:trigger Cell(dist, i, j, Inf)} :: i in V && j in V ==> Below(w, K, i, j, Cell(dist, i, j, Inf))
  }

  /** Every table has a row for every airport. */
  ghost predicate Rows(V: set<Node>, dist: Table<Dist>, durations: Table<Dist>, next: Table<Option<Node>>, walks: Table<seq<Node>>) {
    V <= dist.Keys && V <= durations.Keys && V <= next.Keys && V <= walks.Keys
  }

  // ---------------------------------------------------------------------
  // Initialisation
  // ---------------------------------------------------------------------

  /** The entry of `dist` (and `durations`) before the main loop. */
  function Direct(graph: Graph, i: Node, j: Node, duration: bool): Dist
    requires i in graph
  {
    if i == j then Fin(0)
    else if j in graph[i] then Fin(if duration then graph[i][j].duration else graph[i][j].distance)
    else Inf
  }

  /** The entry of `next` before the main loop. */
  function DirectHop(graph: Graph, i: Node, j: Node): Option<Node>
    requires i in graph
  {
    if i != j && j in graph[i] then Some(j) else None
  }

  /** Entry `j` of row `i` as the initialisation leaves it. */
  ghost predicate InitialEntry(graph: Graph, i: Node, j: Node, distRow: map<Node, Dist>, durationsRow: map<Node, Dist>,
                               nextRow: map<Node, Option<Node>>, walksRow: map<Node, seq<Node>>)
    requires i in graph
  {
    && j in distRow && j in durationsRow && j in nextRow && j in walksRow
    && distRow[j] == Direct(graph, i, j, false) && durationsRow[j] == Direct(graph, i, j, true)
    && nextRow[j] == DirectHop(graph, i, j)
    && walksRow[j] == (if i == j then [i] else [i, j])
  }

  /** `nodes.forEach(j => ...)` for one row `i` of the initialisation. */
  method InitRow(graph: Graph, nodes: seq<Node>, i: Node)
    returns (distRow: map<Node, Dist>, durationsRow: map<Node, Dist>, nextRow: map<Node, Option<Node>>,
             ghost walksRow: map<Node, seq<Node>>)
    requires i in graph
    ensures forall j :: j in nodes ==> InitialEntry(graph, i, j, distRow, durationsRow, nextRow, walksRow)
  {
    distRow, durationsRow, nextRow, walksRow := map[], map[], map[], map[];
    for b := 0 to |nodes|
      invariant forall c :: 0 <= c < b ==> InitialEntry(graph, i, nodes[c], distRow, durationsRow, nextRow, walksRow)
    {
      var j := nodes[b];
      if i == j {
        distRow := distRow[j := Fin(0)];
        durationsRow := durationsRow[j := Fin(0)];
        nextRow := nextRow[j := None];
      } else if j in graph[i] {
        distRow := distRow[j := Fin(graph[i][j].distance)];
        durationsRow := durationsRow[j := Fin(graph[i][j].duration)];
        nextRow := nextRow[j := Some(j)];
      } else {
        distRow := distRow[j := Inf];
        durationsRow := durationsRow[j := Inf];
        nextRow := nextRow[j := None];
      }
      walksRow := walksRow[j := if i == j then [i] else [i, j]];
    }
  }

  /** The tables before the main loop (lines 16-36). */
  ghost predicate Initial(graph: Graph, V: set<Node>, dist: Table<Dist>, durations: Table<Dist>,
                          next: Table<Option<Node>>, walks: Table<seq<Node>>)
    requires V <= graph.Keys
  {
    forall i, j {:trigger Cell(dist, i, j, Inf)} :: i in V && j in V ==>
      && Cell(dist, i, j, Inf) == Direct(graph, i, j, false)
      && Cell(durations, i, j, Inf) == Direct(graph, i, j, true)
      && Cell(next, i, j, None) == DirectHop(graph, i, j)
      && Cell(walks, i, j, []) == (if i == j then [i] else [i, j])
  }

  /** Row `i` of every table as the initialisation leaves it. */
  ghost predicate InitialRow(graph: Graph, nodes: seq<Node>, i: Node, dist: Table<Dist>, durations: Table<Dist>,
                             next: Table<Option<Node>>, walks: Table<seq<Node>>)
    requires i in graph
  {
    && i in dist && i in durations && i in next && i in walks
    && forall j :: j in nodes ==> InitialEntry(graph, i, j, dist[i], durations[i], next[i], walks[i])
  }

  /** `nodes.forEach(i => ...)`: one row per airport. */
  method InitTables(graph: Graph, nodes: seq<Node>)
    returns (dist: Table<Dist>, durations: Table<Dist>, next: Table<Option<Node>>, ghost walks: Table<seq<Node>>)
    requires forall v :: v in nodes <==> v in graph
    ensures Rows(graph.Keys, dist, durations, next, walks)
    ensures Initial(graph, graph.Keys, dist, durations, next, walks)
  {
    dist, durations, next, walks := map[], map[], map[], map[];
    for a := 0 to |nodes|
      invariant forall c :: 0 <= c < a ==> InitialRow(graph, nodes, nodes[c], dist, durations, next, walks)
    {
      var i := nodes[a];
      var distRow, durationsRow, nextRow, walksRow := InitRow(graph, nodes, i);
      ghost var dist0, durations0, next0, walks0 := dist, durations, next, walks;
      dist, durations, next, walks := dist[i := distRow], durations[i := durationsRow], next[i := nextRow], walks[i := walksRow];
      forall c | 0 <= c < a + 1 ensures InitialRow(graph, nodes, nodes[c], dist, durations, next, walks) {
        if nodes[c] != i {
          InitialRowKept(graph, nodes, nodes[c], dist0, durations0, next0, walks0, dist, durations, next, walks);
        }
      }
    }
    InitialAll(graph, nodes, dist, durations, next, walks);
  }

  lemma InitialRowKept(graph: Graph, nodes: seq<Node>, x: Node, dist: Table<Dist>, durations: Table<Dist>,
                       next: Table<Option<Node>>, walks: Table<seq<Node>>,
                       dist': Table<Dist>, durations': Table<Dist>, next': Table<Option<Node>>, walks': Table<seq<Node>>)
    requires x in graph && InitialRow(graph, nodes, x, dist, durations, next, walks)
    requires x in dist' && x in durations' && x in next' && x in walks'
    requires dist'[x] == dist[x] && durations'[x] == durations[x] && next'[x] == next[x] && walks'[x] == walks[x]
    ensures InitialRow(graph, nodes, x, dist', durations', next', walks')
  {
  }

  lemma InitialAll(graph: Graph, nodes: seq<Node>, dist: Table<Dist>, durations: Table<Dist>,
                   next: Table<Option<Node>>, walks: Table<seq<Node>>)
    requires forall v :: v in nodes <==> v in graph
    requires forall c :: 0 <= c < |nodes| ==> InitialRow(graph, nodes, nodes[c], dist, durations, next, walks)
    ensures Rows(graph.Keys, dist, durations, next, walks)
    ensures Initial(graph, graph.Keys, dist, durations, next, walks)
  {
    forall i | i in graph ensures InitialRow(graph, nodes, i, dist, durations, next, walks) {
      var c :| 0 <= c < |nodes| && nodes[c] == i;
    }
  }

  /** Before the main loop the tables are sound and bound the walks without inner airports. */
  lemma InitFacts(graph: Graph, dist: Table<Dist>, durations: Table<Dist>, next: Table<Option<Node>>, walks: Table<seq<Node>>)
    requires NonNegative(DistanceWeights(graph))
    requires Initial(graph, graph.Keys, dist, durations, next, walks)
    ensures Sound(DistanceWeights(graph), DurationWeights(graph), graph.Keys, dist, durations, next, walks)
    ensures Bound(DistanceWeights(graph), graph.Keys, {}, dist)
  {
    var w, t, V := DistanceWeights(graph), DurationWeights(graph), graph.Keys;
    forall i, j | i in V && j in V ensures Witnessed(w, t, dist, durations, next, walks, i, j) {
      assert Cell(dist, i, j, Inf) == Direct(graph, i, j, false);
      if i != j && j in graph[i] {
        assert IsPath(w, [i, j], i, j);
      }
    }
    forall i, j | i in V && j in V ensures Below(w, {}, i, j, Cell(dist, i, j, Inf)) {
      InitBelow(graph, i, j, Cell(dist, i, j, Inf));
    }
  }

  lemma InitBelow(graph: Graph, i: Node, j: Node, d: Dist)
    requires NonNegative(DistanceWeights(graph)) && i in graph && d == Direct(graph, i, j, false)
    ensures Below(DistanceWeights(graph), {}, i, j, d)
  {
    var w := DistanceWeights(graph);
    forall p | IsPath(w, p, i, j) && Inner(p, {}) ensures Le(d, Fin(PathWeight(w, p))) {
      InnerFirst(p, {});
      if |p| == 2 {
        assert IsEdge(w, p[0], p[1]);
        assert PathWeight(w, p[1..]) == 0;
      }
    }
  }

  lemma InnerFirst(p: seq<Node>, K: set<Node>)
    requires Inner(p, K)
    ensures |p| > 2 ==> p[1] in K
  {
  }

  // ---------------------------------------------------------------------
  // One relaxation `dist[i][j] vs dist[i][k] + dist[k][j]`
  // ---------------------------------------------------------------------

  /** The first and the last inner occurrence of `k` on a walk that goes through it. */
  lemma FirstLast(p: seq<Node>, K: set<Node>, k: Node) returns (m1: nat, m2: nat)
    requires Inner(p, K + {k}) && !Inner(p, K)
    ensures 0 < m1 <= m2 < |p| - 1 && p[m1] == k && p[m2] == k
    ensures forall m :: 0 < m < m1 ==> p[m] in K
    ensures forall m :: m2 < m < |p| - 1 ==> p[m] in K
  {
    var m :| 0 < m < |p| - 1 && p[m] !in K;
    m1 := 1;
    while p[m1] in K
      invariant 1 <= m1 <= m
      invariant forall x :: 0 < x < m1 ==> p[x] in K
      decreases m - m1
    {
      m1 := m1 + 1;
    }
    m2 := |p| - 2;
    while p[m2] in K
      invariant m <= m2 <= |p| - 2
      invariant forall x :: m2 < x < |p| - 1 ==> p[x] in K
      decreases m2 - m
    {
      m2 := m2 - 1;
    }
  }

  /**
   * The heart of Floyd-Warshall: with non-negative weights, the smaller of
   * `dist[i][j]` and `dist[i][k] + dist[k][j]` bounds the walks whose inner
   * airports lie in `K` or are `k`.
   */
  lemma StepBound(w: Weights, K: set<Node>, k: Node, i: Node, j: Node, dij: Dist, dik: Dist, dkj: Dist)
    requires NonNegative(w)
    requires Below(w, K, i, j, dij) && Below(w, K, i, k, dik) && Below(w, K, k, j, dkj)
    ensures Below(w, K + {k}, i, j, Min(dij, Add(dik, dkj)))
  {
    forall p | IsPath(w, p, i, j) && Inner(p, K + {k}) ensures Le(Min(dij, Add(dik, dkj)), Fin(PathWeight(w, p))) {
      if !Inner(p, K) {
        ThroughK(w, K, k, i, j, p, dik, dkj);
      }
    }
  }

  /** A walk through `k` is no lighter than its part up to the first `k` plus its part from the last `k`. */
  lemma ThroughK(w: Weights, K: set<Node>, k: Node, i: Node, j: Node, p: seq<Node>, dik: Dist, dkj: Dist)
    requires NonNegative(w) && IsPath(w, p, i, j) && Inner(p, K + {k}) && !Inner(p, K)
    requires Below(w, K, i, k, dik) && Below(w, K, k, j, dkj)
    ensures Le(Add(dik, dkj), Fin(PathWeight(w, p)))
  {
    var m1, m2 := FirstLast(p, K, k);
    ThroughKParts(w, K, k, i, j, p, m1, m2);
    PathWeightSplit(w, p, m1);
    PathWeightSplit(w, p[m1..], m2 - m1);
    BelowAt(w, K, i, k, dik, p[..m1 + 1]);
    BelowAt(w, K, k, j, dkj, p[m1..][m2 - m1..]);
  }

  /** Instantiates `Below` at one walk. */
  lemma BelowAt(w: Weights, K: set<Node>, i: Node, j: Node, d: Dist, p: seq<Node>)
    requires Below(w, K, i, j, d) && IsPath(w, p, i, j) && Inner(p, K)
    ensures Le(d, Fin(PathWeight(w, p)))
  {
  }

  /** The three parts of a walk split at the first and the last inner `k`. */
  lemma ThroughKParts(w: Weights, K: set<Node>, k: Node, i: Node, j: Node, p: seq<Node>, m1: nat, m2: nat)
    requires NonNegative(w) && IsPath(w, p, i, j)
    requires 0 < m1 <= m2 < |p| - 1 && p[m1] == k && p[m2] == k
    requires forall m :: 0 < m < m1 ==> p[m] in K
    requires forall m :: m2 < m < |p| - 1 ==> p[m] in K
    ensures IsPath(w, p[..m1 + 1], i, k) && Inner(p[..m1 + 1], K)
    ensures IsPath(w, p[m1..][m2 - m1..], k, j) && Inner(p[m1..][m2 - m1..], K)
    ensures PathWeight(w, p[m1..][..m2 - m1 + 1]) >= 0
  {
    SubPath(w, p, i, j, 0, m1);
    SubPath(w, p, i, j, m1, m2);
    SubPath(w, p, i, j, m2, |p| - 1);
    var prefix, middle, suffix := p[0..m1 + 1], p[m1..m2 + 1], p[m2..|p|];
    assert p[..m1 + 1] == prefix && p[m1..][..m2 - m1 + 1] == middle && p[m1..][m2 - m1..] == suffix;
    forall x | 0 < x < |prefix| - 1 ensures prefix[x] in K {
      assert prefix[x] == p[x];
    }
    forall x | 0 < x < |suffix| - 1 ensures suffix[x] in K {
      assert suffix[x] == p[m2 + x];
    }
    NonNegativeWeight(w, middle);
  }

  /** A bound stays a bound when the entry drops. */
  lemma BelowLower(w: Weights, K: set<Node>, i: Node, j: Node, d: Dist, d': Dist)
    requires Below(w, K, i, j, d) && Le(d', d)
    ensures Below(w, K, i, j, d')
  {
    forall p | IsPath(w, p, i, j) && Inner(p, K) ensures Le(d', Fin(PathWeight(w, p))) {
    }
  }

  /** Joining the recorded walks i..k and k..j records a walk i..j; its first hop is `next[i][k]`. */
  lemma WitnessJoin(w: Weights, t: Weights, dist: Table<Dist>, durations: Table<Dist>,
                    next: Table<Option<Node>>, walks: Table<seq<Node>>, k: Node, i: Node, j: Node)
    requires NonNegative(w)
    requires Witnessed(w, t, dist, durations, next, walks, i, k) && Witnessed(w, t, dist, durations, next, walks, k, j)
    requires Witnessed(w, t, dist, durations, next, walks, k, k)
    requires Lt(Add(Cell(dist, i, k, Inf), Cell(dist, k, j, Inf)), Cell(dist, i, j, Inf))
    ensures
      var p, q := Cell(walks, i, k, []), Cell(walks, k, j, []);
      && |q| > 0
      && IsPath(w, p + q[1..], i, j)
      && PathWeight(w, p + q[1..]) == Add(Cell(dist, i, k, Inf), Cell(dist, k, j, Inf)).v
      && Add(Cell(durations, i, k, Inf), Cell(durations, k, j, Inf)) == Fin(PathWeight(t, p + q[1..]))
      && (i != j ==> |p + q[1..]| >= 2 && Cell(next, i, k, None) == Some((p + q[1..])[1]))
  {
    var p, q := Cell(walks, i, k, []), Cell(walks, k, j, []);
    PathConcat(w, p, q, i, k, j);
    var r := p + q[1..];
    assert r[..|p|] == p && r[|p| - 1..] == q;
    PathWeightSplit(t, r, |p| - 1);
    if i == k {
      NonNegativeWeight(w, Cell(walks, k, k, []));
    }
  }

  /** Relaxing cell (i, j) through `k` keeps every recorded walk honest. */
  lemma SoundStore(w: Weights, t: Weights, V: set<Node>, dist: Table<Dist>, durations: Table<Dist>,
                   next: Table<Option<Node>>, walks: Table<seq<Node>>, k: Node, i: Node, j: Node)
    requires NonNegative(w) && Sound(w, t, V, dist, durations, next, walks)
    requires i in V && j in V && k in V && Rows(V, dist, durations, next, walks)
    requires Lt(Add(Cell(dist, i, k, Inf), Cell(dist, k, j, Inf)), Cell(dist, i, j, Inf))
    requires |Cell(walks, k, j, [])| > 0
    ensures Sound(w, t, V, Store(dist, i, j, Add(Cell(dist, i, k, Inf), Cell(dist, k, j, Inf))),
                  Store(durations, i, j, Add(Cell(durations, i, k, Inf), Cell(durations, k, j, Inf))),
                  Store(next, i, j, Cell(next, i, k, None)),
                  Store(walks, i, j, Cell(walks, i, k, []) + Cell(walks, k, j, [])[1..]))
  {
    assert Witnessed(w, t, dist, durations, next, walks, i, k);
    assert Witnessed(w, t, dist, durations, next, walks, k, j);
    assert Witnessed(w, t, dist, durations, next, walks, k, k);
    WitnessJoin(w, t, dist, durations, next, walks, k, i, j);
    var dist' := Store(dist, i, j, Add(Cell(dist, i, k, Inf), Cell(dist, k, j, Inf)));
    var durations' := Store(durations, i, j, Add(Cell(durations, i, k, Inf), Cell(durations, k, j, Inf)));
    var next' := Store(next, i, j, Cell(next, i, k, None));
    var walks' := Store(walks, i, j, Cell(walks, i, k, []) + Cell(walks, k, j, [])[1..]);
    forall a, b | a in V && b in V ensures Witnessed(w, t, dist', durations', next', walks', a, b) {
      if a != i || b != j {
        assert Witnessed(w, t, dist, durations, next, walks, a, b);
      }
    }
  }

  /** No entry of `dist'` is above the same entry of `dist`. */
  ghost predicate Drops(dist: Table<Dist>, dist': Table<Dist>) {
    forall a, b {:trigger Cell(dist', a, b, Inf)} :: Le(Cell(dist', a, b, Inf), Cell(dist, a, b, Inf))
  }

  lemma DropsTrans(dist: Table<Dist>, dist': Table<Dist>, dist'': Table<Dist>)
    requires Drops(dist, dist') && Drops(dist', dist'')
    ensures Drops(dist, dist'')
  {
    forall a, b ensures Le(Cell(dist'', a, b, Inf), Cell(dist, a, b, Inf)) {
      assert Le(Cell(dist', a, b, Inf), Cell(dist, a, b, Inf));
    }
  }

  /** Lowering entries keeps them lower bounds. */
  lemma BoundDrops(w: Weights, V: set<Node>, K: set<Node>, dist: Table<Dist>, dist': Table<Dist>)
    requires Bound(w, V, K, dist) && Drops(dist, dist')
    ensures Bound(w, V, K, dist')
  {
    forall a, b | a in V && b in V ensures Below(w, K, a, b, Cell(dist', a, b, Inf)) {
      BelowLower(w, K, a, b, Cell(dist, a, b, Inf), Cell(dist', a, b, Inf));
    }
  }

  /** A store that does not raise the entry only drops. */
  lemma DropsStore(dist: Table<Dist>, i: Node, j: Node, x: Dist)
    requires i in dist && Le(x, Cell(dist, i, j, Inf))
    ensures Drops(dist, Store(dist, i, j, x))
  {
  }

  /**
   * `dist[i][j]`, `durations[i][j]` and `next[i][j]` after the test at (k, i, j)
   * (lines 42-46): the entry becomes the smaller of itself and the way through `k`.
   */
  method RelaxCell(ghost w: Weights, ghost t: Weights, ghost V: set<Node>, ghost K: set<Node>, k: Node, i: Node, j: Node,
                   dist: Table<Dist>, durations: Table<Dist>, next: Table<Option<Node>>, ghost walks: Table<seq<Node>>)
    returns (dist': Table<Dist>, durations': Table<Dist>, next': Table<Option<Node>>, ghost walks': Table<seq<Node>>)
    requires NonNegative(w) && i in V && j in V && k in V
    requires Rows(V, dist, durations, next, walks) && Sound(w, t, V, dist, durations, next, walks) && Bound(w, V, K, dist)
    ensures dist'.Keys == dist.Keys && durations'.Keys == durations.Keys && next'.Keys == next.Keys && walks'.Keys == walks.Keys
    ensures Cell(dist', i, j, Inf) == Min(Cell(dist, i, j, Inf), Add(Cell(dist, i, k, Inf), Cell(dist, k, j, Inf)))
    ensures Cell(dist', i, j, Inf) != Cell(dist, i, j, Inf) ==>
      && Cell(durations', i, j, Inf) == Add(Cell(durations, i, k, Inf), Cell(durations, k, j, Inf))
      && Cell(next', i, j, None) == Cell(next, i, k, None)
    ensures Cell(dist', i, j, Inf) == Cell(dist, i, j, Inf) ==>
      && Cell(durations', i, j, Inf) == Cell(durations, i, j, Inf)
      && Cell(next', i, j, None) == Cell(next, i, j, None)
    ensures forall a, b {:trigger Cell(dist', a, b, Inf)} :: a != i || b != j ==>
      && Cell(dist', a, b, Inf) == Cell(dist, a, b, Inf)
      && Cell(durations', a, b, Inf) == Cell(durations, a, b, Inf)
      && Cell(next', a, b, None) == Cell(next, a, b, None)
    ensures Rows(V, dist', durations', next', walks') && Sound(w, t, V, dist', durations', next', walks')
    ensures Bound(w, V, K, dist') && Drops(dist, dist')
    ensures Below(w, K + {k}, i, j, Cell(dist', i, j, Inf))
  {
    StepBound(w, K, k, i, j, Cell(dist, i, j, Inf), Cell(dist, i, k, Inf), Cell(dist, k, j, Inf));
    dist', durations', next', walks' := dist, durations, next, walks;
    var through := Add(Cell(dist, i, k, Inf), Cell(dist, k, j, Inf));
    if Lt(through, Cell(dist, i, j, Inf)) {
      assert Witnessed(w, t, dist, durations, next, walks, k, j);
      SoundStore(w, t, V, dist, durations, next, walks, k, i, j);
      DropsStore(dist, i, j, through);
      BoundDrops(w, V, K, dist, Store(dist, i, j, through));
      dist' := Store(dist, i, j, through);
      durations' := Store(durations, i, j, Add(Cell(durations, i, k, Inf), Cell(durations, k, j, Inf)));
      next' := Store(next, i, j, Cell(next, i, k, None));
      walks' := Store(walks, i, j, Cell(walks, i, k, []) + Cell(walks, k, j, [])[1..]);
    }
  }

  // ---------------------------------------------------------------------
  // The three nested loops (lines 39-49)
  // ---------------------------------------------------------------------

  /** Entries (i, nodes[c]) for c < b bound the walks through `K`. */
  ghost predicate DoneCols(w: Weights, K: set<Node>, nodes: seq<Node>, i: Node, b: int, dist: Table<Dist>) {
    forall c :: 0 <= c < b && c < |nodes| ==> Below(w, K, i, nodes[c], Cell(dist, i, nodes[c], Inf))
  }

  /** Rows nodes[c] for c < a bound the walks through `K`. */
  ghost predicate DoneRows(w: Weights, V: set<Node>, K: set<Node>, nodes: seq<Node>, a: int, dist: Table<Dist>) {
    forall c, j {:trigger Cell(dist, nodes[c], j, Inf)} :: 0 <= c < a && c < |nodes| && j in V ==>
      Below(w, K, nodes[c], j, Cell(dist, nodes[c], j, Inf))
  }

  lemma DoneColsStep(w: Weights, K: set<Node>, nodes: seq<Node>, i: Node, b: int, dist: Table<Dist>, dist': Table<Dist>)
    requires 0 <= b < |nodes| && DoneCols(w, K, nodes, i, b, dist) && Drops(dist, dist')
    requires Below(w, K, i, nodes[b], Cell(dist', i, nodes[b], Inf))
    ensures DoneCols(w, K, nodes, i, b + 1, dist')
  {
    forall c | 0 <= c < b ensures Below(w, K, i, nodes[c], Cell(dist', i, nodes[c], Inf)) {
      BelowLower(w, K, i, nodes[c], Cell(dist, i, nodes[c], Inf), Cell(dist', i, nodes[c], Inf));
    }
  }

  lemma DoneRowsStep(w: Weights, V: set<Node>, K: set<Node>, nodes: seq<Node>, a: int, dist: Table<Dist>, dist': Table<Dist>)
    requires 0 <= a < |nodes| && DoneRows(w, V, K, nodes, a, dist) && Drops(dist, dist')
    requires forall j :: j in V ==> Below(w, K, nodes[a], j, Cell(dist', nodes[a], j, Inf))
    ensures DoneRows(w, V, K, nodes, a + 1, dist')
  {
    forall c, j | 0 <= c < a && j in V ensures Below(w, K, nodes[c], j, Cell(dist', nodes[c], j, Inf)) {
      BelowLower(w, K, nodes[c], j, Cell(dist, nodes[c], j, Inf), Cell(dist', nodes[c], j, Inf));
    }
  }

  lemma DoneColsAll(w: Weights, V: set<Node>, K: set<Node>, nodes: seq<Node>, i: Node, dist: Table<Dist>)
    requires (forall v :: v in nodes <==> v in V) && DoneCols(w, K, nodes, i, |nodes|, dist)
    ensures forall j :: j in V ==> Below(w, K, i, j, Cell(dist, i, j, Inf))
  {
    forall j | j in V ensures Below(w, K, i, j, Cell(dist, i, j, Inf)) {
      var c :| 0 <= c < |nodes| && nodes[c] == j;
    }
  }

  lemma DoneRowsAll(w: Weights, V: set<Node>, K: set<Node>, nodes: seq<Node>, dist: Table<Dist>)
    requires (forall v :: v in nodes <==> v in V) && DoneRows(w, V, K, nodes, |nodes|, dist)
    ensures Bound(w, V, K, dist)
  {
    forall i, j | i in V && j in V ensures Below(w, K, i, j, Cell(dist, i, j, Inf)) {
      var c :| 0 <= c < |nodes| && nodes[c] == i;
    }
  }

  /** `nodes.forEach(j => ...)` for one `k` and one `i`. */
  method RelaxRow(ghost w: Weights, ghost t: Weights, ghost V: set<Node>, ghost K: set<Node>, nodes: seq<Node>, k: Node, i: Node,
                  dist: Table<Dist>, durations: Table<Dist>, next: Table<Option<Node>>, ghost walks: Table<seq<Node>>)
    returns (dist': Table<Dist>, durations': Table<Dist>, next': Table<Option<Node>>, ghost walks': Table<seq<Node>>)
    requires NonNegative(w) && (forall v :: v in nodes <==> v in V) && i in V && k in V
    requires Rows(V, dist, durations, next, walks) && Sound(w, t, V, dist, durations, next, walks) && Bound(w, V, K, dist)
    ensures Rows(V, dist', durations', next', walks') && Sound(w, t, V, dist', durations', next', walks')
    ensures Bound(w, V, K, dist') && Drops(dist, dist')
    ensures forall j :: j in V ==> Below(w, K + {k}, i, j, Cell(dist', i, j, Inf))
  {
    dist', durations', next', walks' := dist, durations, next, walks;
    for b := 0 to |nodes|
      invariant Rows(V, dist', durations', next', walks') && Sound(w, t, V, dist', durations', next', walks')
      invariant Bound(w, V, K, dist') && Drops(dist, dist')
      invariant DoneCols(w, K + {k}, nodes, i, b, dist')
    {
      ghost var before := dist';
      dist', durations', next', walks' := RelaxCell(w, t, V, K, k, i, nodes[b], dist', durations', next', walks');
      DropsTrans(dist, before, dist');
      DoneColsStep(w, K + {k}, nodes, i, b, before, dist');
    }
    DoneColsAll(w, V, K + {k}, nodes, i, dist');
  }

  /** `nodes.forEach(i => ...)` for one `k`: afterwards the tables bound the walks through `K + {k}`. */
  method RelaxRound(ghost w: Weights, ghost t: Weights, ghost V: set<Node>, ghost K: set<Node>, nodes: seq<Node>, k: Node,
                    dist: Table<Dist>, durations: Table<Dist>, next: Table<Option<Node>>, ghost walks: Table<seq<Node>>)
    returns (dist': Table<Dist>, durations': Table<Dist>, next': Table<Option<Node>>, ghost walks': Table<seq<Node>>)
    requires NonNegative(w) && (forall v :: v in nodes <==> v in V) && k in V
    requires Rows(V, dist, durations, next, walks) && Sound(w, t, V, dist, durations, next, walks) && Bound(w, V, K, dist)
    ensures Rows(V, dist', durations', next', walks') && Sound(w, t, V, dist', durations', next', walks')
    ensures Bound(w, V, K + {k}, dist')
  {
    dist', durations', next', walks' := dist, durations, next, walks;
    for a := 0 to |nodes|
      invariant Rows(V, dist', durations', next', walks') && Sound(w, t, V, dist', durations', next', walks')
      invariant Bound(w, V, K, dist')
      invariant DoneRows(w, V, K + {k}, nodes, a, dist')
    {
      ghost var before := dist';
      dist', durations', next', walks' := RelaxRow(w, t, V, K, nodes, k, nodes[a], dist', durations', next', walks');
      DoneRowsStep(w, V, K + {k}, nodes, a, before, dist');
    }
    DoneRowsAll(w, V, K + {k}, nodes, dist');
  }

  /** A bound over the walks through a bigger set is a bound over the walks through a smaller one. */
  lemma BoundShrink(w: Weights, V: set<Node>, K: set<Node>, K': set<Node>, dist: Table<Dist>)
    requires Bound(w, V, K, dist) && forall v :: v in K' ==> v in K
    ensures Bound(w, V, K', dist)
  {
    forall i, j, p | i in V && j in V && IsPath(w, p, i, j) && Inner(p, K')
      ensures Le(Cell(dist, i, j, Inf), Fin(PathWeight(w, p)))
    {
      assert Inner(p, K);
      BelowAt(w, K, i, j, Cell(dist, i, j, Inf), p);
    }
  }

  /** `nodes.forEach(k => ...)`: afterwards the tables bound every walk between airports. */
  method RelaxAll(ghost w: Weights, ghost t: Weights, ghost V: set<Node>, nodes: seq<Node>,
                  dist: Table<Dist>, durations: Table<Dist>, next: Table<Option<Node>>, ghost walks: Table<seq<Node>>)
    returns (dist': Table<Dist>, durations': Table<Dist>, next': Table<Option<Node>>, ghost walks': Table<seq<Node>>)
    requires NonNegative(w) && (forall v :: v in nodes <==> v in V)
    requires Rows(V, dist, durations, next, walks) && Sound(w, t, V, dist, durations, next, walks) && Bound(w, V, {}, dist)
    ensures Rows(V, dist', durations', next', walks') && Sound(w, t, V, dist', durations', next', walks')
    ensures Bound(w, V, V, dist')
  {
    dist', durations', next', walks' := dist, durations, next, walks;
    ghost var K: set<Node> := {};
    for a := 0 to |nodes|
      invariant Rows(V, dist', durations', next', walks') && Sound(w, t, V, dist', durations', next', walks')
      invariant Bound(w, V, K, dist')
      invariant forall c :: 0 <= c < a ==> nodes[c] in K
    {
      dist', durations', next', walks' := RelaxRound(w, t, V, K, nodes, nodes[a], dist', durations', next', walks');
      K := K + {nodes[a]};
    }
    BoundShrink(w, V, K, V, dist');
  }

  // ---------------------------------------------------------------------
  // The finished tables
  // ---------------------------------------------------------------------

  /** Once every airport has been `k`, each entry is the shortest distance. */
  lemma TablesShortest(w: Weights, t: Weights, V: set<Node>, dist: Table<Dist>, durations: Table<Dist>,
                       next: Table<Option<Node>>, walks: Table<seq<Node>>, i: Node, j: Node)
    requires Closed(w, V) && Sound(w, t, V, dist, durations, next, walks) && Bound(w, V, V, dist)
    requires i in V && j in V
    ensures IsShortest(w, i, j, Cell(dist, i, j, Inf))
  {
    forall p | IsPath(w, p, i, j) ensures Le(Cell(dist, i, j, Inf), Fin(PathWeight(w, p))) {
      PathInside(w, V, p, i, j);
      assert Inner(p, V);
      BelowAt(w, V, i, j, Cell(dist, i, j, Inf), p);
    }
    assert Witnessed(w, t, dist, durations, next, walks, i, j);
  }

  /**
   * `next[c][d]` is an airport one leg from `c` whose distance to `d` is
   * exactly that leg shorter.
   */
  ghost predicate Hop(w: Weights, V: set<Node>, dist: Table<Dist>, next: Table<Option<Node>>, c: Node, d: Node) {
    var x := Cell(next, c, d, None);
    && Cell(dist, c, d, Inf).Fin?
    && x.Some? && x.value in V && IsEdge(w, c, x.value)
    && Cell(dist, x.value, d, Inf).Fin?
    && Cell(dist, c, d, Inf).v == w[c][x.value] + Cell(dist, x.value, d, Inf).v
  }

  /** In the finished tables every finite entry between two airports has such a hop. */
  lemma HopToward(w: Weights, t: Weights, V: set<Node>, dist: Table<Dist>, durations: Table<Dist>,
                  next: Table<Option<Node>>, walks: Table<seq<Node>>, c: Node, d: Node)
    requires Closed(w, V) && Sound(w, t, V, dist, durations, next, walks) && Bound(w, V, V, dist)
    requires c in V && d in V && c != d && Cell(dist, c, d, Inf).Fin?
    ensures Hop(w, V, dist, next, c, d)
  {
    assert Witnessed(w, t, dist, durations, next, walks, c, d);
    var p := Cell(walks, c, d, []);
    var x := p[1];
    assert IsEdge(w, p[0], p[1]);
    SubPath(w, p, c, d, 1, |p| - 1);
    assert p[1..|p|] == p[1..];
    PathInside(w, V, p[1..], x, d);
    assert Inner(p[1..], V);
    BelowAt(w, V, x, d, Cell(dist, x, d, Inf), p[1..]);
    assert Witnessed(w, t, dist, durations, next, walks, x, d);
    var q := Cell(walks, x, d, []);
    var r := [c] + q;
    assert r[1..] == q;
    assert IsPath(w, r, c, d) by {
      forall m | 0 <= m < |r| - 1 ensures IsEdge(w, r[m], r[m + 1]) {
        if m > 0 {
          assert r[m] == q[m - 1] && r[m + 1] == q[m];
        }
      }
    }
    PathInside(w, V, r, c, d);
    assert Inner(r, V);
    BelowAt(w, V, c, d, Cell(dist, c, d, Inf), r);
  }

  /** In the finished tables the entries are non-negative and `dist[d][d]` is 0. */
  lemma EntriesFacts(w: Weights, t: Weights, V: set<Node>, dist: Table<Dist>, durations: Table<Dist>,
                     next: Table<Option<Node>>, walks: Table<seq<Node>>, c: Node, d: Node)
    requires NonNegative(w) && Sound(w, t, V, dist, durations, next, walks) && Bound(w, V, V, dist)
    requires c in V && d in V
    ensures Cell(dist, c, d, Inf).Fin? ==> Cell(dist, c, d, Inf).v >= 0
    ensures Cell(dist, d, d, Inf) == Fin(0)
  {
    assert Witnessed(w, t, dist, durations, next, walks, c, d);
    if Cell(dist, c, d, Inf).Fin? {
      NonNegativeWeight(w, Cell(walks, c, d, []));
    }
    assert IsPath(w, [d], d, d) && Inner([d], V);
    BelowAt(w, V, d, d, Cell(dist, d, d, Inf), [d]);
    assert Witnessed(w, t, dist, durations, next, walks, d, d);
    NonNegativeWeight(w, Cell(walks, d, d, []));
  }

  /**
   * Lines 56-63: follow `next` from the source; with positive legs every hop
   * brings the distance left strictly down, so the loop reaches the destination
   * along a shortest path.
   */
  method FollowNext(ghost w: Weights, ghost t: Weights, ghost V: set<Node>, dist: Table<Dist>, ghost durations: Table<Dist>,
                    next: Table<Option<Node>>, ghost walks: Table<seq<Node>>, source: Node, destination: Node)
    returns (path: seq<Node>)
    requires Positive(w) && Closed(w, V) && Code("") !in V && source in V && destination in V
    requires Sound(w, t, V, dist, durations, next, walks) && Bound(w, V, V, dist)
    requires Cell(dist, source, destination, Inf).Fin?
    ensures IsPath(w, path, source, destination) && PathWeight(w, path) == Cell(dist, source, destination, Inf).v
    ensures source == destination ==> path == [source]
  {
    PositiveNonNegative(w);
    EntriesFacts(w, t, V, dist, durations, next, walks, source, destination);
    path := [source];
    var current := source;
    while current != destination
      invariant current in V && Cell(dist, current, destination, Inf).Fin?
      invariant source == destination ==> path == [source] && current == source
      invariant Cell(dist, current, destination, Inf).v >= 0
      invariant IsPath(w, path, source, current)
      invariant PathWeight(w, path) + Cell(dist, current, destination, Inf).v == Cell(dist, source, destination, Inf).v
      decreases Cell(dist, current, destination, Inf).v
    {
      HopToward(w, t, V, dist, durations, next, walks, current, destination);
      var hop := Cell(next, current, destination, None);
      if hop.None? || hop.value.code == "" {
        // `if (!current) break;`: never taken, the hop is an airport and no code is empty
        assert false;
        break;
      }
      ghost var previous := current;
      current := hop.value;
      EntriesFacts(w, t, V, dist, durations, next, walks, current, destination);
      PathAppend(w, path, source, previous, current);
      path := path + [current];
    }
  }

  /**
   * `floydWarshall(graph, source, destination)`: an empty path with distance
   * and duration 0 exactly when the destination cannot be reached; otherwise a
   * shortest path, its distance, and the duration of a shortest walk.
   */
  method FloydWarshall(graph: Graph, source: Node, destination: Node) returns (r: PathResult)
    requires WellFormed(graph) && Positive(DistanceWeights(graph))
    requires source in graph && destination in graph
    ensures r.path == [] <==> !Reachable(DistanceWeights(graph), source, destination)
    ensures r.path == [] ==> r.distance == Fin(0) && r.duration == Fin(0)
    ensures r.path != [] ==>
      && IsPath(DistanceWeights(graph), r.path, source, destination)
      && r.distance == Fin(PathWeight(DistanceWeights(graph), r.path))
      && IsShortest(DistanceWeights(graph), source, destination, r.distance)
    ensures r.path != [] ==>
      exists p :: && IsPath(DistanceWeights(graph), p, source, destination)
                  && PathWeight(DistanceWeights(graph), p) == r.distance.v
                  && r.duration == Fin(PathWeight(DurationWeights(graph), p))
    ensures source == destination ==> r == PathResult([source], Fin(0), Fin(0))
  {
    ghost var w, t, V := DistanceWeights(graph), DurationWeights(graph), graph.Keys;
    PositiveNonNegative(w);
    WellFormedClosed(graph);
    var nodes := KeyList(graph);
    var dist, durations, next, walks := InitTables(graph, nodes);
    InitFacts(graph, dist, durations, next, walks);
    dist, durations, next, walks := RelaxAll(w, t, V, nodes, dist, durations, next, walks);
    TablesShortest(w, t, V, dist, durations, next, walks, source, destination);
    ShortestInf(w, source, destination, Cell(dist, source, destination, Inf));
    EntriesFacts(w, t, V, dist, durations, next, walks, source, destination);
    if Cell(dist, source, destination, Inf) == Inf {
      return PathResult([], Fin(0), Fin(0));
    }
    var path := FollowNext(w, t, V, dist, durations, next, walks, source, destination);
    assert Witnessed(w, t, dist, durations, next, walks, source, destination);
    if source == destination {
      PositiveWeight(w, Cell(walks, source, destination, []));
    }
    r := PathResult(path, Cell(dist, source, destination, Inf), Cell(durations, source, destination, Inf));
  }
}
