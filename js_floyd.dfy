/**
 * `floydWarshall(graph, airports, sourceCode, destinationCode)` of
 * `src/algorithms/`: airports are numbered by their position in the list, an
 * n x n matrix `dist` (and `next`, the index of the second airport of the
 * best walk seen) is filled from the direct connections, improved in place
 * through every index `k` in turn, and a next-hop walk leads from the source
 * to the destination.
 *
 * The matrices are `array2`s updated cell by cell as in the source. Next to
 * them the model keeps, as ghost state, the walk `walks[(i, j)]` that each
 * finite `dist[i][j]` measures; it is what the invariants talk about.
 */
module JsFloyd {
  import opened Paths
  import opened Types
  import opened JsGraph
  import UtilsFloyd

  /** The recorded walks, by pair of indices. */
  type Walks = map<(int, int), seq<Node>>

  // ---------------------------------------------------------------------
  // The graph as the matrix sees it
  // ---------------------------------------------------------------------

  /** The distance of the last connection of `row` to `v`, if any: the write that survives (line 28). */
  function Last(row: seq<Conn>, v: Node): Option<int>
    decreases |row|
  {
    if |row| == 0 then None
    else if row[|row| - 1].to == v then Some(row[|row| - 1].distance)
    else Last(row[..|row| - 1], v)
  }

  /** `Last` finds exactly the connections to `v`, and the distance of the last of them. */
  lemma {:induction false} LastFacts(row: seq<Conn>, v: Node)
    ensures Last(row, v).None? <==> forall k :: 0 <= k < |row| ==> row[k].to != v
    ensures Last(row, v).Some? ==>
      exists k :: && 0 <= k < |row| && row[k].to == v && row[k].distance == Last(row, v).value
                  && forall k' :: k < k' < |row| ==> row[k'].to != v
    decreases |row|
  {
    if |row| > 0 {
      var init := row[..|row| - 1];
      LastFacts(init, v);
      assert forall k :: 0 <= k < |init| ==> init[k] == row[k];
      if row[|row| - 1].to != v && Last(init, v).Some? {
        var k :| && 0 <= k < |init| && init[k].to == v && init[k].distance == Last(init, v).value
                 && forall k' :: k < k' < |init| ==> init[k'].to != v;
        assert row[k] == init[k];
      }
    }
  }

  /** One more connection changes the last one to its own endpoint only. */
  lemma LastSnoc(row: seq<Conn>, c: nat, v: Node)
    requires c < |row|
    ensures Last(row[..c + 1], v) == if row[c].to == v then Some(row[c].distance) else Last(row[..c], v)
  {
    assert row[..c + 1][..c] == row[..c];
  }

  /** Where a row holds at most one connection to `v`, the last one is also the lightest one. */
  lemma LastIsLightest(row: seq<Conn>, v: Node)
    requires forall k1, k2 :: 0 <= k1 < k2 < |row| ==> row[k1].to != v || row[k2].to != v
    ensures Last(row, v) == Lightest(row, v)
  {
    LastFacts(row, v);
    LightestFacts(row, v);
    if Last(row, v).Some? {
      var k :| 0 <= k < |row| && row[k].to == v && row[k].distance == Last(row, v).value;
      var k' :| 0 <= k' < |row| && row[k'].to == v && row[k'].distance == Lightest(row, v).value;
    }
  }

  /**
   * The weight matrix the algorithm works on: over the airports `V`, a leg
   * weighs as much as the last connection listed for it.
   */
  function LastWeights(graph: AdjList, V: set<Node>): (w: Weights)
    ensures forall u :: u in w <==> u in graph && u in V
    ensures forall u, v {:trigger v in w[u]} :: u in w ==> (v in w[u] <==> v in V && Last(graph[u], v).Some?)
    ensures forall u, v {:trigger w[u][v]} :: u in w && v in w[u] ==> w[u][v] == Last(graph[u], v).value
  {
    map u | u in graph && u in V :: map v | v in V && Last(graph[u], v).Some? :: Last(graph[u], v).value
  }

  /** No adjacency array lists the same destination twice. */
  ghost predicate SimpleRows(graph: AdjList) {
    forall u, k1, k2 :: u in graph && 0 <= k1 < k2 < |graph[u]| ==> graph[u][k1].to != graph[u][k2].to
  }

  /** Without parallel connections the matrix agrees with the one of the other algorithms. */
  lemma SameWeights(graph: AdjList, V: set<Node>)
    requires SimpleRows(graph)
    ensures LastWeights(graph, V) == LegWeights(graph, V)
  {
    var w, w' := LastWeights(graph, V), LegWeights(graph, V);
    forall u | u in w ensures w[u] == w'[u] {
      forall v ensures Last(graph[u], v) == Lightest(graph[u], v) {
        LastIsLightest(graph[u], v);
      }
    }
  }

  /** Every airport code with connections is in the list (`codeToIndex[from]` is then defined). */
  ghost predicate RowsListed(graph: AdjList, airports: seq<Node>) {
    forall u :: u in graph && |graph[u]| > 0 ==> u in airports
  }

  /** No connection leads back to its own airport. */
  ghost predicate NoSelfLoops(graph: AdjList) {
    forall u, k :: u in graph && 0 <= k < |graph[u]| ==> graph[u][k].to != u
  }

  // ---------------------------------------------------------------------
  // Lines 5-31: the index and the initial matrices
  // ---------------------------------------------------------------------

  /** `index` maps every code of `codes` to the position of its last occurrence. */
  ghost predicate IndexOf(codes: seq<Node>, index: map<Node, nat>) {
    && (forall v :: v in index <==> v in codes)
    && (forall v :: v in index ==> index[v] < |codes| && codes[index[v]] == v)
    && (forall v, c :: v in index && index[v] < c < |codes| ==> codes[c] != v)
  }

  /** Lines 7-12: `codeToIndex[code] = index` for each code in turn; for distinct codes it inverts the list. */
  method IndexCodes(codes: seq<Node>) returns (index: map<Node, nat>)
    ensures IndexOf(codes, index)
    ensures Distinct(codes) ==> forall c :: 0 <= c < |codes| ==> codes[c] in index && index[codes[c]] == c
  {
    index := map[];
    for c := 0 to |codes|
      invariant forall v :: v in index <==> v in codes[..c]
      invariant forall v :: v in index ==> index[v] < c && codes[index[v]] == v
      invariant forall v, c' :: v in index && index[v] < c' < c ==> codes[c'] != v
    {
      index := index[codes[c] := c];
    }
    assert codes[..|codes|] == codes;
  }

  /** Entry (i, j) once the connections `row` of airport i are in: the last one to j, else 0 on the diagonal, else Infinity. */
  function Entry(row: seq<Conn>, codes: seq<Node>, i: nat, j: nat): Dist
    requires i < |codes| && j < |codes|
  {
    var last := Last(row, codes[j]);
    if last.Some? then Fin(last.value) else if i == j then Fin(0) else Inf
  }

  /** `next[i][j]` once the connections `row` of airport i are in. */
  function EntryHop(row: seq<Conn>, codes: seq<Node>, j: nat): Option<nat>
    requires j < |codes|
  {
    if Last(row, codes[j]).Some? then Some(j) else None
  }

  /** The connections of airport i already copied when the airports `done` have been. */
  function Copied(graph: AdjList, codes: seq<Node>, done: seq<Node>, i: nat): seq<Conn>
    requires i < |codes|
  {
    if codes[i] in done then Row(graph, codes[i]) else []
  }

  ghost predicate Square<T>(a: array2<T>, n: nat) {
    a.Length0 == n && a.Length1 == n
  }

  /** The matrices after lines 15-31. */
  ghost predicate Initial(graph: AdjList, codes: seq<Node>, dist: array2<Dist>, next: array2<Option<nat>>)
    reads dist, next
  {
    && Square(dist, |codes|) && Square(next, |codes|)
    && forall i, j :: 0 <= i < |codes| && 0 <= j < |codes| ==>
      dist[i, j] == Entry(Row(graph, codes[i]), codes, i, j) && next[i, j] == EntryHop(Row(graph, codes[i]), codes, j)
  }

  /** Lines 15-21: Infinity everywhere but 0 on the diagonal, and no hops. */
  method NewMatrices(n: nat) returns (dist: array2<Dist>, next: array2<Option<nat>>)
    ensures fresh(dist) && fresh(next) && Square(dist, n) && Square(next, n)
    ensures forall i, j :: 0 <= i < n && 0 <= j < n ==> dist[i, j] == (if i == j then Fin(0) else Inf) && next[i, j] == None
  {
    dist := new Dist[n, n]((i, j) => Inf);
    next := new Option<nat>[n, n]((i, j) => None);
    for i := 0 to n
      invariant forall a, b :: 0 <= a < n && 0 <= b < n ==> dist[a, b] == (if a == b && a < i then Fin(0) else Inf)
      invariant forall a, b :: 0 <= a < n && 0 <= b < n ==> next[a, b] == None
    {
      dist[i, i] := Fin(0);
    }
  }

  /** The connections of airport i already copied while the first of `from`'s are copied after the airports `done`. */
  function Sofar(graph: AdjList, codes: seq<Node>, done: seq<Node>, from: Node, prefix: seq<Conn>, i: nat): seq<Conn>
    requires i < |codes|
  {
    if codes[i] == from then prefix else Copied(graph, codes, done, i)
  }

  /** `d` and `hop` are entry (i, j) of `dist` and `next` once the connections `row` of airport i are in. */
  ghost predicate Cell(row: seq<Conn>, codes: seq<Node>, i: nat, j: nat, d: Dist, hop: Option<nat>)
    requires i < |codes| && j < |codes|
  {
    d == Entry(row, codes, i, j) && hop == EntryHop(row, codes, j)
  }

  /** A connection to another airport leaves entry (i, j) as it was. */
  lemma CellSnoc(row: seq<Conn>, c: nat, codes: seq<Node>, i: nat, j: nat, d: Dist, hop: Option<nat>)
    requires c < |row| && i < |codes| && j < |codes| && row[c].to != codes[j]
    requires Cell(row[..c], codes, i, j, d, hop)
    ensures Cell(row[..c + 1], codes, i, j, d, hop)
  {
    LastSnoc(row, c, codes[j]);
  }

  /** A connection to airport j overwrites entry (i, j) with its distance and hop j. */
  lemma CellWrite(row: seq<Conn>, c: nat, codes: seq<Node>, i: nat, j: nat)
    requires c < |row| && i < |codes| && j < |codes| && row[c].to == codes[j]
    ensures Cell(row[..c + 1], codes, i, j, Fin(row[c].distance), Some(j))
  {
    LastSnoc(row, c, codes[j]);
  }

  /**
   * Lines 27-29 for connection `c` of airport `from`: it overwrites the cell of
   * its destination. A destination outside the list has no index, so the
   * source's write lands on a property `undefined` of the row that no loop reads.
   */
  method CopyConnection(graph: AdjList, codes: seq<Node>, index: map<Node, nat>, done: seq<Node>, from: Node, c: nat,
                        dist: array2<Dist>, next: array2<Option<nat>>)
    modifies dist, next
    requires Distinct(codes) && IndexOf(codes, index) && from in graph && from in codes && c < |graph[from]|
    requires Square(dist, |codes|) && Square(next, |codes|)
    requires forall i, j :: 0 <= i < |codes| && 0 <= j < |codes| ==>
      Cell(Sofar(graph, codes, done, from, graph[from][..c], i), codes, i, j, dist[i, j], next[i, j])
    ensures forall i, j :: 0 <= i < |codes| && 0 <= j < |codes| ==>
      Cell(Sofar(graph, codes, done, from, graph[from][..c + 1], i), codes, i, j, dist[i, j], next[i, j])
  {
    var connection := graph[from][c];
    if connection.to in index {
      var fromIndex, toIndex := index[from], index[connection.to];
      dist[fromIndex, toIndex] := Fin(connection.distance);
      next[fromIndex, toIndex] := Some(toIndex);
    }
    forall i, j | 0 <= i < |codes| && 0 <= j < |codes|
      ensures Cell(Sofar(graph, codes, done, from, graph[from][..c + 1], i), codes, i, j, dist[i, j], next[i, j])
    {
      if codes[i] == from && codes[j] == connection.to {
        CellWrite(graph[from], c, codes, i, j);
      } else if codes[i] == from {
        assert Cell(graph[from][..c], codes, i, j, old(dist[i, j]), old(next[i, j]));
        CellSnoc(graph[from], c, codes, i, j, dist[i, j], next[i, j]);
      } else {
        assert Cell(Sofar(graph, codes, done, from, graph[from][..c], i), codes, i, j, old(dist[i, j]), old(next[i, j]));
      }
    }
  }

  /** Lines 26-30 for one airport `from`: its connections in turn. */
  method CopyRow(graph: AdjList, codes: seq<Node>, index: map<Node, nat>, done: seq<Node>, from: Node,
                 dist: array2<Dist>, next: array2<Option<nat>>)
    modifies dist, next
    requires Distinct(codes) && IndexOf(codes, index) && RowsListed(graph, codes)
    requires from in graph && from !in done
    requires Square(dist, |codes|) && Square(next, |codes|)
    requires forall i, j :: 0 <= i < |codes| && 0 <= j < |codes| ==>
      dist[i, j] == Entry(Copied(graph, codes, done, i), codes, i, j) && next[i, j] == EntryHop(Copied(graph, codes, done, i), codes, j)
    ensures forall i, j :: 0 <= i < |codes| && 0 <= j < |codes| ==>
      dist[i, j] == Entry(Copied(graph, codes, done + [from], i), codes, i, j)
      && next[i, j] == EntryHop(Copied(graph, codes, done + [from], i), codes, j)
  {
    var connections := graph[from];
    forall i, j | 0 <= i < |codes| && 0 <= j < |codes|
      ensures Cell(Sofar(graph, codes, done, from, connections[..0], i), codes, i, j, dist[i, j], next[i, j])
    {
    }
    for c := 0 to |connections|
      invariant forall i, j :: 0 <= i < |codes| && 0 <= j < |codes| ==>
        Cell(Sofar(graph, codes, done, from, connections[..c], i), codes, i, j, dist[i, j], next[i, j])
    {
      CopyConnection(graph, codes, index, done, from, c, dist, next);
    }
    assert connections[..|connections|] == connections;
    forall i, j | 0 <= i < |codes| && 0 <= j < |codes|
      ensures dist[i, j] == Entry(Copied(graph, codes, done + [from], i), codes, i, j)
      ensures next[i, j] == EntryHop(Copied(graph, codes, done + [from], i), codes, j)
    {
      assert Cell(Sofar(graph, codes, done, from, connections, i), codes, i, j, dist[i, j], next[i, j]);
    }
  }

  /** Lines 24-31: `Object.entries(graph).forEach(...)`, in some order of the keys. */
  method CopyConnections(graph: AdjList, codes: seq<Node>, index: map<Node, nat>, dist: array2<Dist>, next: array2<Option<nat>>)
    modifies dist, next
    requires Distinct(codes) && IndexOf(codes, index) && RowsListed(graph, codes)
    requires Square(dist, |codes|) && Square(next, |codes|)
    requires forall i, j :: 0 <= i < |codes| && 0 <= j < |codes| ==> dist[i, j] == (if i == j then Fin(0) else Inf) && next[i, j] == None
    ensures Initial(graph, codes, dist, next)
  {
    var froms := KeyList(graph);
    for e := 0 to |froms|
      invariant forall i, j :: 0 <= i < |codes| && 0 <= j < |codes| ==>
        dist[i, j] == Entry(Copied(graph, codes, froms[..e], i), codes, i, j)
        && next[i, j] == EntryHop(Copied(graph, codes, froms[..e], i), codes, j)
    {
      assert froms[..e + 1] == froms[..e] + [froms[e]];
      assert froms[e] !in froms[..e];
      CopyRow(graph, codes, index, froms[..e], froms[e], dist, next);
    }
    forall i | 0 <= i < |codes| ensures Copied(graph, codes, froms, i) == Row(graph, codes[i]) {
    }
    assert froms[..|froms|] == froms;
  }

  // ---------------------------------------------------------------------
  // What the matrices mean
  // ---------------------------------------------------------------------

  /**
   * A finite `dist[i][j]` is the weight of the recorded walk from airport i
   * to airport j, and for i != j `next[i][j]` is the index of its second airport.
   */
  ghost predicate Witnessed(w: Weights, codes: seq<Node>, walks: Walks, i: nat, j: nat, d: Dist, hop: Option<nat>)
    requires i < |codes| && j < |codes|
  {
    d.Fin? ==>
      && (i, j) in walks
      && IsPath(w, walks[(i, j)], codes[i], codes[j]) && PathWeight(w, walks[(i, j)]) == d.v
      && (i != j ==> |walks[(i, j)]| >= 2 && hop.Some? && hop.value < |codes| && codes[hop.value] == walks[(i, j)][1])
  }

  ghost predicate Sound(w: Weights, codes: seq<Node>, walks: Walks, dist: array2<Dist>, next: array2<Option<nat>>)
    reads dist, next
  {
    && Square(dist, |codes|) && Square(next, |codes|)
    && forall i, j :: 0 <= i < |codes| && 0 <= j < |codes| ==> Witnessed(w, codes, walks, i, j, dist[i, j], next[i, j])
  }

  /** Every entry bounds the walks between its airports whose inner airports lie in `K`. */
  ghost predicate Bound(w: Weights, codes: seq<Node>, K: set<Node>, dist: array2<Dist>)
    reads dist
  {
    && Square(dist, |codes|)
    && forall i, j :: 0 <= i < |codes| && 0 <= j < |codes| ==> UtilsFloyd.Below(w, K, codes[i], codes[j], dist[i, j])
  }

  /** The walk recorded for each entry before the main loop: the airport alone, or the direct leg. */
  function InitialWalks(codes: seq<Node>): (walks: Walks)
    ensures forall i, j :: 0 <= i < |codes| && 0 <= j < |codes| ==>
      (i, j) in walks && walks[(i, j)] == if i == j then [codes[i]] else [codes[i], codes[j]]
  {
    map i, j | 0 <= i < |codes| && 0 <= j < |codes| :: (i, j) := if i == j then [codes[i]] else [codes[i], codes[j]]
  }

  /** Without self-loops the diagonal starts at 0. */
  lemma NoDiagonal(graph: AdjList, u: Node)
    requires NoSelfLoops(graph)
    ensures Last(Row(graph, u), u).None?
  {
    LastFacts(Row(graph, u), u);
  }

  /** One entry of the initial matrices is witnessed and bounds the walks without inner airports. */
  lemma InitialCell(graph: AdjList, codes: seq<Node>, i: nat, j: nat)
    requires Distinct(codes) && NoSelfLoops(graph) && NonNegative(LastWeights(graph, Codes(codes)))
    requires i < |codes| && j < |codes|
    ensures Witnessed(LastWeights(graph, Codes(codes)), codes, InitialWalks(codes), i, j,
                      Entry(Row(graph, codes[i]), codes, i, j), EntryHop(Row(graph, codes[i]), codes, j))
    ensures UtilsFloyd.Below(LastWeights(graph, Codes(codes)), {}, codes[i], codes[j], Entry(Row(graph, codes[i]), codes, i, j))
  {
    var w := LastWeights(graph, Codes(codes));
    var d := Entry(Row(graph, codes[i]), codes, i, j);
    NoDiagonal(graph, codes[i]);
    if Last(Row(graph, codes[i]), codes[j]).Some? {
      assert i != j;
      assert IsEdge(w, codes[i], codes[j]);
      assert PathWeight(w, [codes[i], codes[j]]) == w[codes[i]][codes[j]] + PathWeight(w, [codes[j]]);
    }
    forall p | IsPath(w, p, codes[i], codes[j]) && UtilsFloyd.Inner(p, {}) ensures Le(d, Fin(PathWeight(w, p))) {
      UtilsFloyd.InnerFirst(p, {});
      if |p| == 2 {
        assert IsEdge(w, p[0], p[1]);
        assert PathWeight(w, p[1..]) == 0;
      } else {
        assert codes[i] == codes[j];
      }
    }
  }

  /** Before the main loop the matrices are witnessed and bound the walks without inner airports. */
  lemma InitFacts(graph: AdjList, codes: seq<Node>, dist: array2<Dist>, next: array2<Option<nat>>) returns (walks: Walks)
    requires Distinct(codes) && NoSelfLoops(graph) && NonNegative(LastWeights(graph, Codes(codes)))
    requires Initial(graph, codes, dist, next)
    ensures Sound(LastWeights(graph, Codes(codes)), codes, walks, dist, next)
    ensures Bound(LastWeights(graph, Codes(codes)), codes, {}, dist)
  {
    walks := InitialWalks(codes);
    forall i, j | 0 <= i < |codes| && 0 <= j < |codes|
      ensures Witnessed(LastWeights(graph, Codes(codes)), codes, walks, i, j, dist[i, j], next[i, j])
      ensures UtilsFloyd.Below(LastWeights(graph, Codes(codes)), {}, codes[i], codes[j], dist[i, j])
    {
      InitialCell(graph, codes, i, j);
    }
  }

  // ---------------------------------------------------------------------
  // Lines 37-40: one relaxation `dist[i][k] + dist[k][j] < dist[i][j]`
  // ---------------------------------------------------------------------

  /** Joining the recorded walks i..k and k..j records a walk i..j whose second airport is `next[i][k]`. */
  lemma WitnessJoin(w: Weights, codes: seq<Node>, walks: Walks, dist: array2<Dist>, next: array2<Option<nat>>, k: nat, i: nat, j: nat)
    requires NonNegative(w) && Sound(w, codes, walks, dist, next)
    requires i < |codes| && j < |codes| && k < |codes|
    requires Lt(Add(dist[i, k], dist[k, j]), dist[i, j])
    ensures Witnessed(w, codes, walks[(i, j) := walks[(i, k)] + walks[(k, j)][1..]], i, j, Add(dist[i, k], dist[k, j]), next[i, k])
  {
    assert Witnessed(w, codes, walks, i, k, dist[i, k], next[i, k]);
    assert Witnessed(w, codes, walks, k, j, dist[k, j], next[k, j]);
    var p, q := walks[(i, k)], walks[(k, j)];
    PathConcat(w, p, q, codes[i], codes[k], codes[j]);
    if i == k {
      NonNegativeWeight(w, p);
    }
  }

  /**
   * Lines 37-40 at (k, i, j): the entry becomes the smaller of itself and the
   * way through `k`, `next[i][j]` takes `next[i][k]` exactly when the entry
   * drops, and no other cell changes.
   */
  method RelaxCell(ghost w: Weights, ghost codes: seq<Node>, ghost K: set<Node>, dist: array2<Dist>, next: array2<Option<nat>>,
                   k: nat, i: nat, j: nat, ghost walks: Walks) returns (ghost walks': Walks)
    modifies dist, next
    requires NonNegative(w) && i < |codes| && j < |codes| && k < |codes|
    requires Sound(w, codes, walks, dist, next) && Bound(w, codes, K, dist)
    ensures dist[i, j] == Min(old(dist[i, j]), Add(old(dist[i, k]), old(dist[k, j])))
    ensures next[i, j] == if dist[i, j] != old(dist[i, j]) then old(next[i, k]) else old(next[i, j])
    ensures forall a, b :: 0 <= a < |codes| && 0 <= b < |codes| && (a != i || b != j) ==>
      dist[a, b] == old(dist[a, b]) && next[a, b] == old(next[a, b])
    ensures Sound(w, codes, walks', dist, next) && Bound(w, codes, K, dist)
    ensures UtilsFloyd.Below(w, K + {codes[k]}, codes[i], codes[j], dist[i, j])
  {
    UtilsFloyd.StepBound(w, K, codes[k], codes[i], codes[j], dist[i, j], dist[i, k], dist[k, j]);
    walks' := walks;
    var through := Add(dist[i, k], dist[k, j]);
    if Lt(through, dist[i, j]) {
      WitnessJoin(w, codes, walks, dist, next, k, i, j);
      UtilsFloyd.BelowLower(w, K, codes[i], codes[j], dist[i, j], through);
      walks' := walks[(i, j) := walks[(i, k)] + walks[(k, j)][1..]];
      dist[i, j] := through;
      next[i, j] := next[i, k];
      forall a, b | 0 <= a < |codes| && 0 <= b < |codes| && (a != i || b != j)
        ensures Witnessed(w, codes, walks', a, b, dist[a, b], next[a, b])
      {
        assert Witnessed(w, codes, walks, a, b, old(dist[a, b]), old(next[a, b]));
      }
    }
  }

  // ---------------------------------------------------------------------
  // Lines 34-43: the three nested loops
  // ---------------------------------------------------------------------

  /** Line 36: the `j` loop for one `k` and one `i`; only row `i` changes. */
  method RelaxRow(ghost w: Weights, ghost codes: seq<Node>, ghost K: set<Node>, dist: array2<Dist>, next: array2<Option<nat>>,
                  k: nat, i: nat, ghost walks: Walks) returns (ghost walks': Walks)
    modifies dist, next
    requires NonNegative(w) && i < |codes| && k < |codes|
    requires Sound(w, codes, walks, dist, next) && Bound(w, codes, K, dist)
    ensures Sound(w, codes, walks', dist, next) && Bound(w, codes, K, dist)
    ensures forall j :: 0 <= j < |codes| ==> UtilsFloyd.Below(w, K + {codes[k]}, codes[i], codes[j], dist[i, j])
    ensures forall a, b :: 0 <= a < |codes| && 0 <= b < |codes| ==> Le(dist[a, b], old(dist[a, b]))
    ensures forall a, b :: 0 <= a < |codes| && 0 <= b < |codes| && a != i ==>
      dist[a, b] == old(dist[a, b]) && next[a, b] == old(next[a, b])
  {
    walks' := walks;
    var n := dist.Length1;
    for j := 0 to n
      invariant Sound(w, codes, walks', dist, next) && Bound(w, codes, K, dist)
      invariant forall c :: 0 <= c < j ==> UtilsFloyd.Below(w, K + {codes[k]}, codes[i], codes[c], dist[i, c])
      invariant forall a, b :: 0 <= a < |codes| && 0 <= b < |codes| ==> Le(dist[a, b], old(dist[a, b]))
      invariant forall a, b :: 0 <= a < |codes| && 0 <= b < |codes| && a != i ==>
        dist[a, b] == old(dist[a, b]) && next[a, b] == old(next[a, b])
    {
      walks' := RelaxCell(w, codes, K, dist, next, k, i, j, walks');
    }
  }

  /** Line 35: the `i` loop for one `k`; afterwards every entry bounds the walks through `K + {codes[k]}`. */
  method RelaxRound(ghost w: Weights, ghost codes: seq<Node>, ghost K: set<Node>, dist: array2<Dist>, next: array2<Option<nat>>,
                    k: nat, ghost walks: Walks) returns (ghost walks': Walks)
    modifies dist, next
    requires NonNegative(w) && k < |codes|
    requires Sound(w, codes, walks, dist, next) && Bound(w, codes, K, dist)
    ensures Sound(w, codes, walks', dist, next) && Bound(w, codes, K + {codes[k]}, dist)
    ensures forall a, b :: 0 <= a < |codes| && 0 <= b < |codes| ==> Le(dist[a, b], old(dist[a, b]))
  {
    walks' := walks;
    var n := dist.Length0;
    for i := 0 to n
      invariant Sound(w, codes, walks', dist, next) && Bound(w, codes, K, dist)
      invariant forall a, b :: 0 <= a < i && 0 <= b < |codes| ==> UtilsFloyd.Below(w, K + {codes[k]}, codes[a], codes[b], dist[a, b])
      invariant forall a, b :: 0 <= a < |codes| && 0 <= b < |codes| ==> Le(dist[a, b], old(dist[a, b]))
    {
      walks' := RelaxRow(w, codes, K, dist, next, k, i, walks');
    }
  }

  /** A bound over the walks through a bigger set is a bound over the walks through a smaller one. */
  lemma BoundShrink(w: Weights, codes: seq<Node>, K: set<Node>, K': set<Node>, dist: array2<Dist>)
    requires Bound(w, codes, K, dist) && forall v :: v in K' ==> v in K
    ensures Bound(w, codes, K', dist)
  {
    forall i, j, p | 0 <= i < |codes| && 0 <= j < |codes| && IsPath(w, p, codes[i], codes[j]) && UtilsFloyd.Inner(p, K')
      ensures Le(dist[i, j], Fin(PathWeight(w, p)))
    {
      assert UtilsFloyd.Inner(p, K);
      UtilsFloyd.BelowAt(w, K, codes[i], codes[j], dist[i, j], p);
    }
  }

  /** Line 34: the `k` loop; afterwards every entry bounds every walk between airports of the list. */
  method RelaxAll(ghost w: Weights, ghost codes: seq<Node>, dist: array2<Dist>, next: array2<Option<nat>>, ghost walks: Walks)
    returns (ghost walks': Walks)
    modifies dist, next
    requires NonNegative(w) && Sound(w, codes, walks, dist, next) && Bound(w, codes, {}, dist)
    ensures Sound(w, codes, walks', dist, next) && Bound(w, codes, Codes(codes), dist)
    ensures forall a, b :: 0 <= a < |codes| && 0 <= b < |codes| ==> Le(dist[a, b], old(dist[a, b]))
  {
    walks' := walks;
    ghost var K: set<Node> := {};
    var n := dist.Length0;
    for k := 0 to n
      invariant Sound(w, codes, walks', dist, next) && Bound(w, codes, K, dist)
      invariant forall c :: 0 <= c < k ==> codes[c] in K
      invariant forall a, b :: 0 <= a < |codes| && 0 <= b < |codes| ==> Le(dist[a, b], old(dist[a, b]))
    {
      walks' := RelaxRound(w, codes, K, dist, next, k, walks');
      K := K + {codes[k]};
    }
    BoundShrink(w, codes, K, Codes(codes), dist);
  }

  // ---------------------------------------------------------------------
  // The finished matrices
  // ---------------------------------------------------------------------

  /** Once every airport has been `k`, each entry is the shortest distance. */
  lemma MatrixShortest(w: Weights, codes: seq<Node>, walks: Walks, dist: array2<Dist>, next: array2<Option<nat>>, i: nat, j: nat)
    requires Closed(w, Codes(codes)) && Sound(w, codes, walks, dist, next) && Bound(w, codes, Codes(codes), dist)
    requires i < |codes| && j < |codes|
    ensures IsShortest(w, codes[i], codes[j], dist[i, j])
  {
    forall p | IsPath(w, p, codes[i], codes[j]) ensures Le(dist[i, j], Fin(PathWeight(w, p))) {
      PathInside(w, Codes(codes), p, codes[i], codes[j]);
      assert UtilsFloyd.Inner(p, Codes(codes));
      UtilsFloyd.BelowAt(w, Codes(codes), codes[i], codes[j], dist[i, j], p);
    }
    assert Witnessed(w, codes, walks, i, j, dist[i, j], next[i, j]);
  }

  /** In the finished matrices the entries are non-negative and the diagonal is 0. */
  lemma EntryFacts(w: Weights, codes: seq<Node>, walks: Walks, dist: array2<Dist>, next: array2<Option<nat>>, c: nat, d: nat)
    requires NonNegative(w) && Sound(w, codes, walks, dist, next) && Bound(w, codes, Codes(codes), dist)
    requires c < |codes| && d < |codes|
    ensures dist[c, d].Fin? ==> dist[c, d].v >= 0
    ensures dist[d, d] == Fin(0)
  {
    assert Witnessed(w, codes, walks, c, d, dist[c, d], next[c, d]);
    if dist[c, d].Fin? {
      NonNegativeWeight(w, walks[(c, d)]);
    }
    assert IsPath(w, [codes[d]], codes[d], codes[d]) && UtilsFloyd.Inner([codes[d]], Codes(codes));
    UtilsFloyd.BelowAt(w, Codes(codes), codes[d], codes[d], dist[d, d], [codes[d]]);
    assert Witnessed(w, codes, walks, d, d, dist[d, d], next[d, d]);
    NonNegativeWeight(w, walks[(d, d)]);
  }

  /**
   * `next[c][d]` is the index of an airport one leg from airport c whose
   * distance to d is exactly that leg shorter.
   */
  ghost predicate Hop(w: Weights, codes: seq<Node>, dist: array2<Dist>, next: array2<Option<nat>>, c: nat, d: nat)
    reads dist, next
    requires Square(dist, |codes|) && Square(next, |codes|) && c < |codes| && d < |codes|
  {
    var x := next[c, d];
    && dist[c, d].Fin?
    && x.Some? && x.value < |codes| && IsEdge(w, codes[c], codes[x.value])
    && dist[x.value, d].Fin?
    && dist[c, d].v == w[codes[c]][codes[x.value]] + dist[x.value, d].v
  }

  /** In the finished matrices every finite entry off the diagonal has such a hop. */
  lemma HopToward(w: Weights, codes: seq<Node>, walks: Walks, dist: array2<Dist>, next: array2<Option<nat>>, c: nat, d: nat)
    requires Closed(w, Codes(codes)) && Sound(w, codes, walks, dist, next) && Bound(w, codes, Codes(codes), dist)
    requires c < |codes| && d < |codes| && c != d && dist[c, d].Fin?
    ensures Hop(w, codes, dist, next, c, d)
  {
    var V := Codes(codes);
    assert Witnessed(w, codes, walks, c, d, dist[c, d], next[c, d]);
    var p := walks[(c, d)];
    var x := next[c, d].value;
    assert IsEdge(w, p[0], p[1]);
    SubPath(w, p, codes[c], codes[d], 1, |p| - 1);
    assert p[1..|p|] == p[1..];
    PathInside(w, V, p[1..], codes[x], codes[d]);
    assert UtilsFloyd.Inner(p[1..], V);
    UtilsFloyd.BelowAt(w, V, codes[x], codes[d], dist[x, d], p[1..]);
    assert Witnessed(w, codes, walks, x, d, dist[x, d], next[x, d]);
    var q := walks[(x, d)];
    var r := [codes[c]] + q;
    assert r[1..] == q;
    assert IsPath(w, r, codes[c], codes[d]) by {
      forall m | 0 <= m < |r| - 1 ensures IsEdge(w, r[m], r[m + 1]) {
        if m > 0 {
          assert r[m] == q[m - 1] && r[m + 1] == q[m];
        }
      }
    }
    PathInside(w, V, r, codes[c], codes[d]);
    assert UtilsFloyd.Inner(r, V);
    UtilsFloyd.BelowAt(w, V, codes[c], codes[d], dist[c, d], r);
  }

  /**
   * Lines 53-63: push the current airport and follow `next` toward the
   * destination. With positive legs every hop brings the distance left
   * strictly down, so the loop ends at the destination along a shortest path;
   * the `null` hop of lines 59-61 never occurs.
   */
  method FollowNext(ghost w: Weights, codes: seq<Node>, ghost walks: Walks, dist: array2<Dist>, next: array2<Option<nat>>,
                    source: nat, destination: nat) returns (path: seq<Node>)
    requires Positive(w) && Closed(w, Codes(codes)) && source < |codes| && destination < |codes|
    requires Sound(w, codes, walks, dist, next) && Bound(w, codes, Codes(codes), dist)
    requires dist[source, destination].Fin?
    ensures IsPath(w, path, codes[source], codes[destination]) && PathWeight(w, path) == dist[source, destination].v
    ensures source == destination ==> path == [codes[source]]
  {
    PositiveNonNegative(w);
    EntryFacts(w, codes, walks, dist, next, source, destination);
    path := [];
    var current: nat := source;
    while current != destination
      invariant current < |codes| && dist[current, destination].Fin? && dist[current, destination].v >= 0
      invariant source == destination ==> path == [] && current == source
      invariant IsPath(w, path + [codes[current]], codes[source], codes[current])
      invariant PathWeight(w, path + [codes[current]]) + dist[current, destination].v == dist[source, destination].v
      decreases dist[current, destination].v
    {
      HopToward(w, codes, walks, dist, next, current, destination);
      ghost var previous := current;
      path := path + [codes[current]];
      var hop := next[current, destination];
      if hop.None? {
        assert false;
        break;
      }
      current := hop.value;
      EntryFacts(w, codes, walks, dist, next, current, destination);
      PathAppend(w, path, codes[source], codes[previous], codes[current]);
    }
    path := path + [codes[destination]];
  }

  /**
   * `floydWarshall(graph, airports, sourceCode, destinationCode)` over the
   * matrix of last connections: the `Error` of lines 49-51 exactly when the
   * destination cannot be reached; otherwise a shortest path, its distance,
   * and the distance over 10 as the duration in minutes.
   */
  method FloydWarshall(graph: AdjList, airports: seq<Node>, source: Node, destination: Node) returns (r: Result<Route>)
    requires Distinct(airports) && source in airports && destination in airports
    requires RowsListed(graph, airports) && NoSelfLoops(graph) && Positive(LastWeights(graph, Codes(airports)))
    ensures r.Success? <==> Reachable(LastWeights(graph, Codes(airports)), source, destination)
    ensures r.Failure? ==> r.error == NoPathFrom(source, destination)
    ensures r.Success? ==>
      && r.value.algorithm == "floyd-warshall"
      && IsPath(LastWeights(graph, Codes(airports)), r.value.path, source, destination)
      && PathWeight(LastWeights(graph, Codes(airports)), r.value.path) == r.value.distance
      && IsShortest(LastWeights(graph, Codes(airports)), source, destination, Fin(r.value.distance))
      && r.value.duration == Minutes(r.value.distance)
    ensures source == destination ==> r == Success(Route("floyd-warshall", [source], 0, Minutes(0)))
  {
    ghost var w := LastWeights(graph, Codes(airports));
    PositiveNonNegative(w);
    var codeToIndex := IndexCodes(airports);
    var dist, next := NewMatrices(|airports|);
    CopyConnections(graph, airports, codeToIndex, dist, next);
    ghost var walks := InitFacts(graph, airports, dist, next);
    walks := RelaxAll(w, airports, dist, next, walks);
    var sourceIndex, destIndex := codeToIndex[source], codeToIndex[destination];
    MatrixShortest(w, airports, walks, dist, next, sourceIndex, destIndex);
    ShortestInf(w, source, destination, dist[sourceIndex, destIndex]);
    EntryFacts(w, airports, walks, dist, next, sourceIndex, destIndex);
    if dist[sourceIndex, destIndex] == Inf {
      return Failure(NoPathFrom(source, destination));
    }
    var path := FollowNext(w, airports, walks, dist, next, sourceIndex, destIndex);
    var distance := dist[sourceIndex, destIndex].v;
    r := Success(Route("floyd-warshall", path, distance, Minutes(distance)));
  }
}
