/**
 * What the Dijkstra and A* incarnations have in common: a score table `g`,
 * a set `S` of settled (visited / closed) nodes whose edges have been
 * relaxed, and a predecessor table. The lemmas here carry the optimality
 * and path-reconstruction arguments once, for all copies.
 */
module Frontier {
  import opened Paths

  type Scores = map<Node, Dist>
  type Preds = map<Node, Option<Node>>

  /** `pred[v]`, where a missing entry reads as "no predecessor". */
  function Pred(pred: Preds, v: Node): Option<Node> {
    if v in pred then pred[v] else None
  }

  /** The A* ordering key g + h; Dijkstra is the case h = 0. */
  function Key(g: Scores, h: Node -> int, v: Node): Dist
    requires v in g
  {
    AddW(g[v], h(v))
  }

  /** Every settled node's score is a lower bound on the paths to it. */
  ghost predicate Settled(w: Weights, s: Node, S: set<Node>, g: Scores) {
    forall v, p {:trigger IsPath(w, p, s, v)} :: v in S && v in g && IsPath(w, p, s, v) ==> Le(g[v], Fin(PathWeight(w, p)))
  }

  /** The edges leaving settled nodes towards unsettled ones are relaxed. */
  ghost predicate Relaxed(w: Weights, S: set<Node>, V: set<Node>, g: Scores) {
    forall x, v {:trigger IsEdge(w, x, v)} :: x in S && v in V && v !in S && x in g && v in g && IsEdge(w, x, v) ==>
      Le(g[v], AddW(g[x], w[x][v]))
  }

  lemma FirstOutside(p: seq<Node>, S: set<Node>) returns (i: nat)
    requires |p| > 0 && p[|p| - 1] !in S
    ensures i < |p| && p[i] !in S
    ensures forall j :: 0 <= j < i ==> p[j] in S
  {
    if p[0] !in S {
      i := 0;
    } else {
      var k := FirstOutside(p[1..], S);
      i := k + 1;
    }
  }

  /**
   * The heart of Dijkstra and A*: an unsettled node of least key has a
   * score no path to it can beat, provided the potential is consistent.
   */
  lemma SelectedIsSettled(w: Weights, h: Node -> int, V: set<Node>, S: set<Node>, g: Scores, s: Node, u: Node)
    requires Closed(w, V) && Consistent(w, h)
    requires V <= g.Keys && S <= V && s in V && u in V && u !in S
    requires s !in S ==> Le(g[s], Fin(0))
    requires Settled(w, s, S, g) && Relaxed(w, S, V, g)
    requires forall y :: y in V && y !in S ==> Le(Key(g, h, u), Key(g, h, y))
    ensures forall p {:trigger IsPath(w, p, s, u)} :: IsPath(w, p, s, u) ==> Le(g[u], Fin(PathWeight(w, p)))
  {
    forall p | IsPath(w, p, s, u) ensures Le(g[u], Fin(PathWeight(w, p))) {
      PathInside(w, V, p, s, u);
      var i := FirstOutside(p, S);
      var y := p[i];
      SubPath(w, p, s, u, i, |p| - 1);
      assert p[i..|p|] == p[i..];
      PotentialAlongPath(w, h, p[i..], y, u);
      PathWeightSplit(w, p, i);
      if i > 0 {
        var x := p[i - 1];
        SubPath(w, p, s, u, 0, i - 1);
        assert p[0..i] == p[..i];
        assert Le(g[x], Fin(PathWeight(w, p[..i])));
        assert IsEdge(w, x, y);
        PathWeightAppend(w, p[..i], y);
        assert p[..i] + [y] == p[..i + 1];
      }
      assert Le(g[y], Fin(PathWeight(w, p[..i + 1])));
    }
  }

  /** With non-negative weights the zero potential is consistent; Dijkstra is A* with h = 0. */
  lemma ZeroPotential(w: Weights)
    requires NonNegative(w)
    ensures Consistent(w, (v: Node) => 0)
  {
  }

  /** A path from the source to an unsettled node meets a finite unsettled node. */
  lemma FrontierMeetsPath(w: Weights, V: set<Node>, S: set<Node>, g: Scores, s: Node, d: Node, p: seq<Node>)
    requires Closed(w, V) && V <= g.Keys && S <= V && s in V && d !in S
    requires s !in S ==> g[s].Fin?
    requires forall x :: x in S ==> g[x].Fin?
    requires Relaxed(w, S, V, g) && IsPath(w, p, s, d)
    ensures exists y :: y in V && y !in S && g[y].Fin?
  {
    PathInside(w, V, p, s, d);
    var i := FirstOutside(p, S);
    if i > 0 {
      assert IsEdge(w, p[i - 1], p[i]);
    }
  }

  /** When every unsettled node is at Infinity, none of them is reachable. */
  lemma AllInfUnreachable(w: Weights, V: set<Node>, S: set<Node>, g: Scores, s: Node, d: Node)
    requires Closed(w, V) && V <= g.Keys && S <= V && s in V && d in V && d !in S
    requires s !in S ==> g[s].Fin?
    requires forall x :: x in S ==> g[x].Fin?
    requires Relaxed(w, S, V, g)
    requires forall y :: y in V && y !in S ==> g[y] == Inf
    ensures !Reachable(w, s, d)
  {
    if p :| IsPath(w, p, s, d) {
      FrontierMeetsPath(w, V, S, g, s, d, p);
    }
  }

  /**
   * What relaxing the edges of a newly settled `u` does to the scores: none
   * grows, settled ones (and u's) stay, and u's edges into the rest are relaxed.
   */
  ghost predicate Lowered(w: Weights, V: set<Node>, S: set<Node>, g: Scores, u: Node, g': Scores)
    requires V <= g.Keys && V <= g'.Keys && u in g
  {
    NoneRaised(V, S, g, u, g') && EdgesRelaxed(w, V, S, g, u, g')
  }

  ghost predicate NoneRaised(V: set<Node>, S: set<Node>, g: Scores, u: Node, g': Scores)
    requires V <= g.Keys && V <= g'.Keys
  {
    forall v {:trigger g'[v]} :: v in V ==> Le(g'[v], g[v]) && (v in S || v == u ==> g'[v] == g[v])
  }

  ghost predicate EdgesRelaxed(w: Weights, V: set<Node>, S: set<Node>, g: Scores, u: Node, g': Scores)
    requires V <= g.Keys && V <= g'.Keys && u in g
  {
    forall v {:trigger IsEdge(w, u, v)} :: v in V && v !in S && v != u && IsEdge(w, u, v) ==>
      Le(g'[v], AddW(g[u], w[u][v]))
  }

  /** Relaxing into the settled set and its frontier keeps `Relaxed`. */
  lemma RelaxedStep(w: Weights, V: set<Node>, S: set<Node>, g: Scores, u: Node, g': Scores)
    requires V <= g.Keys && V <= g'.Keys && S <= V && u in V
    requires Relaxed(w, S, V, g) && Lowered(w, V, S, g, u, g')
    ensures Relaxed(w, S + {u}, V, g')
  {
    forall x, v | x in S + {u} && v in V && v !in S + {u} && IsEdge(w, x, v)
      ensures Le(g'[v], AddW(g'[x], w[x][v]))
    {
      assert g'[x] == g[x] && Le(g'[v], g[v]);
    }
  }

  /** Adding a node whose score is a lower bound keeps `Settled`. */
  lemma SettledStep(w: Weights, V: set<Node>, s: Node, S: set<Node>, g: Scores, u: Node, g': Scores)
    requires V <= g.Keys && V <= g'.Keys && S <= V && u in V
    requires Settled(w, s, S, g) && Lowered(w, V, S, g, u, g')
    requires forall p {:trigger IsPath(w, p, s, u)} :: IsPath(w, p, s, u) ==> Le(g[u], Fin(PathWeight(w, p)))
    ensures Settled(w, s, S + {u}, g')
  {
    forall v, p | v in S + {u} && v in g' && IsPath(w, p, s, v) ensures Le(g'[v], Fin(PathWeight(w, p))) {
      assert g'[v] == g[v];
    }
  }

  // ---------------------------------------------------------------------
  // Predecessor tables
  // ---------------------------------------------------------------------

  /** The settle order: settled nodes are numbered 0..|S|-1, the rest get |V|. */
  ghost predicate RankFacts(V: set<Node>, S: set<Node>, rank: map<Node, nat>) {
    && S <= V && V <= rank.Keys
    && (forall v {:trigger rank[v]} :: v in S ==> rank[v] < |S|)
    && (forall v {:trigger rank[v]} :: v in V && v !in S ==> rank[v] == |V|)
  }

  ghost predicate PredLink(w: Weights, S: set<Node>, g: Scores, pred: Preds, rank: map<Node, nat>, s: Node, v: Node)
    requires v in g && v in rank
  {
    match Pred(pred, v)
    case None => v == s || g[v] == Inf
    case Some(u) =>
      && u in S && u in g && u in rank && IsEdge(w, u, v) && g[u].Fin?
      && g[v] == AddW(g[u], w[u][v]) && rank[u] < rank[v]
  }

  /**
   * Predecessor consistency: `pred[v] = u` means u is settled and
   * g[v] = g[u] + w(u, v); only the source is finite without a predecessor.
   */
  ghost predicate PredOk(w: Weights, V: set<Node>, S: set<Node>, g: Scores, pred: Preds, rank: map<Node, nat>, s: Node) {
    && V <= g.Keys && V <= rank.Keys && s in V && S <= V
    && Pred(pred, s) == None && g[s] == Fin(0)
    && (forall v {:trigger pred[v]} :: v in pred && pred[v].Some? ==> v in V)
    && (forall v {:trigger PredLink(w, S, g, pred, rank, s, v)} :: v in V ==> PredLink(w, S, g, pred, rank, s, v))
  }

  /** The effect of one settle-and-relax step on a score table and the predecessors. */
  ghost predicate StepFrom(w: Weights, V: set<Node>, S': set<Node>, g: Scores, pred: Preds, u: Node, g': Scores, pred': Preds)
    requires V <= g.Keys && V <= g'.Keys && u in g
  {
    && (forall v {:trigger Pred(pred', v)} :: v !in V ==> Pred(pred', v) == Pred(pred, v))
    && forall v {:trigger g'[v]} :: v in V ==>
      || (g'[v] == g[v] && Pred(pred', v) == Pred(pred, v))
      || (v !in S' && IsEdge(w, u, v) && g'[v] == AddW(g[u], w[u][v]) && Pred(pred', v) == Some(u))
  }

  lemma PredOkStep(w: Weights, V: set<Node>, S: set<Node>, g: Scores, pred: Preds, rank: map<Node, nat>, s: Node,
                   u: Node, g': Scores, pred': Preds)
    requires PredOk(w, V, S, g, pred, rank, s) && RankFacts(V, S, rank)
    requires u in V && u !in S && g[u].Fin? && s in S + {u}
    requires V <= g'.Keys && StepFrom(w, V, S + {u}, g, pred, u, g', pred')
    ensures PredOk(w, V, S + {u}, g', pred', rank[u := |S|], s)
    ensures RankFacts(V, S + {u}, rank[u := |S|])
  {
    var S', rank' := S + {u}, rank[u := |S|];
    assert |S'| == |S| + 1;
    assert |S'| <= |V| by {
      assert V == S' + (V - S') && S' * (V - S') == {};
    }
    forall v | v in V ensures PredLink(w, S', g', pred', rank', s, v) {
      assert PredLink(w, S, g, pred, rank, s, v);
      PredLinkStep(w, S, g, pred, rank, s, u, g', pred', v);
    }
    assert g'[s] == g[s] && Pred(pred', s) == Pred(pred, s);
    forall v | v in pred' && pred'[v].Some? ensures v in V {
      assert Pred(pred', v) == pred'[v];
    }
    assert RankFacts(V, S', rank') by {
      forall v | v in S' ensures rank'[v] < |S'| {
        if v != u {
          assert rank[v] < |S|;
        }
      }
    }
  }

  lemma PredLinkStep(w: Weights, S: set<Node>, g: Scores, pred: Preds, rank: map<Node, nat>, s: Node,
                     u: Node, g': Scores, pred': Preds, v: Node)
    requires v in g && v in g' && v in rank && u in g && u in g' && u in rank && u !in S && g[u].Fin?
    requires S <= rank.Keys && forall x {:trigger rank[x]} :: x in S ==> rank[x] < |S|
    requires v !in S + {u} ==> rank[v] > |S|
    requires PredLink(w, S, g, pred, rank, s, v)
    requires u != s ==> s in S
    requires S <= g.Keys && S <= g'.Keys && g'[u] == g[u]
    requires forall x {:trigger g'[x]} :: x in S ==> g'[x] == g[x]
    requires || (g'[v] == g[v] && Pred(pred', v) == Pred(pred, v))
             || (v !in S + {u} && IsEdge(w, u, v) && g'[v] == AddW(g[u], w[u][v]) && Pred(pred', v) == Some(u))
    ensures PredLink(w, S + {u}, g', pred', rank[u := |S|], s, v)
  {
    match Pred(pred', v)
    case None =>
    case Some(x) =>
      if Pred(pred', v) == Pred(pred, v) {
        assert x in S && g'[x] == g[x];
      }
  }

  /** The initial tables: 0 at the source, `Infinity` elsewhere, no predecessors. */
  function InitScores(V: set<Node>, source: Node): (g: Scores)
    ensures Domain(g, V)
    ensures forall v :: v in V ==> g[v] == if v == source then Fin(0) else Inf
  {
    map v | v in V :: if v == source then Fin(0) else Inf
  }

  lemma InitPredOk(w: Weights, V: set<Node>, s: Node)
    requires s in V
    ensures PredOk(w, V, {}, InitScores(V, s), map v | v in V :: None, map v | v in V :: |V|, s)
    ensures RankFacts(V, {}, map v | v in V :: |V|)
  {
  }

  /** A finite score is the weight of a path from the source. */
  lemma {:induction false} ChainWitness(w: Weights, V: set<Node>, S: set<Node>, g: Scores, pred: Preds,
                                        rank: map<Node, nat>, s: Node, v: Node)
    requires PredOk(w, V, S, g, pred, rank, s) && v in V && g[v].Fin?
    ensures exists p :: IsPath(w, p, s, v) && PathWeight(w, p) == g[v].v
    decreases rank[v]
  {
    assert PredLink(w, S, g, pred, rank, s, v);
    match Pred(pred, v)
    case None =>
      assert IsPath(w, [s], s, s);
    case Some(u) =>
      ChainWitness(w, V, S, g, pred, rank, s, u);
      var p :| IsPath(w, p, s, u) && PathWeight(w, p) == g[u].v;
      PathAppend(w, p, s, u, v);
  }

  ghost predicate IsBackLinked(pred: Preds, c: seq<Node>) {
    forall i :: 0 < i < |c| ==> Pred(pred, c[i]) == Some(c[i - 1])
  }

  /** `p` is the predecessor chain that ends at `d`, read from its root. */
  ghost predicate IsChain(pred: Preds, p: seq<Node>, d: Node) {
    |p| > 0 && p[|p| - 1] == d && Pred(pred, p[0]) == None && IsBackLinked(pred, p)
  }

  /** No predecessor chain closes into a cycle. */
  ghost predicate PredAcyclic(pred: Preds) {
    forall c :: |c| > 0 && IsBackLinked(pred, c) ==> Pred(pred, c[0]) != Some(c[|c| - 1])
  }

  ghost predicate PredInside(pred: Preds, V: set<Node>) {
    forall v :: v in pred && pred[v].Some? ==> pred[v].value in V
  }

  lemma {:induction false} RankAlongChain(w: Weights, V: set<Node>, S: set<Node>, g: Scores, pred: Preds,
                                          rank: map<Node, nat>, s: Node, c: seq<Node>, i: nat)
    requires PredOk(w, V, S, g, pred, rank, s) && IsBackLinked(pred, c) && 0 < i < |c|
    ensures c[0] in V && c[i] in V && rank[c[0]] < rank[c[i]]
    decreases i
  {
    assert Pred(pred, c[i]) == Some(c[i - 1]);
    assert PredLink(w, S, g, pred, rank, s, c[i]);
    if i > 1 {
      RankAlongChain(w, V, S, g, pred, rank, s, c, i - 1);
    }
  }

  /** Ranked predecessor tables have no cycles. */
  lemma RankAcyclic(w: Weights, V: set<Node>, S: set<Node>, g: Scores, pred: Preds, rank: map<Node, nat>, s: Node)
    requires PredOk(w, V, S, g, pred, rank, s)
    ensures PredAcyclic(pred) && PredInside(pred, V)
  {
    forall c | |c| > 0 && IsBackLinked(pred, c) ensures Pred(pred, c[0]) != Some(c[|c| - 1]) {
      if Pred(pred, c[0]) == Some(c[|c| - 1]) {
        assert PredLink(w, S, g, pred, rank, s, c[0]);
        if |c| > 1 {
          RankAlongChain(w, V, S, g, pred, rank, s, c, |c| - 1);
        }
      }
    }
    forall v | v in pred && pred[v].Some? ensures pred[v].value in V {
      assert PredLink(w, S, g, pred, rank, s, v);
    }
  }

  /**
   * The chain that reconstruction returns is a path from the source whose
   * weight is the score of its end; an infinite score gives the one-node chain.
   */
  lemma {:induction false} ChainIsPath(w: Weights, V: set<Node>, S: set<Node>, g: Scores, pred: Preds,
                                       rank: map<Node, nat>, s: Node, p: seq<Node>, d: Node)
    requires PredOk(w, V, S, g, pred, rank, s) && IsChain(pred, p, d) && d in V
    ensures g[d].Fin? ==> IsPath(w, p, s, d) && PathWeight(w, p) == g[d].v
    ensures g[d].Inf? ==> p == [d] && d != s
    decreases |p|
  {
    assert PredLink(w, S, g, pred, rank, s, d);
    if |p| == 1 {
      assert IsPath(w, [s], s, s);
    } else {
      var u := p[|p| - 2];
      var q := p[..|p| - 1];
      assert Pred(pred, d) == Some(u);
      assert IsChain(pred, q, u) by {
        forall i | 0 < i < |q| ensures Pred(pred, q[i]) == Some(q[i - 1]) {
          assert q[i] == p[i] && q[i - 1] == p[i - 1];
        }
      }
      ChainIsPath(w, V, S, g, pred, rank, s, q, u);
      PathAppend(w, q, s, u, d);
      assert q + [d] == p;
    }
  }

  /** A chain whose end has no predecessor is that one node. */
  lemma SingleChain(prev: Preds, path: seq<Node>, d: Node)
    requires IsChain(prev, path, d) && Pred(prev, d) == None
    ensures path == [d]
  {
    if |path| > 1 {
      LastLink(prev, path);
    }
  }

  lemma LastLink(prev: Preds, c: seq<Node>)
    requires IsBackLinked(prev, c) && |c| > 1
    ensures Pred(prev, c[|c| - 1]) == Some(c[|c| - 2])
  {
  }

  // ---------------------------------------------------------------------
  // Shared loops
  // ---------------------------------------------------------------------

  lemma ChainStaysDistinct(pred: Preds, c: seq<Node>, x: Node)
    requires PredAcyclic(pred) && |c| > 0 && IsBackLinked(pred, c) && Pred(pred, c[0]) == Some(x)
    ensures x !in c
  {
    if x in c {
      var j :| 0 <= j < |c| && c[j] == x;
      BackLinkedPrefix(pred, c, j + 1);
    }
  }

  lemma BackLinkedPrefix(pred: Preds, c: seq<Node>, n: nat)
    requires IsBackLinked(pred, c) && 0 < n <= |c|
    ensures IsBackLinked(pred, c[..n]) && c[..n][0] == c[0] && c[..n][n - 1] == c[n - 1]
  {
  }

  /**
   * Path reconstruction: start at the destination and prepend predecessors
   * (`path.unshift(current)`) until a node without one.
   */
  method Reconstruct(pred: Preds, ghost V: set<Node>, d: Node) returns (path: seq<Node>)
    requires d in V && PredInside(pred, V) && PredAcyclic(pred)
    ensures IsChain(pred, path, d)
    ensures forall i :: 0 <= i < |path| ==> path[i] in V
  {
    path := [];
    var current: Option<Node> := Some(d);
    while current.Some?
      invariant forall i :: 0 <= i < |path| ==> path[i] in V
      invariant Distinct(path) && |path| <= |V|
      invariant path == [] ==> current == Some(d)
      invariant path != [] ==> path[|path| - 1] == d && Pred(pred, path[0]) == current && IsBackLinked(pred, path)
      invariant current.Some? ==> current.value in V && current.value !in path
      decreases |V| - |path|
    {
      var node := current.value;
      DistinctBound(path, V - {node});
      path := [node] + path;
      current := Pred(pred, node);
      if current.Some? {
        ChainStaysDistinct(pred, path, current.value);
      }
    }
  }

  /** `m` has an entry for exactly the nodes of `V`. */
  ghost predicate Domain<T>(m: map<Node, T>, V: set<Node>) {
    forall v :: v in m <==> v in V
  }

  /** Overwriting an entry keeps the domain. */
  lemma DomainUpdate<T>(m: map<Node, T>, V: set<Node>, k: Node, x: T)
    requires Domain(m, V) && k in V
    ensures Domain(m[k := x], V)
  {
  }

  /** `score[v]`, where a missing entry reads `undefined`, which compares like `Infinity`. */
  function Score(score: Scores, v: Node): Dist {
    if v in score then score[v] else Inf
  }

  /**
   * `for (const node of set) if (score[node] < best) { best = score[node]; current = node; }`:
   * a node of least finite score, or none when all are Infinity. The set is
   * visited in an arbitrary order, so ties may go to any least node.
   */
  method SelectMin(candidates: set<Node>, score: Scores) returns (current: Option<Node>, best: Dist)
    ensures current.None? <==> forall v :: v in candidates ==> Score(score, v) == Inf
    ensures current.None? ==> best == Inf
    ensures current.Some? ==> current.value in candidates && Score(score, current.value) == best && best.Fin?
    ensures current.Some? ==> forall v :: v in candidates ==> Le(best, Score(score, v))
  {
    current, best := None, Inf;
    var rest := candidates;
    while rest != {}
      invariant rest <= candidates
      invariant current.None? ==> best == Inf && forall v :: v in candidates - rest ==> Score(score, v) == Inf
      invariant current.Some? ==> current.value in candidates && Score(score, current.value) == best && best.Fin?
      invariant current.Some? ==> forall v :: v in candidates - rest ==> Le(best, Score(score, v))
      decreases rest
    {
      var node :| node in rest;
      if Lt(Score(score, node), best) {
        best := Score(score, node);
        current := Some(node);
      }
      rest := rest - {node};
    }
  }
}
