/**
 * The theory behind the Bellman-Ford incarnations and the A* without a
 * closed set: distance and predecessor tables changed only by relaxing one
 * edge at a time (`if (d[u] + w < d[v]) { d[v] = d[u] + w; pred[v] = u; }`).
 *
 * Negative weights are allowed. Beside the two tables the proofs keep ghost
 * bookkeeping: for each finite distance a walk from the source that is no
 * heavier (`wit`), and for each node the time of its last improvement (`ts`).
 * The times show that a predecessor link set before its tail last improved
 * is strictly slack, so a cycle of links is a negative cycle.
 */
module Relaxation {
  import opened Paths
  import opened Frontier

  type Stamps = map<Node, nat>
  type Walks = map<Node, seq<Node>>

  /** A closed walk of negative weight through a node that the source reaches. */
  ghost predicate NegativeCycleFrom(w: Weights, s: Node) {
    exists x, c {:trigger IsPath(w, c, x, x)} :: Reachable(w, s, x) && IsPath(w, c, x, x) && PathWeight(w, c) < 0
  }

  // ---------------------------------------------------------------------
  // The tables and their bookkeeping
  // ---------------------------------------------------------------------

  /**
   * The predecessor link into `v`: an edge from a finitely distant node,
   * tight or slack while its tail has not improved since, strictly slack
   * once it has (or when it is a self-loop).
   */
  ghost predicate LinkOk(w: Weights, d: Scores, pred: Preds, ts: Stamps, v: Node)
    requires v in d && v in pred && v in ts
  {
    pred[v].Some? ==>
      var u := pred[v].value;
      && u in d && u in ts && IsEdge(w, u, v) && d[u].Fin? && d[v].Fin?
      && (if ts[u] < ts[v] then d[v].v >= d[u].v + w[u][v] else d[v].v > d[u].v + w[u][v])
  }

  /** `v`'s finite distance is no less than the weight of a recorded walk from the source. */
  ghost predicate WalkOk(w: Weights, s: Node, d: Scores, wit: Walks, v: Node)
    requires v in d
  {
    d[v].Fin? ==> v in wit && IsPath(w, wit[v], s, v) && PathWeight(w, wit[v]) <= d[v].v
  }

  ghost predicate At(w: Weights, s: Node, d: Scores, pred: Preds, ts: Stamps, wit: Walks, time: nat, v: Node)
    requires v in d && v in pred && v in ts
  {
    && LinkOk(w, d, pred, ts, v)
    && WalkOk(w, s, d, wit, v)
    && (d[v].Fin? && pred[v].None? ==> v == s)
    && ts[v] < time
  }

  /** What holds of the distance and predecessor tables between any two relaxations. */
  ghost predicate Tables(w: Weights, V: set<Node>, s: Node, d: Scores, pred: Preds, ts: Stamps, wit: Walks, time: nat) {
    && Domain(d, V) && Domain(pred, V) && Domain(ts, V)
    && (forall v {:trigger At(w, s, d, pred, ts, wit, time, v)} :: v in V ==> At(w, s, d, pred, ts, wit, time, v))
    && (s in V ==> Le(d[s], Fin(0)) && (d[s] == Fin(0) ==> pred[s] == None))
  }

  /** No distance exceeds its value in `d0`. */
  ghost predicate Below(V: set<Node>, d: Scores, d0: Scores) {
    Domain(d, V) && Domain(d0, V) && forall v {:trigger d[v]} :: v in V ==> Le(d[v], d0[v])
  }

  /** Every edge leaves its target at most `d0` of its tail plus its weight. */
  ghost predicate EdgesDone(w: Weights, V: set<Node>, d0: Scores, d: Scores)
    requires Domain(d0, V) && Domain(d, V)
  {
    forall u, v {:trigger IsEdge(w, u, v)} :: IsEdge(w, u, v) && u in V && v in V ==> Le(d[v], AddW(d0[u], w[u][v]))
  }

  /** No edge can lower a distance: the negative-cycle check passes. */
  ghost predicate Calm(w: Weights, V: set<Node>, d: Scores)
    requires Domain(d, V)
  {
    EdgesDone(w, V, d, d)
  }

  /** Every walk from the source with at most `k` edges is at least as heavy as the distance of its end. */
  ghost predicate Bound(w: Weights, V: set<Node>, s: Node, d: Scores, k: nat)
    requires Domain(d, V)
  {
    forall p, v {:trigger IsPath(w, p, s, v)} :: v in V && IsPath(w, p, s, v) && |p| <= k + 1 ==> Le(d[v], Fin(PathWeight(w, p)))
  }

  /** The initial tables: 0 at the source, `Infinity` elsewhere, no predecessors. */
  lemma InitTables(w: Weights, V: set<Node>, s: Node)
    ensures Tables(w, V, s, InitScores(V, s), map v | v in V :: None, map v | v in V :: 0, map[s := [s]], 1)
    ensures Bound(w, V, s, InitScores(V, s), 0)
  {
    assert IsPath(w, [s], s, s);
    forall p, v | v in V && IsPath(w, p, s, v) && |p| <= 1 ensures Le(InitScores(V, s)[v], Fin(PathWeight(w, p))) {
      assert p == [s];
    }
  }

  /** Lowering `v` to `d[u] + c` through an edge no heavier than `c` keeps the tables. */
  lemma RelaxEdge(w: Weights, V: set<Node>, s: Node, d: Scores, pred: Preds, ts: Stamps, wit: Walks, time: nat,
                  u: Node, v: Node, c: int, q: seq<Node>)
    requires Tables(w, V, s, d, pred, ts, wit, time) && u in V && v in V
    requires d[u].Fin? && IsEdge(w, u, v) && w[u][v] <= c && Lt(AddW(d[u], c), d[v])
    requires IsPath(w, q, s, v) && PathWeight(w, q) <= d[u].v + c
    ensures Tables(w, V, s, d[v := AddW(d[u], c)], pred[v := Some(u)], ts[v := time], wit[v := q], time + 1)
  {
    var d', pred', ts', wit' := d[v := AddW(d[u], c)], pred[v := Some(u)], ts[v := time], wit[v := q];
    RelaxAll(w, V, s, d, pred, ts, wit, time, u, v, c, q);
    DomainUpdate(d, V, v, AddW(d[u], c));
    DomainUpdate(pred, V, v, Some(u));
    DomainUpdate(ts, V, v, time);
    assert s in V ==> Le(d'[s], Fin(0)) && (d'[s] == Fin(0) ==> pred'[s] == None);
  }

  /** The same, reading `u`'s recorded walk extended by the edge as `v`'s new walk. */
  lemma RelaxThrough(w: Weights, V: set<Node>, s: Node, d: Scores, pred: Preds, ts: Stamps, wit: Walks, time: nat,
                     u: Node, v: Node)
    requires Tables(w, V, s, d, pred, ts, wit, time) && u in V && v in V
    requires d[u].Fin? && IsEdge(w, u, v) && Lt(AddW(d[u], w[u][v]), d[v])
    ensures u in wit
    ensures Tables(w, V, s, d[v := AddW(d[u], w[u][v])], pred[v := Some(u)], ts[v := time], wit[v := wit[u] + [v]], time + 1)
  {
    assert At(w, s, d, pred, ts, wit, time, u);
    PathAppend(w, wit[u], s, u, v);
    RelaxEdge(w, V, s, d, pred, ts, wit, time, u, v, w[u][v], wit[u] + [v]);
  }

  lemma RelaxAll(w: Weights, V: set<Node>, s: Node, d: Scores, pred: Preds, ts: Stamps, wit: Walks, time: nat,
                 u: Node, v: Node, c: int, q: seq<Node>)
    requires Tables(w, V, s, d, pred, ts, wit, time) && u in V && v in V
    requires d[u].Fin? && IsEdge(w, u, v) && w[u][v] <= c && Lt(AddW(d[u], c), d[v])
    requires IsPath(w, q, s, v) && PathWeight(w, q) <= d[u].v + c
    ensures forall x {:trigger x in V} :: x in V ==>
      x in d && x in pred && x in ts && At(w, s, d[v := AddW(d[u], c)], pred[v := Some(u)], ts[v := time], wit[v := q], time + 1, x)
  {
    assert At(w, s, d, pred, ts, wit, time, u);
    assert At(w, s, d, pred, ts, wit, time, v);
    forall x | x in V ensures At(w, s, d[v := AddW(d[u], c)], pred[v := Some(u)], ts[v := time], wit[v := q], time + 1, x) {
      RelaxAt(w, V, s, d, pred, ts, wit, time, u, v, c, q, x);
    }
  }

  /** The entry `x` after `v` is lowered to `d[u] + c` through an edge no heavier than `c`. */
  lemma RelaxAt(w: Weights, V: set<Node>, s: Node, d: Scores, pred: Preds, ts: Stamps, wit: Walks, time: nat,
                u: Node, v: Node, c: int, q: seq<Node>, x: Node)
    requires Domain(d, V) && Domain(pred, V) && Domain(ts, V) && u in V && v in V && x in V
    requires At(w, s, d, pred, ts, wit, time, x) && At(w, s, d, pred, ts, wit, time, v) && At(w, s, d, pred, ts, wit, time, u)
    requires d[u].Fin? && IsEdge(w, u, v) && w[u][v] <= c && Lt(AddW(d[u], c), d[v])
    requires IsPath(w, q, s, v) && PathWeight(w, q) <= d[u].v + c
    ensures At(w, s, d[v := AddW(d[u], c)], pred[v := Some(u)], ts[v := time], wit[v := q], time + 1, x)
  {
  }

  lemma BelowTrans(V: set<Node>, a: Scores, b: Scores, c: Scores)
    requires Below(V, a, b) && Below(V, b, c)
    ensures Below(V, a, c)
  {
    forall v | v in V ensures Le(a[v], c[v]) {
      assert Le(a[v], b[v]) && Le(b[v], c[v]);
    }
  }

  // ---------------------------------------------------------------------
  // What the rounds establish
  // ---------------------------------------------------------------------

  /** A round from `d0` extends the bound to walks with one more edge. */
  lemma BoundStep(w: Weights, V: set<Node>, s: Node, d0: Scores, d: Scores, k: nat)
    requires Closed(w, V) && Below(V, d, d0) && EdgesDone(w, V, d0, d)
    requires Bound(w, V, s, d0, k)
    ensures Bound(w, V, s, d, k + 1)
  {
    forall p, v | v in V && IsPath(w, p, s, v) && |p| <= k + 2 ensures Le(d[v], Fin(PathWeight(w, p))) {
      if |p| <= k + 1 {
        assert Le(d0[v], Fin(PathWeight(w, p)));
      } else {
        var u, q := p[|p| - 2], p[..|p| - 1];
        SubPath(w, p, s, v, 0, |p| - 2);
        assert p[0..|p| - 1] == q;
        assert IsEdge(w, p[|p| - 2], p[|p| - 1]);
        assert Le(d[v], AddW(d0[u], w[u][v]));
        assert Le(d0[u], Fin(PathWeight(w, q)));
        PathWeightAppend(w, q, v);
        assert q + [v] == p;
      }
    }
  }

  /** With no edge left to relax, distances only grow by the weight along a walk. */
  lemma {:induction false} WalkBound(w: Weights, V: set<Node>, d: Scores, p: seq<Node>, a: Node, b: Node)
    requires Closed(w, V) && Domain(d, V) && Calm(w, V, d) && IsPath(w, p, a, b) && a in V && d[a].Fin?
    ensures b in V && d[b].Fin? && d[b].v <= d[a].v + PathWeight(w, p)
    decreases |p|
  {
    if |p| > 1 {
      var u, q := p[|p| - 2], p[..|p| - 1];
      SubPath(w, p, a, b, 0, |p| - 2);
      assert p[0..|p| - 1] == q;
      WalkBound(w, V, d, q, a, u);
      assert IsEdge(w, p[|p| - 2], p[|p| - 1]);
      PathWeightAppend(w, q, b);
      assert q + [b] == p;
    }
  }

  /** When the check passes, no negative cycle is reachable: it would lower itself forever. */
  lemma CalmNoCycle(w: Weights, V: set<Node>, s: Node, d: Scores, pred: Preds, ts: Stamps, wit: Walks, time: nat)
    requires Closed(w, V) && Tables(w, V, s, d, pred, ts, wit, time) && Calm(w, V, d)
    ensures !NegativeCycleFrom(w, s)
  {
    forall x, c | Reachable(w, s, x) && IsPath(w, c, x, x) ensures PathWeight(w, c) >= 0 {
      var p :| IsPath(w, p, s, x);
      if |c| > 1 {
        assert IsEdge(w, c[0], c[1]);
        PathStartsInside(w, V, p, s, x);
        WalkBound(w, V, d, p, s, x);
        WalkBound(w, V, d, c, x, x);
      }
    }
  }

  /** Without a reachable negative cycle, a walk can drop its repetitions without growing heavier. */
  lemma {:induction false} Shorten(w: Weights, s: Node, p: seq<Node>, v: Node) returns (p': seq<Node>)
    requires !NegativeCycleFrom(w, s) && IsPath(w, p, s, v)
    ensures IsPath(w, p', s, v) && Distinct(p') && PathWeight(w, p') <= PathWeight(w, p)
    decreases |p|
  {
    if Distinct(p) {
      return p;
    }
    var i, j :| 0 <= i < j < |p| && p[i] == p[j];
    var q := Splice(w, s, p, v, i, j);
    assert PathWeight(w, p[i..j + 1]) >= 0;
    p' := Shorten(w, s, q, v);
  }

  /** Cutting the closed stretch `p[i..j]` out of a walk leaves a walk lighter by that stretch's weight. */
  lemma Splice(w: Weights, s: Node, p: seq<Node>, v: Node, i: nat, j: nat) returns (q: seq<Node>)
    requires IsPath(w, p, s, v) && i < j < |p| && p[i] == p[j]
    ensures IsPath(w, q, s, v) && |q| < |p|
    ensures PathWeight(w, q) == PathWeight(w, p) - PathWeight(w, p[i..j + 1])
    ensures Reachable(w, s, p[i]) && IsPath(w, p[i..j + 1], p[i], p[i])
  {
    SubPath(w, p, s, v, 0, i);
    SubPath(w, p, s, v, i, j);
    SubPath(w, p, s, v, j, |p| - 1);
    assert p[0..i + 1] == p[..i + 1] && p[j..|p|] == p[j..];
    PathConcat(w, p[..i + 1], p[j..], s, p[i], v);
    SpliceWeight(w, p, i, j);
    q := p[..i + 1] + p[j..][1..];
  }

  lemma SpliceWeight(w: Weights, p: seq<Node>, i: nat, j: nat)
    requires i < j < |p|
    ensures PathWeight(w, p) == PathWeight(w, p[..i + 1]) + PathWeight(w, p[i..j + 1]) + PathWeight(w, p[j..])
  {
    PathWeightSplit(w, p, i);
    var r := p[i..];
    PathWeightSplit(w, r, j - i);
    assert r[..j - i + 1] == p[i..j + 1];
    assert r[j - i..] == p[j..];
  }

  /**
   * After `k` rounds with `|V| <= k + 1`, no reachable negative cycle means
   * no edge can still lower a distance.
   */
  lemma NoCycleCalm(w: Weights, V: set<Node>, s: Node, d: Scores, pred: Preds, ts: Stamps, wit: Walks, time: nat, k: nat)
    requires Closed(w, V) && Tables(w, V, s, d, pred, ts, wit, time)
    requires Bound(w, V, s, d, k) && |V| <= k + 1
    requires !NegativeCycleFrom(w, s)
    ensures Calm(w, V, d)
  {
    forall u, v | IsEdge(w, u, v) && u in V && v in V ensures Le(d[v], AddW(d[u], w[u][v])) {
      EdgeCalm(w, V, s, d, pred, ts, wit, time, k, u, v);
    }
  }

  lemma EdgeCalm(w: Weights, V: set<Node>, s: Node, d: Scores, pred: Preds, ts: Stamps, wit: Walks, time: nat,
                 k: nat, u: Node, v: Node)
    requires Closed(w, V) && Tables(w, V, s, d, pred, ts, wit, time)
    requires Bound(w, V, s, d, k) && |V| <= k + 1
    requires !NegativeCycleFrom(w, s)
    requires IsEdge(w, u, v) && u in V && v in V
    ensures Le(d[v], AddW(d[u], w[u][v]))
  {
    if d[u].Fin? {
      assert At(w, s, d, pred, ts, wit, time, u);
      PathAppend(w, wit[u], s, u, v);
      var p := Shorten(w, s, wit[u] + [v], v);
      PathStartsInside(w, V, wit[u], s, u);
      PathInside(w, V, p, s, v);
      DistinctBound(p, V);
      assert Le(d[v], Fin(PathWeight(w, p)));
    }
  }

  /** A failed check after the rounds exhibits a reachable negative cycle. */
  lemma TenseMeansCycle(w: Weights, V: set<Node>, s: Node, d: Scores, pred: Preds, ts: Stamps, wit: Walks, time: nat, k: nat)
    requires Closed(w, V) && Tables(w, V, s, d, pred, ts, wit, time)
    requires Bound(w, V, s, d, k) && |V| <= k + 1
    requires !Calm(w, V, d)
    ensures NegativeCycleFrom(w, s)
  {
    if !NegativeCycleFrom(w, s) {
      NoCycleCalm(w, V, s, d, pred, ts, wit, time, k);
    }
  }

  // ---------------------------------------------------------------------
  // The predecessor table
  // ---------------------------------------------------------------------

  /**
   * Summing the links along a back-linked chain: the end's distance is at
   * least the start's plus the chain's weight, strictly unless the stamps
   * increase along the whole chain.
   */
  lemma {:induction false} LinkSum(w: Weights, V: set<Node>, s: Node, d: Scores, pred: Preds, ts: Stamps, wit: Walks, time: nat,
                                   c: seq<Node>, n: nat)
    requires Tables(w, V, s, d, pred, ts, wit, time) && IsBackLinked(pred, c) && 0 < n <= |c|
    requires c[0] in V && d[c[0]].Fin?
    ensures c[n - 1] in V && d[c[n - 1]].Fin? && IsWalk(w, c[..n])
    ensures d[c[n - 1]].v >= d[c[0]].v + PathWeight(w, c[..n])
    ensures d[c[n - 1]].v > d[c[0]].v + PathWeight(w, c[..n]) || n == 1 || ts[c[0]] < ts[c[n - 1]]
    decreases n
  {
    if n > 1 {
      LinkSum(w, V, s, d, pred, ts, wit, time, c, n - 1);
      var u, v := c[n - 2], c[n - 1];
      assert Pred(pred, v) == Some(u);
      assert At(w, s, d, pred, ts, wit, time, v);
      PathWeightAppend(w, c[..n - 1], v);
      assert c[..n - 1] + [v] == c[..n];
      assert IsWalk(w, c[..n]) by {
        forall i | 0 <= i < n - 1 ensures IsEdge(w, c[..n][i], c[..n][i + 1]) {
          if i < n - 2 {
            assert c[..n][i] == c[..n - 1][i] && c[..n][i + 1] == c[..n - 1][i + 1];
          }
        }
      }
    }
  }

  /** A cycle of predecessor links is a closed walk of negative weight through a finitely distant node. */
  lemma CycleIsNegative(w: Weights, V: set<Node>, s: Node, d: Scores, pred: Preds, ts: Stamps, wit: Walks, time: nat,
                        c: seq<Node>)
    requires Tables(w, V, s, d, pred, ts, wit, time) && |c| > 0 && IsBackLinked(pred, c)
    requires Pred(pred, c[0]) == Some(c[|c| - 1])
    ensures var q := [c[|c| - 1]] + c;
      IsPath(w, q, c[|c| - 1], c[|c| - 1]) && PathWeight(w, q) < 0 && Reachable(w, s, c[|c| - 1])
  {
    var x := c[|c| - 1];
    assert At(w, s, d, pred, ts, wit, time, c[0]);
    LinkSum(w, V, s, d, pred, ts, wit, time, c, |c|);
    assert c[..|c|] == c;
    var q := [x] + c;
    assert q[1..] == c;
    assert IsWalk(w, q) by {
      forall i | 0 <= i < |q| - 1 ensures IsEdge(w, q[i], q[i + 1]) {
        if i > 0 {
          assert q[i] == c[i - 1] && q[i + 1] == c[i];
        }
      }
    }
    assert At(w, s, d, pred, ts, wit, time, x);
  }

  /** Without a reachable negative cycle the predecessor links form no cycle and stay among the nodes. */
  lemma Acyclic(w: Weights, V: set<Node>, s: Node, d: Scores, pred: Preds, ts: Stamps, wit: Walks, time: nat)
    requires Tables(w, V, s, d, pred, ts, wit, time) && !NegativeCycleFrom(w, s)
    ensures PredAcyclic(pred) && PredInside(pred, V)
  {
    forall c | |c| > 0 && IsBackLinked(pred, c) ensures Pred(pred, c[0]) != Some(c[|c| - 1]) {
      if Pred(pred, c[0]) == Some(c[|c| - 1]) {
        CycleIsNegative(w, V, s, d, pred, ts, wit, time, c);
      }
    }
    forall v | v in pred && pred[v].Some? ensures pred[v].value in V {
      assert At(w, s, d, pred, ts, wit, time, v);
    }
  }

  /** Non-negative weights have no negative cycle at all. */
  lemma NonNegativeNoCycle(w: Weights, s: Node)
    requires NonNegative(w)
    ensures !NegativeCycleFrom(w, s)
  {
    forall x, c | Reachable(w, s, x) && IsPath(w, c, x, x) ensures PathWeight(w, c) >= 0 {
      NonNegativeWeight(w, c);
    }
  }

  /** After a passed check the source keeps distance 0. */
  lemma SourceZero(w: Weights, V: set<Node>, s: Node, d: Scores, pred: Preds, ts: Stamps, wit: Walks, time: nat)
    requires Closed(w, V) && Tables(w, V, s, d, pred, ts, wit, time) && Calm(w, V, d) && s in V
    ensures d[s] == Fin(0)
  {
    assert At(w, s, d, pred, ts, wit, time, s);
    WalkBound(w, V, d, wit[s], s, s);
  }

  /**
   * A finite chain starts at the source, and its weight is at most the
   * distance of its end above the source's distance.
   */
  lemma ChainBelow(w: Weights, V: set<Node>, s: Node, d: Scores, pred: Preds, ts: Stamps, wit: Walks, time: nat,
                   p: seq<Node>, x: Node)
    requires Tables(w, V, s, d, pred, ts, wit, time)
    requires IsChain(pred, p, x) && x in V && d[x].Fin?
    ensures s in V && d[s].Fin? && IsPath(w, p, s, x) && d[x].v >= d[s].v + PathWeight(w, p)
  {
    assert p[0] in V && d[p[0]].Fin? by {
      if |p| > 1 {
        assert Pred(pred, p[1]) == Some(p[0]);
        assert At(w, s, d, pred, ts, wit, time, p[1]);
      }
    }
    assert At(w, s, d, pred, ts, wit, time, p[0]);
    LinkSum(w, V, s, d, pred, ts, wit, time, p, |p|);
    assert p[..|p|] == p;
  }

  /** After a passed check a finite chain starts at the source and its links are tight. */
  lemma {:induction false} ChainTight(w: Weights, V: set<Node>, s: Node, d: Scores, pred: Preds, ts: Stamps, wit: Walks, time: nat,
                                      p: seq<Node>, x: Node)
    requires Closed(w, V) && Tables(w, V, s, d, pred, ts, wit, time) && Calm(w, V, d)
    requires IsChain(pred, p, x) && x in V && d[x].Fin?
    ensures IsPath(w, p, s, x) && PathWeight(w, p) == d[x].v
    decreases |p|
  {
    assert At(w, s, d, pred, ts, wit, time, x);
    if |p| == 1 {
      SourceZero(w, V, s, d, pred, ts, wit, time);
      assert IsPath(w, [s], s, s);
    } else {
      var u, q := p[|p| - 2], p[..|p| - 1];
      LastLink(pred, p);
      assert IsChain(pred, q, u) by {
        forall i | 0 < i < |q| ensures Pred(pred, q[i]) == Some(q[i - 1]) {
          assert q[i] == p[i] && q[i - 1] == p[i - 1];
        }
      }
      ChainTight(w, V, s, d, pred, ts, wit, time, q, u);
      PathAppend(w, q, s, u, x);
      assert q + [x] == p;
    }
  }

  /**
   * The chain read back from the destination after a passed check: it starts
   * at the source exactly when the destination is reachable, and is then a
   * shortest path whose weight is the destination's distance.
   */
  lemma Conclude(w: Weights, V: set<Node>, s: Node, d: Scores, pred: Preds, ts: Stamps, wit: Walks, time: nat,
                 path: seq<Node>, destination: Node)
    requires Closed(w, V) && Tables(w, V, s, d, pred, ts, wit, time) && Calm(w, V, d)
    requires destination in V && IsChain(pred, path, destination)
    ensures path[0] == s <==> d[destination].Fin?
    ensures d[destination].Fin? <==> Reachable(w, s, destination)
    ensures d[destination].Fin? ==>
      && IsPath(w, path, s, destination)
      && PathWeight(w, path) == d[destination].v
      && IsShortest(w, s, destination, d[destination])
    ensures d[destination].Inf? ==> path == [destination]
    ensures s == destination ==> path == [s] && d[destination] == Fin(0)
  {
    assert At(w, s, d, pred, ts, wit, time, destination);
    if d[destination].Fin? {
      ChainTight(w, V, s, d, pred, ts, wit, time, path, destination);
      forall p | IsPath(w, p, s, destination) ensures Le(d[destination], Fin(PathWeight(w, p))) {
        PathStartsInside(w, V, p, s, destination);
        SourceZero(w, V, s, d, pred, ts, wit, time);
        WalkBound(w, V, d, p, s, destination);
      }
    } else {
      SingleChain(pred, path, destination);
      forall p ensures !IsPath(w, p, s, destination) {
        if IsPath(w, p, s, destination) {
          PathStartsInside(w, V, p, s, destination);
          WalkBound(w, V, d, p, s, destination);
        }
      }
    }
    if s == destination {
      SourceZero(w, V, s, d, pred, ts, wit, time);
      SingleChain(pred, path, destination);
    }
  }
}
