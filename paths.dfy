/**
 * The shared specification of every shortest-path incarnation in the app:
 * tentative distances that may be JavaScript's `Infinity`, a weighted
 * directed graph given as a weight matrix, paths, their weights and the
 * shortest distance between two airports.
 */
module Paths {

  /** An airport, identified by its code such as "DEL". */
  datatype Node = Code(code: string)

  datatype Option<T> = None | Some(value: T)

  /** A JavaScript number used as a tentative distance: finite, or `Infinity`. */
  datatype Dist = Fin(v: int) | Inf

  /** `a + b` on numbers that may be `Infinity`. */
  function Add(a: Dist, b: Dist): (r: Dist)
    ensures r.Fin? <==> a.Fin? && b.Fin?
    ensures r.Fin? ==> r.v == a.v + b.v
  {
    if a.Fin? && b.Fin? then Fin(a.v + b.v) else Inf
  }

  /** `a + w` for a finite weight `w`. */
  function AddW(a: Dist, w: int): (r: Dist)
    ensures r.Fin? <==> a.Fin?
    ensures r.Fin? ==> r.v == a.v + w
  {
    if a.Fin? then Fin(a.v + w) else Inf
  }

  /** JavaScript's `a < b`: `Infinity < Infinity` is false. */
  predicate Lt(a: Dist, b: Dist) {
    a.Fin? && (b.Inf? || a.v < b.v)
  }

  /** `a <= b` with `Infinity` as the top element. */
  predicate Le(a: Dist, b: Dist) {
    b.Inf? || (a.Fin? && a.v <= b.v)
  }

  /** The smaller of two distances. */
  function Min(a: Dist, b: Dist): (r: Dist)
    ensures Le(r, a) && Le(r, b)
    ensures r == a || r == b
  {
    if Lt(b, a) then b else a
  }

  /** A weighted directed graph: `w[u][v]` is the weight of the edge u -> v. */
  type Weights = map<Node, map<Node, int>>

  predicate IsEdge(w: Weights, u: Node, v: Node) {
    u in w && v in w[u]
  }

  function EdgeW(w: Weights, u: Node, v: Node): int {
    if IsEdge(w, u, v) then w[u][v] else 0
  }

  ghost predicate NonNegative(w: Weights) {
    forall u, v {:trigger IsEdge(w, u, v)} :: IsEdge(w, u, v) ==> w[u][v] >= 0
  }

  ghost predicate Positive(w: Weights) {
    forall u, v {:trigger IsEdge(w, u, v)} :: IsEdge(w, u, v) ==> w[u][v] > 0
  }

  /** Every edge of `w` joins two nodes of `V`. */
  ghost predicate Closed(w: Weights, V: set<Node>) {
    forall u, v {:trigger IsEdge(w, u, v)} :: IsEdge(w, u, v) ==> u in V && v in V
  }

  /** Consecutive entries of `p` are edges. */
  ghost predicate IsWalk(w: Weights, p: seq<Node>) {
    forall i :: 0 <= i < |p| - 1 ==> IsEdge(w, p[i], p[i + 1])
  }

  /** `p` is a path (a walk; nodes may repeat) from `s` to `d`. */
  ghost predicate IsPath(w: Weights, p: seq<Node>, s: Node, d: Node) {
    |p| > 0 && p[0] == s && p[|p| - 1] == d && IsWalk(w, p)
  }

  ghost predicate Reachable(w: Weights, s: Node, d: Node) {
    exists p :: IsPath(w, p, s, d)
  }

  /** The sum of the edge weights between consecutive entries of `p`. */
  function PathWeight(w: Weights, p: seq<Node>): int
    decreases |p|
  {
    if |p| < 2 then 0 else EdgeW(w, p[0], p[1]) + PathWeight(w, p[1..])
  }

  /**
   * `x` is the shortest distance from `s` to `d`: no path is lighter, and a
   * finite `x` is the weight of some path. `x == Inf` means unreachable.
   */
  ghost predicate IsShortest(w: Weights, s: Node, d: Node, x: Dist) {
    && (forall p {:trigger IsPath(w, p, s, d)} :: IsPath(w, p, s, d) ==> Le(x, Fin(PathWeight(w, p))))
    && (x.Fin? ==> exists p :: IsPath(w, p, s, d) && PathWeight(w, p) == x.v)
  }

  /** A potential `h` never drops by more than an edge's weight. */
  ghost predicate Consistent(w: Weights, h: Node -> int) {
    forall u, v {:trigger IsEdge(w, u, v)} :: IsEdge(w, u, v) ==> h(u) <= w[u][v] + h(v)
  }

  ghost predicate Distinct(s: seq<Node>) {
    forall i, j :: 0 <= i < j < |s| ==> s[i] != s[j]
  }

  // ---------------------------------------------------------------------
  // Lemmas about paths
  // ---------------------------------------------------------------------

  /** The shortest distance is unique, so algorithms that compute it agree. */
  lemma ShortestUnique(w: Weights, s: Node, d: Node, x: Dist, y: Dist)
    requires IsShortest(w, s, d, x) && IsShortest(w, s, d, y)
    ensures x == y
  {
    if x.Fin? {
      var p :| IsPath(w, p, s, d) && PathWeight(w, p) == x.v;
      assert Le(y, Fin(PathWeight(w, p)));
    }
    if y.Fin? {
      var p :| IsPath(w, p, s, d) && PathWeight(w, p) == y.v;
      assert Le(x, Fin(PathWeight(w, p)));
    }
  }

  /** The shortest distance is `Infinity` exactly when the destination cannot be reached. */
  lemma ShortestInf(w: Weights, s: Node, d: Node, x: Dist)
    requires IsShortest(w, s, d, x)
    ensures x.Inf? <==> !Reachable(w, s, d)
  {
    if Reachable(w, s, d) {
      var p :| IsPath(w, p, s, d);
      assert Le(x, Fin(PathWeight(w, p)));
    }
  }

  lemma PositiveNonNegative(w: Weights)
    requires Positive(w)
    ensures NonNegative(w)
  {
  }

  lemma {:induction false} PathWeightAppend(w: Weights, p: seq<Node>, v: Node)
    requires |p| > 0
    ensures PathWeight(w, p + [v]) == PathWeight(w, p) + EdgeW(w, p[|p| - 1], v)
    decreases |p|
  {
    if |p| == 1 {
      assert p + [v] == [p[0], v];
      assert (p + [v])[1..] == [v];
    } else {
      assert (p + [v])[1..] == p[1..] + [v];
      PathWeightAppend(w, p[1..], v);
    }
  }

  lemma {:induction false} PathWeightSplit(w: Weights, p: seq<Node>, i: nat)
    requires i < |p|
    ensures PathWeight(w, p) == PathWeight(w, p[..i + 1]) + PathWeight(w, p[i..])
    decreases i
  {
    if i > 0 {
      PathWeightSplit(w, p[1..], i - 1);
      assert p[1..][..i] == p[..i + 1][1..];
      assert p[1..][i - 1..] == p[i..];
    }
  }

  lemma PathAppend(w: Weights, p: seq<Node>, s: Node, u: Node, v: Node)
    requires IsPath(w, p, s, u) && IsEdge(w, u, v)
    ensures IsPath(w, p + [v], s, v)
    ensures PathWeight(w, p + [v]) == PathWeight(w, p) + w[u][v]
  {
    PathWeightAppend(w, p, v);
    var q := p + [v];
    forall i | 0 <= i < |q| - 1 ensures IsEdge(w, q[i], q[i + 1]) {
      if i < |p| - 1 {
        assert q[i] == p[i] && q[i + 1] == p[i + 1];
      }
    }
  }

  lemma SubPath(w: Weights, p: seq<Node>, s: Node, d: Node, i: nat, j: nat)
    requires IsPath(w, p, s, d) && i <= j < |p|
    ensures IsPath(w, p[i..j + 1], p[i], p[j])
  {
    var q := p[i..j + 1];
    forall k | 0 <= k < |q| - 1 ensures IsEdge(w, q[k], q[k + 1]) {
      assert q[k] == p[i + k] && q[k + 1] == p[i + k + 1];
    }
  }

  lemma PathConcat(w: Weights, p: seq<Node>, q: seq<Node>, a: Node, b: Node, c: Node)
    requires IsPath(w, p, a, b) && IsPath(w, q, b, c)
    ensures IsPath(w, p + q[1..], a, c)
    ensures PathWeight(w, p + q[1..]) == PathWeight(w, p) + PathWeight(w, q)
  {
    var r := p + q[1..];
    assert r[..|p|] == p;
    assert r[|p| - 1..] == q;
    PathWeightSplit(w, r, |p| - 1);
    forall k | 0 <= k < |r| - 1 ensures IsEdge(w, r[k], r[k + 1]) {
      if k < |p| - 1 {
        assert r[k] == p[k] && r[k + 1] == p[k + 1];
      } else {
        assert r[k] == q[k - |p| + 1] && r[k + 1] == q[k - |p| + 2];
      }
    }
  }

  lemma {:induction false} NonNegativeWeight(w: Weights, p: seq<Node>)
    requires NonNegative(w) && IsWalk(w, p)
    ensures PathWeight(w, p) >= 0
    decreases |p|
  {
    if |p| >= 2 {
      assert IsEdge(w, p[0], p[1]);
      assert IsWalk(w, p[1..]) by {
        forall i | 0 <= i < |p[1..]| - 1 ensures IsEdge(w, p[1..][i], p[1..][i + 1]) {
          assert p[1..][i] == p[i + 1] && p[1..][i + 1] == p[i + 2];
        }
      }
      NonNegativeWeight(w, p[1..]);
    }
  }

  /** With positive weights every walk with an edge weighs more than nothing. */
  lemma PositiveWeight(w: Weights, p: seq<Node>)
    requires Positive(w) && IsWalk(w, p)
    ensures |p| >= 2 ==> PathWeight(w, p) > 0
  {
    if |p| >= 2 {
      PositiveNonNegative(w);
      assert IsEdge(w, p[0], p[1]);
      assert IsWalk(w, p[1..]) by {
        forall i | 0 <= i < |p[1..]| - 1 ensures IsEdge(w, p[1..][i], p[1..][i + 1]) {
          assert p[1..][i] == p[i + 1] && p[1..][i + 1] == p[i + 2];
        }
      }
      NonNegativeWeight(w, p[1..]);
    }
  }

  /** When every edge weighs at least `m`, a walk weighs at least `m` per edge. */
  lemma {:induction false} WeightAtLeast(w: Weights, p: seq<Node>, m: int)
    requires |p| > 0 && IsWalk(w, p)
    requires forall u, v {:trigger IsEdge(w, u, v)} :: IsEdge(w, u, v) ==> w[u][v] >= m
    ensures PathWeight(w, p) >= m * (|p| - 1)
    decreases |p|
  {
    if |p| >= 2 {
      assert IsEdge(w, p[0], p[1]);
      assert IsWalk(w, p[1..]) by {
        forall i | 0 <= i < |p[1..]| - 1 ensures IsEdge(w, p[1..][i], p[1..][i + 1]) {
          assert p[1..][i] == p[i + 1] && p[1..][i + 1] == p[i + 2];
        }
      }
      WeightAtLeast(w, p[1..], m);
    }
  }

  /** Summing consistency along a path: h(s) <= weight + h(d). */
  lemma {:induction false} PotentialAlongPath(w: Weights, h: Node -> int, p: seq<Node>, s: Node, d: Node)
    requires Consistent(w, h) && IsPath(w, p, s, d)
    ensures h(s) <= PathWeight(w, p) + h(d)
    decreases |p|
  {
    if |p| >= 2 {
      assert IsEdge(w, p[0], p[1]);
      SubPath(w, p, s, d, 1, |p| - 1);
      assert p[1..|p|] == p[1..];
      PotentialAlongPath(w, h, p[1..], p[1], d);
    }
  }

  /** Every node of a path lies in V when the graph is closed over V and s is in V. */
  lemma PathInside(w: Weights, V: set<Node>, p: seq<Node>, s: Node, d: Node)
    requires Closed(w, V) && IsPath(w, p, s, d) && s in V
    ensures forall i :: 0 <= i < |p| ==> p[i] in V
  {
    forall i | 0 <= i < |p| ensures p[i] in V {
      if i > 0 {
        assert IsEdge(w, p[i - 1], p[i]);
      }
    }
  }

  /** In a graph closed over V, a path that ends inside V also starts inside V. */
  lemma PathStartsInside(w: Weights, V: set<Node>, p: seq<Node>, s: Node, d: Node)
    requires Closed(w, V) && IsPath(w, p, s, d) && d in V
    ensures s in V
  {
    if |p| > 1 {
      assert IsEdge(w, p[0], p[1]);
    }
  }

  /** A repetition-free sequence over V is no longer than V is large. */
  lemma {:induction false} DistinctBound(s: seq<Node>, V: set<Node>)
    requires Distinct(s) && forall i :: 0 <= i < |s| ==> s[i] in V
    ensures |s| <= |V|
    decreases |s|
  {
    if |s| > 0 {
      var x := s[|s| - 1];
      var t := s[..|s| - 1];
      assert forall i :: 0 <= i < |t| ==> t[i] in V - {x} by {
        forall i | 0 <= i < |t| ensures t[i] in V - {x} {
          assert t[i] == s[i];
          assert s[i] != s[|s| - 1];
        }
      }
      assert Distinct(t) by {
        forall i, j | 0 <= i < j < |t| ensures t[i] != t[j] {
          assert t[i] == s[i] && t[j] == s[j];
        }
      }
      DistinctBound(t, V - {x});
    }
  }

  /** `Object.keys(m)`: every key once, in some order. */
  method KeyList<T>(m: map<Node, T>) returns (nodes: seq<Node>)
    ensures Distinct(nodes) && forall v :: v in nodes <==> v in m
    ensures |nodes| == |m.Keys|
  {
    nodes := [];
    var rest := m.Keys;
    while rest != {}
      invariant forall v :: v in m <==> v in nodes || v in rest
      invariant rest <= m.Keys && |nodes| + |rest| == |m.Keys|
      invariant forall v :: v in nodes ==> v !in rest
      invariant Distinct(nodes)
      decreases |rest|
    {
      var v :| v in rest;
      nodes := nodes + [v];
      rest := rest - {v};
    }
  }
}
