/** Finite directed graphs given as successor lists, their paths and their cycles. */
module Graphs {
  type Graph<!N(==)> = map<N, seq<N>>

  predicate Edge<N(==)>(g: Graph<N>, a: N, b: N) {
    a in g && b in g[a]
  }

  /** Consecutive nodes are joined by edges; the last node need not be in the graph. */
  ghost predicate IsPath<N>(g: Graph<N>, p: seq<N>) {
    && p != []
    && forall i :: 0 <= i < |p| - 1 ==> Edge(g, p[i], p[i + 1])
  }

  ghost predicate PathFrom<N>(g: Graph<N>, p: seq<N>, a: N, b: N) {
    IsPath(g, p) && p[0] == a && p[|p| - 1] == b
  }

  ghost predicate Reaches<N(!new)>(g: Graph<N>, a: N, b: N) {
    exists p :: PathFrom(g, p, a, b)
  }

  /** Some non-trivial path leads from `a` back to `a`. */
  ghost predicate OnCycle<N(!new)>(g: Graph<N>, a: N) {
    exists p :: |p| > 1 && PathFrom(g, p, a, a)
  }

  ghost predicate ReachesAny<N(!new)>(g: Graph<N>, roots: seq<N>, b: N) {
    exists r :: r in roots && Reaches(g, r, b)
  }

  lemma Join<N>(g: Graph<N>, p: seq<N>, q: seq<N>)
    requires IsPath(g, p) && IsPath(g, q) && p[|p| - 1] == q[0]
    ensures PathFrom(g, p + q[1..], p[0], q[|q| - 1])
  {
    var r := p + q[1..];
    forall i | 0 <= i < |r| - 1 ensures Edge(g, r[i], r[i + 1]) {
      if i >= |p| - 1 {
        assert r[i] == q[i - (|p| - 1)] && r[i + 1] == q[i + 1 - (|p| - 1)];
      }
    }
  }

  lemma ReachesSelf<N(!new)>(g: Graph<N>, a: N)
    ensures Reaches(g, a, a)
  {
    assert PathFrom(g, [a], a, a);
  }

  lemma ReachesTransitive<N(!new)>(g: Graph<N>, a: N, b: N, c: N)
    requires Reaches(g, a, b) && Reaches(g, b, c)
    ensures Reaches(g, a, c)
  {
    var p :| PathFrom(g, p, a, b);
    var q :| PathFrom(g, q, b, c);
    Join(g, p, q);
  }

  lemma ReachesAcrossEdge<N(!new)>(g: Graph<N>, a: N, b: N, c: N)
    requires Edge(g, a, b) && Reaches(g, b, c)
    ensures Reaches(g, a, c)
  {
    assert PathFrom(g, [a, b], a, b);
    ReachesTransitive(g, a, b, c);
  }

  lemma RootIsReached<N(!new)>(g: Graph<N>, roots: seq<N>, a: N)
    requires a in roots
    ensures ReachesAny(g, roots, a)
  {
    ReachesSelf(g, a);
  }

  lemma ReachedAcrossEdge<N(!new)>(g: Graph<N>, roots: seq<N>, a: N, b: N)
    requires ReachesAny(g, roots, a) && Edge(g, a, b)
    ensures ReachesAny(g, roots, b)
  {
    var r :| r in roots && Reaches(g, r, a);
    ReachesSelf(g, b);
    ReachesAcrossEdge(g, a, b, b);
    ReachesTransitive(g, r, a, b);
  }

  lemma Prefixed<N>(g: Graph<N>, a: N, p: seq<N>)
    requires IsPath(g, p) && Edge(g, a, p[0])
    ensures IsPath(g, [a] + p)
  {
    forall i | 0 <= i < |p| ensures Edge(g, ([a] + p)[i], ([a] + p)[i + 1]) {
      if i > 0 { assert Edge(g, p[i - 1], p[i]); }
    }
  }

  lemma TailIsPath<N>(g: Graph<N>, p: seq<N>)
    requires IsPath(g, p) && |p| > 1
    ensures IsPath(g, p[1..]) && Edge(g, p[0], p[1])
  {
    forall i | 0 <= i < |p[1..]| - 1 ensures Edge(g, p[1..][i], p[1..][i + 1]) {
      assert Edge(g, p[i + 1], p[i + 2]);
    }
  }

  /** A path that meets its own end earlier on closes a cycle there. */
  lemma RepeatIsCycle<N(!new)>(g: Graph<N>, p: seq<N>, i: nat)
    requires IsPath(g, p) && i < |p| - 1 && p[i] == p[|p| - 1]
    ensures OnCycle(g, p[i]) && Reaches(g, p[0], p[i])
  {
    var q := p[i..];
    forall j | 0 <= j < |q| - 1 ensures Edge(g, q[j], q[j + 1]) {
      assert Edge(g, p[i + j], p[i + j + 1]);
    }
    assert PathFrom(g, q, p[i], p[i]);
    assert PathFrom(g, p, p[0], p[i]);
  }
}
