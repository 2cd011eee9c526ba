/**
 The reviewed dependency manifest: the recursive walk that finds the reachable
 packages, and the closure check built on it.
 */
module Manifest {
  import opened Graphs

  type Name = string

  datatype Outcome = Done | Cycle(name: Name) | Unknown(name: Name)

  /** Every dependency of an entry stands before it. */
  predicate Topological(g: Graph<Name>, order: seq<Name>) {
    && (forall i, j :: 0 <= i < j < |order| ==> order[i] != order[j])
    && forall i :: 0 <= i < |order| ==>
         order[i] in g && forall d :: d in g[order[i]] ==> d in order[..i]
  }

  /** A path that starts in a topological order only ever moves towards its front. */
  lemma {:induction false} PathDescends(g: Graph<Name>, order: seq<Name>, i: nat, p: seq<Name>)
    requires Topological(g, order) && i < |order|
    requires IsPath(g, p) && p[0] == order[i]
    ensures forall k :: 0 < k < |p| ==> p[k] in order[..i]
    decreases |p|
  {
    if |p| == 1 {
    } else {
      TailIsPath(g, p);
      var j :| 0 <= j < i && order[j] == p[1];
      PathDescends(g, order, j, p[1..]);
      forall k | 0 < k < |p| ensures p[k] in order[..i] {
        if k > 1 {
          assert p[k] == p[1..][k - 1];
          assert p[k] in order[..j];
          assert order[..j] == order[..i][..j];
        }
      }
    }
  }

  lemma FinishedLast(g: Graph<Name>, order: seq<Name>, n: Name)
    requires Topological(g, order) && n in g && n !in order
    requires forall d :: d in g[n] ==> d in order
    ensures Topological(g, order + [n])
  {
    var longer := order + [n];
    forall i | 0 <= i < |longer| ensures forall d :: d in g[longer[i]] ==> d in longer[..i] {
      assert longer[..i] == order[..i];
    }
  }

  lemma TopologicalIsAcyclic(g: Graph<Name>, order: seq<Name>, n: Name)
    requires Topological(g, order) && n in order
    ensures !OnCycle(g, n)
    ensures forall m :: Reaches(g, n, m) ==> m in order
  {
    var i :| 0 <= i < |order| && order[i] == n;
    if OnCycle(g, n) {
      var p :| |p| > 1 && PathFrom(g, p, n, n);
      assert n !in order[..i];
      PathDescends(g, order, i, p);
    }
    forall m | Reaches(g, n, m) ensures m in order {
      var p :| PathFrom(g, p, n, m);
      PathDescends(g, order, i, p);
      if |p| > 1 { assert p[|p| - 1] in order[..i]; }
    }
  }

  /** The active names are the trail, a path; the visited ones stand in topological order. */
  ghost predicate ValidWalk(g: Graph<Name>, visited: set<Name>, active: set<Name>, trail: seq<Name>, order: seq<Name>) {
    && (forall n :: n in active <==> n in trail)
    && (forall n :: n in visited <==> n in order)
    && active <= g.Keys
    && active !! visited
    && (trail != [] ==> IsPath(g, trail))
    && (forall i, j :: 0 <= i < j < |trail| ==> trail[i] != trail[j])
    && Topological(g, order)
  }

  lemma EnteringKeepsValid(g: Graph<Name>, visited: set<Name>, active: set<Name>, trail: seq<Name>, order: seq<Name>,
                           name: Name)
    requires ValidWalk(g, visited, active, trail, order)
    requires name in g && name !in active && name !in visited
    requires trail != [] ==> Edge(g, trail[|trail| - 1], name)
    ensures ValidWalk(g, visited, active + {name}, trail + [name], order)
  {
  }

  lemma FinishingKeepsValid(g: Graph<Name>, visited: set<Name>, active: set<Name>, trail: seq<Name>, order: seq<Name>,
                            name: Name)
    requires ValidWalk(g, visited, active + {name}, trail + [name], order)
    requires name !in active && forall d :: d in g[name] ==> d in visited
    requires forall n :: n in active <==> n in trail
    ensures ValidWalk(g, visited + {name}, active, trail, order + [name])
  {
    FinishedLast(g, order, name);
    assert (trail + [name])[..|trail|] == trail;
    if trail != [] {
      forall i | 0 <= i < |trail| - 1 ensures Edge(g, trail[i], trail[i + 1]) {
        assert Edge(g, (trail + [name])[i], (trail + [name])[i + 1]);
      }
    }
  }

  /** What a dependency's visit adds lies below the package itself. */
  lemma VisitedStayBelow(g: Graph<Name>, name: Name, dependency: Name, first: set<Name>, before: set<Name>,
                         after: set<Name>)
    requires Edge(g, name, dependency)
    requires forall n :: n in before ==> n in first || Reaches(g, name, n)
    requires forall n :: n in after ==> n in before || Reaches(g, dependency, n)
    ensures forall n :: n in after ==> n in first || Reaches(g, name, n)
  {
    forall n | n in after && n !in before ensures Reaches(g, name, n) {
      ReachesAcrossEdge(g, name, dependency, n);
    }
  }

  /** The state the nested function `visit` closes over. */
  class DependencyWalk {
    const components: Graph<Name>
    var visited: set<Name>
    var active: set<Name>
    ghost var trail: seq<Name>   // the active names, outermost first
    ghost var order: seq<Name>   // the visited names, in the order they finished

    constructor (components: Graph<Name>)
      ensures this.components == components && Valid()
      ensures visited == {} && trail == []
    {
      this.components := components;
      visited, active := {}, {};
      trail, order := [], [];
    }

    ghost predicate Valid()
      reads this
    {
      ValidWalk(components, visited, active, trail, order)
    }

    /** The trail from an active name onwards closes a cycle with the edge just taken. */
    lemma ActiveNameIsOnCycle(name: Name)
      requires Valid() && name in active && Edge(components, trail[|trail| - 1], name)
      ensures OnCycle(components, name)
    {
      var i :| 0 <= i < |trail| && trail[i] == name;
      var p := trail + [name];
      forall k | 0 <= k < |p| - 1 ensures Edge(components, p[k], p[k + 1]) {
        if k < |trail| - 1 { assert Edge(components, trail[k], trail[k + 1]); }
      }
      RepeatIsCycle(components, p, i);
    }

    method Visit(name: Name) returns (r: Outcome)
      requires Valid()
      requires trail != [] ==> Edge(components, trail[|trail| - 1], name)
      modifies this
      decreases components.Keys - active, 0
      ensures r.Done? ==>
                && Valid() && trail == old(trail) && active == old(active)
                && old(visited) <= visited && name in visited
                && forall n :: n in visited ==> n in old(visited) || Reaches(components, name, n)
      ensures r.Cycle? ==> Reaches(components, name, r.name) && OnCycle(components, r.name)
      ensures r.Unknown? ==> Reaches(components, name, r.name) && r.name !in components
    {
      ReachesSelf(components, name);
      if name in active {
        ActiveNameIsOnCycle(name);
        return Cycle(name);
      }
      if name in visited {
        return Done;
      }
      if name !in components {
        return Unknown(name);
      }
      ghost var outer := trail;
      EnteringKeepsValid(components, visited, active, outer, order, name);
      active := active + {name};
      trail := outer + [name];
      r := VisitDependencies(name);
      if !r.Done? {
        return;
      }
      FinishingKeepsValid(components, visited, old(active), outer, order, name);
      active := active - {name};
      trail := outer;
      assert active == old(active);
      visited := visited + {name};
      order := order + [name];
    }

    /** The loop of `visit` over what an active package depends on. */
    method VisitDependencies(name: Name) returns (r: Outcome)
      requires Valid() && trail != [] && trail[|trail| - 1] == name && name in components
      modifies this
      decreases components.Keys - active, 1
      ensures r.Done? ==>
                && Valid() && trail == old(trail) && active == old(active)
                && old(visited) <= visited && (forall d :: d in components[name] ==> d in visited)
                && forall n :: n in visited ==> n in old(visited) || Reaches(components, name, n)
      ensures r.Cycle? ==> Reaches(components, name, r.name) && OnCycle(components, r.name)
      ensures r.Unknown? ==> Reaches(components, name, r.name) && r.name !in components
    {
      var dependencies := components[name];
      for i := 0 to |dependencies|
        invariant Valid() && trail == old(trail) && active == old(active)
        invariant old(visited) <= visited
        invariant forall j :: 0 <= j < i ==> dependencies[j] in visited
        invariant forall n :: n in visited ==> n in old(visited) || Reaches(components, name, n)
      {
        var dependency := dependencies[i];
        ghost var before := visited;
        r := Visit(dependency);
        if r.Cycle? || r.Unknown? {
          ReachesAcrossEdge(components, name, dependency, r.name);
          return;
        }
        VisitedStayBelow(components, name, dependency, old(visited), before, visited);
      }
      return Done;
    }
  }

  datatype Walk = Visited(names: set<Name>) | Rejected(reason: Outcome)

  /** What is reachable from the roots is known and free of cycles. */
  ghost predicate SoundBelow(roots: seq<Name>, g: Graph<Name>) {
    forall n :: ReachesAny(g, roots, n) ==> n in g && !OnCycle(g, n)
  }

  /** `names` holds the roots and, with a name, what it depends on. */
  ghost predicate ClosedUnder(roots: seq<Name>, g: Graph<Name>, names: set<Name>) {
    (forall n :: n in roots ==> n in names) && forall m, n :: m in names && m in g && n in g[m] ==> n in names
  }

  lemma {:induction false} PathStaysIn(roots: seq<Name>, g: Graph<Name>, names: set<Name>, p: seq<Name>)
    requires ClosedUnder(roots, g, names) && IsPath(g, p) && p[0] in names
    ensures p[|p| - 1] in names
    decreases |p|
  {
    if |p| > 1 {
      TailIsPath(g, p);
      PathStaysIn(roots, g, names, p[1..]);
    }
  }

  /** What is reachable is the least set that holds the roots and is closed. */
  lemma ReachableIsLeast(roots: seq<Name>, g: Graph<Name>, names: set<Name>)
    requires forall n :: n in names <==> ReachesAny(g, roots, n)
    ensures ClosedUnder(roots, g, names)
    ensures forall others :: ClosedUnder(roots, g, others) ==> names <= others
  {
    forall n | n in roots ensures n in names {
      RootIsReached(g, roots, n);
    }
    forall m, n | m in names && m in g && n in g[m] ensures n in names {
      assert Edge(g, m, n);
      ReachedAcrossEdge(g, roots, m, n);
    }
    forall others, n | ClosedUnder(roots, g, others) && n in names ensures n in others {
      var r :| r in roots && Reaches(g, r, n);
      var p :| PathFrom(g, p, r, n);
      PathStaysIn(roots, g, others, p);
    }
  }

  /** Names that can be listed so that each stands behind what it depends on. */
  ghost predicate Orders(roots: seq<Name>, g: Graph<Name>, order: seq<Name>) {
    && (forall n :: n in roots ==> n in order)
    && forall i :: 0 <= i < |order| ==>
         order[i] in g && forall d :: d in g[order[i]] ==> exists j :: 0 <= j < i && order[j] == d
  }

  lemma TopologicalOrders(roots: seq<Name>, g: Graph<Name>, order: seq<Name>)
    requires Topological(g, order) && forall n :: n in roots ==> n in order
    ensures Orders(roots, g, order)
  {
    forall i, d | 0 <= i < |order| && d in g[order[i]] ensures exists j :: 0 <= j < i && order[j] == d {
      var j :| 0 <= j < i && order[..i][j] == d;
      assert order[j] == d;
    }
  }

  /** A path from a place in such a list only moves towards its front. */
  lemma {:induction false} OrderedPathDescends(roots: seq<Name>, g: Graph<Name>, order: seq<Name>, i: nat, p: seq<Name>)
    returns (j: nat)
    requires Orders(roots, g, order) && i < |order| && IsPath(g, p) && p[0] == order[i]
    ensures j <= i && order[j] == p[|p| - 1] && (|p| > 1 ==> j < i)
    decreases |p|
  {
    j := i;
    if |p| > 1 {
      TailIsPath(g, p);
      var k: nat :| k < i && order[k] == p[1];
      j := OrderedPathDescends(roots, g, order, k, p[1..]);
    }
  }

  /** The place of a name in such a list, taken as early as possible, cannot lie on a cycle. */
  lemma {:induction false} FirstPlace(order: seq<Name>, n: Name) returns (i: nat)
    requires n in order
    ensures i < |order| && order[i] == n && forall j :: 0 <= j < i ==> order[j] != n
  {
    if order[0] == n {
      i := 0;
    } else {
      var k := FirstPlace(order[1..], n);
      i := k + 1;
      assert forall j :: 0 < j < i ==> order[j] == order[1..][j - 1];
    }
  }

  lemma OrderedIsSound(roots: seq<Name>, g: Graph<Name>, order: seq<Name>)
    requires Orders(roots, g, order)
    ensures SoundBelow(roots, g)
  {
    forall n | ReachesAny(g, roots, n) ensures n in g && !OnCycle(g, n) {
      var r :| r in roots && Reaches(g, r, n);
      var p :| PathFrom(g, p, r, n);
      var i: nat :| i < |order| && order[i] == r;
      var j := OrderedPathDescends(roots, g, order, i, p);
      if OnCycle(g, n) {
        var q :| |q| > 1 && PathFrom(g, q, n, n);
        var first := FirstPlace(order, n);
        var k := OrderedPathDescends(roots, g, order, first, q);
      }
    }
  }

  /** If every closed set holds the whole graph, the whole graph is reachable. */
  lemma LeastIsReached(roots: seq<Name>, g: Graph<Name>)
    requires SoundBelow(roots, g) && forall names :: ClosedUnder(roots, g, names) ==> g.Keys <= names
    ensures forall n :: n in g ==> ReachesAny(g, roots, n)
  {
    var reached := set n | n in g && ReachesAny(g, roots, n);
    assert forall n :: n in reached <==> ReachesAny(g, roots, n);
    ReachableIsLeast(roots, g, reached);
  }

  /** Sound, complete and terminating on every finite manifest. */
  method Reachable(roots: seq<Name>, components: Graph<Name>) returns (w: Walk)
    ensures w.Visited? <==> SoundBelow(roots, components)
    ensures w.Visited? <==> exists order :: Orders(roots, components, order)
    ensures w.Visited? ==> forall n :: n in w.names <==> ReachesAny(components, roots, n)
    ensures w.Visited? ==>
              && ClosedUnder(roots, components, w.names)
              && forall others :: ClosedUnder(roots, components, others) ==> w.names <= others
    ensures w.Rejected? ==>
              match w.reason
              case Cycle(n) => ReachesAny(components, roots, n) && OnCycle(components, n)
              case Unknown(n) => ReachesAny(components, roots, n) && n !in components
              case Done => false
  {
    var walk := new DependencyWalk(components);
    for i := 0 to |roots|
      invariant walk.components == components && walk.Valid() && walk.trail == []
      invariant forall n :: n in roots[..i] ==> n in walk.visited
      invariant forall n :: n in walk.visited ==> ReachesAny(components, roots, n)
    {
      var r := walk.Visit(roots[i]);
      if !r.Done? {
        forall order | Orders(roots, components, order) ensures false {
          OrderedIsSound(roots, components, order);
        }
        return Rejected(r);
      }
    }
    TopologicalOrders(roots, components, walk.order);
    forall n | ReachesAny(components, roots, n) ensures n in walk.visited && !OnCycle(components, n) {
      var root :| root in roots && Reaches(components, root, n);
      TopologicalIsAcyclic(components, walk.order, root);
      TopologicalIsAcyclic(components, walk.order, n);
    }
    ReachableIsLeast(roots, components, walk.visited);
    return Visited(walk.visited);
  }
}
