/**
 The strict JSON validator of the attestable SBOM generator: an explicit stack of
 enter and leave entries over an object graph that may be shared or cyclic.
 */
module StrictJson {
  import opened Graphs

  type Id = nat

  /** A Python reference: to an exact dict or list, or to a value the validator treats as a leaf. */
  datatype Value =
    | Ref(id: Id)
    | Null
    | Text(subclass: bool)
    | Boolean
    | Integer
    | Float(finite: bool)
    | Foreign

  datatype Key = ExactString(name: string) | OtherKey

  datatype Container = Dict(items: seq<(Key, Value)>) | List(elements: seq<Value>)

  type Heap = map<Id, Container>

  predicate StrictScalar(v: Value) {
    v.Null? || v.Text? || v.Boolean? || v.Integer? || (v.Float? && v.finite)
  }

  function Children(c: Container): (vs: seq<Value>) {
    match c
    case Dict(items) => seq(|items|, i requires 0 <= i < |items| => items[i].1)
    case List(elements) => elements
  }

  predicate ExactKeys(c: Container) {
    c.Dict? ==> forall i :: 0 <= i < |c.items| ==> c.items[i].0.ExactString?
  }

  predicate Resolved(h: Heap, v: Value) { v.Ref? ==> v.id in h }

  /** References resolve: every one in a container leads to a container of the heap. */
  ghost predicate WellFormed(h: Heap) {
    forall id, v :: id in h && Holds(h[id], v) ==> Resolved(h, v)
  }

  // ------------------------------------------------ what the validator promises

  function Refs(vs: seq<Value>): (ids: seq<Id>)
    ensures forall id :: id in ids <==> Ref(id) in vs
  {
    if vs == [] then []
    else (if vs[0].Ref? then [vs[0].id] else []) + Refs(vs[1..])
  }

  function Links(h: Heap): Graph<Id> {
    map id | id in h :: Refs(Children(h[id]))
  }

  predicate StrictContainer(c: Container) {
    && ExactKeys(c)
    && forall v :: v in Children(c) ==> v.Ref? || StrictScalar(v)
  }

  /** `v` is the value of an item, or an element. */
  ghost predicate Holds(c: Container, v: Value) {
    match c
    case Dict(items) => exists i :: 0 <= i < |items| && items[i].1 == v
    case List(elements) => exists i :: 0 <= i < |elements| && elements[i] == v
  }

  /** From container to container, down through items and elements. */
  ghost predicate Descends(h: Heap, p: seq<Id>) {
    && p != []
    && forall i :: 0 <= i < |p| - 1 ==> p[i] in h && Holds(h[p[i]], Ref(p[i + 1]))
  }

  predicate SoundValue(v: Value) {
    match v
    case Ref(_) => true
    case Null => true
    case Text(_) => true
    case Boolean => true
    case Integer => true
    case Float(finite) => finite
    case Foreign => false
  }

  predicate SoundContainer(c: Container) {
    match c
    case Dict(items) => forall i :: 0 <= i < |items| ==> items[i].0.ExactString? && SoundValue(items[i].1)
    case List(elements) => forall i :: 0 <= i < |elements| ==> SoundValue(elements[i])
  }

  /**
   Whichever way one descends from the root, the way leads to a container with exact
   string keys and strict values only, and never to one it has already passed.
   */
  ghost predicate StrictJsonGraph(h: Heap, root: Value) {
    match root
    case Ref(r) =>
      forall p :: Descends(h, p) && p[0] == r ==>
        && p[|p| - 1] in h && SoundContainer(h[p[|p| - 1]])
        && forall i :: 0 <= i < |p| - 1 ==> p[i] != p[|p| - 1]
    case _ => SoundValue(root)
  }

  lemma ChildrenAreHeld(c: Container, v: Value)
    ensures v in Children(c) <==> Holds(c, v)
  {
    match c
    case Dict(items) =>
      forall i | 0 <= i < |items| ensures Children(c)[i] == items[i].1 {}
    case List(_) =>
  }

  lemma LinkIsHeld(h: Heap, a: Id, b: Id)
    ensures Edge(Links(h), a, b) <==> a in h && Holds(h[a], Ref(b))
  {
    if a in h {
      ChildrenAreHeld(h[a], Ref(b));
    }
  }

  lemma DescentIsPath(h: Heap, p: seq<Id>)
    ensures Descends(h, p) <==> IsPath(Links(h), p)
  {
    if Descends(h, p) {
      forall i | 0 <= i < |p| - 1 ensures Edge(Links(h), p[i], p[i + 1]) {
        LinkIsHeld(h, p[i], p[i + 1]);
      }
    }
    if IsPath(Links(h), p) {
      forall i | 0 <= i < |p| - 1 ensures p[i] in h && Holds(h[p[i]], Ref(p[i + 1])) {
        assert Edge(Links(h), p[i], p[i + 1]);
        LinkIsHeld(h, p[i], p[i + 1]);
      }
    }
  }

  lemma StrictIsSound(c: Container)
    ensures StrictContainer(c) <==> SoundContainer(c)
  {
    match c
    case Dict(items) =>
      forall i | 0 <= i < |items| ensures Children(c)[i] == items[i].1 && Children(c)[i] in Children(c) {}
    case List(elements) =>
      forall i | 0 <= i < |elements| ensures elements[i] in Children(c) {}
  }

  // ------------------------------------------------------ recursive definition

  /** Depth-first acceptance of `v` below the containers in `active`. */
  ghost predicate Accepts(h: Heap, v: Value, active: set<Id>)
    decreases h.Keys - active
  {
    match v
    case Ref(id) =>
      && id in h && id !in active && ExactKeys(h[id])
      && forall c :: c in Children(h[id]) ==> Accepts(h, c, active + {id})
    case _ => StrictScalar(v)
  }

  /** A path below an accepted container never repeats and meets only strict containers. */
  lemma {:induction false} AcceptedPath(h: Heap, active: set<Id>, p: seq<Id>)
    requires IsPath(Links(h), p) && Accepts(h, Ref(p[0]), active)
    ensures forall i :: 0 <= i < |p| ==> p[i] in h && p[i] !in active && StrictContainer(h[p[i]])
    ensures forall i, j :: 0 <= i < j < |p| ==> p[i] != p[j]
    decreases |p|
  {
    forall v | v in Children(h[p[0]]) ensures v.Ref? || StrictScalar(v) {
      assert Accepts(h, v, active + {p[0]});
    }
    if |p| == 1 {
    } else {
      TailIsPath(Links(h), p);
      assert Accepts(h, Ref(p[1]), active + {p[0]});
      AcceptedPath(h, active + {p[0]}, p[1..]);
      forall i | 0 < i < |p| ensures p[i] == p[1..][i - 1] {}
    }
  }

  /** The path ends in an active, an impure or a repeated container. */
  ghost predicate Condemns(h: Heap, active: set<Id>, p: seq<Id>)
    requires p != [] && p[|p| - 1] in h
  {
    || p[|p| - 1] in active
    || !StrictContainer(h[p[|p| - 1]])
    || exists i :: 0 <= i < |p| - 1 && p[i] == p[|p| - 1]
  }

  lemma LongerCondemns(h: Heap, id: Id, active: set<Id>, q: seq<Id>)
    requires q != [] && q[|q| - 1] in h && Condemns(h, active + {id}, q)
    ensures Condemns(h, active, [id] + q)
  {
    var p, last := [id] + q, q[|q| - 1];
    assert p[0] == id && p[|p| - 1] == last;
    if last != id && last !in active && StrictContainer(h[last]) {
      var i :| 0 <= i < |q| - 1 && q[i] == last;
      assert p[i + 1] == last;
    }
  }

  /** Why a container is rejected: a path from it to an active, a repeated or an impure container. */
  lemma {:induction false} RejectedPath(h: Heap, id: Id, active: set<Id>) returns (p: seq<Id>)
    requires WellFormed(h) && id in h && !Accepts(h, Ref(id), active)
    ensures IsPath(Links(h), p) && p[0] == id && p[|p| - 1] in h && Condemns(h, active, p)
    decreases h.Keys - active
  {
    p := [id];
    if id !in active && StrictContainer(h[id]) {
      var c :| c in Children(h[id]) && !Accepts(h, c, active + {id});
      ChildrenAreHeld(h[id], c);
      assert c.Ref? && Resolved(h, c);
      var q := RejectedPath(h, c.id, active + {id});
      p := Prefixed(Links(h), id, q);
      LongerCondemns(h, id, active, q);
    }
  }

  lemma Prefixed(g: Graph<Id>, id: Id, q: seq<Id>) returns (p: seq<Id>)
    requires IsPath(g, q) && Edge(g, id, q[0])
    ensures p == [id] + q && IsPath(g, p)
  {
    Join(g, [id, q[0]], q);
    p := [id] + q;
    assert p == [id, q[0]] + q[1..];
  }

  lemma AcceptsExactlyStrictGraphs(h: Heap, root: Value)
    requires WellFormed(h) && Resolved(h, root)
    ensures Accepts(h, root, {}) <==> StrictJsonGraph(h, root)
  {
    if root.Ref? {
      if Accepts(h, root, {}) {
        forall p | Descends(h, p) && p[0] == root.id
          ensures p[|p| - 1] in h && SoundContainer(h[p[|p| - 1]])
          ensures forall i :: 0 <= i < |p| - 1 ==> p[i] != p[|p| - 1]
        {
          DescentIsPath(h, p);
          AcceptedPath(h, {}, p);
          StrictIsSound(h[p[|p| - 1]]);
        }
      } else {
        var p := RejectedPath(h, root.id, {});
        DescentIsPath(h, p);
        StrictIsSound(h[p[|p| - 1]]);
      }
    }
  }

  // ------------------------------------------------------- the stack's meaning

  /** A stack entry: `(value, False)` visits, `(value, True)` leaves a container. */
  datatype Entry = Visit(value: Value) | Leave(id: Id)

  ghost predicate StackAccepts(h: Heap, stack: seq<Entry>, active: set<Id>) {
    if stack == [] then true
    else
      var rest := stack[..|stack| - 1];
      match stack[|stack| - 1]
      case Visit(v) => Accepts(h, v, active) && StackAccepts(h, rest, active)
      case Leave(id) => StackAccepts(h, rest, active - {id})
  }

  /** The leave entries are exactly the active containers, each once. */
  ghost predicate Balanced(stack: seq<Entry>, active: set<Id>) {
    if stack == [] then active == {}
    else
      var rest := stack[..|stack| - 1];
      match stack[|stack| - 1]
      case Visit(_) => Balanced(rest, active)
      case Leave(id) => id in active && Balanced(rest, active - {id})
  }

  /** Loop turns needed to work off one value below `active`, counting shared containers each time. */
  ghost function Turns(h: Heap, v: Value, active: set<Id>): nat
    decreases h.Keys - active, 0
  {
    match v
    case Ref(id) =>
      if id in h && id !in active then 2 + TurnsOfAll(h, Children(h[id]), active + {id}) else 1
    case _ => 1
  }

  ghost function TurnsOfAll(h: Heap, vs: seq<Value>, active: set<Id>): nat
    decreases h.Keys - active, |vs|
  {
    if vs == [] then 0
    else Turns(h, vs[|vs| - 1], active) + TurnsOfAll(h, vs[..|vs| - 1], active)
  }

  ghost function StackTurns(h: Heap, stack: seq<Entry>, active: set<Id>): nat {
    if stack == [] then 0
    else
      var rest := stack[..|stack| - 1];
      match stack[|stack| - 1]
      case Visit(v) => Turns(h, v, active) + StackTurns(h, rest, active)
      case Leave(id) => 1 + StackTurns(h, rest, active - {id})
  }

  function Visits(vs: seq<Value>): seq<Entry> {
    seq(|vs|, i requires 0 <= i < |vs| => Visit(vs[i]))
  }

  /** Pushing values on a stack adds exactly their own verdicts and turns. */
  lemma {:induction false} Pushed(h: Heap, stack: seq<Entry>, vs: seq<Value>, active: set<Id>)
    ensures StackAccepts(h, stack + Visits(vs), active)
       <==> StackAccepts(h, stack, active) && forall v :: v in vs ==> Accepts(h, v, active)
    ensures Balanced(stack + Visits(vs), active) <==> Balanced(stack, active)
    ensures StackTurns(h, stack + Visits(vs), active)
         == StackTurns(h, stack, active) + TurnsOfAll(h, vs, active)
    decreases |vs|
  {
    if vs == [] {
      assert stack + Visits(vs) == stack;
    } else {
      var init, last := vs[..|vs| - 1], vs[|vs| - 1];
      var s := stack + Visits(vs);
      assert s[|s| - 1] == Visit(last);
      assert s[..|s| - 1] == stack + Visits(init);
      assert vs == init + [last];
      assert (forall v :: v in vs ==> Accepts(h, v, active))
        <==> Accepts(h, last, active) && forall v :: v in init ==> Accepts(h, v, active);
      Pushed(h, stack, init, active);
    }
  }

  /** Entering a container replaces its entry by a leave entry under its children. */
  lemma Entered(h: Heap, rest: seq<Entry>, id: Id, active: set<Id>)
    requires id in h && id !in active && ExactKeys(h[id])
    ensures var s := rest + [Leave(id)] + Visits(Children(h[id]));
            && (StackAccepts(h, s, active + {id}) <==> Accepts(h, Ref(id), active) && StackAccepts(h, rest, active))
            && (Balanced(s, active + {id}) <==> Balanced(rest, active))
            && StackTurns(h, s, active + {id}) < Turns(h, Ref(id), active) + StackTurns(h, rest, active)
  {
    var base := rest + [Leave(id)];
    Pushed(h, base, Children(h[id]), active + {id});
    assert base[..|base| - 1] == rest && base[|base| - 1] == Leave(id);
    assert active + {id} - {id} == active;
  }

  /** Every value still to be visited resolves. */
  ghost predicate StackResolved(h: Heap, stack: seq<Entry>) {
    forall i :: 0 <= i < |stack| && stack[i].Visit? ==> Resolved(h, stack[i].value)
  }

  lemma EnteredIsResolved(h: Heap, rest: seq<Entry>, id: Id)
    requires WellFormed(h) && id in h && StackResolved(h, rest)
    ensures StackResolved(h, rest + [Leave(id)] + Visits(Children(h[id])))
  {
    var children := Children(h[id]);
    forall j | 0 <= j < |children| ensures Resolved(h, children[j]) {
      assert children[j] in children;
      ChildrenAreHeld(h[id], children[j]);
    }
  }

  // ---------------------------------------------------------------- the loop

  /** The loop over a dict: every item is pushed unless some key is no exact string. */
  method PushItems(base: seq<Entry>, items: seq<(Key, Value)>) returns (exact: bool, stack: seq<Entry>)
    ensures exact <==> ExactKeys(Dict(items))
    ensures exact ==> stack == base + Visits(Children(Dict(items)))
    ensures exact ==>
              && |stack| == |base| + |items| && base <= stack
              && forall i :: 0 <= i < |items| ==> items[i].0.ExactString? && stack[|base| + i] == Visit(items[i].1)
  {
    stack := base;
    for i := 0 to |items|
      invariant forall j :: 0 <= j < i ==> items[j].0.ExactString?
      invariant stack == base + Visits(Children(Dict(items)))[..i]
    {
      if !items[i].0.ExactString? {
        return false, stack;
      }
      stack := stack + [Visit(items[i].1)];
    }
    return true, stack;
  }

  /** Returns normally (`ok`) exactly for strict JSON graphs, and always terminates. */
  method ValidateStrictJsonValue(h: Heap, root: Value) returns (ok: bool)
    requires WellFormed(h) && Resolved(h, root)
    ensures ok <==> StrictJsonGraph(h, root)
  {
    AcceptsExactlyStrictGraphs(h, root);
    var stack := [Visit(root)];
    var active: set<Id> := {};
    while stack != []
      invariant active <= h.Keys && Balanced(stack, active)
      invariant StackResolved(h, stack)
      invariant StackAccepts(h, stack, active) <==> Accepts(h, root, {})
      decreases StackTurns(h, stack, active)
    {
      var entry := stack[|stack| - 1];
      var rest := stack[..|stack| - 1];
      match entry {
        case Leave(id) =>
          assert id in active;  // `remove` never meets an absent id
          stack, active := rest, active - {id};
        case Visit(Ref(id)) =>
          if id in active {
            return false;
          }
          var container := h[id];
          match container {
            case Dict(items) =>
              var exact;
              exact, stack := PushItems(rest + [Leave(id)], items);
              if !exact {
                return false;
              }
            case List(elements) =>
              stack := rest + [Leave(id)] + Visits(elements);
          }
          Entered(h, rest, id, active);
          EnteredIsResolved(h, rest, id);
          active := active + {id};
        case Visit(value) =>
          if !StrictScalar(value) {
            return false;
          }
          stack := rest;
      }
    }
    return true;
  }
}
