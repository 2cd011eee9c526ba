/**
 What the resolver can still do: a caller before its deadline can be answered from
 every reachable state, and all 32 slots can be resolving at once.
 */
module ResolverProgress {
  import opened Prelude
  import opened ResolverSlots

  ghost predicate Reachable(p: Pool) {
    exists states, actions :: Run(states, actions) && states[|actions|] == p
  }

  lemma StepReaches(p: Pool, a: Action)
    requires Reachable(p) && Enabled(p, a)
    ensures Reachable(Apply(p, a))
  {
    var states, actions :| Run(states, actions) && states[|actions|] == p;
    assert Run(states + [Apply(p, a)], actions + [a]);
  }

  lemma ReachableInv(p: Pool)
    requires Reachable(p)
    ensures Inv(p)
  {
    var states, actions :| Run(states, actions) && states[|actions|] == p;
    RunKeepsInv(states, actions, |actions|);
  }

  /** Some actions, none of which is the clock's or a new request, lead from `p` to `p'` without time passing. */
  ghost predicate LeadsTo(p: Pool, p': Pool) {
    exists actions :: Playable(p, actions) && Played(p, actions) == p'
  }

  ghost predicate Playable(p: Pool, actions: seq<Action>)
    decreases |actions|
  {
    actions == []
    || (Enabled(p, actions[0]) && OfRequest(actions[0]) && ClockAfter(p, actions[0]) == p.now
        && Playable(Apply(p, actions[0]), actions[1..]))
  }

  ghost function Played(p: Pool, actions: seq<Action>): Pool
    requires Playable(p, actions)
    decreases |actions|
  {
    if actions == [] then p else Played(Apply(p, actions[0]), actions[1..])
  }

  lemma {:induction false} PlayedOn(p: Pool, first: seq<Action>, second: seq<Action>)
    requires Playable(p, first) && Playable(Played(p, first), second)
    ensures Playable(p, first + second) && Played(p, first + second) == Played(Played(p, first), second)
    decreases |first|
  {
    if first == [] {
      assert first + second == second;
    } else {
      assert (first + second)[1..] == first[1..] + second;
      PlayedOn(Apply(p, first[0]), first[1..], second);
    }
  }

  lemma Stays(p: Pool)
    ensures LeadsTo(p, p)
  {
    var none: seq<Action> := [];
    assert Playable(p, none) && Played(p, none) == p;
  }

  lemma Then(p: Pool, q: Pool, r: Pool)
    requires LeadsTo(p, q) && LeadsTo(q, r)
    ensures LeadsTo(p, r)
  {
    var first :| Playable(p, first) && Played(p, first) == q;
    var second :| Playable(q, second) && Played(q, second) == r;
    PlayedOn(p, first, second);
  }

  /** One step of one request, after the steps before. */
  lemma AndStep(p: Pool, q: Pool, a: Action)
    requires Reachable(q) && LeadsTo(p, q) && OfRequest(a) && Enabled(q, a) && ClockAfter(q, a) == q.now
    ensures LeadsTo(p, Apply(q, a)) && Reachable(Apply(q, a))
    ensures Apply(q, a) == Pool(q.now, q.free - Taken(q.requests[a.r], a),
                                q.requests[a.r := StepRequest(q.requests[a.r], a)])
  {
    var one := [a];
    assert one[1..] == [];
    assert Playable(Apply(q, a), one[1..]);
    assert Playable(q, one) && Played(q, one) == Apply(q, a);
    Then(p, q, Apply(q, a));
    StepReaches(q, a);
  }

  /** From its acquire to a worker that resolves, if a slot is free and the deadline ahead. */
  lemma WorkerCanStart(p: Pool, r: nat) returns (e: Pool)
    requires Reachable(p) && r < |p.requests| && p.requests[r].caller.Acquiring?
    requires p.free > 0 && p.now < p.requests[r].deadline
    ensures LeadsTo(p, e) && Reachable(e) && e.now == p.now && e.free == p.free - 1
    ensures |e.requests| == |p.requests| && e.requests == p.requests[r := e.requests[r]]
    ensures e.requests[r].caller.Awaiting? && e.requests[r].worker.Resolving?
  {
    Stays(p);
    AndStep(p, p, TakeSlot(r));
    e := Apply(p, TakeSlot(r));
    AndStep(p, e, CheckTime(r, p.now));
    e := Apply(e, CheckTime(r, p.now));
    AndStep(p, e, StartWorker(r, true));
    e := Apply(e, StartWorker(r, true));
  }

  /** From a resolving worker to the caller's answer. */
  lemma ReplyCanArrive(p: Pool, r: nat, found: seq<string>) returns (e: Pool)
    requires Reachable(p) && r < |p.requests|
    requires p.requests[r].caller.Awaiting? && p.requests[r].worker.Resolving?
    ensures LeadsTo(p, e) && Reachable(e) && e.now == p.now
    ensures r < |e.requests| && e.requests[r].caller == Answered(found)
  {
    ReachableInv(p);
    Stays(p);
    AndStep(p, p, Resolve(r, Addresses(found)));
    e := Apply(p, Resolve(r, Addresses(found)));
    AndStep(p, e, Put(r));
    e := Apply(e, Put(r));
    AndStep(p, e, Get(r));
    e := Apply(e, Get(r));
  }

  /** With a free slot, any caller before its deadline can be answered with any addresses. */
  lemma FreeSlotMeansAnswer(p: Pool, r: nat, found: seq<string>) returns (e: Pool)
    requires Reachable(p) && r < |p.requests| && p.requests[r].caller.Acquiring?
    requires p.free > 0 && p.now < p.requests[r].deadline
    ensures LeadsTo(p, e) && r < |e.requests| && e.requests[r].caller == Answered(found)
  {
    var p1 := WorkerCanStart(p, r);
    e := ReplyCanArrive(p1, r, found);
    Then(p, p1, e);
  }

  /** A worker returns its slot once its resolution ends. */
  lemma WorkerCanRelease(p: Pool, h: nat) returns (e: Pool)
    requires Reachable(p) && h < |p.requests| && !p.requests[h].worker.Absent? && !p.requests[h].worker.Ended?
    ensures LeadsTo(p, e) && Reachable(e) && e.now == p.now && e.free == p.free + 1
    ensures |e.requests| == |p.requests| && e.requests == p.requests[h := e.requests[h]]
  {
    ReachableInv(p);
    Stays(p);
    e := p;
    if e.requests[h].worker.Resolving? {
      AndStep(p, e, Resolve(h, Failure));
      e := Apply(e, Resolve(h, Failure));
    }
    if e.requests[h].worker.Putting? {
      AndStep(p, e, Put(h));
      e := Apply(e, Put(h));
    }
    AndStep(p, e, ReleaseSlot(h));
    e := Apply(e, ReleaseSlot(h));
  }

  /** A caller that owns a slot returns it, or hands it to a worker that does. */
  lemma CallerCanRelease(p: Pool, h: nat) returns (e: Pool)
    requires Reachable(p) && h < |p.requests|
    requires p.requests[h].caller.Holding? || p.requests[h].caller.Starting?
    ensures LeadsTo(p, e) && Reachable(e) && e.now == p.now && e.free == p.free + 1
    ensures |e.requests| == |p.requests| && e.requests == p.requests[h := e.requests[h]]
  {
    Stays(p);
    e := p;
    if e.requests[h].caller.Holding? {
      AndStep(p, e, CheckTime(h, p.now));
      e := Apply(e, CheckTime(h, p.now));
    }
    if e.requests[h].caller.Starting? {
      AndStep(p, e, StartWorker(h, true));
      e := Apply(e, StartWorker(h, true));
      var last := WorkerCanRelease(e, h);
      Then(p, e, last);
      e := last;
    }
  }

  lemma SlotCanBeFreed(p: Pool, r: nat) returns (e: Pool)
    requires Reachable(p) && r < |p.requests| && p.requests[r].caller.Acquiring?
    ensures LeadsTo(p, e) && Reachable(e) && e.now == p.now && e.free > 0
    ensures r < |e.requests| && e.requests[r] == p.requests[r]
  {
    ReachableInv(p);
    Stays(p);
    e := p;
    if p.free == 0 {
      var h :| h in Holders(p.requests);
      assert Sound(p.requests[r]) && h != r;
      if p.requests[h].caller.Holding? || p.requests[h].caller.Starting? {
        e := CallerCanRelease(p, h);
      } else {
        e := WorkerCanRelease(p, h);
      }
    }
  }

  /**
   From every reachable state, a caller that waits for a slot before its deadline can be
   answered with any addresses: no state of the other requests, abandoned ones included, shuts it out.
   */
  lemma EveryCallerCanBeAnswered(p: Pool, r: nat, found: seq<string>) returns (e: Pool)
    requires Reachable(p) && r < |p.requests| && p.requests[r].caller.Acquiring? && p.now < p.requests[r].deadline
    ensures LeadsTo(p, e) && r < |e.requests| && e.requests[r].caller == Answered(found)
  {
    var p1 := SlotCanBeFreed(p, r);
    e := FreeSlotMeansAnswer(p1, r, found);
    Then(p, p1, e);
  }

  /** So many requests, all resolving. */
  ghost predicate AllResolving(p: Pool, n: nat) {
    Reachable(p) && |p.requests| == n && p.free == 32 - n && forall r :: 0 <= r < n ==> p.requests[r].worker.Resolving?
  }

  lemma {:induction false} SlotsCanBeBusy(n: nat) returns (p: Pool)
    requires n <= 32
    ensures AllResolving(p, n)
  {
    if n == 0 {
      p := Pool(0.0, 32, []);
      var none: seq<Action> := [];
      assert Run([p], none) && [p][|none|] == p;
    } else {
      var p0 := SlotsCanBeBusy(n - 1);
      StepReaches(p0, Arrive(p0.now + 1.0));
      p := WorkerCanStart(Apply(p0, Arrive(p0.now + 1.0)), n - 1);
    }
  }

  /** The bound is tight: 32 workers can be resolving at the same time. */
  lemma AllSlotsCanResolve() returns (p: Pool)
    ensures Reachable(p) && |set r: nat | r < |p.requests| && p.requests[r].worker.Resolving?| == 32
  {
    p := SlotsCanBeBusy(32);
    AllBelow(32);
    assert (set r: nat | r < |p.requests| && p.requests[r].worker.Resolving?) == Below(32);
  }

  function Below(n: nat): set<nat> {
    if n == 0 then {} else Below(n - 1) + {n - 1}
  }

  lemma {:induction false} AllBelow(n: nat)
    ensures |Below(n)| == n && forall r: nat :: r in Below(n) <==> r < n
  {
    if n > 0 {
      AllBelow(n - 1);
    }
  }
}
