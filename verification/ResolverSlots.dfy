/**
 The bounded DNS resolver: any number of callers share a bounded semaphore, and
 each hands its slot to a worker thread that may outlive it.  A request is one
 call of the resolver; an action is one step of its caller, of its worker, or of
 the clock.
 */
module ResolverSlots {
  import opened Prelude

  const SLOTS: nat := 32

  datatype Reply = Addresses(addresses: seq<string>) | Failure

  datatype Caller =
    | Acquiring                        // blocked in the timed acquire
    | Holding                          // owns a slot, has not read the clock again
    | Starting                         // owns a slot, is starting the worker
    | Awaiting                         // the worker owns the slot
    | Answered(addresses: seq<string>)
    | Refused

  datatype Worker =
    | Absent
    | Resolving
    | Putting(reply: Reply)            // about to put into the one-place queue
    | Releasing                        // in the `finally` block
    | Ended

  datatype Request = Request(
    deadline: real, caller: Caller, worker: Worker, queue: Option<Reply>,
    // history
    resolved: Option<Reply>, acquired: nat, released: nat, checkedAt: Option<real>, startFailed: bool)

  datatype Pool = Pool(now: real, free: nat, requests: seq<Request>)

  datatype Action =
    | Arrive(deadline: real)
    | TakeSlot(r: nat)
    | GiveUp(r: nat)
    | CheckTime(r: nat, readAt: real)
    | StartWorker(r: nat, started: bool)
    | Resolve(r: nat, reply: Reply)
    | Abort(r: nat)
    | Put(r: nat)
    | ReleaseSlot(r: nat)
    | Get(r: nat)
    | Abandon(r: nat)
    | Tick(at: real)

  predicate OfRequest(a: Action) { !a.Arrive? && !a.Tick? }

  predicate EnabledFor(p: Pool, q: Request, a: Action)
    requires OfRequest(a)
  {
    match a
    case TakeSlot(_) => q.caller.Acquiring? && p.free > 0
    // a timed acquire fails, and a timed get finds nothing, only after the timeout
    case GiveUp(_) => q.caller.Acquiring? && p.now >= q.deadline
    case CheckTime(_, t) => q.caller.Holding? && t >= p.now
    case StartWorker(_, _) => q.caller.Starting?
    case Resolve(_, _) => q.worker.Resolving?
    // an exception that is no `Exception` skips both puts
    case Abort(_) => q.worker.Resolving?
    case Put(_) => q.worker.Putting? && q.queue.None?
    case ReleaseSlot(_) => q.worker.Releasing?
    case Get(_) => q.caller.Awaiting? && q.queue.Some?
    case Abandon(_) => q.caller.Awaiting? && q.queue.None? && p.now >= q.deadline
  }

  predicate Enabled(p: Pool, a: Action) {
    match a
    case Arrive(d) => true
    case Tick(t) => t >= p.now
    case _ => a.r < |p.requests| && EnabledFor(p, p.requests[a.r], a)
  }

  /** The request after its own step. */
  function StepRequest(q: Request, a: Action): Request
    requires OfRequest(a)
  {
    match a
    case TakeSlot(_) => q.(caller := Holding, acquired := q.acquired + 1)
    case GiveUp(_) => q.(caller := Refused)
    case CheckTime(_, t) =>
      if q.deadline - t <= 0.0 then q.(caller := Refused, released := q.released + 1, checkedAt := Some(t))
      else q.(caller := Starting, checkedAt := Some(t))
    case StartWorker(_, started) =>
      if started then q.(caller := Awaiting, worker := Resolving)
      else q.(caller := Refused, released := q.released + 1, startFailed := true)
    case Resolve(_, reply) => q.(worker := Putting(reply), resolved := Some(reply))
    case Abort(_) => q.(worker := Releasing)
    case Put(_) => if q.worker.Putting? then q.(worker := Releasing, queue := Some(q.worker.reply)) else q
    case ReleaseSlot(_) => q.(worker := Ended, released := q.released + 1)
    case Get(_) =>
      (match q.queue
       case Some(Addresses(found)) => q.(caller := Answered(found), queue := None)
       case _ => q.(caller := Refused, queue := None))
    case Abandon(_) => q.(caller := Refused)
  }

  /** Slots taken from the semaphore by the step, less those given back. */
  function Taken(q: Request, a: Action): int
    requires OfRequest(a)
  {
    match a
    case TakeSlot(_) => 1
    case CheckTime(_, t) => if q.deadline - t <= 0.0 then -1 else 0
    case StartWorker(_, started) => if started then 0 else -1
    case ReleaseSlot(_) => -1
    case _ => 0
  }

  function ClockAfter(p: Pool, a: Action): real {
    match a
    case CheckTime(_, t) => t
    case Tick(t) => t
    case _ => p.now
  }

  function Apply(p: Pool, a: Action): Pool
    requires Enabled(p, a)
  {
    match a
    case Arrive(d) => p.(requests := p.requests + [Request(d, Acquiring, Absent, None, None, 0, 0, None, false)])
    case Tick(_) => p.(now := ClockAfter(p, a))
    case _ =>
      var q := p.requests[a.r];
      Pool(ClockAfter(p, a), p.free - Taken(q, a), p.requests[a.r := StepRequest(q, a)])
  }

  ghost predicate Init(p: Pool) { p.free == SLOTS && p.requests == [] }

  // --------------------------------------------------------------- invariants

  /** The caller or the worker of this request owns a slot. */
  predicate Holds(q: Request) {
    q.caller.Holding? || q.caller.Starting? || q.worker.Resolving? || q.worker.Putting? || q.worker.Releasing?
  }

  function Holders(requests: seq<Request>): set<nat> {
    set r: nat | r < |requests| && Holds(requests[r])
  }

  /** One request: who owns its slot, how often it was taken and returned, what it may answer. */
  predicate Sound(q: Request) {
    && (q.caller.Acquiring? || q.caller.Holding? || q.caller.Starting? ==> q.worker.Absent?)
    && (q.caller.Awaiting? || q.caller.Answered? ==> !q.worker.Absent?)
    && q.acquired == q.released + (if Holds(q) then 1 else 0)
    && q.acquired <= 1
    && (q.caller.Acquiring? ==> q.acquired == 0)
    && (!q.worker.Absent? ==> q.acquired == 1)
    // the queue is filled at most once, with what the worker resolved
    && (q.worker.Absent? || q.worker.Resolving? || q.worker.Putting? ==> q.queue.None? && !q.caller.Answered?)
    && (q.worker.Absent? || q.worker.Resolving? ==> q.resolved.None?)
    && (q.worker.Putting? ==> q.resolved == Some(q.worker.reply))
    && (q.queue.Some? ==> q.resolved == q.queue)
    && (q.caller.Answered? ==> q.resolved == Some(Addresses(q.caller.addresses)))
    // a worker exists only after a reading before the deadline
    && (q.caller.Starting? || !q.worker.Absent? ==> q.checkedAt.Some? && q.checkedAt.value < q.deadline)
  }

  /** A refusal has one of three reasons. */
  predicate Justified(q: Request, now: real) {
    q.caller.Refused? ==> now >= q.deadline || q.startFailed || q.resolved == Some(Failure)
  }

  ghost predicate Inv(p: Pool) {
    && p.free + |Holders(p.requests)| == SLOTS
    && (forall r :: 0 <= r < |p.requests| ==> Sound(p.requests[r]))
    && (forall r :: 0 <= r < |p.requests| ==> Justified(p.requests[r], p.now))
  }

  lemma HoldersAfter(requests: seq<Request>, r: nat, q: Request)
    requires r < |requests|
    ensures |Holders(requests[r := q])|
         == |Holders(requests)| - (if Holds(requests[r]) then 1 else 0) + (if Holds(q) then 1 else 0)
  {
    var rest := Holders(requests) - {r};
    assert Holders(requests) == if Holds(requests[r]) then rest + {r} else rest;
    assert Holders(requests[r := q]) == if Holds(q) then rest + {r} else rest;
  }

  lemma StepKeepsSound(p: Pool, q: Request, a: Action)
    requires OfRequest(a) && Sound(q) && Justified(q, p.now) && EnabledFor(p, q, a)
    ensures Sound(StepRequest(q, a)) && Justified(StepRequest(q, a), ClockAfter(p, a))
    ensures (if Holds(StepRequest(q, a)) then 1 else 0) == (if Holds(q) then 1 else 0) + Taken(q, a)
  {
  }

  lemma StepKeepsInv(p: Pool, a: Action)
    requires Inv(p) && Enabled(p, a)
    ensures Inv(Apply(p, a))
  {
    if OfRequest(a) {
      StepKeepsSound(p, p.requests[a.r], a);
      HoldersAfter(p.requests, a.r, StepRequest(p.requests[a.r], a));
    } else {
      assert Holders(Apply(p, a).requests) == Holders(p.requests);
    }
  }

  // ------------------------------------------------------------ whole runs

  ghost predicate Run(states: seq<Pool>, actions: seq<Action>) {
    && |states| == |actions| + 1
    && Init(states[0])
    && forall i :: 0 <= i < |actions| ==>
         Enabled(states[i], actions[i]) && states[i + 1] == Apply(states[i], actions[i])
  }

  lemma {:induction false} RunKeepsInv(states: seq<Pool>, actions: seq<Action>, n: nat)
    requires Run(states, actions) && n < |states|
    ensures Inv(states[n])
    decreases n
  {
    if n == 0 {
      assert Holders(states[0].requests) == {};
    } else {
      RunKeepsInv(states, actions, n - 1);
      StepKeepsInv(states[n - 1], actions[n - 1]);
    }
  }

  /** Free slots and owned slots always add up to 32, so at most 32 resolutions run at once. */
  lemma SlotsAreConserved(states: seq<Pool>, actions: seq<Action>, n: nat)
    requires Run(states, actions) && n < |states|
    ensures var p := states[n];
            var callers := set r: nat | r < |p.requests| &&
                                        (p.requests[r].caller.Holding? || p.requests[r].caller.Starting?);
            var workers := set r: nat | r < |p.requests| &&
                                        !(p.requests[r].worker.Absent? || p.requests[r].worker.Ended?);
            && callers !! workers
            && p.free + |callers| + |workers| == 32
            && |set r: nat | r < |p.requests| && p.requests[r].worker.Resolving?| <= 32
  {
    RunKeepsInv(states, actions, n);
    var requests := states[n].requests;
    forall r | 0 <= r < |requests| && (requests[r].caller.Holding? || requests[r].caller.Starting?)
      ensures requests[r].worker.Absent?
    {
      assert Sound(requests[r]);
    }
    OwnersAreCallersAndWorkers(requests);
  }

  lemma OwnersAreCallersAndWorkers(requests: seq<Request>)
    requires forall r :: 0 <= r < |requests| && (requests[r].caller.Holding? || requests[r].caller.Starting?) ==>
               requests[r].worker.Absent?
    ensures var callers := set r: nat | r < |requests| && (requests[r].caller.Holding? || requests[r].caller.Starting?);
            var workers := set r: nat | r < |requests| && !(requests[r].worker.Absent? || requests[r].worker.Ended?);
            && callers !! workers
            && |Holders(requests)| == |callers| + |workers|
            && |set r: nat | r < |requests| && requests[r].worker.Resolving?| <= |workers|
  {
    var callers := set r: nat | r < |requests| && (requests[r].caller.Holding? || requests[r].caller.Starting?);
    var workers := set r: nat | r < |requests| && !(requests[r].worker.Absent? || requests[r].worker.Ended?);
    assert Holders(requests) == callers + workers;
    var resolving := set r: nat | r < |requests| && requests[r].worker.Resolving?;
    SubsetIsSmaller(resolving, workers);
  }

  lemma SubsetIsSmaller<T>(a: set<T>, b: set<T>)
    requires a <= b
    ensures |a| <= |b|
  {
    assert b == a + (b - a);
  }

  predicate Done(c: Caller) { c.Answered? || c.Refused? }

  predicate Over(q: Request) {
    Done(q.caller) && (q.worker.Absent? || q.worker.Ended?)
  }

  /** No path returns a slot twice, and a request that is over has returned the slot it took. */
  lemma EachSlotIsReturnedOnce(states: seq<Pool>, actions: seq<Action>, n: nat, r: nat)
    requires Run(states, actions) && n < |states| && r < |states[n].requests|
    ensures var q := states[n].requests[r];
            && q.released <= q.acquired <= 1
            && (Over(q) ==> q.released == q.acquired)
            // the semaphore is never released past its bound
            && (q.acquired > q.released ==> states[n].free < 32)
  {
    RunKeepsInv(states, actions, n);
    var p := states[n];
    if Holds(p.requests[r]) {
      assert r in Holders(p.requests);
    }
  }

  /** Once every request is over, abandoned workers included, every slot is free again. */
  lemma AllSlotsComeBack(states: seq<Pool>, actions: seq<Action>, n: nat)
    requires Run(states, actions) && n < |states|
    requires forall r :: 0 <= r < |states[n].requests| ==> Over(states[n].requests[r])
    ensures states[n].free == 32
  {
    RunKeepsInv(states, actions, n);
    var p := states[n];
    forall r: nat | r < |p.requests| ensures !Holds(p.requests[r]) {
      assert Sound(p.requests[r]) && Over(p.requests[r]);
    }
    assert Holders(p.requests) == {};
  }

  /** A worker about to put always finds the one-place queue empty, even when its caller gave up. */
  lemma PutNeverBlocks(states: seq<Pool>, actions: seq<Action>, n: nat, r: nat)
    requires Run(states, actions) && n < |states| && r < |states[n].requests|
    requires states[n].requests[r].worker.Putting?
    ensures Enabled(states[n], Put(r))
  {
    RunKeepsInv(states, actions, n);
  }

  /** A caller is answered only with the addresses its own worker resolved. */
  lemma AnswerIsItsOwnWorkers(states: seq<Pool>, actions: seq<Action>, n: nat, r: nat)
    requires Run(states, actions) && n < |states| && r < |states[n].requests|
    requires states[n].requests[r].caller.Answered?
    ensures states[n].requests[r].resolved == Some(Addresses(states[n].requests[r].caller.addresses))
  {
    RunKeepsInv(states, actions, n);
  }

  /** A refusal means the deadline passed, no thread could start, or the worker found no acceptable answer. */
  lemma RefusalIsJustified(states: seq<Pool>, actions: seq<Action>, n: nat, r: nat)
    requires Run(states, actions) && n < |states| && r < |states[n].requests|
    requires states[n].requests[r].caller.Refused?
    ensures var q := states[n].requests[r];
            states[n].now >= q.deadline || q.startFailed || q.resolved == Some(Failure)
  {
    RunKeepsInv(states, actions, n);
  }

  /** No worker exists for a caller whose reading after the acquire was at or past its deadline. */
  lemma NoWorkerPastDeadline(states: seq<Pool>, actions: seq<Action>, n: nat, r: nat)
    requires Run(states, actions) && n < |states| && r < |states[n].requests|
    requires !states[n].requests[r].worker.Absent?
    ensures var q := states[n].requests[r]; q.checkedAt.Some? && q.checkedAt.value < q.deadline
  {
    RunKeepsInv(states, actions, n);
  }

  // ---------------------------------------------------------------- progress

  /** The name resolution ends, with a reply or without. */
  predicate OfResolution(a: Action) { a.Resolve? || a.Abort? }

  /** Steps a request can still take. */
  function Remaining(q: Request): nat {
    (match q.caller case Acquiring => 4 case Holding => 3 case Starting => 2 case Awaiting => 1 case _ => 0)
    + (match q.worker
       case Absent => if q.caller.Acquiring? || q.caller.Holding? || q.caller.Starting? then 3 else 0
       case Resolving => 3 case Putting(_) => 2 case Releasing => 1 case Ended => 0)
  }

  /**
   Whatever the schedule, a request takes finitely many steps, and past its deadline one is
   possible until it is over; only when its caller is done does that wait for the resolution itself.
   */
  lemma RequestsFinish(states: seq<Pool>, actions: seq<Action>, n: nat, r: nat)
    requires Run(states, actions) && n < |states| && r < |states[n].requests|
    ensures var p, q := states[n], states[n].requests[r];
            && (forall a :: OfRequest(a) && EnabledFor(p, q, a) ==> Remaining(StepRequest(q, a)) < Remaining(q))
            && (!Over(q) && p.now >= q.deadline ==> exists a :: OfRequest(a) && a.r == r && EnabledFor(p, q, a))
            && (!Over(q) && p.now >= q.deadline && !(Done(q.caller) && q.worker.Resolving?) ==>
                  exists a :: OfRequest(a) && !OfResolution(a) && a.r == r && EnabledFor(p, q, a))
  {
    RunKeepsInv(states, actions, n);
    var p, q := states[n], states[n].requests[r];
    if !Over(q) && p.now >= q.deadline {
      if Done(q.caller) && q.worker.Resolving? {
        assert EnabledFor(p, q, Abort(r));
      } else {
        var a := match q.worker
                 case Putting(_) => Put(r)
                 case Releasing => ReleaseSlot(r)
                 case _ =>
                   (match q.caller
                    case Acquiring => GiveUp(r)
                    case Holding => CheckTime(r, p.now)
                    case Starting => StartWorker(r, true)
                    case _ => if q.queue.Some? then Get(r) else Abandon(r));
        assert OfRequest(a) && !OfResolution(a) && a.r == r && EnabledFor(p, q, a);
      }
    }
  }
}
