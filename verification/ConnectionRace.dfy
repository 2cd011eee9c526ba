/**
 The staggered connection race of the asynchronous pinned backend, as a
 transition system: one coordinator, one task per pinned address, a start lock
 that the tasks share, and a clock.

 An action is one stretch of code between two suspension points, so the actions
 of a run are exactly the interleavings asyncio can produce.  Every reading of
 the clock inside such a stretch is a parameter of the action.
 */
module ConnectionRace {
  import opened Prelude

  type Address = string

  const ATTEMPT_DELAY: real := 0.25

  /** What awaiting a finished connection task yields. */
  datatype Outcome = Opened | Failed | Cancelled

  /** Where one connection task stands. */
  datatype Attempt =
    | Queued                       // wants the start lock
    | Sleeping(until: real)        // holds the start lock and sleeps
    | Connecting                   // the backend call is running
    | Settled(outcome: Outcome)    // the call ended; wants the lock to decrement
    | Finished(outcome: Outcome)   // the task is done

  datatype Verdict = Denied | Returned(attempt: nat, readAt: real)

  /** Where the coordinator stands. */
  datatype Phase =
    | Entry
    | Top
    | Waiting(until: Option<real>)
    | Scanning(todo: set<nat>, winner: Option<nat>, readAt: real)
    | Closing(todo: set<nat>)
    | Cleanup(verdict: Verdict)
    | Exit(verdict: Verdict)

  /**
   History: a task created for `address` after the clock read `readAt`, `alone` if
   no other was tracked; `dueFrom` is the next reading, from which the delay counts.
   */
  datatype Creation = Creation(address: Address, readAt: real, dueFrom: real, alone: bool)

  /** History: a backend start, and the active count its task saw under the lock. */
  datatype Start = Start(attempt: nat, at: real, active: int)

  datatype Race = Race(
    addresses: seq<Address>,
    deadline: Option<real>,
    now: real,
    phase: Phase,
    next: nat,
    more: bool,
    nextAttemptAt: real,
    attempts: seq<Attempt>,
    tasks: set<nat>,
    lock: Option<nat>,
    active: int,
    lastStart: Option<real>,
    // history
    created: seq<Creation>,
    starts: seq<Start>,
    batched: set<nat>,
    closes: multiset<nat>,
    iterations: nat)

  datatype Action =
    | Enter(checkAt: real, startAt: real)
    | Wait(budgetAt: real, delayAt: real, waitAt: real)
    | Collect(readAt: real, recheckAt: real, checkAt: real, startAt: real)
    | Inspect(k: nat)
    | Decide(dueAt: real, recheckAt: real, checkAt: real, startAt: real)
    | Discard(k: nat)
    | Leave
    | Finish
    | Acquire(k: nat, checkAt: real, startAt: real)
    | Wake(k: nat, startAt: real)
    | Settle(k: nat, outcome: Outcome)
    | Release(k: nat)
    | Cancel(k: nat)
    | Tick(at: real)

  // ------------------------------------------------------------------ helpers

  predicate Past(deadline: Option<real>, at: real) {
    deadline.Some? && at >= deadline.value
  }

  function Max(a: real, b: real): (m: real)
    ensures m >= a && m >= b && (m == a || m == b)
  {
    if a < b then b else a
  }

  /** Between the increment and the decrement of the active count. */
  predicate Counted(a: Attempt) { a.Connecting? || a.Settled? }

  function Running(attempts: seq<Attempt>): set<nat> {
    set k: nat | k < |attempts| && Counted(attempts[k])
  }

  function Done(s: Race): set<nat> {
    set k | k in s.tasks && k < |s.attempts| && s.attempts[k].Finished?
  }

  /** `start_next_attempt`: the two readings guard the start and time the next one. */
  function StartNext(s: Race, checkAt: real, startAt: real): Race {
    if s.next >= |s.addresses| then
      s.(more := false)
    else if Past(s.deadline, checkAt) then
      s.(next := s.next + 1, more := false, now := checkAt)
    else
      s.(next := s.next + 1,
         attempts := s.attempts + [Queued],
         tasks := s.tasks + {|s.attempts|},
         created := s.created + [Creation(s.addresses[s.next], checkAt, startAt, s.tasks == {})],
         nextAttemptAt := startAt + ATTEMPT_DELAY,
         now := startAt)
  }

  /** The start section of a task once it may proceed: record, count, release. */
  function Launch(s: Race, k: nat, startAt: real): Race
    requires k < |s.attempts|
  {
    s.(attempts := s.attempts[k := Connecting],
       lock := None,
       active := s.active + 1,
       lastStart := Some(startAt),
       starts := s.starts + [Start(k, startAt, s.active)],
       now := startAt)
  }

  /** The instant before which `asyncio.wait` may not return an empty batch. */
  function WaitLimit(s: Race, budgetAt: real, delayAt: real, waitAt: real): Option<real> {
    var delay := Max(0.0, s.nextAttemptAt - delayAt);
    match s.deadline
    case None => if s.more then Some(waitAt + delay) else None
    case Some(d) =>
      var budget := Max(0.0, d - budgetAt);
      Some(waitAt + if s.more && delay < budget then delay else budget)
  }

  // -------------------------------------------------------------- transitions

  predicate Enabled(s: Race, a: Action) {
    match a
    case Enter(c, t) => s.phase.Entry? && s.now <= c <= t
    case Wait(b, d, w) => s.phase.Top? && s.now <= b <= d <= w
    case Collect(r, q, c, t) =>
      && s.phase.Waiting?
      && s.now <= r <= q <= c <= t
      // `asyncio.wait` returns an empty batch only after its timeout
      && (Done(s) != {} || (s.phase.until.Some? && s.now >= s.phase.until.value))
    case Inspect(k) => s.phase.Scanning? && k in s.phase.todo && k < |s.attempts|
    case Decide(d, q, c, t) => s.phase.Scanning? && s.phase.todo == {} && s.now <= d <= q <= c <= t
    case Discard(k) => s.phase.Closing? && k in s.phase.todo && k < |s.attempts|
    case Leave => s.phase.Closing? && s.phase.todo == {}
    case Finish => s.phase.Cleanup? && Done(s) == s.tasks
    case Acquire(k, c, t) => k < |s.attempts| && s.attempts[k].Queued? && s.lock.None? && s.now <= c <= t
    // `asyncio.sleep` never wakes early
    case Wake(k, t) => k < |s.attempts| && s.attempts[k].Sleeping? && s.now <= t && s.attempts[k].until <= t
    case Settle(k, _) => k < |s.attempts| && s.attempts[k].Connecting?
    case Release(k) => k < |s.attempts| && s.attempts[k].Settled? && s.lock.None?
    case Cancel(k) => s.phase.Cleanup? && k in s.tasks && k < |s.attempts| && !s.attempts[k].Finished?
    case Tick(t) => s.now <= t
  }

  function Apply(s: Race, a: Action): Race
    requires Enabled(s, a)
  {
    match a
    case Enter(c, t) => StartNext(s, c, t).(phase := Top)
    case Wait(b, d, w) => ApplyWait(s, b, d, w)
    case Collect(r, q, c, t) => ApplyCollect(s, r, q, c, t)
    case Inspect(k) => ApplyInspect(s, k)
    case Decide(d, q, c, t) => ApplyDecide(s, d, q, c, t)
    case Discard(k) => ApplyDiscard(s, k)
    case Leave => s.(phase := Cleanup(Denied))
    case Finish => s.(phase := Exit(s.phase.verdict))
    case Acquire(k, c, t) => ApplyAcquire(s, k, c, t)
    case Wake(k, t) => Launch(s, k, t)
    case Settle(k, o) => s.(attempts := s.attempts[k := Settled(o)])
    case Release(k) => s.(attempts := s.attempts[k := Finished(s.attempts[k].outcome)], active := s.active - 1)
    case Cancel(k) => ApplyCancel(s, k)
    case Tick(t) => s.(now := t)
  }

  /** The loop head: leave, or compute the timeout and call `asyncio.wait`. */
  function ApplyWait(s: Race, budgetAt: real, delayAt: real, waitAt: real): Race {
    if s.tasks == {} then
      s.(phase := Cleanup(Denied))
    else if Past(s.deadline, budgetAt) then
      s.(phase := Cleanup(Denied), now := budgetAt)
    else
      s.(phase := Waiting(WaitLimit(s, budgetAt, delayAt, waitAt)),
         now := waitAt,
         iterations := s.iterations + 1)
  }

  /** `asyncio.wait` returns; the batch is taken out of `tasks` and the clock is read. */
  function ApplyCollect(s: Race, readAt: real, recheckAt: real, checkAt: real, startAt: real): Race {
    var done := Done(s);
    var s1 := s.(tasks := s.tasks - done, batched := s.batched + done, now := readAt);
    if Past(s.deadline, readAt) then
      s1.(phase := Closing(done))
    else if done == {} then
      if !s.more then s1.(phase := Top)
      else MaybeStart(s1, recheckAt, checkAt, startAt).(phase := Top)
    else
      s1.(phase := Scanning(done, None, readAt))
  }

  /** Start one more attempt, unless a fresh reading is at or past the deadline. */
  function MaybeStart(s: Race, recheckAt: real, checkAt: real, startAt: real): Race {
    if Past(s.deadline, recheckAt) then s.(more := false, now := recheckAt)
    else StartNext(s, checkAt, startAt)
  }

  /** One turn of the loop over a batch: keep the first stream, close any other. */
  function ApplyInspect(s: Race, k: nat): Race
    requires s.phase.Scanning? && k < |s.attempts|
  {
    var todo := s.phase.todo - {k};
    if s.attempts[k] != Finished(Opened) then
      s.(phase := s.phase.(todo := todo))
    else if s.phase.winner.None? then
      s.(phase := s.phase.(todo := todo, winner := Some(k)))
    else
      s.(phase := s.phase.(todo := todo), closes := s.closes + multiset{k})
  }

  /** The batch is inspected: return its stream, or perhaps start the next attempt. */
  function ApplyDecide(s: Race, dueAt: real, recheckAt: real, checkAt: real, startAt: real): Race
    requires s.phase.Scanning?
  {
    if s.phase.winner.Some? then
      s.(phase := Cleanup(Returned(s.phase.winner.value, s.phase.readAt)))
    else if s.more && (s.tasks == {} || dueAt >= s.nextAttemptAt) then
      MaybeStart(s.(now := dueAt), recheckAt, checkAt, startAt).(phase := Top)
    else
      s.(phase := Top, now := dueAt)
  }

  /** One turn of the loop that closes a batch returned at or past the deadline. */
  function ApplyDiscard(s: Race, k: nat): Race
    requires s.phase.Closing? && k < |s.attempts|
  {
    s.(phase := Closing(s.phase.todo - {k}),
       closes := if s.attempts[k] == Finished(Opened) then s.closes + multiset{k} else s.closes)
  }

  /** A task takes the start lock: it sleeps, or starts its backend call at once. */
  function ApplyAcquire(s: Race, k: nat, checkAt: real, startAt: real): Race
    requires k < |s.attempts|
  {
    if s.active != 0 && s.lastStart.Some? && s.lastStart.value + ATTEMPT_DELAY - checkAt > 0.0 then
      // sleeping for the difference ends no sooner than the previous start plus the delay
      s.(attempts := s.attempts[k := Sleeping(s.lastStart.value + ATTEMPT_DELAY)], lock := Some(k), now := checkAt)
    else
      Launch(s, k, startAt)
  }

  /** Cancellation reaches a task that clean-up cancelled. */
  function ApplyCancel(s: Race, k: nat): Race
    requires k < |s.attempts|
  {
    match s.attempts[k]
    case Queued => s.(attempts := s.attempts[k := Finished(Cancelled)])
    case Sleeping(_) => s.(attempts := s.attempts[k := Finished(Cancelled)], lock := None)
    case Connecting => s.(attempts := s.attempts[k := Settled(Cancelled)])
    // cancelled while waiting for the lock: the count is not decremented
    case Settled(_) => s.(attempts := s.attempts[k := Finished(Cancelled)])
    case Finished(_) => s
  }

  ghost predicate Init(s: Race) {
    && s.phase.Entry? && s.next == 0 && s.more
    && s.attempts == [] && s.tasks == {} && s.lock.None? && s.active == 0 && s.lastStart.None?
    && s.created == [] && s.starts == [] && s.batched == {} && s.closes == multiset{} && s.iterations == 0
  }

  // --------------------------------------------------------------- invariants

  /** Tasks and batches split the attempts, and a batch holds finished attempts only. */
  ghost predicate Bookkeeping(s: Race) {
    && (forall k :: k in s.tasks ==> k < |s.attempts|)
    && (forall k :: k in s.batched ==> k < |s.attempts| && k !in s.tasks && s.attempts[k].Finished?)
    && (forall k: nat :: k < |s.attempts| ==> k in s.tasks || k in s.batched)
    && (s.phase.Scanning? ==>
          && s.phase.todo <= s.batched
          && !Past(s.deadline, s.phase.readAt)
          && (s.phase.winner.Some? ==> s.phase.winner.value in s.batched && s.phase.winner.value !in s.phase.todo))
    && (s.phase.Closing? ==> s.phase.todo <= s.batched && Past(s.deadline, s.now))
    && (s.phase.Entry? ==> s.attempts == [])
    && (s.phase.Top? && s.tasks == {} ==> !s.more)
    && (s.phase.Waiting? ==> s.tasks != {})
    && (s.phase.Exit? ==> forall k :: k in s.tasks ==> s.attempts[k].Finished?)
  }

  /** The lock is held exactly by the one sleeping attempt. */
  ghost predicate LockHeld(s: Race) {
    && (forall k: nat :: k < |s.attempts| && s.attempts[k].Sleeping? ==> s.lock == Some(k))
    && (s.lock.Some? ==> s.lock.value < |s.attempts| && s.attempts[s.lock.value].Sleeping?)
  }

  ghost predicate CleaningUp(s: Race) { s.phase.Cleanup? || s.phase.Exit? }

  /** The active count is the number of attempts between increment and decrement. */
  ghost predicate CountExact(s: Race) {
    && s.active >= |Running(s.attempts)|
    && (!CleaningUp(s) ==> s.active == |Running(s.attempts)|)
  }

  /** Starts are recorded in order of time, and the last one is remembered. */
  ghost predicate StartsTimed(s: Race) {
    && (forall i, j :: 0 <= i <= j < |s.starts| ==> s.starts[i].at <= s.starts[j].at)
    && (if s.starts == [] then s.lastStart.None? && s.active == 0 else s.lastStart == Some(s.starts[|s.starts| - 1].at))
    && (forall i :: 0 <= i < |s.starts| ==> s.starts[i].at <= s.now)
    && (forall k: nat :: k < |s.attempts| && s.attempts[k].Sleeping? ==>
          s.active > 0 && s.lastStart.Some? && s.attempts[k].until == s.lastStart.value + ATTEMPT_DELAY)
  }

  /** Two consecutive starts are a full delay apart unless the later one saw a zero count. */
  ghost predicate Spaced(s: Race) {
    forall i {:trigger s.starts[i].active} :: 0 < i < |s.starts| && s.starts[i].active != 0 ==>
      s.starts[i].at >= s.starts[i - 1].at + ATTEMPT_DELAY
  }

  /** An attempt starts at most once, and a started attempt is counted until it is done. */
  ghost predicate StartedOnce(s: Race) {
    && (forall i :: 0 <= i < |s.starts| ==>
          && s.starts[i].attempt < |s.attempts|
          && (Counted(s.attempts[s.starts[i].attempt]) || s.attempts[s.starts[i].attempt].Finished?))
    && (forall i, j :: 0 <= i < j < |s.starts| ==> s.starts[i].attempt != s.starts[j].attempt)
  }

  /** Attempt `k` dials address `k`; no attempt was created at or past the deadline. */
  ghost predicate PinnedOrder(s: Race) {
    && |s.created| == |s.attempts| <= s.next <= |s.addresses|
    && (forall k :: 0 <= k < |s.created| ==>
          s.created[k].address == s.addresses[k] && !Past(s.deadline, s.created[k].readAt))
    && (s.more ==> s.next == |s.attempts|)
    && (!s.more ==> |s.attempts| == |s.addresses| || Past(s.deadline, s.now))
  }

  /** Creations a full delay apart unless no task was left to wait for. */
  ghost predicate Apart(created: seq<Creation>) {
    && (forall i {:trigger created[i].alone} :: 0 < i < |created| && !created[i].alone ==>
          created[i].readAt >= created[i - 1].readAt + ATTEMPT_DELAY)
    && (forall i :: 0 <= i < |created| ==> created[i].readAt <= created[i].dueFrom)
  }

  /** The coordinator creates tasks apart, and waits until the next is due. */
  ghost predicate Paced(s: Race) {
    && Apart(s.created)
    && (s.created != [] && s.more ==> s.nextAttemptAt == s.created[|s.created| - 1].dueFrom + ATTEMPT_DELAY)
    && (s.created == [] ==> s.phase.Entry? || !s.more)
    && (s.phase.Waiting? && s.more ==>
          && s.phase.until.Some?
          && (s.phase.until.value >= s.nextAttemptAt || Past(s.deadline, s.phase.until.value)))
  }

  predicate HasStream(s: Race, k: nat) {
    k < |s.attempts| && s.attempts[k] == Finished(Opened)
  }

  /** Close is attempted at most once, and never on an unfinished or kept stream. */
  ghost predicate ClosedOnce(s: Race) {
    && (forall k :: s.closes[k] <= 1)
    && (forall k :: k in s.closes ==> k in s.batched && HasStream(s, k))
    && (s.phase.Scanning? ==>
          && (forall k :: k in s.phase.todo ==> k !in s.closes)
          && (s.phase.winner.Some? ==>
                s.phase.winner.value !in s.closes && HasStream(s, s.phase.winner.value)))
    && (s.phase.Closing? ==> forall k :: k in s.phase.todo ==> k !in s.closes)
  }

  /** The stream returned was opened, comes from a timely batch and was never closed. */
  ghost predicate WinnerKept(s: Race) {
    && (CleaningUp(s) && s.phase.verdict.Returned? ==>
          && s.phase.verdict.attempt in s.batched && s.phase.verdict.attempt !in s.closes
          && HasStream(s, s.phase.verdict.attempt)
          && !Past(s.deadline, s.phase.verdict.readAt))
  }

  /** The attempts whose stream the coordinator still owes a decision on. */
  ghost function Undecided(s: Race): set<nat> {
    match s.phase
    case Scanning(todo, winner, _) => todo + (if winner.Some? then {winner.value} else {})
    case Closing(todo) => todo
    case Cleanup(Returned(k, _)) => {k}
    case Exit(Returned(k, _)) => {k}
    case _ => {}
  }

  /** Every stream of a batch is closed unless the coordinator still decides on it. */
  ghost predicate StreamsSettled(s: Race) {
    forall k :: k in s.batched && HasStream(s, k) ==> k in s.closes || k in Undecided(s)
  }

  /** Before a verdict, a stream is kept or closed only in the batch at hand or past the deadline. */
  ghost predicate NoStreamSkipped(s: Race) {
    && (s.phase.Entry? || s.phase.Top? || s.phase.Waiting? ==> s.closes == multiset{})
    && (s.phase.Scanning? && s.phase.winner.None? ==> s.closes == multiset{})
    && (CleaningUp(s) && s.phase.verdict.Denied? ==>
          Past(s.deadline, s.now) ||
          (|s.attempts| == |s.addresses| && s.tasks == {} && s.closes == multiset{}))
  }

  function Potential(s: Race): int {
    2 * (|s.addresses| - s.next) + |s.tasks| + if s.more then 1 else 0
  }

  /** The iterations taken so far and those still possible are linear in the addresses. */
  ghost predicate Bounded(s: Race) {
    && s.next <= |s.addresses|
    && (s.phase.Entry? ==> s.iterations == 0 && s.next == 0 && s.tasks == {} && s.more)
    && (s.phase.Top? || s.phase.Scanning? ==> s.iterations + Potential(s) <= 2 * |s.addresses|)
    && (s.phase.Waiting? ==>
          && s.iterations + Potential(s) <= 2 * |s.addresses| + 1
          && (!s.more && s.phase.until.Some? ==> s.deadline.Some? && s.phase.until.value >= s.deadline.value))
    && (s.phase.Closing? || CleaningUp(s) ==> s.iterations <= 2 * |s.addresses| + 1)
  }

  ghost predicate Inv(s: Race) {
    && Bookkeeping(s) && LockHeld(s) && CountExact(s) && StartsTimed(s) && Spaced(s)
    && StartedOnce(s) && PinnedOrder(s) && Paced(s) && ClosedOnce(s) && WinnerKept(s) && StreamsSettled(s)
    && NoStreamSkipped(s) && Bounded(s)
  }

  // ------------------------------------------------- every action preserves them

  /** What an action of a task leaves alone, as far as the coordinator can tell. */
  ghost predicate TaskStep(s: Race, s': Race) {
    && s' == s.(attempts := s'.attempts, lock := s'.lock, active := s'.active,
                lastStart := s'.lastStart, starts := s'.starts, now := s'.now)
    && s.now <= s'.now
    && |s'.attempts| == |s.attempts|
    && (forall k: nat :: k < |s.attempts| && s.attempts[k].Finished? ==> s'.attempts[k] == s.attempts[k])
  }

  predicate OfTask(a: Action) {
    a.Acquire? || a.Wake? || a.Settle? || a.Release? || a.Cancel? || a.Tick?
  }

  lemma TaskActionIsTaskStep(s: Race, a: Action)
    requires Enabled(s, a) && OfTask(a)
    ensures TaskStep(s, Apply(s, a))
  {
  }

  lemma TaskStepKeeps(s: Race, s': Race)
    requires TaskStep(s, s')
    ensures Bookkeeping(s) ==> Bookkeeping(s')
    ensures PinnedOrder(s) ==> PinnedOrder(s')
    ensures Paced(s) ==> Paced(s')
    ensures Bookkeeping(s) && ClosedOnce(s) ==> ClosedOnce(s')
    ensures Bookkeeping(s) && WinnerKept(s) ==> WinnerKept(s')
    ensures Bookkeeping(s) && StreamsSettled(s) ==> StreamsSettled(s')
    ensures NoStreamSkipped(s) ==> NoStreamSkipped(s')
    ensures Bounded(s) ==> Bounded(s')
  {
    if Bookkeeping(s) {
      assert forall k :: k in s.batched ==> HasStream(s, k) == HasStream(s', k);
    }
  }

  lemma RunningAfter(attempts: seq<Attempt>, k: nat, a: Attempt)
    requires k < |attempts|
    ensures |Running(attempts[k := a])|
         == |Running(attempts)| - (if Counted(attempts[k]) then 1 else 0) + (if Counted(a) then 1 else 0)
  {
    var rest := Running(attempts) - {k};
    assert Running(attempts) == if Counted(attempts[k]) then rest + {k} else rest;
    assert Running(attempts[k := a]) == if Counted(a) then rest + {k} else rest;
  }

  lemma InitInv(s: Race)
    requires Init(s)
    ensures Inv(s)
  {
  }

  /** What an action of the coordinator leaves alone, as far as the tasks can tell. */
  ghost predicate CoordinatorStep(s: Race, s': Race) {
    && s'.lock == s.lock && s'.active == s.active && s'.lastStart == s.lastStart && s'.starts == s.starts
    && s.now <= s'.now
    && (s'.attempts == s.attempts || s'.attempts == s.attempts + [Queued])
    && (CleaningUp(s) ==> CleaningUp(s'))
  }

  lemma CoordinatorActionIsCoordinatorStep(s: Race, a: Action)
    requires Enabled(s, a) && !OfTask(a)
    ensures CoordinatorStep(s, Apply(s, a))
  {
  }

  lemma CoordinatorStepKeeps(s: Race, s': Race)
    requires CoordinatorStep(s, s')
    ensures LockHeld(s) ==> LockHeld(s')
    ensures CountExact(s) ==> CountExact(s')
    ensures StartsTimed(s) ==> StartsTimed(s')
    ensures Spaced(s) ==> Spaced(s')
    ensures StartedOnce(s) ==> StartedOnce(s')
  {
    assert Running(s'.attempts) == Running(s.attempts);
  }

  lemma TaskActionKeepsCount(s: Race, a: Action)
    requires LockHeld(s) && CountExact(s) && Enabled(s, a) && OfTask(a)
    ensures LockHeld(Apply(s, a)) && CountExact(Apply(s, a))
  {
    if !a.Tick? {
      RunningAfter(s.attempts, a.k, Apply(s, a).attempts[a.k]);
    }
  }

  lemma LaunchKeepsStartedOnce(s: Race, k: nat, startAt: real)
    requires StartedOnce(s) && k < |s.attempts| && (s.attempts[k].Queued? || s.attempts[k].Sleeping?)
    ensures StartedOnce(Launch(s, k, startAt))
  {
    var s' := Launch(s, k, startAt);
    forall i | 0 <= i < |s.starts| ensures s.starts[i].attempt != k && s'.starts[i] == s.starts[i] {
    }
  }

  lemma TaskActionKeepsStartedOnce(s: Race, a: Action)
    requires StartedOnce(s) && Enabled(s, a) && OfTask(a)
    ensures StartedOnce(Apply(s, a))
  {
    if a.Wake? || a.Acquire? {
      LaunchKeepsStartedOnce(s, a.k, a.startAt);
    } else {
      assert Apply(s, a).starts == s.starts;
    }
  }

  /** The heart of the spacing: a task proceeds to its start only when one is due. */
  lemma LaunchKeepsSpacing(s: Race, k: nat, startAt: real)
    requires StartsTimed(s) && Spaced(s) && k < |s.attempts| && s.now <= startAt
    requires forall j: nat :: j < |s.attempts| && s.attempts[j].Sleeping? ==> j == k
    requires s.active == 0 || s.lastStart.None? || startAt >= s.lastStart.value + ATTEMPT_DELAY
    ensures StartsTimed(Launch(s, k, startAt)) && Spaced(Launch(s, k, startAt))
  {
  }

  lemma QuietKeepsSpacing(s: Race, s': Race)
    requires StartsTimed(s) && Spaced(s)
    requires s'.starts == s.starts && s'.lastStart == s.lastStart && s.now <= s'.now
    requires s.starts == [] ==> s'.active == 0
    requires forall k: nat :: k < |s'.attempts| && s'.attempts[k].Sleeping? ==>
               s'.active > 0 && s.lastStart.Some? && s'.attempts[k].until == s.lastStart.value + ATTEMPT_DELAY
    ensures StartsTimed(s') && Spaced(s')
  {
  }

  lemma TaskActionKeepsSpacing(s: Race, a: Action)
    requires LockHeld(s) && CountExact(s) && StartsTimed(s) && Spaced(s)
    requires Enabled(s, a) && OfTask(a)
    ensures StartsTimed(Apply(s, a)) && Spaced(Apply(s, a))
  {
    var s' := Apply(s, a);
    if a.Wake? || (a.Acquire? && s'.starts != s.starts) {
      LaunchKeepsSpacing(s, a.k, a.startAt);
    } else {
      if a.Release? {
        assert a.k in Running(s.attempts);
      }
      QuietKeepsSpacing(s, s');
    }
  }

  lemma CollectKeepsBookkeeping(s: Race, a: Action)
    requires a.Collect? && Bookkeeping(s) && Enabled(s, a)
    ensures Bookkeeping(Apply(s, a))
  {
  }

  lemma DecideKeepsBookkeeping(s: Race, a: Action)
    requires a.Decide? && Bookkeeping(s) && Enabled(s, a)
    ensures Bookkeeping(Apply(s, a))
  {
  }

  lemma KeepsBookkeeping(s: Race, a: Action)
    requires Bookkeeping(s) && Enabled(s, a) && !OfTask(a)
    ensures Bookkeeping(Apply(s, a))
  {
    if a.Collect? {
      CollectKeepsBookkeeping(s, a);
    } else if a.Decide? {
      DecideKeepsBookkeeping(s, a);
    }
  }

  lemma CollectKeepsPinnedOrder(s: Race, a: Action)
    requires a.Collect? && PinnedOrder(s) && Bookkeeping(s) && Enabled(s, a)
    ensures PinnedOrder(Apply(s, a))
  {
  }

  lemma DecideKeepsPinnedOrder(s: Race, a: Action)
    requires a.Decide? && PinnedOrder(s) && Bookkeeping(s) && Enabled(s, a)
    ensures PinnedOrder(Apply(s, a))
  {
  }

  lemma KeepsPinnedOrder(s: Race, a: Action)
    requires PinnedOrder(s) && Bookkeeping(s) && Enabled(s, a) && !OfTask(a)
    ensures PinnedOrder(Apply(s, a))
  {
    if a.Collect? {
      CollectKeepsPinnedOrder(s, a);
    } else if a.Decide? {
      DecideKeepsPinnedOrder(s, a);
    }
  }

  lemma ApartOneMore(created: seq<Creation>, c: Creation)
    requires Apart(created) && c.readAt <= c.dueFrom
    requires created == [] || c.alone || c.readAt >= created[|created| - 1].readAt + ATTEMPT_DELAY
    ensures Apart(created + [c])
  {
    var more := created + [c];
    forall i | 0 < i < |more| && !more[i].alone ensures more[i].readAt >= more[i - 1].readAt + ATTEMPT_DELAY {
      if i < |created| {
        assert !created[i].alone && more[i] == created[i] && more[i - 1] == created[i - 1];
      }
    }
  }

  lemma MaybeStartKeepsPaced(s: Race, recheckAt: real, checkAt: real, startAt: real)
    requires Paced(s) && s.phase.Top? && s.more && (s.tasks == {} || checkAt >= s.nextAttemptAt) && checkAt <= startAt
    ensures Paced(MaybeStart(s, recheckAt, checkAt, startAt))
  {
    var s' := MaybeStart(s, recheckAt, checkAt, startAt);
    if s'.created != s.created {
      var c := Creation(s.addresses[s.next], checkAt, startAt, s.tasks == {});
      assert s.created != [] ==> s.created[|s.created| - 1].readAt <= s.created[|s.created| - 1].dueFrom;
      ApartOneMore(s.created, c);
    }
  }

  lemma QuietKeepsPaced(s: Race, s': Race)
    requires Paced(s) && !s.phase.Entry? && !s'.phase.Waiting?
    requires s'.created == s.created && s'.nextAttemptAt == s.nextAttemptAt && s'.more == s.more
    ensures Paced(s')
  {
  }

  lemma CollectKeepsPaced(s: Race, a: Action)
    requires a.Collect? && Paced(s) && Enabled(s, a)
    ensures Paced(Apply(s, a))
  {
    var done := Done(s);
    var s1 := s.(tasks := s.tasks - done, batched := s.batched + done, now := a.readAt, phase := Top);
    if done == {} && s.more && !Past(s.deadline, a.readAt) {
      QuietKeepsPaced(s, s1);
      MaybeStartKeepsPaced(s1, a.recheckAt, a.checkAt, a.startAt);
      assert Apply(s, a) == MaybeStart(s1, a.recheckAt, a.checkAt, a.startAt);
    } else {
      QuietKeepsPaced(s, Apply(s, a));
    }
  }

  lemma DecideKeepsPaced(s: Race, a: Action)
    requires a.Decide? && Paced(s) && Enabled(s, a)
    ensures Paced(Apply(s, a))
  {
    var s1 := s.(now := a.dueAt, phase := Top);
    if s.phase.winner.None? && s.more && (s.tasks == {} || a.dueAt >= s.nextAttemptAt) {
      QuietKeepsPaced(s, s1);
      MaybeStartKeepsPaced(s1, a.recheckAt, a.checkAt, a.startAt);
      assert Apply(s, a) == MaybeStart(s1, a.recheckAt, a.checkAt, a.startAt);
    } else {
      QuietKeepsPaced(s, Apply(s, a));
    }
  }

  lemma WaitKeepsPaced(s: Race, a: Action)
    requires a.Wait? && Paced(s) && Enabled(s, a)
    ensures Paced(Apply(s, a))
  {
  }

  lemma KeepsPaced(s: Race, a: Action)
    requires Paced(s) && PinnedOrder(s) && Bookkeeping(s) && Enabled(s, a) && !OfTask(a)
    ensures Paced(Apply(s, a))
  {
    if a.Collect? {
      CollectKeepsPaced(s, a);
    } else if a.Decide? {
      DecideKeepsPaced(s, a);
    } else if a.Wait? {
      WaitKeepsPaced(s, a);
    }
  }

  /** A step that closes nothing keeps what was closed, if the streams it is about to handle are still open. */
  lemma QuietKeepsClosedOnce(s: Race, s': Race)
    requires ClosedOnce(s) && s'.closes == s.closes && s.batched <= s'.batched && s.attempts <= s'.attempts
    requires s'.phase.Scanning? || s'.phase.Closing? ==> forall k :: k in s'.phase.todo ==> k !in s.closes
    requires s'.phase.Scanning? && s'.phase.winner.Some? ==>
               s'.phase.winner.value !in s.closes && HasStream(s', s'.phase.winner.value)
    ensures ClosedOnce(s')
  {
    assert forall k :: HasStream(s, k) ==> HasStream(s', k);
  }

  lemma CollectKeepsClosedOnce(s: Race, a: Action)
    requires a.Collect? && ClosedOnce(s) && Bookkeeping(s) && Enabled(s, a)
    ensures ClosedOnce(Apply(s, a))
  {
    assert forall k :: k in Done(s) ==> k in s.tasks && k !in s.batched;
    QuietKeepsClosedOnce(s, Apply(s, a));
  }

  lemma DecideKeepsClosedOnce(s: Race, a: Action)
    requires a.Decide? && ClosedOnce(s) && Enabled(s, a)
    ensures ClosedOnce(Apply(s, a))
  {
    QuietKeepsClosedOnce(s, Apply(s, a));
  }

  /** The loop over a batch closes one more of its streams, another one being kept. */
  lemma ClosingKeepsClosedOnce(s: Race, s': Race, k: nat)
    requires ClosedOnce(s) && s.phase.Scanning? && k in s.phase.todo && k in s.batched && HasStream(s, k)
    requires s.phase.winner.Some? && s.phase.winner.value != k
    requires s'.phase == s.phase.(todo := s.phase.todo - {k}) && s'.attempts == s.attempts
    requires s'.batched == s.batched && s'.closes == s.closes + multiset{k}
    ensures ClosedOnce(s')
  {
  }

  lemma InspectKeepsClosedOnce(s: Race, a: Action)
    requires a.Inspect? && ClosedOnce(s) && Bookkeeping(s) && Enabled(s, a)
    ensures ClosedOnce(Apply(s, a))
  {
    var s' := ApplyInspect(s, a.k);
    if HasStream(s, a.k) && s.phase.winner.Some? {
      ClosingKeepsClosedOnce(s, s', a.k);
    } else {
      QuietKeepsClosedOnce(s, s');
    }
  }

  lemma KeepsClosedOnce(s: Race, a: Action)
    requires ClosedOnce(s) && Bookkeeping(s) && Enabled(s, a) && !OfTask(a)
    ensures ClosedOnce(Apply(s, a))
  {
    if a.Collect? {
      CollectKeepsClosedOnce(s, a);
    } else if a.Decide? {
      DecideKeepsClosedOnce(s, a);
    } else if a.Inspect? {
      InspectKeepsClosedOnce(s, a);
    }
  }

  lemma DecideKeepsWinnerKept(s: Race, a: Action)
    requires a.Decide? && ClosedOnce(s) && Bookkeeping(s) && Enabled(s, a)
    ensures WinnerKept(Apply(s, a))
  {
  }

  lemma KeepsWinnerKept(s: Race, a: Action)
    requires WinnerKept(s) && ClosedOnce(s) && Bookkeeping(s) && Enabled(s, a) && !OfTask(a)
    ensures WinnerKept(Apply(s, a))
  {
    if a.Decide? {
      DecideKeepsWinnerKept(s, a);
    }
  }

  lemma CollectKeepsStreamsSettled(s: Race, a: Action)
    requires a.Collect? && StreamsSettled(s) && Bookkeeping(s) && ClosedOnce(s) && Enabled(s, a)
    ensures StreamsSettled(Apply(s, a))
  {
  }

  lemma DecideKeepsStreamsSettled(s: Race, a: Action)
    requires a.Decide? && StreamsSettled(s) && Bookkeeping(s) && Enabled(s, a)
    ensures StreamsSettled(Apply(s, a))
  {
    var s' := Apply(s, a);
    assert Undecided(s') == Undecided(s) && s'.closes == s.closes && s'.batched == s.batched;
    forall k | k in s'.batched && HasStream(s', k) ensures k in s'.closes || k in Undecided(s') {
      assert HasStream(s, k) && (k in s.closes || k in Undecided(s));
    }
  }

  /** Taking one attempt off the batch settles its stream, by closing or keeping it. */
  lemma SettledOneLess(s: Race, s': Race, k: nat)
    requires StreamsSettled(s) && s'.attempts == s.attempts && s'.batched == s.batched
    requires s.closes <= s'.closes && Undecided(s) - {k} <= Undecided(s')
    requires HasStream(s, k) ==> k in s'.closes || k in Undecided(s')
    ensures StreamsSettled(s')
  {
    forall j | j in s'.batched && HasStream(s', j) ensures j in s'.closes || j in Undecided(s') {
      assert HasStream(s, j) && (j in s.closes || j in Undecided(s));
    }
  }

  lemma BatchKeepsStreamsSettled(s: Race, a: Action)
    requires (a.Inspect? || a.Discard?) && StreamsSettled(s) && Enabled(s, a)
    ensures StreamsSettled(Apply(s, a))
  {
    SettledOneLess(s, Apply(s, a), a.k);
  }

  lemma KeepsStreamsSettled(s: Race, a: Action)
    requires StreamsSettled(s) && Bookkeeping(s) && ClosedOnce(s) && Enabled(s, a) && !OfTask(a)
    ensures StreamsSettled(Apply(s, a))
  {
    if a.Collect? {
      CollectKeepsStreamsSettled(s, a);
    } else if a.Decide? {
      DecideKeepsStreamsSettled(s, a);
    } else if a.Inspect? || a.Discard? {
      BatchKeepsStreamsSettled(s, a);
    }
  }

  lemma CollectKeepsNoStreamSkipped(s: Race, a: Action)
    requires a.Collect? && NoStreamSkipped(s) && PinnedOrder(s) && Bookkeeping(s) && Enabled(s, a)
    ensures NoStreamSkipped(Apply(s, a))
  {
  }

  lemma DecideKeepsNoStreamSkipped(s: Race, a: Action)
    requires a.Decide? && NoStreamSkipped(s) && PinnedOrder(s) && Bookkeeping(s) && Enabled(s, a)
    ensures NoStreamSkipped(Apply(s, a))
  {
  }

  lemma WaitKeepsNoStreamSkipped(s: Race, a: Action)
    requires (a.Wait? || a.Enter?) && NoStreamSkipped(s) && PinnedOrder(s) && Bookkeeping(s) && Enabled(s, a)
    ensures NoStreamSkipped(Apply(s, a))
  {
  }

  lemma KeepsNoStreamSkipped(s: Race, a: Action)
    requires NoStreamSkipped(s) && PinnedOrder(s) && Bookkeeping(s) && Enabled(s, a) && !OfTask(a)
    ensures NoStreamSkipped(Apply(s, a))
  {
    if a.Collect? {
      CollectKeepsNoStreamSkipped(s, a);
    } else if a.Decide? {
      DecideKeepsNoStreamSkipped(s, a);
    } else if a.Wait? || a.Enter? {
      WaitKeepsNoStreamSkipped(s, a);
    }
  }

  lemma CollectKeepsBounded(s: Race, a: Action)
    requires a.Collect? && Bounded(s) && Bookkeeping(s) && PinnedOrder(s) && Enabled(s, a)
    ensures Bounded(Apply(s, a))
  {
    var done := Done(s);
    assert |s.tasks - done| == |s.tasks| - |done| by {
      assert done <= s.tasks;
    }
  }

  lemma DecideKeepsBounded(s: Race, a: Action)
    requires a.Decide? && Bounded(s) && Bookkeeping(s) && PinnedOrder(s) && Enabled(s, a)
    ensures Bounded(Apply(s, a))
  {
  }

  lemma KeepsBounded(s: Race, a: Action)
    requires Bounded(s) && Bookkeeping(s) && PinnedOrder(s) && Enabled(s, a) && !OfTask(a)
    ensures Bounded(Apply(s, a))
  {
    if a.Collect? {
      CollectKeepsBounded(s, a);
    } else if a.Decide? {
      DecideKeepsBounded(s, a);
    }
  }

  lemma StepKeepsInv(s: Race, a: Action)
    requires Inv(s) && Enabled(s, a)
    ensures Inv(Apply(s, a))
  {
    if OfTask(a) {
      TaskActionIsTaskStep(s, a);
      TaskStepKeeps(s, Apply(s, a));
      TaskActionKeepsCount(s, a);
      TaskActionKeepsStartedOnce(s, a);
      TaskActionKeepsSpacing(s, a);
    } else {
      CoordinatorActionIsCoordinatorStep(s, a);
      CoordinatorStepKeeps(s, Apply(s, a));
      KeepsBookkeeping(s, a);
      KeepsPinnedOrder(s, a);
      KeepsPaced(s, a);
      KeepsClosedOnce(s, a);
      KeepsWinnerKept(s, a);
      KeepsStreamsSettled(s, a);
      KeepsNoStreamSkipped(s, a);
      KeepsBounded(s, a);
    }
  }

  // ------------------------------------------------------------ whole runs

  /** A run: the states it passes through and the actions between them. */
  ghost predicate Run(states: seq<Race>, actions: seq<Action>) {
    && |states| == |actions| + 1
    && Init(states[0])
    && forall i :: 0 <= i < |actions| ==>
         Enabled(states[i], actions[i]) && states[i + 1] == Apply(states[i], actions[i])
  }

  lemma {:induction false} RunKeepsInv(states: seq<Race>, actions: seq<Action>, i: nat)
    requires Run(states, actions) && i < |states|
    ensures Inv(states[i])
    decreases i
  {
    if i == 0 {
      InitInv(states[0]);
    } else {
      RunKeepsInv(states, actions, i - 1);
      StepKeepsInv(states[i - 1], actions[i - 1]);
    }
  }

  lemma NewStart(s: Race, a: Action)
    requires Enabled(s, a)
    ensures Apply(s, a).starts == s.starts
         || exists k, t :: Apply(s, a).starts == s.starts + [Start(k, t, s.active)]
  {
  }

  /**
   A backend call starts less than a full delay after an earlier start only when
   every attempt started before it is done, whether or not the coordinator
   created its task early.
   */
  lemma StartsAreStaggered(states: seq<Race>, actions: seq<Action>, n: nat, i: nat)
    requires Run(states, actions) && n < |actions|
    requires i < |states[n].starts| < |states[n + 1].starts|
    requires states[n + 1].starts[|states[n].starts|].at < states[n].starts[i].at + 0.25
    ensures states[n].active == 0
    ensures forall j :: 0 <= j < |states[n].starts| ==>
              var k := states[n].starts[j].attempt;
              k < |states[n].attempts| && states[n].attempts[k].Finished?
  {
    var s, s' := states[n], states[n + 1];
    RunKeepsInv(states, actions, n);
    RunKeepsInv(states, actions, n + 1);
    NewStart(s, actions[n]);
    assert s.starts[i].at <= s.starts[|s.starts| - 1].at;
    assert s'.starts[|s.starts|].active == s.active;
    NothingRuns(s);
  }

  lemma NothingRuns(s: Race)
    requires CountExact(s) && StartedOnce(s) && s.active == 0
    ensures forall j :: 0 <= j < |s.starts| ==> s.attempts[s.starts[j].attempt].Finished?
  {
    forall j | 0 <= j < |s.starts| ensures s.attempts[s.starts[j].attempt].Finished? {
      assert s.starts[j].attempt !in Running(s.attempts);
    }
  }

  /** Until clean-up begins, the active count is the number of attempts between increment and decrement. */
  lemma ActiveCountIsExact(states: seq<Race>, actions: seq<Action>, n: nat)
    requires Run(states, actions) && n < |states| && !CleaningUp(states[n])
    ensures states[n].active == |Running(states[n].attempts)|
  {
    RunKeepsInv(states, actions, n);
  }

  /** Tasks are created for a prefix of the pinned addresses, in order and once each, before the deadline. */
  lemma AddressesTriedInPinnedOrder(states: seq<Race>, actions: seq<Action>, n: nat)
    requires Run(states, actions) && n < |states|
    ensures var s := states[n];
            && |s.created| == |s.attempts| <= |s.addresses|
            && (forall k :: 0 <= k < |s.created| ==> s.created[k].address == s.addresses[k])
            && (s.deadline.Some? ==> forall k :: 0 <= k < |s.created| ==> s.created[k].readAt < s.deadline.value)
            && (forall i, j :: 0 <= i < j < |s.starts| ==> s.starts[i].attempt != s.starts[j].attempt)
            // and a task is created early only when no task is left
            && (forall i {:trigger s.created[i].alone} :: 0 < i < |s.created| && !s.created[i].alone ==>
                  s.created[i].readAt >= s.created[i - 1].readAt + 0.25)
  {
    RunKeepsInv(states, actions, n);
  }

  /** The deadline passed, or every address was tried and ended without a stream. */
  predicate DenialJustified(s: Race) {
    || (s.deadline.Some? && s.now >= s.deadline.value)
    || (|s.attempts| == |s.addresses|
        && forall k :: 0 <= k < |s.attempts| ==> s.attempts[k].Finished? && s.attempts[k].outcome != Opened)
  }

  lemma DeniedIsJustified(s: Race)
    requires Inv(s) && s.phase == Cleanup(Denied)
    ensures DenialJustified(s)
  {
    forall k | 0 <= k < |s.attempts| && !Past(s.deadline, s.now)
      ensures s.attempts[k].Finished? && s.attempts[k].outcome != Opened
    {
      assert !HasStream(s, k);
    }
  }

  lemma VerdictStays(s: Race, a: Action)
    requires Enabled(s, a)
    ensures Apply(s, a).phase.Exit? ==> CleaningUp(s)
    ensures CleaningUp(s) ==> CleaningUp(Apply(s, a)) && Apply(s, a).phase.verdict == s.phase.verdict
  {
  }

  /**
   Every denial was justified in the state in which it was decided, before any
   clean-up: the deadline had passed by then, or every address had been tried and
   had ended without a stream.
   */
  lemma {:induction false} DenialIsJustified(states: seq<Race>, actions: seq<Action>, n: nat) returns (m: nat)
    requires Run(states, actions) && n < |states| && CleaningUp(states[n]) && states[n].phase.verdict == Denied
    ensures 0 < m <= n && !CleaningUp(states[m - 1])
    ensures states[m].phase == Cleanup(Denied) && DenialJustified(states[m])
    decreases n
  {
    VerdictStays(states[n - 1], actions[n - 1]);
    if CleaningUp(states[n - 1]) {
      m := DenialIsJustified(states, actions, n - 1);
    } else {
      m := n;
      RunKeepsInv(states, actions, n);
      DeniedIsJustified(states[n]);
    }
  }

  /**
   At exit no task is running; the returned stream comes from a timely batch and
   was never closed; every other stream of any batch was closed exactly once.
   */
  lemma ExitAccountsForStreams(states: seq<Race>, actions: seq<Action>, n: nat)
    requires Run(states, actions) && n < |states| && states[n].phase.Exit?
    ensures var s := states[n];
            && (forall k: nat :: k < |s.attempts| ==> s.attempts[k].Finished?)
            && (forall k :: k in s.batched && HasStream(s, k) ==>
                  s.closes[k] == if s.phase.verdict.Returned? && s.phase.verdict.attempt == k then 0 else 1)
            && (forall k :: k !in s.batched || !HasStream(s, k) ==> s.closes[k] == 0)
            && (s.phase.verdict.Returned? ==>
                  && s.phase.verdict.attempt in s.batched && HasStream(s, s.phase.verdict.attempt)
                  && (s.deadline.Some? ==> s.phase.verdict.readAt < s.deadline.value))
  {
    RunKeepsInv(states, actions, n);
  }

  /** Whatever the interleaving, the coordinator's loop turns at most 2n + 1 times for n addresses. */
  lemma LoopIsLinear(states: seq<Race>, actions: seq<Action>, n: nat)
    requires Run(states, actions) && n < |states|
    ensures states[n].iterations <= 2 * |states[n].addresses| + 1
  {
    RunKeepsInv(states, actions, n);
  }

  // -------------------------------------------------------------- termination

  /** Steps a task can still take. */
  function Rank(a: Attempt): nat {
    match a
    case Queued => 4
    case Sleeping(_) => 3
    case Connecting => 2
    case Settled(_) => 1
    case Finished(_) => 0
  }

  function Work(attempts: seq<Attempt>): nat {
    if attempts == [] then 0 else Work(attempts[..|attempts| - 1]) + Rank(attempts[|attempts| - 1])
  }

  lemma {:induction false} WorkAfter(attempts: seq<Attempt>, k: nat, a: Attempt)
    requires k < |attempts|
    ensures Work(attempts[k := a]) == Work(attempts) - Rank(attempts[k]) + Rank(a)
  {
    var front, after := attempts[..|attempts| - 1], attempts[k := a];
    if k == |attempts| - 1 {
      assert after[..|attempts| - 1] == front;
    } else {
      assert after[..|attempts| - 1] == front[k := a];
      WorkAfter(front, k, a);
    }
  }

  /** The attempts whose batch the coordinator has not worked off. */
  ghost function Todo(s: Race): set<nat> {
    match s.phase
    case Scanning(todo, _, _) => todo
    case Closing(todo) => todo
    case _ => {}
  }

  function PhaseRank(p: Phase): nat {
    match p
    case Entry => 6
    case Waiting(_) => 5
    case Scanning(_, _, _) => 4
    case Top => 3
    case Closing(_) => 2
    case Cleanup(_) => 1
    case Exit(_) => 0
  }

  /** Steps that the whole race can still take, beside the clock's. */
  ghost function StepsLeft(s: Race): int {
    TaskSteps(s) + |Todo(s)| + 3 * (2 * |s.addresses| + 2 - s.iterations) + PhaseRank(s.phase)
  }

  /** The share of the tasks, and of the addresses still to be tried. */
  function TaskSteps(s: Race): int {
    Work(s.attempts) + 5 * (|s.addresses| - s.next) + |s.tasks|
  }

  lemma StepsLeftIsNatural(s: Race)
    requires Inv(s)
    ensures StepsLeft(s) >= 0
  {
    assert s.iterations <= 2 * |s.addresses| + 1;
  }

  lemma TaskRankDrops(s: Race, a: Action)
    requires Enabled(s, a) && OfTask(a) && !a.Tick?
    ensures var after := Apply(s, a).attempts;
            && |after| == |s.attempts| && after == s.attempts[a.k := after[a.k]]
            && Rank(after[a.k]) < Rank(s.attempts[a.k])
  {
  }

  lemma TaskStepsDecrease(s: Race, a: Action)
    requires Enabled(s, a) && OfTask(a) && !a.Tick?
    ensures StepsLeft(Apply(s, a)) < StepsLeft(s)
  {
    var s' := Apply(s, a);
    TaskActionIsTaskStep(s, a);
    TaskRankDrops(s, a);
    WorkAfter(s.attempts, a.k, s'.attempts[a.k]);
  }

  /** Starting the next attempt spends an address, whether or not a task is created. */
  lemma StartingSpendsAddress(s: Race, checkAt: real, startAt: real)
    requires s.next <= |s.addresses| && forall k :: k in s.tasks ==> k < |s.attempts|
    ensures var s' := StartNext(s, checkAt, startAt);
            TaskSteps(s') <= TaskSteps(s) && s'.iterations == s.iterations && s'.addresses == s.addresses
  {
    assert (s.attempts + [Queued])[..|s.attempts|] == s.attempts;
    assert |s.attempts| !in s.tasks;
  }

  /** A batch moves from the tracked tasks to those being worked off. */
  lemma BatchIsMoved(s: Race, readAt: real) returns (s1: Race)
    requires Bookkeeping(s)
    ensures s1 == s.(tasks := s.tasks - Done(s), batched := s.batched + Done(s), now := readAt)
    ensures TaskSteps(s1) + |Done(s)| == TaskSteps(s)
    ensures forall k :: k in s1.tasks ==> k < |s1.attempts|
  {
    var done := Done(s);
    assert done <= s.tasks;
    assert |s.tasks - done| == |s.tasks| - |done|;
    s1 := s.(tasks := s.tasks - done, batched := s.batched + done, now := readAt);
  }

  lemma MaybeStartingSpendsAddress(s: Race, recheckAt: real, checkAt: real, startAt: real)
    requires s.next <= |s.addresses| && forall k :: k in s.tasks ==> k < |s.attempts|
    ensures var s' := MaybeStart(s, recheckAt, checkAt, startAt);
            TaskSteps(s') <= TaskSteps(s) && s'.iterations == s.iterations && s'.addresses == s.addresses
  {
    StartingSpendsAddress(s, checkAt, startAt);
  }

  lemma CollectStepsDecrease(s: Race, a: Action)
    requires Bookkeeping(s) && s.next <= |s.addresses| && Enabled(s, a) && a.Collect?
    ensures StepsLeft(Apply(s, a)) < StepsLeft(s)
  {
    var s1 := BatchIsMoved(s, a.readAt);
    MaybeStartingSpendsAddress(s1, a.recheckAt, a.checkAt, a.startAt);
    CollectedSteps(s, s1, MaybeStart(s1, a.recheckAt, a.checkAt, a.startAt), Apply(s, a));
  }

  lemma CollectedSteps(s: Race, s1: Race, s2: Race, s': Race)
    requires s.phase.Waiting? && TaskSteps(s1) + |Done(s)| == TaskSteps(s) && TaskSteps(s2) <= TaskSteps(s1)
    requires s1.iterations == s2.iterations == s.iterations && s1.addresses == s2.addresses == s.addresses
    requires
      || s' == s2.(phase := Top) || s' == s1.(phase := Top) || s' == s1.(phase := Closing(Done(s)))
      || (s'.phase.Scanning? && s'.phase.todo == Done(s) && s' == s1.(phase := s'.phase))
    ensures StepsLeft(s') < StepsLeft(s)
  {
    TaskStepsOnly(if s' == s2.(phase := Top) then s2 else s1, s');
  }

  lemma TaskStepsOnly(s: Race, s': Race)
    requires s'.attempts == s.attempts && s'.addresses == s.addresses && s'.next == s.next && s'.tasks == s.tasks
    ensures TaskSteps(s') == TaskSteps(s)
  {
  }

  lemma DecideStepsDecrease(s: Race, a: Action)
    requires Bookkeeping(s) && s.next <= |s.addresses| && Enabled(s, a) && a.Decide?
    ensures StepsLeft(Apply(s, a)) < StepsLeft(s)
  {
    var s1 := s.(now := a.dueAt);
    MaybeStartingSpendsAddress(s1, a.recheckAt, a.checkAt, a.startAt);
    DecidedSteps(s, MaybeStart(s1, a.recheckAt, a.checkAt, a.startAt), Apply(s, a));
  }

  lemma DecidedSteps(s: Race, s2: Race, s': Race)
    requires s.phase.Scanning? && s.phase.todo == {}
    requires TaskSteps(s2) <= TaskSteps(s) && s2.iterations == s.iterations && s2.addresses == s.addresses
    requires s' == s2.(phase := Top) || s' == s.(phase := Top, now := s'.now)
             || (s'.phase.Cleanup? && s' == s.(phase := s'.phase))
    ensures StepsLeft(s') < StepsLeft(s)
  {
    TaskStepsOnly(if s' == s2.(phase := Top) then s2 else s, s');
  }

  lemma EnterStepsDecrease(s: Race, a: Action)
    requires Bookkeeping(s) && s.next <= |s.addresses| && Enabled(s, a) && a.Enter?
    ensures StepsLeft(Apply(s, a)) < StepsLeft(s)
  {
    StartingSpendsAddress(s, a.checkAt, a.startAt);
  }

  lemma WaitStepsDecrease(s: Race, a: Action)
    requires Enabled(s, a) && a.Wait?
    ensures StepsLeft(Apply(s, a)) < StepsLeft(s)
  {
    TaskStepsOnly(s, Apply(s, a));
  }

  lemma InspectStepsDecrease(s: Race, a: Action)
    requires Enabled(s, a) && a.Inspect?
    ensures StepsLeft(Apply(s, a)) < StepsLeft(s)
  {
    var s' := Apply(s, a);
    assert s'.phase.Scanning? && s'.phase.todo == s.phase.todo - {a.k};
    TaskStepsOnly(s, s');
    BatchShrinks(s, s', a.k);
  }

  lemma DiscardStepsDecrease(s: Race, a: Action)
    requires Enabled(s, a) && a.Discard?
    ensures StepsLeft(Apply(s, a)) < StepsLeft(s)
  {
    var s' := Apply(s, a);
    assert s'.phase == Closing(s.phase.todo - {a.k});
    TaskStepsOnly(s, s');
    BatchShrinks(s, s', a.k);
  }

  lemma BatchShrinks(s: Race, s': Race, k: nat)
    requires k in Todo(s) && Todo(s') == Todo(s) - {k} && PhaseRank(s'.phase) == PhaseRank(s.phase)
    requires TaskSteps(s') == TaskSteps(s) && s'.iterations == s.iterations && s'.addresses == s.addresses
    ensures StepsLeft(s') < StepsLeft(s)
  {
  }

  lemma LastStepsDecrease(s: Race, a: Action)
    requires Enabled(s, a) && (a.Leave? || a.Finish?)
    ensures StepsLeft(Apply(s, a)) < StepsLeft(s)
  {
    TaskStepsOnly(s, Apply(s, a));
  }

  /** Every step but the clock's uses up the measure. */
  lemma StepsDecrease(s: Race, a: Action)
    requires Bookkeeping(s) && s.next <= |s.addresses| && Enabled(s, a)
    ensures StepsLeft(Apply(s, a)) + (if a.Tick? then 0 else 1) <= StepsLeft(s)
  {
    if a.Tick? {
    } else if OfTask(a) {
      TaskStepsDecrease(s, a);
    } else if a.Collect? {
      CollectStepsDecrease(s, a);
    } else if a.Decide? {
      DecideStepsDecrease(s, a);
    } else if a.Enter? {
      EnterStepsDecrease(s, a);
    } else if a.Wait? {
      WaitStepsDecrease(s, a);
    } else if a.Inspect? {
      InspectStepsDecrease(s, a);
    } else if a.Discard? {
      DiscardStepsDecrease(s, a);
    } else {
      LastStepsDecrease(s, a);
    }
  }

  /** The actions that are not the clock's. */
  function Moves(actions: seq<Action>): nat {
    if actions == [] then 0
    else Moves(actions[..|actions| - 1]) + if actions[|actions| - 1].Tick? then 0 else 1
  }

  lemma RunStep(states: seq<Race>, actions: seq<Action>, n: nat)
    requires Run(states, actions) && n < |actions|
    ensures Bookkeeping(states[n]) && states[n].next <= |states[n].addresses|
    ensures Enabled(states[n], actions[n]) && states[n + 1] == Apply(states[n], actions[n])
  {
    RunKeepsInv(states, actions, n);
  }

  lemma OneMoveMore(states: seq<Race>, actions: seq<Action>, n: nat)
    requires Run(states, actions) && n < |actions|
    ensures Moves(actions[..n + 1]) + StepsLeft(states[n + 1]) <= Moves(actions[..n]) + StepsLeft(states[n])
  {
    RunStep(states, actions, n);
    assert actions[..n + 1][..n] == actions[..n];
    StepsDecrease(states[n], actions[n]);
  }

  lemma {:induction false} MovesAreSpent(states: seq<Race>, actions: seq<Action>, n: nat)
    requires Run(states, actions) && n < |states|
    ensures Moves(actions[..n]) + StepsLeft(states[n]) <= StepsLeft(states[0])
    decreases n
  {
    if n == 0 {
      assert actions[..0] == [];
    } else {
      MovesAreSpent(states, actions, n - 1);
      OneMoveMore(states, actions, n - 1);
    }
  }

  /** Every run is finite but for the clock: coordinator and tasks together take at most 11n + 12 steps. */
  lemma RunsAreShort(states: seq<Race>, actions: seq<Action>)
    requires Run(states, actions)
    ensures Moves(actions) <= 11 * |states[0].addresses| + 12
  {
    MovesAreSpent(states, actions, |actions|);
    RunKeepsInv(states, actions, |actions|);
    StepsLeftIsNatural(states[|actions|]);
    assert actions[..|actions|] == actions;
  }

  /** A task that is not done can move, or the holder of the start lock can. */
  lemma UnfinishedTaskCanMove(s: Race, k: nat) returns (a: Action)
    requires LockHeld(s) && k < |s.attempts| && !s.attempts[k].Finished?
    ensures Enabled(s, a) && !a.Tick?
  {
    var holder := if s.lock.Some? then s.lock.value else k;
    if s.attempts[holder].Sleeping? {
      a := Wake(holder, Max(s.now, s.attempts[holder].until));
    } else if s.attempts[k].Queued? {
      a := Acquire(k, s.now, s.now);
    } else if s.attempts[k].Connecting? {
      a := Settle(k, Failed);
    } else {
      a := Release(k);
    }
  }

  /** No state but the exit is stuck: once enough time has passed, a step is possible. */
  lemma NothingIsStuck(states: seq<Race>, actions: seq<Action>, n: nat) returns (t: real, a: Action)
    requires Run(states, actions) && n < |states| && !states[n].phase.Exit?
    ensures t >= states[n].now && !a.Tick? && Enabled(Apply(states[n], Tick(t)), a)
  {
    RunKeepsInv(states, actions, n);
    var s := states[n];
    t := s.now;
    match s.phase
    case Entry => a := Enter(t, t);
    case Top => a := Wait(t, t, t);
    case Waiting(until) =>
      if Done(s) != {} || until.Some? {
        t := if until.Some? then Max(s.now, until.value) else s.now;
        a := Collect(t, t, t, t);
      } else {
        var k :| k in s.tasks;
        assert k !in Done(s);
        a := UnfinishedTaskCanMove(s, k);
      }
    case Scanning(todo, _, _) =>
      if todo == {} {
        a := Decide(t, t, t, t);
      } else {
        var k :| k in todo;
        a := Inspect(k);
      }
    case Closing(todo) =>
      if todo == {} {
        a := Leave;
      } else {
        var k :| k in todo;
        a := Discard(k);
      }
    case Cleanup(_) =>
      if Done(s) == s.tasks {
        a := Finish;
      } else {
        var k :| k in s.tasks && k !in Done(s);
        a := Cancel(k);
      }
  }

  lemma WaitLimitIsTimely(s: Race, budgetAt: real, delayAt: real, waitAt: real)
    requires Paced(s) && Enabled(s, Wait(budgetAt, delayAt, waitAt)) && s.tasks != {} && !Past(s.deadline, budgetAt)
    ensures var until := WaitLimit(s, budgetAt, delayAt, waitAt);
            && (until.Some? <==> s.more || s.deadline.Some?)
            && (s.more ==>
                  && s.created != []
                  && until.value <= Max(s.created[|s.created| - 1].dueFrom + 0.25, delayAt) + (waitAt - delayAt))
            && (s.deadline.Some? ==> until.value <= s.deadline.value + (waitAt - budgetAt))
            && (until.Some? ==>
                  || (s.more && until.value >= s.created[|s.created| - 1].dueFrom + 0.25)
                  || Past(s.deadline, until.value))
  {
  }

  /**
   In every run the coordinator leaves as soon as it reads a time at or past the
   deadline or has no task left.  Otherwise, while addresses are left, it waits for
   0.25 s after the reading that followed the last creation, and for no longer than
   that or the deadline, but for the time its own clock readings take.
   */
  lemma WaitIsTimely(states: seq<Race>, actions: seq<Action>, n: nat)
    requires Run(states, actions) && n < |actions| && actions[n].Wait?
    ensures var s, phase, a := states[n], states[n + 1].phase, actions[n];
            if s.tasks == {} || (s.deadline.Some? && a.budgetAt >= s.deadline.value) then phase == Cleanup(Denied)
            else
              && phase.Waiting?
              && (phase.until.Some? <==> s.more || s.deadline.Some?)
              && (s.more ==>
                    && s.created != []
                    && (var due := s.created[|s.created| - 1].dueFrom + 0.25;
                        && (phase.until.value >= due || (s.deadline.Some? && phase.until.value >= s.deadline.value))
                        && phase.until.value <= (if due > a.delayAt then due else a.delayAt) + (a.waitAt - a.delayAt)))
              && (s.deadline.Some? ==> phase.until.value <= s.deadline.value + (a.waitAt - a.budgetAt))
              && (!s.more && s.deadline.Some? ==> phase.until.value >= s.deadline.value)
  {
    RunKeepsInv(states, actions, n);
    var s, a := states[n], actions[n];
    if s.tasks != {} && !Past(s.deadline, a.budgetAt) {
      WaitLimitIsTimely(s, a.budgetAt, a.delayAt, a.waitAt);
    }
  }

  /**
   In every run, while addresses and time are left, the coordinator creates the next
   task after an empty batch, and after one without a stream if no task is left or
   0.25 s have gone by since the reading that followed the last creation.
   */
  lemma NextIsCreatedWhenDue(states: seq<Race>, actions: seq<Action>, n: nat)
    requires Run(states, actions) && n < |actions| && (actions[n].Collect? || actions[n].Decide?)
    requires states[n].more && states[n].next < |states[n].addresses|
    requires states[n].deadline.Some? ==> actions[n].startAt < states[n].deadline.value
    ensures var s, a := states[n], actions[n];
            && s.created != []
            && (states[n + 1].created != s.created <==>
                  if a.Collect? then forall k :: k in s.tasks && k < |s.attempts| ==> !s.attempts[k].Finished?
                  else
                    && s.phase.Scanning? && s.phase.winner.None?
                    && (s.tasks == {} || a.dueAt >= s.created[|s.created| - 1].dueFrom + 0.25))
  {
    RunKeepsInv(states, actions, n);
    var s, a := states[n], actions[n];
    if a.Collect? {
      EmptyBatchCreates(s, a);
    } else {
      LateBatchCreates(s, a);
    }
  }

  lemma StartingCreates(s: Race, recheckAt: real, checkAt: real, startAt: real)
    requires s.next < |s.addresses| && recheckAt <= startAt && checkAt <= startAt
    requires s.deadline.Some? ==> startAt < s.deadline.value
    ensures |MaybeStart(s, recheckAt, checkAt, startAt).created| == |s.created| + 1
  {
  }

  lemma EmptyBatchCreates(s: Race, a: Action)
    requires a.Collect? && Enabled(s, a) && s.more && s.next < |s.addresses|
    requires s.deadline.Some? ==> a.startAt < s.deadline.value
    ensures Apply(s, a).created != s.created <==>
              forall k :: k in s.tasks && k < |s.attempts| ==> !s.attempts[k].Finished?
  {
    var done := Done(s);
    assert done == {} <==> forall k :: k in s.tasks && k < |s.attempts| ==> k !in done;
    var s1 := s.(tasks := s.tasks - done, batched := s.batched + done, now := a.readAt);
    StartingCreates(s1, a.recheckAt, a.checkAt, a.startAt);
  }

  lemma LateBatchCreates(s: Race, a: Action)
    requires a.Decide? && Enabled(s, a) && s.more && s.next < |s.addresses|
    requires s.deadline.Some? ==> a.startAt < s.deadline.value
    ensures Apply(s, a).created != s.created <==>
              s.phase.winner.None? && (s.tasks == {} || a.dueAt >= s.nextAttemptAt)
  {
    StartingCreates(s.(now := a.dueAt), a.recheckAt, a.checkAt, a.startAt);
  }

  /** A task sleeps only beside a running attempt, and exactly until 0.25 s after the last start. */
  lemma SleepIsExact(states: seq<Race>, actions: seq<Action>, n: nat, k: nat)
    requires Run(states, actions) && n < |states|
    requires k < |states[n].attempts| && states[n].attempts[k].Sleeping?
    ensures var s := states[n];
            s.active > 0 && s.starts != [] && s.attempts[k].until == s.starts[|s.starts| - 1].at + 0.25
  {
    RunKeepsInv(states, actions, n);
  }

  /** Some run passes through `s`. */
  ghost predicate Reachable(s: Race) {
    exists states, actions :: Run(states, actions) && states[|actions|] == s
  }

  lemma StepReaches(s: Race, a: Action)
    requires Reachable(s) && Enabled(s, a)
    ensures Reachable(Apply(s, a))
  {
    var states, actions :| Run(states, actions) && states[|actions|] == s;
    assert Run(states + [Apply(s, a)], actions + [a]);
  }
}
