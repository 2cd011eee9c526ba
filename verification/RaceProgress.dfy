/**
 What the connection race can still do: from its reachable states a next address
 is tried in time, and its stream returned, whatever the calls before it do.
 */
module RaceProgress {
  import opened Prelude
  import opened ConnectionRace

  ghost predicate Playable(s: Race, actions: seq<Action>)
    decreases |actions|
  {
    actions == [] || (Enabled(s, actions[0]) && Playable(Apply(s, actions[0]), actions[1..]))
  }

  /** The state after a sequence of actions. */
  ghost function Played(s: Race, actions: seq<Action>): Race
    requires Playable(s, actions)
    decreases |actions|
  {
    if actions == [] then s else Played(Apply(s, actions[0]), actions[1..])
  }

  lemma {:induction false} PlayedOn(s: Race, first: seq<Action>, second: seq<Action>)
    requires Playable(s, first) && Playable(Played(s, first), second)
    ensures Playable(s, first + second) && Played(s, first + second) == Played(Played(s, first), second)
    decreases |first|
  {
    if first == [] {
      assert first + second == second;
    } else {
      assert (first + second)[1..] == first[1..] + second;
      PlayedOn(Apply(s, first[0]), first[1..], second);
    }
  }

  /** Among these actions, no call but that of attempt `k` ends, unless it is cancelled. */
  predicate OnlySettles(actions: seq<Action>, k: nat) {
    forall i :: 0 <= i < |actions| && actions[i].Settle? ==> actions[i].k == k
  }

  /** Some actions lead from `s` to `s'`, and no call but that of attempt `k` ends on the way. */
  ghost predicate LeadsTo(s: Race, k: nat, s': Race) {
    exists actions :: Playable(s, actions) && OnlySettles(actions, k) && Played(s, actions) == s'
  }

  lemma Stays(s: Race, k: nat)
    ensures LeadsTo(s, k, s)
  {
    var none: seq<Action> := [];
    assert Playable(s, none) && OnlySettles(none, k) && Played(s, none) == s;
  }

  lemma Then(s: Race, k: nat, t: Race, u: Race)
    requires LeadsTo(s, k, t) && LeadsTo(t, k, u)
    ensures LeadsTo(s, k, u)
  {
    var first :| Playable(s, first) && OnlySettles(first, k) && Played(s, first) == t;
    var second :| Playable(t, second) && OnlySettles(second, k) && Played(t, second) == u;
    PlayedOn(s, first, second);
    assert OnlySettles(first + second, k);
  }

  lemma Step(s: Race, k: nat, a: Action)
    requires Enabled(s, a) && (a.Settle? ==> a.k == k)
    ensures LeadsTo(s, k, Apply(s, a))
  {
    var one := [a];
    assert one[1..] == [];
    assert Playable(Apply(s, a), one[1..]);
    assert Playable(s, one) && OnlySettles(one, k) && Played(s, one) == Apply(s, a);
  }

  /** A step after those before. */
  lemma AndStep(s: Race, k: nat, t: Race, a: Action)
    requires Reachable(t) && LeadsTo(s, k, t) && Enabled(t, a) && (a.Settle? ==> a.k == k)
    ensures LeadsTo(s, k, Apply(t, a)) && Reachable(Apply(t, a))
  {
    Step(t, k, a);
    Then(s, k, t, Apply(t, a));
    StepReaches(t, a);
  }

  lemma ReachableInv(s: Race)
    requires Reachable(s)
    ensures Inv(s)
  {
    var states, actions :| Run(states, actions) && states[|actions|] == s;
    RunKeepsInv(states, actions, |actions|);
  }

  lemma CleanupStep(s: Race) returns (a: Action)
    requires Reachable(s) && s.phase.Cleanup?
    ensures Enabled(s, a) && !a.Settle?
    ensures var s' := Apply(s, a);
            && (s'.phase == s.phase || s'.phase == Exit(s.phase.verdict))
            && s'.addresses == s.addresses && s'.created == s.created
            && StepsLeft(s') < StepsLeft(s) && StepsLeft(s) >= 0
  {
    ReachableInv(s);
    StepsLeftIsNatural(s);
    if Done(s) == s.tasks {
      a := Finish;
    } else {
      var k :| k in s.tasks && k !in Done(s);
      a := Cancel(k);
    }
    StepsDecrease(s, a);
  }

  /** Clean-up always ends, with the verdict it began with. */
  lemma {:induction false} CleanupEnds(s: Race, k: nat) returns (e: Race)
    requires Reachable(s) && s.phase.Cleanup?
    ensures LeadsTo(s, k, e) && e.phase == Exit(s.phase.verdict)
    ensures e.addresses == s.addresses && e.created == s.created
    decreases StepsLeft(s)
  {
    var a := CleanupStep(s);
    Stays(s, k);
    AndStep(s, k, s, a);
    e := Apply(s, a);
    if e.phase.Cleanup? {
      var rest := CleanupEnds(e, k);
      Then(s, k, e, rest);
      e := rest;
    }
  }

  /** A finished stream, alone in its batch, is returned at once. */
  lemma StreamIsReturned(s: Race, k: nat) returns (e: Race)
    requires Reachable(s) && s.phase.Top? && k in s.tasks && Done(s) == {k} && s.attempts[k] == Finished(Opened)
    requires !Past(s.deadline, s.now)
    ensures LeadsTo(s, k, e) && e.phase == Exit(Returned(k, s.now))
    ensures e.addresses == s.addresses && e.created == s.created
  {
    var t := s.now;
    Stays(s, k);
    AndStep(s, k, s, Wait(t, t, t));
    var s1 := Apply(s, Wait(t, t, t));
    assert Done(s1) == {k};
    AndStep(s, k, s1, Collect(t, t, t, t));
    var s2 := Apply(s1, Collect(t, t, t, t));
    assert s2.phase == Scanning({k}, None, t);
    AndStep(s, k, s2, Inspect(k));
    var s3 := Apply(s2, Inspect(k));
    assert s3.phase.todo == {};
    AndStep(s, k, s3, Decide(t, t, t, t));
    var s4 := Apply(s3, Decide(t, t, t, t));
    e := CleanupEnds(s4, k);
    Then(s, k, s4, e);
  }

  /** When a task that takes the start lock now makes its backend call. */
  function StartTime(s: Race): real {
    if s.active == 0 || s.starts == [] then s.now else Max(s.now, s.starts[|s.starts| - 1].at + 0.25)
  }

  lemma QueuedConnects(s: Race, k: nat) returns (e: Race)
    requires Reachable(s) && k < |s.attempts| && s.attempts[k].Queued? && s.lock.None?
    ensures LeadsTo(s, k, e) && Reachable(e)
    ensures e == s.(attempts := s.attempts[k := Connecting], active := s.active + 1, now := StartTime(s),
                    lastStart := e.lastStart, starts := e.starts)
  {
    ReachableInv(s);
    var t := StartTime(s);
    Stays(s, k);
    AndStep(s, k, s, Acquire(k, s.now, s.now));
    e := Apply(s, Acquire(k, s.now, s.now));
    if e.attempts[k].Sleeping? {
      AndStep(s, k, e, Wake(k, t));
      assert s.attempts[k := e.attempts[k]][k := Connecting] == s.attempts[k := Connecting];
      e := Apply(e, Wake(k, t));
    }
  }

  lemma ConnectingOpens(s: Race, k: nat) returns (e: Race)
    requires Reachable(s) && k < |s.attempts| && s.attempts[k].Connecting? && s.lock.None?
    ensures LeadsTo(s, k, e) && Reachable(e)
    ensures e == s.(attempts := s.attempts[k := Finished(Opened)], active := s.active - 1)
  {
    Stays(s, k);
    AndStep(s, k, s, Settle(k, Opened));
    e := Apply(s, Settle(k, Opened));
    AndStep(s, k, e, Release(k));
    assert s.attempts[k := Settled(Opened)][k := Finished(Opened)] == s.attempts[k := Finished(Opened)];
    e := Apply(e, Release(k));
  }

  /** A new task beside calls that hang can open its stream, which is then returned. */
  lemma NewcomerReturns(s: Race, k: nat) returns (e: Race)
    requires Reachable(s) && s.phase.Top? && k in s.tasks && k < |s.attempts| && s.attempts[k].Queued? && s.lock.None?
    requires forall j :: j in s.tasks && j != k ==> j < |s.attempts| && s.attempts[j].Connecting?
    requires !Past(s.deadline, StartTime(s))
    ensures LeadsTo(s, k, e) && e.phase == Exit(Returned(k, StartTime(s)))
    ensures e.addresses == s.addresses && e.created == s.created
  {
    var s1 := QueuedConnects(s, k);
    var s2 := ConnectingOpens(s1, k);
    assert Done(s2) == {k};
    e := StreamIsReturned(s2, k);
    Then(s, k, s1, s2);
    Then(s, k, s2, e);
  }

  /** The tasks at the loop head that are all in their backend calls; addresses are left. */
  ghost predicate AllHang(s: Race) {
    && Reachable(s) && s.phase.Top? && s.more && s.next < |s.addresses|
    && forall j :: j in s.tasks ==> j < |s.attempts| && s.attempts[j].Connecting?
  }

  lemma HangingHoldNoLock(s: Race)
    requires AllHang(s)
    ensures s.lock.None? && s.tasks != {} && s.active > 0 && s.starts != [] && s.created != []
    ensures s.next == |s.attempts| == |s.created|
  {
    ReachableInv(s);
    var k :| k in s.tasks;
    assert k in Running(s.attempts);
  }

  /** When the next task is due. */
  function DueTime(s: Race): real
    requires s.created != []
  {
    Max(s.now, s.created[|s.created| - 1].dueFrom + 0.25)
  }

  lemma NextIsAwaited(s: Race, w: nat) returns (e: Race)
    requires AllHang(s) && s.created != [] && !Past(s.deadline, DueTime(s))
    ensures LeadsTo(s, w, e) && Reachable(e)
    ensures e == s.(phase := Waiting(Some(DueTime(s))), now := DueTime(s), iterations := s.iterations + 1)
  {
    HangingHoldNoLock(s);
    ReachableInv(s);
    var t := s.now;
    Stays(s, w);
    AndStep(s, w, s, Wait(t, t, t));
    e := Apply(s, Wait(t, t, t));
    assert e.phase == Waiting(Some(DueTime(s)));
    AndStep(s, w, e, Tick(DueTime(s)));
    e := Apply(e, Tick(DueTime(s)));
  }

  /** The next task is created 0.25 s after the reading that followed the last creation. */
  lemma NextIsCreated(s: Race, w: nat) returns (e: Race)
    requires AllHang(s) && s.created != [] && !Past(s.deadline, DueTime(s))
    ensures LeadsTo(s, w, e) && Reachable(e)
    ensures e == s.(next := s.next + 1, attempts := s.attempts + [Queued], tasks := s.tasks + {|s.attempts|},
                    created := s.created + [Creation(s.addresses[s.next], DueTime(s), DueTime(s), false)],
                    nextAttemptAt := e.nextAttemptAt, now := DueTime(s), iterations := s.iterations + 1)
  {
    HangingHoldNoLock(s);
    var due := DueTime(s);
    var s1 := NextIsAwaited(s, w);
    assert Done(s1) == {};
    AndStep(s, w, s1, Collect(due, due, due, due));
    assert s.tasks - {} == s.tasks && s.batched + {} == s.batched;
    e := Apply(s1, Collect(due, due, due, due));
  }

  /**
   Calls that never end do not keep the next address from being tried: its task is
   created 0.25 s after the last creation, or at once if that time is over, makes its
   call no later than 0.25 s after the last start, and its stream can be returned.
   */
  lemma HangingCallsDoNotBlock(s: Race) returns (at: real, e: Race)
    requires AllHang(s)
    ensures s.created != [] && s.starts != []
    ensures at == Max(DueTime(s), s.starts[|s.starts| - 1].at + 0.25)
    ensures !Past(s.deadline, at) ==>
              && LeadsTo(s, s.next, e) && e.phase == Exit(Returned(s.next, at))
              && s.next < |e.created| && e.created[s.next].address == s.addresses[s.next]
  {
    HangingHoldNoLock(s);
    at := Max(DueTime(s), s.starts[|s.starts| - 1].at + 0.25);
    e := s;
    if !Past(s.deadline, at) {
      var s1 := NextIsCreated(s, s.next);
      e := NewcomerReturns(s1, s.next);
      Then(s, s.next, s1, e);
    }
  }

  /** The first address can be returned at once, whatever the list and the deadline. */
  lemma FirstAddressCanWin(s: Race) returns (e: Race)
    requires Init(s) && s.addresses != [] && !Past(s.deadline, s.now)
    ensures LeadsTo(s, 0, e) && e.phase == Exit(Returned(0, s.now))
    ensures e.created != [] && e.created[0].address == s.addresses[0]
  {
    StartReaches(s);
    Stays(s, 0);
    AndStep(s, 0, s, Enter(s.now, s.now));
    var s1 := Apply(s, Enter(s.now, s.now));
    e := NewcomerReturns(s1, 0);
    Then(s, 0, s1, e);
  }

  lemma FirstCallHangs(s: Race) returns (e: Race)
    requires Init(s) && s.addresses != [] && !Past(s.deadline, s.now)
    ensures LeadsTo(s, 1, e) && Reachable(e)
    ensures |s.addresses| >= 2 ==> AllHang(e)
    ensures e == s.(phase := Top, next := 1, attempts := [Connecting], tasks := {0}, active := 1,
                    created := [Creation(s.addresses[0], s.now, s.now, true)],
                    starts := [Start(0, s.now, 0)], lastStart := Some(s.now), nextAttemptAt := e.nextAttemptAt)
  {
    var t := s.now;
    StartReaches(s);
    Stays(s, 1);
    AndStep(s, 1, s, Enter(t, t));
    var s1 := Apply(s, Enter(t, t));
    AndStep(s, 1, s1, Acquire(0, t, t));
    e := Apply(s1, Acquire(0, t, t));
    assert [Queued][0 := Connecting] == [Connecting];
  }

  /** The second of several addresses is returned after 0.25 s though the first call never ends. */
  lemma SecondAddressCanWin(s: Race) returns (e: Race)
    requires Init(s) && |s.addresses| >= 2 && !Past(s.deadline, s.now + 0.25)
    ensures LeadsTo(s, 1, e) && e.phase == Exit(Returned(1, s.now + 0.25))
    ensures |e.created| > 1 && e.created[1].address == s.addresses[1]
  {
    var s1 := FirstCallHangs(s);
    var at, last := HangingCallsDoNotBlock(s1);
    e := last;
    Then(s, 1, s1, e);
  }

  lemma StartReaches(s: Race)
    requires Init(s)
    ensures Reachable(s)
  {
    var none: seq<Action> := [];
    assert Run([s], none) && [s][|none|] == s;
  }

  // ------------------------------------------------------- after a failure

  /** The tasks at the loop head have all ended without a stream; addresses are left. */
  ghost predicate AllFailed(s: Race) {
    && Reachable(s) && s.phase.Top? && s.more && s.next < |s.addresses| && !Past(s.deadline, s.now)
    && forall j :: j in s.tasks ==> j < |s.attempts| && s.attempts[j].Finished? && s.attempts[j].outcome != Opened
  }

  lemma {:induction false} FailuresAreInspected(s: Race, w: nat) returns (e: Race)
    requires Reachable(s) && s.phase.Scanning? && s.phase.winner.None?
    requires forall j :: j in s.phase.todo ==>
               j < |s.attempts| && s.attempts[j].Finished? && s.attempts[j].outcome != Opened
    ensures LeadsTo(s, w, e) && Reachable(e) && e == s.(phase := s.phase.(todo := {}))
    decreases |s.phase.todo|
  {
    Stays(s, w);
    e := s;
    if s.phase.todo != {} {
      var k :| k in s.phase.todo;
      AndStep(s, w, s, Inspect(k));
      var s1 := Apply(s, Inspect(k));
      e := FailuresAreInspected(s1, w);
      Then(s, w, s1, e);
    } else {
      assert s.phase == s.phase.(todo := {});
    }
  }

  lemma FailedHoldNothing(s: Race)
    requires AllFailed(s)
    ensures s.lock.None? && s.tasks != {} && s.active == 0 && Done(s) == s.tasks
    ensures s.next == |s.attempts| == |s.created|
  {
    ReachableInv(s);
    assert Running(s.attempts) == {};
    assert Done(s) == s.tasks;
  }

  /** Once every tracked call has failed, the next address is tried without waiting. */
  lemma FailuresAreFollowedAtOnce(s: Race) returns (e: Race)
    requires AllFailed(s)
    ensures LeadsTo(s, s.next, e) && e.phase == Exit(Returned(s.next, s.now))
    ensures s.next < |e.created| && e.created[s.next].address == s.addresses[s.next]
  {
    FailedHoldNothing(s);
    var t, k := s.now, s.next;
    Stays(s, k);
    AndStep(s, k, s, Wait(t, t, t));
    var s1 := Apply(s, Wait(t, t, t));
    assert Done(s1) == s.tasks;
    AndStep(s, k, s1, Collect(t, t, t, t));
    var s2 := Apply(s1, Collect(t, t, t, t));
    assert s2.phase == Scanning(s.tasks, None, t) && s2.tasks == {};
    var s3 := FailuresAreInspected(s2, k);
    Then(s, k, s2, s3);
    AndStep(s, k, s3, Decide(t, t, t, t));
    var s4 := Apply(s3, Decide(t, t, t, t));
    e := NewcomerReturns(s4, k);
    Then(s, k, s4, e);
  }
}
