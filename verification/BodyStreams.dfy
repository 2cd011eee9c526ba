/**
 The bounded request stream: a source of chunks behind any number of iterators,
 at most one of which may ever deliver, and the bounded response stream.
 */
module BodyStreams {
  import opened Prelude

  /** What the source gives next: exact bytes, another object, or an exception. */
  datatype Chunk = Data(bytes: Bytes) | Foreign | Fault

  datatype Config = Config(source: seq<Chunk>, budget: nat, declared: Option<nat>)

  /** One generator: not yet entered, suspended at a yield, returned, or ended by an exception. */
  datatype Iteration = Fresh | Running | Completed | Failed

  datatype Event = Yield(bytes: Bytes) | Stop | Denied | Raised

  /** History: which iterator delivered which bytes. */
  datatype Output = Output(reader: nat, bytes: Bytes)

  datatype State = State(
    cursor: nat, consumed: nat, started: bool, closes: nat,
    iterators: seq<Iteration>,
    // history
    owner: Option<nat>, log: seq<Output>)

  datatype Op = NewIterator | Next(i: nat) | Close

  const START := State(0, 0, false, 0, [], None, [])

  predicate Exceeds(consumed: nat, c: Config) {
    consumed > c.budget || (c.declared.Some? && consumed > c.declared.value)
  }

  function Deny(s: State, i: nat): (State, Event)
    requires i < |s.iterators|
  {
    (s.(iterators := s.iterators[i := Failed], closes := s.closes + 1), Denied)
  }

  /** Resuming the one running generator: pull a chunk, count it, check it, yield it. */
  function Pull(c: Config, s: State, i: nat): (State, Event)
    requires i < |s.iterators|
  {
    if s.cursor >= |c.source| then
      if c.declared.Some? && s.consumed != c.declared.value then Deny(s, i)
      else (s.(iterators := s.iterators[i := Completed]), Stop)
    else
      match c.source[s.cursor]
      case Fault => (s.(cursor := s.cursor + 1, iterators := s.iterators[i := Failed]), Raised)
      case Foreign => Deny(s.(cursor := s.cursor + 1), i)
      case Data(bytes) =>
        var s1 := s.(cursor := s.cursor + 1, consumed := s.consumed + |bytes|);
        if Exceeds(s1.consumed, c) then Deny(s1, i)
        else (s1.(iterators := s.iterators[i := Running], log := s.log + [Output(i, bytes)]), Yield(bytes))
  }

  /** `next(iterator)`. */
  function Resume(c: Config, s: State, i: nat): (State, Event)
    requires i < |s.iterators|
  {
    match s.iterators[i]
    case Fresh => if s.started then Deny(s, i) else Pull(c, s.(started := true, owner := Some(i)), i)
    case Running => Pull(c, s, i)
    case Completed => (s, Stop)
    case Failed => (s, Stop)
  }

  function Step(c: Config, s: State, op: Op): State {
    match op
    case NewIterator => s.(iterators := s.iterators + [Fresh])
    case Next(i) => if i < |s.iterators| then Resume(c, s, i).0 else s
    case Close => s.(closes := s.closes + 1)
  }

  function Total(log: seq<Output>): nat {
    if log == [] then 0 else Total(log[..|log| - 1]) + |log[|log| - 1].bytes|
  }

  /** Only the owner delivers, it delivers the source's chunks in order, and never beyond a bound. */
  ghost predicate Inv(c: Config, s: State) {
    && (s.started <==> s.owner.Some?)
    && (s.owner.None? ==> s.log == [] && s.cursor == 0 && s.consumed == 0)
    && (s.owner.Some? ==> s.owner.value < |s.iterators| && s.iterators[s.owner.value] != Fresh)
    && (forall i :: 0 <= i < |s.iterators| && (s.iterators[i].Running? || s.iterators[i].Completed?) ==>
          s.owner == Some(i))
    && (forall k :: 0 <= k < |s.log| ==> s.owner == Some(s.log[k].reader))
    && |s.log| <= s.cursor <= |c.source|
    && (forall k :: 0 <= k < |s.log| ==> c.source[k] == Data(s.log[k].bytes))
    && Total(s.log) <= c.budget
    && (c.declared.Some? ==> Total(s.log) <= c.declared.value)
    && (forall i :: 0 <= i < |s.iterators| && (s.iterators[i].Running? || s.iterators[i].Completed?) ==>
          s.cursor == |s.log| && s.consumed == Total(s.log))
    && (forall i :: 0 <= i < |s.iterators| && s.iterators[i].Completed? ==>
          s.cursor == |c.source| && (c.declared.Some? ==> s.consumed == c.declared.value))
  }

  lemma TotalOfOneMore(log: seq<Output>, o: Output)
    ensures Total(log + [o]) == Total(log) + |o.bytes|
  {
    assert (log + [o])[..|log|] == log;
  }

  /** The generator about to run is the owner, no other one is live, and the log is what it delivered. */
  ghost predicate Ready(c: Config, s: State, i: nat) {
    && i < |s.iterators| && s.started && s.owner == Some(i)
    && (forall j :: 0 <= j < |s.iterators| && j != i ==> s.iterators[j].Fresh? || s.iterators[j].Failed?)
    && s.cursor == |s.log| <= |c.source| && s.consumed == Total(s.log) && !Exceeds(s.consumed, c)
    && (forall k :: 0 <= k < |s.log| ==> s.log[k].reader == i && c.source[k] == Data(s.log[k].bytes))
  }

  lemma YieldKeepsInv(c: Config, s: State, i: nat, bytes: Bytes)
    requires Ready(c, s, i) && s.cursor < |c.source| && c.source[s.cursor] == Data(bytes)
    requires !Exceeds(s.consumed + |bytes|, c)
    ensures Inv(c, Pull(c, s, i).0)
  {
    var t := Pull(c, s, i).0;
    TotalOfOneMore(s.log, Output(i, bytes));
    assert t.log == s.log + [Output(i, bytes)] && t.cursor == |t.log|;
    assert t.iterators == s.iterators[i := Running];
  }

  lemma EndKeepsInv(c: Config, s: State, i: nat)
    requires Ready(c, s, i)
    requires
      || s.cursor == |c.source| || !c.source[s.cursor].Data?
      || Exceeds(s.consumed + |c.source[s.cursor].bytes|, c)
    ensures Inv(c, Pull(c, s, i).0)
  {
    var t := Pull(c, s, i).0;
    assert t.log == s.log && t.owner == s.owner;
    assert t.iterators == s.iterators[i := Failed] || t.iterators == s.iterators[i := Completed];
  }

  lemma PullKeepsInv(c: Config, s: State, i: nat)
    requires Ready(c, s, i)
    ensures Inv(c, Pull(c, s, i).0)
  {
    if s.cursor < |c.source| && c.source[s.cursor].Data? && !Exceeds(s.consumed + |c.source[s.cursor].bytes|, c) {
      YieldKeepsInv(c, s, i, c.source[s.cursor].bytes);
    } else {
      EndKeepsInv(c, s, i);
    }
  }

  lemma StepKeepsInv(c: Config, s: State, op: Op)
    requires Inv(c, s)
    ensures Inv(c, Step(c, s, op))
  {
    match op
    case NewIterator =>
    case Close =>
    case Next(i) =>
      if i < |s.iterators| {
        if s.iterators[i].Fresh? && !s.started {
          PullKeepsInv(c, s.(started := true, owner := Some(i)), i);
        } else if s.iterators[i].Running? {
          PullKeepsInv(c, s, i);
        }
      }
  }

  /** The state after any interleaving of calls on one stream object. */
  function After(c: Config, ops: seq<Op>): State {
    if ops == [] then START else Step(c, After(c, ops[..|ops| - 1]), ops[|ops| - 1])
  }

  lemma {:induction false} AfterKeepsInv(c: Config, ops: seq<Op>)
    ensures Inv(c, After(c, ops))
  {
    if ops == [] {
    } else {
      AfterKeepsInv(c, ops[..|ops| - 1]);
      StepKeepsInv(c, After(c, ops[..|ops| - 1]), ops[|ops| - 1]);
    }
  }

  // What the callers receive.

  /** What `next(iterator)` gives its caller; None for the calls that give nothing. */
  function EventOf(c: Config, s: State, op: Op): Option<Event> {
    if op.Next? && op.i < |s.iterators| then Some(Resume(c, s, op.i).1) else None
  }

  /** What the calls returned: the bytes of each yield, and who received them. */
  function Received(c: Config, ops: seq<Op>): seq<Output> {
    if ops == [] then []
    else
      var front, last := ops[..|ops| - 1], ops[|ops| - 1];
      match EventOf(c, After(c, front), last)
      case Some(Yield(bytes)) => Received(c, front) + [Output(last.i, bytes)]
      case _ => Received(c, front)
  }

  /** The bytes of all yields in order. */
  function Joined(outputs: seq<Output>): Bytes {
    if outputs == [] then [] else Joined(outputs[..|outputs| - 1]) + outputs[|outputs| - 1].bytes
  }

  /** The history is what the callers received. */
  lemma {:induction false} ReceivedIsLogged(c: Config, ops: seq<Op>)
    ensures Received(c, ops) == After(c, ops).log
  {
    if ops != [] {
      var front, last := ops[..|ops| - 1], ops[|ops| - 1];
      ReceivedIsLogged(c, front);
      YieldIsLogged(c, After(c, front), last);
    }
  }

  lemma YieldIsLogged(c: Config, s: State, op: Op)
    ensures match EventOf(c, s, op)
            case Some(Yield(bytes)) => Step(c, s, op).log == s.log + [Output(op.i, bytes)]
            case _ => Step(c, s, op).log == s.log
  {
  }

  lemma {:induction false} TotalIsLength(log: seq<Output>)
    ensures |Joined(log)| == Total(log)
  {
    if log != [] {
      TotalIsLength(log[..|log| - 1]);
    }
  }

  /**
   However iterators interleave, all chunks ever yielded go to the caller of one iterator,
   they are the source's first chunks, and together they respect both bounds.
   */
  lemma AtMostOneIteratorDelivers(c: Config, ops: seq<Op>)
    ensures var out := Received(c, ops);
            && (forall j, k :: 0 <= j < k < |out| ==> out[j].reader == out[k].reader)
            && |out| <= |c.source| && (forall k :: 0 <= k < |out| ==> c.source[k] == Data(out[k].bytes))
            && |Joined(out)| <= c.budget
            && (c.declared.Some? ==> |Joined(out)| <= c.declared.value)
  {
    AfterKeepsInv(c, ops);
    ReceivedIsLogged(c, ops);
    TotalIsLength(Received(c, ops));
  }

  /** When an iterator completes, its caller has received every chunk of the source, and exactly the declared length. */
  lemma CompletionIsExact(c: Config, ops: seq<Op>, i: nat)
    requires i < |After(c, ops).iterators| && After(c, ops).iterators[i].Completed?
    ensures var out := Received(c, ops);
            && |out| == |c.source|
            && (forall k :: 0 <= k < |out| ==> out[k].reader == i && c.source[k] == Data(out[k].bytes))
            && |Joined(out)| <= c.budget
            && (c.declared.Some? ==> |Joined(out)| == c.declared.value)
  {
    AfterKeepsInv(c, ops);
    ReceivedIsLogged(c, ops);
    TotalIsLength(Received(c, ops));
  }

  /** What the call tells its caller is how it leaves its iterator. */
  lemma EventsTellStates(c: Config, s: State, i: nat)
    requires i < |s.iterators|
    ensures var (t, e) := Resume(c, s, i);
            && |t.iterators| == |s.iterators|
            && (s.iterators[i].Fresh? || s.iterators[i].Running? ==>
                  && (e.Yield? <==> t.iterators[i].Running?)
                  && (e.Stop? <==> t.iterators[i].Completed?)
                  && (e.Denied? || e.Raised? <==> t.iterators[i].Failed?)
                  && (e.Raised? ==> t.cursor == s.cursor + 1 <= |c.source| && c.source[s.cursor].Fault?))
            && (s.iterators[i].Completed? || s.iterators[i].Failed? ==> t == s && e == Stop)
  {
  }

  // Who closes the source.

  predicate Denies(c: Config, s: State, op: Op) {
    EventOf(c, s, op) == Some(Denied)
  }

  /** How many of the calls ended in a denial. */
  function Denials(c: Config, ops: seq<Op>): nat {
    if ops == [] then 0
    else
      var front := ops[..|ops| - 1];
      Denials(c, front) + if Denies(c, After(c, front), ops[|ops| - 1]) then 1 else 0
  }

  /** How many of the calls were `close`. */
  function Closings(ops: seq<Op>): nat {
    if ops == [] then 0
    else Closings(ops[..|ops| - 1]) + if ops[|ops| - 1].Close? then 1 else 0
  }

  function FailedCount(iterators: seq<Iteration>): (n: nat)
    ensures n <= |iterators|
  {
    if iterators == [] then 0
    else FailedCount(iterators[..|iterators| - 1]) + if iterators[|iterators| - 1].Failed? then 1 else 0
  }

  lemma {:induction false} FailedAfter(iterators: seq<Iteration>, i: nat, x: Iteration)
    requires i < |iterators| && !iterators[i].Failed?
    ensures FailedCount(iterators[i := x]) == FailedCount(iterators) + if x.Failed? then 1 else 0
  {
    var n := |iterators| - 1;
    var front, changed := iterators[..n], iterators[i := x];
    if i == n {
      assert changed[..n] == front;
    } else {
      assert changed[..n] == front[i := x] && changed[n] == iterators[n];
      FailedAfter(front, i, x);
    }
  }

  lemma ResumeChangesOne(c: Config, s: State, i: nat)
    requires i < |s.iterators|
    ensures var (t, e) := Resume(c, s, i);
            && t.closes == s.closes + (if e.Denied? then 1 else 0)
            && |t.iterators| == |s.iterators| && t.iterators == s.iterators[i := t.iterators[i]]
            && (e.Denied? ==> !s.iterators[i].Failed? && t.iterators[i].Failed?)
            && (s.iterators[i].Failed? ==> t.iterators[i].Failed?)
  {
  }

  /** A call closes the source once if it denies or is `close`; a denial ends one more iterator for good. */
  lemma StepCloses(c: Config, s: State, op: Op)
    ensures var t := Step(c, s, op);
            && t.closes == s.closes + (if Denies(c, s, op) || op.Close? then 1 else 0)
            && FailedCount(t.iterators) >= FailedCount(s.iterators) + (if Denies(c, s, op) then 1 else 0)
  {
    match op
    case Close =>
    case NewIterator =>
      assert (s.iterators + [Fresh])[..|s.iterators|] == s.iterators;
    case Next(i) =>
      if i < |s.iterators| {
        var t := Resume(c, s, i).0;
        ResumeChangesOne(c, s, i);
        if s.iterators[i].Failed? {
          assert t.iterators == s.iterators;
        } else {
          FailedAfter(s.iterators, i, t.iterators[i]);
        }
      }
  }

  /**
   However iterators interleave, the source is closed once for each denial and each `close`, by
   nothing else, and no iterator denies twice.
   */
  lemma {:induction false} DenialsCloseSource(c: Config, ops: seq<Op>)
    ensures var s := After(c, ops);
            && s.closes == Denials(c, ops) + Closings(ops)
            && Denials(c, ops) <= FailedCount(s.iterators) <= |s.iterators|
  {
    if ops == [] {
    } else {
      var front := ops[..|ops| - 1];
      DenialsCloseSource(c, front);
      StepCloses(c, After(c, front), ops[|ops| - 1]);
    }
  }

  // The other direction: an honest body is delivered.

  function Size(source: seq<Chunk>): nat {
    if source == [] then 0
    else
      var last := source[|source| - 1];
      Size(source[..|source| - 1]) + if last.Data? then |last.bytes| else 0
  }

  ghost predicate Within(c: Config, n: nat)
    requires n <= |c.source|
  {
    (forall k :: 0 <= k < n ==> c.source[k].Data?) && !Exceeds(Size(c.source[..n]), c)
  }

  /** All chunks are bytes, within the budget, and exactly the declared length if there is one. */
  ghost predicate HonestBody(c: Config) {
    && (forall k :: 0 <= k < |c.source| ==> c.source[k].Data?)
    && Size(c.source) <= c.budget
    && (c.declared.Some? ==> Size(c.source) == c.declared.value)
  }

  /** One iterator, resumed `n` times. */
  function Drain(n: nat): seq<Op> {
    if n == 0 then [NewIterator] else Drain(n - 1) + [Next(0)]
  }

  lemma AfterOneMore(c: Config, ops: seq<Op>, op: Op)
    ensures After(c, ops + [op]) == Step(c, After(c, ops), op)
  {
    assert (ops + [op])[..|ops|] == ops;
  }

  lemma WithinOneMore(c: Config, n: nat)
    requires n < |c.source|
    ensures c.source[n].Data? ==> Size(c.source[..n + 1]) == Size(c.source[..n]) + |c.source[n].bytes|
    ensures Within(c, n + 1) <==>
              Within(c, n) && c.source[n].Data? && !Exceeds(Size(c.source[..n]) + |c.source[n].bytes|, c)
  {
    var longer := c.source[..n + 1];
    assert longer[..n] == c.source[..n] && longer[n] == c.source[n];
    assert |longer| == n + 1 && Size(longer) == Size(longer[..n]) + if longer[n].Data? then |longer[n].bytes| else 0;
  }

  /** The only iterator after `n` resumptions. */
  ghost predicate Follows(c: Config, n: nat, s: State)
    requires n <= |c.source|
  {
    if n == 0 then s == START.(iterators := [Fresh])
    else
      && s.started
      && if Within(c, n) then s.iterators == [Running] && s.cursor == n && s.consumed == Size(c.source[..n])
         else s.iterators == [Failed]
  }

  lemma ResumeFollows(c: Config, n: nat, s: State)
    requires n < |c.source| && Follows(c, n, s)
    ensures Follows(c, n + 1, Step(c, s, Next(0)))
  {
    WithinOneMore(c, n);
    assert n == 0 ==> c.source[..0] == [] && Size(c.source[..0]) == 0 && Within(c, 0);
  }

  /** The state of a stream whose only iterator was resumed `n` times. */
  function Drained(c: Config, n: nat): State {
    if n == 0 then START.(iterators := [Fresh]) else Step(c, Drained(c, n - 1), Next(0))
  }

  lemma NothingDrained(c: Config)
    ensures After(c, Drain(0)) == Drained(c, 0)
  {
    AfterOneMore(c, [], NewIterator);
    assert Drain(0) == [NewIterator] == [] + [NewIterator];
    assert After(c, []) == START;
    assert Step(c, START, NewIterator) == START.(iterators := [] + [Fresh]);
    assert [] + [Fresh] == [Fresh];
  }

  lemma {:induction false} DrainedIsAfter(c: Config, n: nat)
    ensures After(c, Drain(n)) == Drained(c, n)
  {
    if n == 0 {
      NothingDrained(c);
    } else {
      DrainedIsAfter(c, n - 1);
      AfterOneMore(c, Drain(n - 1), Next(0));
    }
  }

  lemma {:induction false} DrainFollows(c: Config, n: nat)
    requires n <= |c.source|
    ensures Follows(c, n, Drained(c, n))
  {
    if n == 0 {
    } else {
      DrainFollows(c, n - 1);
      ResumeFollows(c, n - 1, Drained(c, n - 1));
    }
  }

  lemma LastResume(c: Config, s: State)
    requires Follows(c, |c.source|, s)
    ensures Step(c, s, Next(0)).iterators == [Completed] <==> HonestBody(c)
  {
    assert c.source[..|c.source|] == c.source;
    assert |c.source| == 0 ==> Size(c.source) == 0;
    assert HonestBody(c) ==> Within(c, |c.source|);
    var t := Step(c, s, Next(0));
    assert t.iterators == [t.iterators[0]];
  }

  /** The calls of a lone iterator that is resumed to its end. */
  lemma HonestBodyIsDelivered(c: Config)
    ensures After(c, Drain(|c.source| + 1)).iterators == [Completed] <==> HonestBody(c)
    ensures HonestBody(c) ==>
              var out := Received(c, Drain(|c.source| + 1));
              |out| == |c.source| && forall k :: 0 <= k < |out| ==> c.source[k] == Data(out[k].bytes)
  {
    DrainedIsAfter(c, |c.source| + 1);
    DrainFollows(c, |c.source|);
    LastResume(c, Drained(c, |c.source|));
    if HonestBody(c) {
      CompletionIsExact(c, Drain(|c.source| + 1), 0);
    }
  }

  /** `_BoundedSyncRequestStream`; the asynchronous twin is the same state machine. */
  class BoundedRequestStream {
    const config: Config
    var cursor: nat
    var consumed: nat
    var started: bool
    var closes: nat
    var iterators: seq<Iteration>
    ghost var owner: Option<nat>
    ghost var log: seq<Output>

    constructor (source: seq<Chunk>, budget: nat, declared: Option<nat>)
      ensures config == Config(source, budget, declared) && View() == START
    {
      config := Config(source, budget, declared);
      cursor, consumed, started, closes, iterators := 0, 0, false, 0, [];
      owner, log := None, [];
    }

    ghost function View(): State
      reads this
    {
      State(cursor, consumed, started, closes, iterators, owner, log)
    }

    /** `iter(stream)` creates a generator without entering it. */
    method Iter() returns (i: nat)
      modifies this
      ensures View() == Step(config, old(View()), NewIterator)
      ensures i == |old(iterators)|
    {
      i := |iterators|;
      iterators := iterators + [Fresh];
    }

    method CloseAfterDenial(i: nat)
      requires i < |iterators|
      modifies this
      ensures (View(), Denied) == Deny(old(View()), i)
    {
      closes := closes + 1;
      iterators := iterators[i := Failed];
    }

    method Next(i: nat) returns (e: Event)
      requires i < |iterators|
      modifies this
      ensures (View(), e) == Resume(config, old(View()), i)
    {
      if iterators[i].Completed? || iterators[i].Failed? {
        return Stop;
      }
      if iterators[i].Fresh? {
        if started {
          CloseAfterDenial(i);
          return Denied;
        }
        started, owner := true, Some(i);
      }
      if cursor >= |config.source| {
        if config.declared.Some? && consumed != config.declared.value {
          CloseAfterDenial(i);
          return Denied;
        }
        iterators := iterators[i := Completed];
        return Stop;
      }
      var chunk := config.source[cursor];
      cursor := cursor + 1;
      if chunk.Fault? {
        iterators := iterators[i := Failed];
        return Raised;
      }
      if chunk.Foreign? {
        CloseAfterDenial(i);
        return Denied;
      }
      consumed := consumed + |chunk.bytes|;
      if consumed > config.budget || (config.declared.Some? && consumed > config.declared.value) {
        CloseAfterDenial(i);
        return Denied;
      }
      iterators := iterators[i := Running];
      log := log + [Output(i, chunk.bytes)];
      return Yield(chunk.bytes);
    }
  }

  // ------------------------------------------------------- response streams

  function Concat(chunks: seq<Bytes>): Bytes {
    if chunks == [] then [] else Concat(chunks[..|chunks| - 1]) + chunks[|chunks| - 1]
  }

  function Sum(chunks: seq<Bytes>): (n: nat)
    ensures n == |Concat(chunks)|
  {
    if chunks == [] then 0 else Sum(chunks[..|chunks| - 1]) + |chunks[|chunks| - 1]|
  }

  /** One iteration of a response yields the longest run of whole chunks within the budget. */
  method IterateResponse(chunks: seq<Bytes>, budget: nat) returns (yielded: seq<Bytes>, denied: bool)
    ensures yielded <= chunks && |Concat(yielded)| <= budget
    ensures denied <==> |Concat(chunks)| > budget
    ensures denied ==> |yielded| < |chunks| && |Concat(chunks[..|yielded| + 1])| > budget
    ensures !denied ==> yielded == chunks
  {
    var consumed := 0;
    yielded := [];
    for i := 0 to |chunks|
      invariant yielded == chunks[..i] && consumed == Sum(yielded) <= budget
    {
      assert chunks[..i + 1][..i] == chunks[..i];
      consumed := consumed + |chunks[i]|;
      assert consumed == Sum(chunks[..i + 1]);
      if consumed > budget {
        SumOfPrefix(chunks, i + 1);
        assert Sum(chunks) > budget;
        return yielded, true;
      }
      yielded := yielded + [chunks[i]];
    }
    assert chunks[..|chunks|] == chunks;
    return yielded, false;
  }

  lemma {:induction false} SumOfPrefix(chunks: seq<Bytes>, n: nat)
    requires n <= |chunks|
    ensures Sum(chunks[..n]) <= Sum(chunks)
  {
    if n == |chunks| {
      assert chunks[..n] == chunks;
    } else {
      SumOfPrefix(chunks[..|chunks| - 1], n);
      assert chunks[..|chunks| - 1][..n] == chunks[..n];
    }
  }
}
