/** How far the consumer gets by its own steps and when a flush returns, whatever is in flight. */
module LogReach {
  import opened LogArena
  import opened LogProtocol
  import opened LogInvariant
  import opened LogTheorems
  import opened LogProgress

  /** Every position before m that has not been handed back to the producers is published. */
  ghost predicate Ready(c: Config, s: State, m: nat) {
    && c.k >= 1 && Inv(c, s) && m <= s.enqueuePos
    && forall p: nat :: Head(s) <= p < m ==> SeqAt(c, s, p) == p + 1
  }

  lemma PublishedIsReady(c: Config, s: State, m: nat)
    requires c.k >= 1 && Inv(c, s) && WellFormed(c, s) && m <= s.enqueuePos
    requires forall p: nat :: Head(s) <= p < m ==> Published(c, s, p)
    ensures Ready(c, s, m)
  {
    hide Inv, SlotOf, Capacity;
    forall p: nat | Head(s) <= p < m ensures SeqAt(c, s, p) == p + 1 {
      assert Published(c, s, p);
    }
  }

  // ---------- Runs one after the other

  lemma OneStep(c: Config, s: State, a: Action)
    requires WellFormed(c, s) && Enabled(s, a)
    ensures WellFormed(c, Apply(c, s, a)) && IsRun(c, s, [a]) && After(c, s, [a]) == Apply(c, s, a)
  {
    hide Apply, WellFormed;
    ApplyWellFormed(c, s, a);
    assert [a][1..] == [];
  }

  lemma {:induction false} RunJoin(c: Config, s: State, first: seq<Action>, rest: seq<Action>)
    requires WellFormed(c, s) && IsRun(c, s, first) && IsRun(c, After(c, s, first), rest)
    ensures IsRun(c, s, first + rest) && After(c, s, first + rest) == After(c, After(c, s, first), rest)
    decreases |first|
  {
    hide Apply, WellFormed;
    if first == [] {
      assert first + rest == rest;
    } else {
      ApplyWellFormed(c, s, first[0]);
      RunJoin(c, Apply(c, s, first[0]), first[1..], rest);
      assert (first + rest)[1..] == first[1..] + rest;
    }
  }

  // ---------- What is ready stays ready

  lemma ReadyRelease(c: Config, s: State, m: nat)
    requires Ready(c, s, m) && Enabled(s, Release) && Inv(c, Apply(c, s, Release))
    ensures Ready(c, Apply(c, s, Release), m)
  {
    hide Capacity, SlotOf, ThreadsInv, ItemsInv, SinksInv, ConsumerInv;
    WindowDistinct(c, Head(s));
    var s' := Apply(c, s, Release);
    forall p: nat | Head(s') <= p < m ensures SeqAt(c, s', p) == p + 1 {
      assert Head(s) == s.dequeuePos < p < Head(s) + Capacity(c);
      assert SeqAt(c, s, p) == p + 1;
    }
  }

  lemma ReadyPublish(c: Config, s: State, t: Tid, m: nat)
    requires Ready(c, s, m) && Enabled(s, Publish(t)) && Inv(c, Apply(c, s, Publish(t)))
    ensures Ready(c, Apply(c, s, Publish(t)), m)
  {
    PublisherClaims(c, s, t);
    hide Capacity, SlotOf, ThreadsInv, ItemsInv, SinksInv, ConsumerInv;
    WindowDistinct(c, Head(s));
    var pos, s' := s.threads[t].pos, Apply(c, s, Publish(t));
    forall p: nat | Head(s') <= p < m ensures SeqAt(c, s', p) == p + 1 {
      assert SeqAt(c, s, p) == p + 1;
      assert Head(s) <= p < m <= pos < Head(s) + Capacity(c);
    }
  }

  /** All other steps leave the sequence numbers alone. */
  lemma SameSequences(c: Config, s: State, a: Action)
    requires WellFormed(c, s) && Enabled(s, a) && !a.Publish? && !a.Release?
    ensures var s' := Apply(c, s, a);
      && |s'.slots| == |s.slots| && Head(s') == Head(s) && s.enqueuePos <= s'.enqueuePos
      && forall i :: 0 <= i < |s.slots| ==> s'.slots[i].sequence == s.slots[i].sequence
  {
    if IsConsumerAction(a) {
      SameByConsumer(c, s, a);
    } else {
      SameByThread(c, s, a);
    }
  }

  lemma SameByConsumer(c: Config, s: State, a: Action)
    requires WellFormed(c, s) && Enabled(s, a) && IsConsumerAction(a) && !a.Release?
    ensures var s' := Apply(c, s, a);
      s'.slots == s.slots && Head(s') == Head(s) && s.enqueuePos == s'.enqueuePos
  {
    hide Capacity, SlotOf;
  }

  lemma SameByThread(c: Config, s: State, a: Action)
    requires WellFormed(c, s) && Enabled(s, a) && !IsConsumerAction(a) && !a.Publish?
    ensures var s' := Apply(c, s, a);
      && |s'.slots| == |s.slots| && Head(s') == Head(s) && s.enqueuePos <= s'.enqueuePos
      && forall i :: 0 <= i < |s.slots| ==> s'.slots[i].sequence == s.slots[i].sequence
  {
    hide Capacity, SlotOf, CopyArg;
  }

  lemma ReadyFrame(c: Config, s: State, s': State, m: nat)
    requires Ready(c, s, m) && Inv(c, s') && |s'.slots| == |s.slots| && Head(s') == Head(s)
    requires s.enqueuePos <= s'.enqueuePos
    requires forall i :: 0 <= i < |s.slots| ==> s'.slots[i].sequence == s.slots[i].sequence
    ensures Ready(c, s', m)
  {
    hide Inv, SlotOf, Capacity;
    InvSizes(c, s);
    forall p: nat | Head(s') <= p < m ensures SeqAt(c, s', p) == p + 1 {
      assert SeqAt(c, s, p) == p + 1;
    }
  }

  /** No step of anyone makes a ready position unready. */
  lemma ReadyStep(c: Config, s: State, a: Action, m: nat)
    requires Ready(c, s, m) && WellFormed(c, s) && Enabled(s, a)
    ensures Ready(c, Apply(c, s, a), m)
  {
    hide Inv, Apply, SlotOf, Capacity;
    InvSizes(c, s);
    StepKeeps(c, s, a);
    if a.Release? {
      ReadyRelease(c, s, m);
    } else if a.Publish? {
      ReadyPublish(c, s, a.t, m);
    } else {
      SameSequences(c, s, a);
      ReadyFrame(c, s, Apply(c, s, a), m);
    }
  }

  // ---------- Catching up

  /** A bound on the steps the consumer needs until it has taken every position before m. */
  function MeetCost(c: Config, s: State, m: nat): int
    requires m <= |s.claims|
  {
    var dq, claims := s.dequeuePos, s.claims[..m];
    if m <= dq then 0 else
    match s.consumer
    case Peeking => RingCost(c, claims, dq)
    case Rendering(acc) => |claims[dq].args| - |acc| + c.sinkCount + 4 + RingCost(c, claims, dq + 1)
    case Writing(next, _) => c.sinkCount - next + 3 + RingCost(c, claims, dq + 1)
    case Releasing => 2 + RingCost(c, claims, dq + 1)
    case Advancing => 1 + RingCost(c, claims, dq + 1)
    case FoundEmpty => c.sinkCount + 4 + RingCost(c, claims, dq)
    case SawStop => c.sinkCount + 3 + RingCost(c, claims, dq)
    case SawQuiet => c.sinkCount + 2 + RingCost(c, claims, dq)
    case Flushing(next, _) => c.sinkCount - next + 1 + RingCost(c, claims, dq)
    case Stopped => 0
  }

  lemma PeekMeets(c: Config, s: State, m: nat)
    requires Ready(c, s, m) && s.consumer.Peeking? && s.dequeuePos < m
    ensures Apply(c, s, Peek) == s.(consumer := Rendering([]))
    ensures MeetCost(c, Apply(c, s, Peek), m) < MeetCost(c, s, m)
  {
    assert SeqAt(c, s, s.dequeuePos) == s.dequeuePos + 1;
    hide ThreadsInv, ItemsInv, SinksInv, ConsumerInv, Capacity, SlotOf;
  }

  lemma RenderMeets(c: Config, s: State, m: nat)
    requires Ready(c, s, m) && s.consumer.Rendering? && s.dequeuePos < m
    ensures var s' := Apply(c, s, Render);
      && s'.claims == s.claims && !Exiting(s'.consumer) && s'.dequeuePos == s.dequeuePos
      && MeetCost(c, s', m) < MeetCost(c, s, m)
  {
    hide ThreadsInv, SinksInv, RingCost, Capacity, SlotOf, Faithful;
    assert ItemReady(c, s, s.dequeuePos);
  }

  lemma OtherMeets(c: Config, s: State, a: Action, m: nat)
    requires Ready(c, s, m) && !Exiting(s.consumer) && a == NextAction(s.consumer) && s.dequeuePos < m
    requires !a.Peek? && !a.Render?
    ensures Enabled(s, a)
    ensures var s' := Apply(c, s, a);
      && s'.claims == s.claims && !Exiting(s'.consumer) && s'.dequeuePos <= m
      && MeetCost(c, s', m) < MeetCost(c, s, m)
  {
    hide ThreadsInv, ItemsInv, SinksInv, ConsumerInv, RingCost, Capacity, SlotOf;
  }

  lemma MeetStep(c: Config, s: State, m: nat)
    requires Ready(c, s, m) && WellFormed(c, s) && !Exiting(s.consumer) && s.dequeuePos < m
    ensures var a := NextAction(s.consumer);
      && Enabled(s, a) && IsConsumerAction(a)
      && var s' := Apply(c, s, a);
      && Ready(c, s', m) && WellFormed(c, s') && !Exiting(s'.consumer)
      && s'.claims == s.claims && s'.threads == s.threads
      && s'.dequeuePos <= m && |s'.claims| >= m && MeetCost(c, s', m) < MeetCost(c, s, m)
  {
    hide MeetCost, Apply, Inv;
    var a := NextAction(s.consumer);
    if a.Peek? {
      PeekMeets(c, s, m);
    } else if a.Render? {
      RenderMeets(c, s, m);
    } else {
      OtherMeets(c, s, a, m);
    }
    hide WellFormed;
    ReadyStep(c, s, a, m);
    ApplyWellFormed(c, s, a);
    ConsumerFrame(c, s, a);
  }

  lemma MeetIsNatural(c: Config, s: State, m: nat)
    requires Inv(c, s) && m <= |s.claims|
    ensures MeetCost(c, s, m) >= 0
  {
    hide ThreadsInv, ItemsInv, SinksInv, RingCost, Capacity, SlotOf;
  }

  /** Every step of the run is one of the consumer. */
  ghost predicate ByConsumer(run: seq<Action>) {
    forall i :: 0 <= i < |run| ==> IsConsumerAction(run[i])
  }

  /** A running consumer takes every position before m by its own steps as soon as all of them are published, whatever
      else is in flight. */
  lemma {:induction false} CatchesUp(c: Config, s: State, m: nat) returns (run: seq<Action>)
    requires Ready(c, s, m) && !Exiting(s.consumer) && s.dequeuePos <= m
    ensures WellFormed(c, s) && m <= |s.claims| && IsRun(c, s, run) && ByConsumer(run) && |run| <= MeetCost(c, s, m)
    ensures var e := After(c, s, run);
      Ready(c, e, m) && e.claims == s.claims && e.threads == s.threads && e.dequeuePos == m
    decreases if m <= |s.claims| then MeetCost(c, s, m) else 0
  {
    hide MeetCost, Apply, Inv, WellFormed, IsConsumerAction;
    InvSizes(c, s);
    MeetIsNatural(c, s, m);
    if s.dequeuePos == m {
      run := [];
    } else {
      MeetStep(c, s, m);
      var s' := Apply(c, s, NextAction(s.consumer));
      MeetIsNatural(c, s', m);
      var rest := CatchesUp(c, s', m);
      run := [NextAction(s.consumer)] + rest;
      assert run[1..] == rest;
    }
  }

  // ---------- Nothing passes an unpublished position

  ghost predicate Publishes(s: State, a: Action, q: nat) {
    a.Publish? && a.t in s.threads && s.threads[a.t].Publishing? && s.threads[a.t].pos == q
  }

  lemma ClaimedByPublish(c: Config, s: State, t: Tid, q: nat)
    requires Inv(c, s) && Claimed(c, s, q) && Enabled(s, Publish(t)) && s.threads[t].pos != q
    requires WellFormed(c, Apply(c, s, Publish(t)))
    ensures Claimed(c, Apply(c, s, Publish(t)), q)
  {
    PublisherClaims(c, s, t);
    hide Capacity, SlotOf, ThreadsInv, ItemsInv, SinksInv, ConsumerInv;
    WindowDistinct(c, Head(s));
    var pos := s.threads[t].pos;
    if q < pos {
      assert Head(s) <= q < pos < Head(s) + Capacity(c);
    } else {
      assert Head(s) <= pos < q < Head(s) + Capacity(c);
    }
  }

  lemma ClaimedByRelease(c: Config, s: State, q: nat)
    requires Inv(c, s) && Claimed(c, s, q) && Enabled(s, Release) && WellFormed(c, Apply(c, s, Release))
    ensures Claimed(c, Apply(c, s, Release), q)
  {
    hide Capacity, SlotOf, ThreadsInv, ItemsInv, SinksInv;
    WindowDistinct(c, Head(s));
    assert Published(c, s, s.dequeuePos);
    assert Head(s) == s.dequeuePos < q < Head(s) + Capacity(c);
  }

  /** Only its own publication ends a claim. */
  lemma ClaimedStays(c: Config, s: State, a: Action, q: nat)
    requires Inv(c, s) && WellFormed(c, s) && Claimed(c, s, q) && Enabled(s, a) && !Publishes(s, a, q)
    ensures WellFormed(c, Apply(c, s, a)) && Claimed(c, Apply(c, s, a), q)
  {
    hide Inv, Apply, SlotOf, Capacity;
    ApplyWellFormed(c, s, a);
    if a.Release? {
      ClaimedByRelease(c, s, q);
    } else if a.Publish? {
      ClaimedByPublish(c, s, a.t, q);
    } else {
      SameSequences(c, s, a);
      var s' := Apply(c, s, a);
      assert SeqAt(c, s', q) == SeqAt(c, s, q);
    }
  }

  /** Some step of the run publishes position q. */
  ghost predicate PublishedIn(c: Config, s: State, run: seq<Action>, q: nat)
    requires WellFormed(c, s) && IsRun(c, s, run)
    decreases |run|
  {
    run != [] &&
    (Publishes(s, run[0], q) || (ApplyWellFormed(c, s, run[0]); PublishedIn(c, Apply(c, s, run[0]), run[1..], q)))
  }

  /** On every run, of any threads, the consumer takes a claimed position only if the run publishes it. */
  lemma {:induction false} NeverOvertakes(c: Config, s: State, run: seq<Action>, q: nat)
    requires c.k >= 1 && Inv(c, s) && WellFormed(c, s) && Claimed(c, s, q)
    requires IsRun(c, s, run) && !PublishedIn(c, s, run, q)
    ensures Claimed(c, After(c, s, run), q) && After(c, s, run).dequeuePos <= q
    decreases |run|
  {
    hide Inv, Apply, WellFormed, SeqAt, Publishes;
    if run == [] {
    } else {
      ApplyWellFormed(c, s, run[0]);
      ClaimedStays(c, s, run[0], q);
      StepKeeps(c, s, run[0]);
      NeverOvertakes(c, Apply(c, s, run[0]), run[1..], q);
    }
  }

  /** A consumer on its way out takes nothing more. */
  lemma ExitingStays(c: Config, s: State, a: Action)
    requires WellFormed(c, s) && Enabled(s, a) && IsConsumerAction(a) && Exiting(s.consumer)
    ensures Exiting(Apply(c, s, a).consumer) && Apply(c, s, a).dequeuePos == s.dequeuePos
  {
    hide Capacity, SlotOf;
  }

  lemma {:induction false} ExitingAlone(c: Config, s: State, run: seq<Action>)
    requires WellFormed(c, s) && IsRun(c, s, run) && ByConsumer(run) && Exiting(s.consumer)
    ensures After(c, s, run).dequeuePos == s.dequeuePos
    decreases |run|
  {
    hide Apply, WellFormed, IsConsumerAction;
    if run == [] {
    } else {
      ApplyWellFormed(c, s, run[0]);
      ExitingStays(c, s, run[0]);
      ExitingAlone(c, Apply(c, s, run[0]), run[1..]);
    }
  }

  lemma {:induction false} ConsumerPublishesNothing(c: Config, s: State, run: seq<Action>, q: nat)
    requires WellFormed(c, s) && IsRun(c, s, run) && ByConsumer(run)
    ensures !PublishedIn(c, s, run, q)
    decreases |run|
  {
    hide Apply, WellFormed;
    if run == [] {
    } else {
      ApplyWellFormed(c, s, run[0]);
      assert !Publishes(s, run[0], q);
      ConsumerPublishesNothing(c, Apply(c, s, run[0]), run[1..], q);
    }
  }

  /** The consumer alone, along this run, comes to have taken exactly the positions before m. */
  ghost predicate Takes(c: Config, s: State, run: seq<Action>, m: nat)
    requires WellFormed(c, s)
  {
    IsRun(c, s, run) && ByConsumer(run) && After(c, s, run).dequeuePos == m
  }

  /** What the consumer can do alone, exactly: it takes everything before m if and only if it has, or it has not passed
      its exit test and every position before m is published. */
  lemma TakesExactly(c: Config, s: State, m: nat)
    requires c.k >= 1 && Inv(c, s) && WellFormed(c, s) && s.dequeuePos <= m <= s.enqueuePos
    ensures (exists run :: Takes(c, s, run, m)) <==>
            m == s.dequeuePos || (!Exiting(s.consumer) && forall p: nat :: Head(s) <= p < m ==> Published(c, s, p))
  {
    hide Inv, WellFormed, Capacity, SlotOf;
    InvSizes(c, s);
    if m == s.dequeuePos {
      assert Takes(c, s, [], m);
    } else if Exiting(s.consumer) {
      forall run ensures !Takes(c, s, run, m) {
        if IsRun(c, s, run) && ByConsumer(run) { ExitingAlone(c, s, run); }
      }
    } else if forall p: nat :: Head(s) <= p < m ==> Published(c, s, p) {
      PublishedIsReady(c, s, m);
      var run := CatchesUp(c, s, m);
      assert Takes(c, s, run, m);
    } else {
      var q: nat :| Head(s) <= q < m && !Published(c, s, q);
      ClaimedOrPublished(c, s, q);
      forall run ensures !Takes(c, s, run, m) {
        if IsRun(c, s, run) && ByConsumer(run) {
          ConsumerPublishesNothing(c, s, run, q);
          NeverOvertakes(c, s, run, q);
        }
      }
    }
  }

  lemma ClaimedOrPublished(c: Config, s: State, q: nat)
    requires Inv(c, s) && WellFormed(c, s) && Head(s) <= q < s.enqueuePos
    ensures Claimed(c, s, q) || Published(c, s, q)
  {
    hide ThreadsInv, ItemsInv, SinksInv, ConsumerInv, Capacity, SlotOf;
    assert s.slots[SlotOf(c, q)].sequence == q || s.slots[SlotOf(c, q)].sequence == q + 1;
  }

  // ---------- Flush

  /** A call of flush comes to its wait, with the enqueue position as its target, whatever the other threads are doing
      and whether or not the stop flag is set. */
  lemma FlushBegins(c: Config, s: State, t: Tid)
    requires WellFormed(c, s) && t in s.threads && s.threads[t].Idle?
    ensures IsRun(c, s, [CallFlush(t), LoadTarget(t)])
    ensures After(c, s, [CallFlush(t), LoadTarget(t)]) ==
            s.(threads := s.threads[t := FlushWaiting(s.returned, s.enqueuePos)])
  {
    OneStep(c, s, CallFlush(t));
    var s1 := Apply(c, s, CallFlush(t));
    OneStep(c, s1, LoadTarget(t));
    RunJoin(c, s, [CallFlush(t)], [LoadTarget(t)]);
    assert [CallFlush(t)] + [LoadTarget(t)] == [CallFlush(t), LoadTarget(t)];
    hide Capacity, SlotOf, WellFormed, After, IsRun;
    assert Apply(c, s1, LoadTarget(t)).threads == s.threads[t := FlushWaiting(s.returned, s.enqueuePos)];
  }

  /** The wait in flush ends exactly when everything up to its target has been taken. */
  lemma WaitEndsExactly(c: Config, s: State, t: Tid)
    requires WellFormed(c, s) && Enabled(s, CheckDrained(t))
    ensures var pc, s' := s.threads[t], Apply(c, s, CheckDrained(t));
      if s.dequeuePos >= pc.target then s' == s.(threads := s.threads[t := FlushingSinks(pc.before, pc.target, 0)])
      else s' == s
  {
    hide Capacity, SlotOf;
  }

  /** The steps flush takes from its wait on. */
  ghost predicate FlushAction(t: Tid, a: Action) {
    a == CheckDrained(t) || a == FlushOne(t) || a == ReturnFlush(t)
  }

  /** Flushing the sinks that are left takes one step each and one to return. */
  lemma {:induction false} FlushRest(c: Config, s: State, t: Tid) returns (run: seq<Action>)
    requires WellFormed(c, s) && t in s.threads && s.threads[t].FlushingSinks?
    ensures IsRun(c, s, run) && |run| == c.sinkCount - s.threads[t].next
    ensures forall i :: 0 <= i < |run| ==> run[i] == FlushOne(t)
    ensures var e, pc := After(c, s, run), s.threads[t];
      t in e.threads && e.threads[t] == FlushingSinks(pc.before, pc.target, c.sinkCount)
    decreases c.sinkCount - s.threads[t].next
  {
    hide Capacity, SlotOf;
    var pc := s.threads[t];
    if pc.next == c.sinkCount {
      run := [];
    } else {
      ApplyWellFormed(c, s, FlushOne(t));
      var rest := FlushRest(c, Apply(c, s, FlushOne(t)), t);
      run := [FlushOne(t)] + rest;
      assert run[1..] == rest;
    }
  }

  /** Everything up to the target is taken: flush comes to its return by its own steps. */
  lemma FlushFinishes(c: Config, s: State, t: Tid) returns (run: seq<Action>)
    requires WellFormed(c, s) && t in s.threads && s.threads[t].FlushWaiting?
    requires s.dequeuePos >= s.threads[t].target
    ensures IsRun(c, s, run) && |run| == c.sinkCount + 1
    ensures forall i :: 0 <= i < |run| ==> FlushAction(t, run[i])
    ensures var e, pc := After(c, s, run), s.threads[t];
      Enabled(e, ReturnFlush(t)) && e.threads[t] == FlushingSinks(pc.before, pc.target, c.sinkCount)
  {
    hide Capacity, SlotOf, Apply;
    WaitEndsExactly(c, s, t);
    ApplyWellFormed(c, s, CheckDrained(t));
    var rest := FlushRest(c, Apply(c, s, CheckDrained(t)), t);
    run := [CheckDrained(t)] + rest;
    assert run[1..] == rest;
    assert |After(c, s, run).sinks| == c.sinkCount;
  }

  lemma ReturnIsBack(c: Config, s: State, t: Tid)
    requires WellFormed(c, s) && Enabled(s, ReturnFlush(t))
    ensures Apply(c, s, ReturnFlush(t)) == s.(threads := s.threads[t := Idle])
  {
    hide Capacity, SlotOf;
  }

  /** The run is made of steps of the consumer and of thread t's flush. */
  ghost predicate ByFlush(t: Tid, run: seq<Action>) {
    forall i :: 0 <= i < |run| ==> IsConsumerAction(run[i]) || FlushAction(t, run[i])
  }

  lemma TargetIsClaimed(c: Config, s: State, t: Tid)
    requires Inv(c, s) && t in s.threads && s.threads[t].FlushWaiting?
    ensures s.threads[t].target <= s.enqueuePos == |s.claims|
    ensures forall p :: p in s.threads[t].before ==> p < s.threads[t].target
  {
    assert PcInv(c, s, s.threads[t]);
    hide RingInv, ItemsInv, SinksInv, ConsumerInv, Capacity, SlotOf;
  }

  lemma FlushedAtReturn(c: Config, s: State, t: Tid, j: nat)
    requires Inv(c, s) && Enabled(s, ReturnFlush(t)) && j < |s.sinks|
    ensures s.threads[t].target <= s.sinks[j].flushed
  {
    assert PcInv(c, s, s.threads[t]);
    hide RingInv, ItemsInv, SinksInv, ConsumerInv, Capacity, SlotOf;
  }

  /** After the consumer has taken what it waits for, flush returns, with every sink flushed up to its target. */
  lemma FlushEnds(c: Config, s: State, t: Tid) returns (run: seq<Action>)
    requires c.k >= 1 && Inv(c, s) && WellFormed(c, s) && t in s.threads && s.threads[t].FlushWaiting?
    requires s.dequeuePos >= s.threads[t].target
    ensures IsRun(c, s, run) && |run| == c.sinkCount + 2 && forall i :: 0 <= i < |run| ==> FlushAction(t, run[i])
    ensures var e := After(c, s, run);
      && t in e.threads && e.threads[t].Idle?
      && forall j :: 0 <= j < |e.sinks| ==> s.threads[t].target <= e.sinks[j].flushed
  {
    hide Inv, Apply, WellFormed, IsRun, After, Enabled;
    var most := FlushFinishes(c, s, t);
    var m := After(c, s, most);
    RunKeeps(c, s, most);
    OneStep(c, m, ReturnFlush(t));
    ReturnIsBack(c, m, t);
    RunJoin(c, s, most, [ReturnFlush(t)]);
    run := most + [ReturnFlush(t)];
    var e := After(c, s, run);
    forall j | 0 <= j < |e.sinks| ensures s.threads[t].target <= e.sinks[j].flushed {
      FlushedAtReturn(c, m, t, j);
    }
  }

  /** A waiting flush whose target is published returns, by the consumer's steps and its own, whatever else is in
      flight: within the stated number of steps every sink is flushed up to the target. */
  lemma FlushReturns(c: Config, s: State, t: Tid) returns (run: seq<Action>)
    requires t in s.threads && s.threads[t].FlushWaiting? && Ready(c, s, s.threads[t].target)
    requires s.threads[t].target <= s.dequeuePos || !Exiting(s.consumer)
    ensures WellFormed(c, s) && IsRun(c, s, run) && ByFlush(t, run) && s.threads[t].target <= |s.claims|
    ensures |run| <= MeetCost(c, s, s.threads[t].target) + c.sinkCount + 2
    ensures var e, pc := After(c, s, run), s.threads[t];
      && t in e.threads && e.threads[t].Idle?
      && (forall j :: 0 <= j < |e.sinks| ==> pc.target <= e.sinks[j].flushed)
      && (forall p, j :: p in pc.before && 0 <= j < |e.sinks| ==> p < e.sinks[j].flushed)
  {
    hide Inv, Apply, WellFormed, IsRun, After, IsConsumerAction, FlushAction;
    InvSizes(c, s);
    TargetIsClaimed(c, s, t);
    var target := s.threads[t].target;
    if target <= s.dequeuePos {
      MeetIsNatural(c, s, target);
      hide MeetCost;
      run := FlushEnds(c, s, t);
    } else {
      hide MeetCost;
      var first := CatchesUp(c, s, target);
      var own := FlushEnds(c, After(c, s, first), t);
      RunJoin(c, s, first, own);
      run := first + own;
    }
  }

  /** A flush called while the consumer is running and everything claimed is published returns, from its call on. */
  lemma FlushCallReturns(c: Config, s: State, t: Tid) returns (run: seq<Action>)
    requires Ready(c, s, s.enqueuePos) && !Exiting(s.consumer) && t in s.threads && s.threads[t].Idle?
    ensures WellFormed(c, s) && IsRun(c, s, [CallFlush(t), LoadTarget(t)] + run) && ByFlush(t, run)
    ensures s.enqueuePos == |s.claims| && |run| <= MeetCost(c, s, s.enqueuePos) + c.sinkCount + 2
    ensures var e := After(c, s, [CallFlush(t), LoadTarget(t)] + run);
      && t in e.threads && e.threads[t].Idle?
      && forall j :: 0 <= j < |e.sinks| ==> s.enqueuePos <= e.sinks[j].flushed
  {
    hide Inv, Apply, IsRun, After, IsConsumerAction, FlushAction, SlotOf, Capacity;
    InvSizes(c, s);
    FlushBegins(c, s, t);
    var begin := [CallFlush(t), LoadTarget(t)];
    var m := After(c, s, begin);
    RunKeeps(c, s, begin);
    ReadyFrame(c, s, m, s.enqueuePos);
    run := FlushReturns(c, m, t);
    RunJoin(c, s, begin, run);
  }

  // ---------- When a flush returns, exactly

  /** Flush waits for a position that is claimed and not published, or for a consumer that has passed its exit test. */
  ghost predicate Stuck(c: Config, s: State, t: Tid, q: nat)
    requires WellFormed(c, s)
  {
    && t in s.threads && s.threads[t].FlushWaiting? && s.dequeuePos < s.threads[t].target
    && (Exiting(s.consumer) || (q < s.threads[t].target && Claimed(c, s, q)))
  }

  /** The other steps of a flush and of the consumer do not touch its wait. */
  lemma WaitKept(c: Config, s: State, t: Tid, a: Action)
    requires WellFormed(c, s) && t in s.threads && s.threads[t].FlushWaiting? && s.dequeuePos < s.threads[t].target
    requires Enabled(s, a) && (IsConsumerAction(a) || FlushAction(t, a))
    ensures var s' := Apply(c, s, a);
      s'.threads == s.threads && (FlushAction(t, a) ==> s' == s)
  {
    if IsConsumerAction(a) {
      ConsumerFrame(c, s, a);
      hide Apply, WellFormed;
    } else {
      hide Apply, WellFormed;
      WaitEndsExactly(c, s, t);
    }
  }

  lemma StuckStep(c: Config, s: State, t: Tid, q: nat, a: Action)
    requires Inv(c, s) && WellFormed(c, s) && Stuck(c, s, t, q) && Enabled(s, a)
    requires IsConsumerAction(a) || FlushAction(t, a)
    ensures WellFormed(c, Apply(c, s, a)) && Stuck(c, Apply(c, s, a), t, q)
  {
    hide Inv, Apply, WellFormed, SeqAt;
    ApplyWellFormed(c, s, a);
    WaitKept(c, s, t, a);
    if IsConsumerAction(a) {
      if Exiting(s.consumer) {
        ExitingStays(c, s, a);
      } else {
        ClaimedStays(c, s, a, q);
      }
    }
  }

  lemma {:induction false} StuckRun(c: Config, s: State, t: Tid, q: nat, run: seq<Action>)
    requires c.k >= 1 && Inv(c, s) && WellFormed(c, s) && Stuck(c, s, t, q) && IsRun(c, s, run) && ByFlush(t, run)
    ensures Stuck(c, After(c, s, run), t, q)
    decreases |run|
  {
    hide Inv, Apply, WellFormed, Stuck, IsConsumerAction, FlushAction;
    if run == [] {
    } else {
      ApplyWellFormed(c, s, run[0]);
      StuckStep(c, s, t, q, run[0]);
      StepKeeps(c, s, run[0]);
      StuckRun(c, Apply(c, s, run[0]), t, q, run[1..]);
    }
  }

  /** The flush of thread t returns along this run of its own steps and the consumer's. */
  ghost predicate Returns(c: Config, s: State, t: Tid, run: seq<Action>)
    requires WellFormed(c, s)
  {
    IsRun(c, s, run) && ByFlush(t, run) && t in After(c, s, run).threads && After(c, s, run).threads[t].Idle?
  }

  /** A waiting flush can return by its own steps and the consumer's if and only if its target has been taken, or the
      consumer has not passed its exit test and every position before the target is published. */
  lemma FlushReturnsExactly(c: Config, s: State, t: Tid)
    requires c.k >= 1 && Inv(c, s) && WellFormed(c, s) && t in s.threads && s.threads[t].FlushWaiting?
    ensures var target := s.threads[t].target;
      (exists run :: Returns(c, s, t, run)) <==>
      target <= s.dequeuePos ||
      (!Exiting(s.consumer) && forall p: nat :: Head(s) <= p < target ==> Published(c, s, p))
  {
    hide Inv, WellFormed, Capacity, SlotOf, MeetCost, IsRun, After;
    TargetIsClaimed(c, s, t);
    var target := s.threads[t].target;
    if target <= s.dequeuePos {
      var run := FlushEnds(c, s, t);
      assert Returns(c, s, t, run);
    } else if Exiting(s.consumer) {
      forall run ensures !Returns(c, s, t, run) {
        if IsRun(c, s, run) && ByFlush(t, run) { StuckRun(c, s, t, 0, run); }
      }
    } else if forall p: nat :: Head(s) <= p < target ==> Published(c, s, p) {
      PublishedIsReady(c, s, target);
      var run := FlushReturns(c, s, t);
      assert Returns(c, s, t, run);
    } else {
      var q: nat :| Head(s) <= q < target && !Published(c, s, q);
      ClaimedOrPublished(c, s, q);
      forall run ensures !Returns(c, s, t, run) {
        if IsRun(c, s, run) && ByFlush(t, run) { StuckRun(c, s, t, q, run); }
      }
    }
  }

  // ---------- Until the exit test, a flush can always return

  /** A step that finishes an enqueue already under way. */
  ghost predicate Finishing(a: Action) {
    a.Copy? || a.Store? || a.Publish?
  }

  ghost predicate ByFinishers(run: seq<Action>) {
    forall i :: 0 <= i < |run| ==> Finishing(run[i])
  }

  /** What the steps of producers finishing their enqueues leave alone. */
  ghost predicate OthersKept(s: State, e: State) {
    && e.consumer == s.consumer && e.dequeuePos == s.dequeuePos && e.enqueuePos == s.enqueuePos
    && forall v :: v in s.threads && !Owner(s.threads[v]) ==> v in e.threads && e.threads[v] == s.threads[v]
  }

  lemma FinishingStep(c: Config, s: State, a: Action)
    requires WellFormed(c, s) && Enabled(s, a) && Finishing(a)
    ensures var s' := Apply(c, s, a);
      && OthersKept(s, s') && a.t in s'.threads
      && (!a.Publish? ==> Owner(s'.threads[a.t]) && s'.threads[a.t].pos == s.threads[a.t].pos)
      && (a.Publish? ==> |s'.slots| == Capacity(c) && SeqAt(c, s', s.threads[a.t].pos) == s.threads[a.t].pos + 1)
  {
    hide Capacity, SlotOf, CopyArg;
  }

  /** The steps a producer still needs to publish. */
  ghost function StepsLeft(pc: Pc): nat
    requires Owner(pc)
  {
    if pc.Publishing? then 1 else if |pc.done| <= |pc.rec.args| then |pc.rec.args| - |pc.done| + 2 else 0
  }

  function NextFinishing(t: Tid, pc: Pc): Action
    requires Owner(pc)
  {
    if pc.Publishing? then Publish(t) else if |pc.done| < |pc.rec.args| then Copy(t) else Store(t)
  }

  lemma FinishingEnabled(c: Config, s: State, t: Tid)
    requires WellFormed(c, s) && t in s.threads && Owner(s.threads[t])
    ensures var a := NextFinishing(t, s.threads[t]);
      && Enabled(s, a) && Finishing(a) && a.t == t
      && (a.Publish? <==> s.threads[t].Publishing?)
      && var s' := Apply(c, s, a);
      && (!a.Publish? ==> t in s'.threads && Owner(s'.threads[t]) && StepsLeft(s'.threads[t]) < StepsLeft(s.threads[t]))
  {
    hide Capacity, SlotOf, CopyArg;
  }

  lemma KeptTransitive(s: State, m: State, e: State)
    requires OthersKept(s, m) && OthersKept(m, e)
    ensures OthersKept(s, e)
  {
  }

  /** A producer that has claimed a position publishes it by its own steps. */
  lemma {:induction false} OwnerPublishes(c: Config, s: State, t: Tid, m: nat) returns (run: seq<Action>)
    requires Ready(c, s, m) && WellFormed(c, s) && OwnedInv(c, s) && t in s.threads && Owner(s.threads[t])
    ensures IsRun(c, s, run) && ByFinishers(run)
    ensures var e, pos := After(c, s, run), s.threads[t].pos;
      && Ready(c, e, m) && OwnedInv(c, e) && OthersKept(s, e)
      && |e.slots| == Capacity(c) && SeqAt(c, e, pos) == pos + 1
    decreases StepsLeft(s.threads[t])
  {
    hide Apply, Inv, WellFormed, OwnedInv, Capacity, SlotOf, IsRun, After, OthersKept, Enabled;
    var a := NextFinishing(t, s.threads[t]);
    FinishingEnabled(c, s, t);
    FinishingStep(c, s, a);
    OneStep(c, s, a);
    ReadyStep(c, s, a, m);
    OwnedStep(c, s, a);
    var s' := Apply(c, s, a);
    if a.Publish? {
      run := [a];
    } else {
      var rest := OwnerPublishes(c, s', t, m);
      RunJoin(c, s, [a], rest);
      KeptTransitive(s, s', After(c, s', rest));
      run := [a] + rest;
    }
  }

  /** The producers under way make every position before m published. */
  lemma {:induction false} FinishersPublish(c: Config, s: State, m: nat) returns (run: seq<Action>)
    requires c.k >= 1 && Inv(c, s) && WellFormed(c, s) && OwnedInv(c, s) && m <= s.enqueuePos
    ensures IsRun(c, s, run) && ByFinishers(run)
    ensures var e := After(c, s, run);
      Ready(c, e, m) && OwnedInv(c, e) && OthersKept(s, e)
    decreases m
  {
    hide Inv, OwnedInv, SlotOf, Capacity, Apply;
    if m <= Head(s) {
      run := [];
    } else {
      var first := FinishersPublish(c, s, m - 1);
      var s1 := After(c, s, first);
      ClaimedOrPublished(c, s1, m - 1);
      if Published(c, s1, m - 1) {
        run := first;
        OneMoreReady(c, s1, m);
      } else {
        var t := OwnerOf(c, s1, m - 1);
        var rest := OwnerPublishes(c, s1, t, m - 1);
        var e := After(c, s1, rest);
        RunJoin(c, s, first, rest);
        KeptTransitive(s, s1, e);
        OneMoreReady(c, e, m);
        run := first + rest;
      }
    }
  }

  lemma OneMoreReady(c: Config, s: State, m: nat)
    requires m >= 1 && Ready(c, s, m - 1) && m <= s.enqueuePos
    requires |s.slots| == Capacity(c) && SeqAt(c, s, m - 1) == m
    ensures Ready(c, s, m)
  {
    hide Inv, SlotOf, Capacity;
  }

  lemma OwnerOf(c: Config, s: State, q: nat) returns (t: Tid)
    requires WellFormed(c, s) && OwnedInv(c, s) && Claimed(c, s, q)
    ensures t in s.threads && Owner(s.threads[t]) && s.threads[t].pos == q
  {
    assert OwnedAt(s, q);
    t :| t in s.threads && Owner(s.threads[t]) && s.threads[t].pos == q;
  }

  /** On every run, as long as the consumer has not passed its exit test, a waiting flush can still return: it is enough
      that the producers under way, the consumer and the flush itself go on; no new call is needed. */
  lemma FlushNeverDeadlocks(c: Config, tids: set<Tid>, run: seq<Action>, t: Tid)
    returns (producers: seq<Action>, rest: seq<Action>)
    requires c.k >= 1 && WellFormed(c, Initial(c, tids)) && IsRun(c, Initial(c, tids), run)
    requires var s := After(c, Initial(c, tids), run);
      t in s.threads && s.threads[t].FlushWaiting? && !Exiting(s.consumer)
    ensures var s := After(c, Initial(c, tids), run);
      && IsRun(c, s, producers) && ByFinishers(producers)
      && var m := After(c, s, producers);
      && IsRun(c, m, rest) && ByFlush(t, rest)
      && var e := After(c, m, rest);
      && t in e.threads && e.threads[t].Idle?
      && forall p, j :: p in s.threads[t].before && 0 <= j < |e.sinks| ==> p < e.sinks[j].flushed
  {
    hide Inv, OwnedInv, WellFormed, IsRun, After, Ready, Owner, MeetCost, ByFlush, ByFinishers, Exiting;
    var i := Initial(c, tids);
    InitialInv(c, tids);
    InitialOwned(c, tids);
    RunKeeps(c, i, run);
    OwnedRun(c, i, run);
    var s := After(c, i, run);
    TargetIsClaimed(c, s, t);
    producers := FinishersPublish(c, s, s.threads[t].target);
    NotOwner(s.threads[t]);
    rest := FlushReturns(c, After(c, s, producers), t);
  }

  lemma NotOwner(pc: Pc)
    requires pc.FlushWaiting?
    ensures !Owner(pc)
  {
  }

  // ---------- After the exit test, a flush that waits for more waits for ever

  /** The consumer has passed its exit test and has not taken everything thread t's flush waits for. */
  ghost predicate Hung(s: State, t: Tid) {
    && t in s.threads && s.threads[t].FlushWaiting? && s.dequeuePos < s.threads[t].target
    && Exiting(s.consumer)
  }

  /** No step of anyone helps. */
  lemma HungStep(c: Config, s: State, t: Tid, a: Action)
    requires WellFormed(c, s) && Hung(s, t) && Enabled(s, a)
    ensures Hung(Apply(c, s, a), t)
  {
    if IsConsumerAction(a) {
      ExitingStays(c, s, a);
      ConsumerFrame(c, s, a);
    } else if a.SetStop? {
      ThreadSinks(c, s, a);
      ConsumerCounts(c, s, a);
    } else {
      ThreadSinks(c, s, a);
      ThreadStepMoves(c, s, a);
      if a.t == t {
        WaitEndsExactly(c, s, t);
      }
    }
    hide Apply, WellFormed, Exiting;
  }

  lemma {:induction false} HungForGood(c: Config, s: State, t: Tid, run: seq<Action>)
    requires WellFormed(c, s) && Hung(s, t) && IsRun(c, s, run)
    ensures Hung(After(c, s, run), t)
    decreases |run|
  {
    hide Apply, WellFormed, Hung;
    if run == [] {
    } else {
      ApplyWellFormed(c, s, run[0]);
      HungStep(c, s, t, run[0]);
      HungForGood(c, Apply(c, s, run[0]), t, run[1..]);
    }
  }

  /** Along this run, of any threads, the flush of thread t comes back. */
  ghost predicate ComesBack(c: Config, s: State, t: Tid, run: seq<Action>)
    requires WellFormed(c, s)
  {
    IsRun(c, s, run) && t in After(c, s, run).threads && After(c, s, run).threads[t].Idle?
  }

  /** Over all runs and all threads, exactly: after any run a waiting flush can still return if and only if its target
      has been taken or the consumer has not passed its exit test. */
  lemma FlushCanReturnExactly(c: Config, tids: set<Tid>, run: seq<Action>, t: Tid)
    requires c.k >= 1 && WellFormed(c, Initial(c, tids)) && IsRun(c, Initial(c, tids), run)
    requires var s := After(c, Initial(c, tids), run); t in s.threads && s.threads[t].FlushWaiting?
    ensures var s := After(c, Initial(c, tids), run);
      (exists more :: ComesBack(c, s, t, more)) <==> s.threads[t].target <= s.dequeuePos || !Exiting(s.consumer)
  {
    hide Inv, WellFormed, IsRun, After, Exiting, ByFinishers, ByFlush;
    var i := Initial(c, tids);
    InitialInv(c, tids);
    RunKeeps(c, i, run);
    var s := After(c, i, run);
    if s.threads[t].target <= s.dequeuePos {
      var more := FlushEnds(c, s, t);
      assert ComesBack(c, s, t, more);
    } else if !Exiting(s.consumer) {
      var producers, rest := FlushNeverDeadlocks(c, tids, run, t);
      RunJoin(c, s, producers, rest);
      assert ComesBack(c, s, t, producers + rest);
    } else {
      forall more ensures !ComesBack(c, s, t, more) {
        if IsRun(c, s, more) { HungForGood(c, s, t, more); }
      }
    }
  }
}
