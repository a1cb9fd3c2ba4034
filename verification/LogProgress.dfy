/** What the consumer achieves by its own steps once nobody is in flight. */
module LogProgress {
  import opened LogArena
  import opened LogProtocol
  import opened LogInvariant
  import opened LogTheorems

  // ---------- Every unpublished claim has an owner

  ghost predicate OwnedAt(s: State, p: nat) {
    exists t :: t in s.threads && Owner(s.threads[t]) && s.threads[t].pos == p
  }

  ghost predicate OwnedInv(c: Config, s: State)
    requires WellFormed(c, s)
  {
    forall p: nat :: Claimed(c, s, p) ==> OwnedAt(s, p)
  }

  lemma InitialOwned(c: Config, tids: set<Tid>)
    ensures WellFormed(c, Initial(c, tids)) && OwnedInv(c, Initial(c, tids))
  {
    InitialInv(c, tids);
  }

  /** No claim appears, and every owner stays one or has published. */
  lemma OwnedFrame(c: Config, s: State, s': State)
    requires WellFormed(c, s) && WellFormed(c, s') && OwnedInv(c, s)
    requires forall p: nat :: Claimed(c, s', p) ==> Claimed(c, s, p) || OwnedAt(s', p)
    requires forall t :: t in s.threads && Owner(s.threads[t]) && Claimed(c, s', s.threads[t].pos) ==>
               t in s'.threads && Owner(s'.threads[t]) && s'.threads[t].pos == s.threads[t].pos
    ensures OwnedInv(c, s')
  {
    hide Claimed, WellFormed;
    forall p: nat | Claimed(c, s', p) ensures OwnedAt(s', p) {
      if Claimed(c, s, p) {
        var t :| t in s.threads && Owner(s.threads[t]) && s.threads[t].pos == p;
        assert t in s'.threads && Owner(s'.threads[t]) && s'.threads[t].pos == p;
      }
    }
  }

  /** The ring's sequence numbers and bounds are as before. */
  ghost predicate SameRing(s: State, s': State) {
    && Head(s') == Head(s) && s'.enqueuePos == s.enqueuePos && |s'.slots| == |s.slots|
    && forall i :: 0 <= i < |s.slots| ==> s'.slots[i].sequence == s.slots[i].sequence
  }

  lemma SameRingOwned(c: Config, s: State, s': State)
    requires WellFormed(c, s) && WellFormed(c, s') && OwnedInv(c, s) && SameRing(s, s')
    requires forall t :: t in s.threads && Owner(s.threads[t]) ==>
               t in s'.threads && Owner(s'.threads[t]) && s'.threads[t].pos == s.threads[t].pos
    ensures OwnedInv(c, s')
  {
    hide Owner, Capacity;
    OwnedFrame(c, s, s');
  }

  lemma PublishOwned(c: Config, s: State, t: Tid)
    requires Inv(c, s) && c.k >= 1 && OwnedInv(c, s) && Enabled(s, Publish(t))
    requires WellFormed(c, Apply(c, s, Publish(t)))
    ensures OwnedInv(c, Apply(c, s, Publish(t)))
  {
    hide Inv, WellFormed, Capacity, SlotOf, OwnedInv;
    InvSizes(c, s);
    var s' := Apply(c, s, Publish(t));
    var pos := s.threads[t].pos;
    assert Claimed(c, s, pos) by { PublisherClaims(c, s, t); }
    forall p: nat | Claimed(c, s', p) ensures Claimed(c, s, p) && p != pos { PublishClaims(c, s, t, p); }
    OwnedFrame(c, s, s');
  }

  lemma PublisherClaims(c: Config, s: State, t: Tid)
    requires Inv(c, s) && Enabled(s, Publish(t))
    ensures Claimed(c, s, s.threads[t].pos)
  {
    OwnerClaims(c, s, t);
  }

  lemma PublishClaims(c: Config, s: State, t: Tid, p: nat)
    requires Inv(c, s) && c.k >= 1 && Enabled(s, Publish(t)) && WellFormed(c, Apply(c, s, Publish(t)))
    requires Claimed(c, Apply(c, s, Publish(t)), p)
    ensures Claimed(c, s, p) && p != s.threads[t].pos
  {
    hide Capacity, SlotOf, ThreadsInv, ItemsInv, SinksInv, ConsumerInv;
    var pos := s.threads[t].pos;
    PublisherClaims(c, s, t);
    WindowDistinct(c, Head(s));
    if p != pos {
      assert SlotOf(c, p) != SlotOf(c, pos) by {
        if p < pos { assert Head(s) <= p < pos < Head(s) + Capacity(c); }
        else { assert Head(s) <= pos < p < Head(s) + Capacity(c); }
      }
    }
  }

  lemma ReleaseOwned(c: Config, s: State)
    requires Inv(c, s) && c.k >= 1 && OwnedInv(c, s) && Enabled(s, Release) && WellFormed(c, Apply(c, s, Release))
    ensures OwnedInv(c, Apply(c, s, Release))
  {
    hide Inv, WellFormed, Capacity, SlotOf, OwnedInv;
    InvSizes(c, s);
    var s' := Apply(c, s, Release);
    forall p: nat | Claimed(c, s', p) ensures Claimed(c, s, p) { ReleaseClaims(c, s, p); }
    OwnedFrame(c, s, s');
  }

  lemma ReleaseClaims(c: Config, s: State, p: nat)
    requires Inv(c, s) && c.k >= 1 && Enabled(s, Release) && WellFormed(c, Apply(c, s, Release))
    requires Claimed(c, Apply(c, s, Release), p)
    ensures Claimed(c, s, p)
  {
    hide Capacity, SlotOf, ThreadsInv, ItemsInv, SinksInv, ConsumerInv;
    WindowDistinct(c, Head(s));
    assert Head(s) == s.dequeuePos < p < Head(s) + Capacity(c);
    assert SlotOf(c, p) != SlotOf(c, s.dequeuePos);
  }

  lemma ClaimOwned(c: Config, s: State, t: Tid, spurious: bool)
    requires WellFormed(c, s) && OwnedInv(c, s) && Enabled(s, Cas(t, spurious))
    requires WellFormed(c, Apply(c, s, Cas(t, spurious)))
    ensures OwnedInv(c, Apply(c, s, Cas(t, spurious)))
  {
    hide Capacity, SlotOf, WellFormed;
    var s' := Apply(c, s, Cas(t, spurious));
    if s'.enqueuePos != s.enqueuePos {
      assert Owner(s'.threads[t]) && s'.threads[t].pos == s.enqueuePos;
      assert OwnedAt(s', s.enqueuePos);
    }
    OwnedFrame(c, s, s');
  }

  lemma WorkOwned(c: Config, s: State, a: Action)
    requires WellFormed(c, s) && OwnedInv(c, s) && Enabled(s, a) && (a.Copy? || a.Store?)
    requires WellFormed(c, Apply(c, s, a))
    ensures OwnedInv(c, Apply(c, s, a))
  {
    hide Capacity, SlotOf, CopyArg, OwnedInv;
    assert |s.slots| == Capacity(c);
    SameRingOwned(c, s, Apply(c, s, a));
  }

  /** The remaining steps of threads move no sequence number and no owner. */
  lemma QuietOwned(c: Config, s: State, a: Action)
    requires WellFormed(c, s) && OwnedInv(c, s) && Enabled(s, a) && !IsConsumerAction(a)
    requires !a.Copy? && !a.Store? && !a.Publish? && !a.Cas? && WellFormed(c, Apply(c, s, a))
    ensures OwnedInv(c, Apply(c, s, a))
  {
    hide Capacity, SlotOf, WellFormed, CopyArg, OwnedInv;
    SameRingOwned(c, s, Apply(c, s, a));
  }

  lemma ConsumerOwned(c: Config, s: State, a: Action)
    requires WellFormed(c, s) && OwnedInv(c, s) && Enabled(s, a) && IsConsumerAction(a) && !a.Release?
    requires WellFormed(c, Apply(c, s, a))
    ensures OwnedInv(c, Apply(c, s, a))
  {
    hide Capacity, SlotOf, WellFormed, OwnedInv;
    SameRingOwned(c, s, Apply(c, s, a));
  }

  /** Every step keeps an owner for every claim that is not published. */
  lemma OwnedStep(c: Config, s: State, a: Action)
    requires Inv(c, s) && c.k >= 1 && WellFormed(c, s) && OwnedInv(c, s) && Enabled(s, a)
    ensures WellFormed(c, Apply(c, s, a)) && OwnedInv(c, Apply(c, s, a))
  {
    hide *;
    ApplyWellFormed(c, s, a);
    if a.Release? {
      ReleaseOwned(c, s);
    } else if IsConsumerAction(a) {
      ConsumerOwned(c, s, a);
    } else if a.Publish? {
      PublishOwned(c, s, a.t);
    } else if a.Cas? {
      ClaimOwned(c, s, a.t, a.spurious);
    } else if a.Copy? || a.Store? {
      WorkOwned(c, s, a);
    } else {
      QuietOwned(c, s, a);
    }
  }

  lemma {:induction false} OwnedRun(c: Config, s: State, run: seq<Action>)
    requires c.k >= 1 && Inv(c, s) && WellFormed(c, s) && OwnedInv(c, s) && IsRun(c, s, run)
    ensures OwnedInv(c, After(c, s, run))
    decreases |run|
  {
    hide Inv, Apply, WellFormed, OwnedInv;
    if run == [] {
    } else {
      OwnedStep(c, s, run[0]);
      StepKeeps(c, s, run[0]);
      OwnedRun(c, Apply(c, s, run[0]), run[1..]);
    }
  }

  // ---------- How many steps the consumer still needs

  /** The steps from the first claim not counted by n to an empty ring. */
  function RingCost(c: Config, claims: seq<Record>, n: nat): nat
    decreases |claims| - n
  {
    if n >= |claims| then 0 else |claims[n].args| + c.sinkCount + 5 + RingCost(c, claims, n + 1)
  }

  /** The steps to drain the ring from position n on, find it empty, pass the exit test and flush. */
  function DrainCost(c: Config, claims: seq<Record>, n: nat): nat {
    RingCost(c, claims, n) + c.sinkCount + 5
  }

  /** The steps after a failed exit test. */
  function RestCost(c: Config, s: State): nat {
    if s.enqueuePos <= s.dequeuePos then 0 else DrainCost(c, s.claims, s.dequeuePos)
  }

  /** The steps the consumer needs to stop, alone. */
  function StopCost(c: Config, s: State): int {
    var dq := s.dequeuePos;
    match s.consumer
    case Peeking => DrainCost(c, s.claims, dq)
    case Rendering(acc) =>
      (if dq < |s.claims| then |s.claims[dq].args| else 0) - |acc| + c.sinkCount + 4 + DrainCost(c, s.claims, dq + 1)
    case Writing(next, _) => c.sinkCount - next + 3 + DrainCost(c, s.claims, dq + 1)
    case Releasing => 2 + DrainCost(c, s.claims, dq + 1)
    case Advancing => 1 + DrainCost(c, s.claims, dq + 1)
    case FoundEmpty => c.sinkCount + 4 + RestCost(c, s)
    case SawStop => c.sinkCount + 3 + RestCost(c, s)
    case SawQuiet => c.sinkCount + 2 + RestCost(c, s)
    case Flushing(next, last) => c.sinkCount - next + 1 + if last then 0 else DrainCost(c, s.claims, dq)
    case Stopped => 0
  }

  function NextAction(pc: ConsumerPc): Action
    requires !pc.Stopped?
  {
    match pc
    case Peeking => Peek
    case Rendering(_) => Render
    case Writing(_, _) => Write
    case Releasing => Release
    case Advancing => Advance
    case FoundEmpty => LoadStop
    case SawStop => LoadInFlight
    case SawQuiet => LoadCounts
    case Flushing(_, _) => ConsumerFlush
  }

  /** No call is in flight. */
  ghost predicate Calm(c: Config, s: State) {
    && c.k >= 1 && Inv(c, s) && WellFormed(c, s) && OwnedInv(c, s) && CountInv(s)
    && s.inFlight == 0
  }

  /** And the stop flag is set. */
  ghost predicate Draining(c: Config, s: State) {
    Calm(c, s) && s.stop
  }

  /** Every run is calm whenever nobody is in flight, and drains when moreover the flag is set. */
  lemma RunsDrain(c: Config, tids: set<Tid>, run: seq<Action>)
    requires c.k >= 1 && WellFormed(c, Initial(c, tids)) && IsRun(c, Initial(c, tids), run)
    requires After(c, Initial(c, tids), run).inFlight == 0
    ensures Calm(c, After(c, Initial(c, tids), run))
    ensures After(c, Initial(c, tids), run).stop ==> Draining(c, After(c, Initial(c, tids), run))
  {
    hide Inv, OwnedInv, CountInv, WellFormed, IsRun, After;
    var i := Initial(c, tids);
    InitialInv(c, tids);
    InitialOwned(c, tids);
    InitialCounts(c, tids);
    RunKeeps(c, i, run);
    OwnedRun(c, i, run);
    RunCounts(c, i, run);
  }

  /** With nobody in flight every claim is published. */
  lemma AllPublished(c: Config, s: State, p: nat)
    requires Calm(c, s) && Head(s) <= p < s.enqueuePos
    ensures SeqAt(c, s, p) == p + 1
  {
    hide CountInv, ThreadsInv, ItemsInv, SinksInv, ConsumerInv, Capacity, SlotOf;
    assert s.slots[SlotOf(c, p)].sequence == p || s.slots[SlotOf(c, p)].sequence == p + 1;
    if Claimed(c, s, p) {
      assert OwnedAt(s, p);
      var t :| t in s.threads && Owner(s.threads[t]) && s.threads[t].pos == p;
      NobodyInFlight(s, t);
      assert false;
    }
  }

  lemma PeekCost(c: Config, s: State)
    requires Draining(c, s) && s.consumer.Peeking?
    ensures StopCost(c, Apply(c, s, Peek)) == StopCost(c, s) - 1
  {
    if s.dequeuePos < s.enqueuePos { AllPublished(c, s, s.dequeuePos); }
    hide CountInv, ThreadsInv, ItemsInv, SinksInv, ConsumerInv, OwnedInv;
    assert s.dequeuePos == s.enqueuePos ==> SeqAt(c, s, s.dequeuePos) == s.dequeuePos;
  }

  lemma RenderCost(c: Config, s: State)
    requires Draining(c, s) && s.consumer.Rendering?
    ensures StopCost(c, Apply(c, s, Render)) == StopCost(c, s) - 1
  {
    hide CountInv, ThreadsInv, SinksInv, OwnedInv, RingCost, Capacity, SlotOf, Faithful;
    assert ItemReady(c, s, s.dequeuePos);
  }

  lemma OtherCost(c: Config, s: State, a: Action)
    requires Draining(c, s) && !s.consumer.Stopped? && a == NextAction(s.consumer)
    requires !a.Peek? && !a.Render?
    ensures Enabled(s, a) && StopCost(c, Apply(c, s, a)) == StopCost(c, s) - 1
  {
    hide CountInv, ThreadsInv, ItemsInv, SinksInv, ConsumerInv, OwnedInv, RingInv, RingCost, Capacity, SlotOf;
  }

  lemma CalmKeeps(c: Config, s: State, a: Action)
    requires Calm(c, s) && Enabled(s, a) && IsConsumerAction(a)
    ensures Calm(c, Apply(c, s, a)) && Apply(c, s, a).claims == s.claims && Apply(c, s, a).threads == s.threads
    ensures Apply(c, s, a).stop == s.stop
  {
    StepKeeps(c, s, a);
    OwnedStep(c, s, a);
    CountStep(c, s, a);
    hide Inv, WellFormed, OwnedInv, CountInv, Capacity, SlotOf;
    ConsumerFrame(c, s, a);
  }

  lemma ConsumerFrame(c: Config, s: State, a: Action)
    requires WellFormed(c, s) && Enabled(s, a) && IsConsumerAction(a)
    ensures var s' := Apply(c, s, a);
      && s'.claims == s.claims && s'.stop == s.stop && s'.inFlight == s.inFlight && s'.threads == s.threads
      && s'.enqueuePos == s.enqueuePos
  {
    hide Capacity, SlotOf;
  }

  /** Each step of the consumer uses up exactly one of the steps it needs. */
  lemma DrainStep(c: Config, s: State)
    requires Draining(c, s) && !s.consumer.Stopped?
    ensures var a := NextAction(s.consumer);
      && Enabled(s, a) && IsConsumerAction(a) && Draining(c, Apply(c, s, a)) && Apply(c, s, a).claims == s.claims
      && StopCost(c, Apply(c, s, a)) == StopCost(c, s) - 1
  {
    hide StopCost, Apply, Inv, WellFormed, OwnedInv, CountInv;
    var a := NextAction(s.consumer);
    CalmKeeps(c, s, a);
    if a.Peek? {
      PeekCost(c, s);
    } else if a.Render? {
      RenderCost(c, s);
    } else {
      OtherCost(c, s, a);
    }
  }

  lemma CostIsNatural(c: Config, s: State)
    requires Draining(c, s)
    ensures StopCost(c, s) >= 0
    ensures StopCost(c, s) == 0 <==> s.consumer.Stopped?
  {
    hide CountInv, ThreadsInv, ItemsInv, SinksInv, OwnedInv, RingCost, Capacity, SlotOf;
  }

  /** With stop set and nobody in flight, the consumer's own steps stop it, after exactly the stated number. */
  lemma {:induction false} StopsByItself(c: Config, s: State) returns (run: seq<Action>)
    requires Draining(c, s)
    ensures WellFormed(c, s) && IsRun(c, s, run) && |run| == StopCost(c, s)
    ensures forall i :: 0 <= i < |run| ==> IsConsumerAction(run[i])
    ensures After(c, s, run).consumer.Stopped? && After(c, s, run).claims == s.claims
    decreases StopCost(c, s)
  {
    hide StopCost, Apply, Inv, OwnedInv, CountInv, WellFormed, IsConsumerAction;
    CostIsNatural(c, s);
    if s.consumer.Stopped? {
      run := [];
    } else {
      DrainStep(c, s);
      var a := NextAction(s.consumer);
      CostIsNatural(c, Apply(c, s, a));
      var rest := StopsByItself(c, Apply(c, s, a));
      run := [a] + rest;
      assert run[1..] == rest;
    }
  }

  /** And then every claim is written, in order and flushed, in every sink. */
  lemma DrainsCompletely(c: Config, s: State) returns (run: seq<Action>)
    requires Draining(c, s) && !Exiting(s.consumer)
    ensures WellFormed(c, s) && IsRun(c, s, run) && |run| == StopCost(c, s)
    ensures forall i :: 0 <= i < |run| ==> IsConsumerAction(run[i])
    ensures var e := After(c, s, run);
      && e.consumer.Stopped? && e.claims == s.claims && e.dequeuePos == |s.claims|
      && forall j :: 0 <= j < |e.sinks| ==>
           e.sinks[j].written == Lines(c, s.claims, |s.claims|) && e.sinks[j].flushed == |s.claims|
  {
    run := StopsByItself(c, s);
    hide StopCost, Apply, Inv, OwnedInv, CountInv, WellFormed, IsConsumerAction, IsRun, After, ExitPasses;
    var first, before, rest := ExitSplits(c, s, run);
    RunKeeps(c, s, first);
    ClaimsGrow(c, s, first);
    ExitExact(c, before, rest);
  }

  // ---------- Idle rounds

  /** The sinks the consumer has flushed in its current round hold nothing unflushed. */
  ghost predicate RoundInv(s: State) {
    s.consumer.Flushing? ==>
      forall j :: 0 <= j < s.consumer.next && j < |s.sinks| ==> s.sinks[j].flushed == |s.sinks[j].written|
  }

  lemma RoundConsumerStep(c: Config, s: State, a: Action)
    requires WellFormed(c, s) && Enabled(s, a) && RoundInv(s) && IsConsumerAction(a)
    ensures RoundInv(Apply(c, s, a))
  {
    hide Capacity, SlotOf;
  }

  lemma RoundThreadStep(c: Config, s: State, a: Action)
    requires WellFormed(c, s) && Enabled(s, a) && RoundInv(s) && !IsConsumerAction(a)
    ensures RoundInv(Apply(c, s, a))
  {
    hide Capacity, SlotOf, CopyArg;
  }

  lemma {:induction false} RoundRun(c: Config, s: State, run: seq<Action>)
    requires WellFormed(c, s) && IsRun(c, s, run) && RoundInv(s)
    ensures RoundInv(After(c, s, run))
    decreases |run|
  {
    hide Apply, WellFormed, RoundInv;
    if run == [] {
    } else {
      ApplyWellFormed(c, s, run[0]);
      if IsConsumerAction(run[0]) { RoundConsumerStep(c, s, run[0]); } else { RoundThreadStep(c, s, run[0]); }
      RoundRun(c, Apply(c, s, run[0]), run[1..]);
    }
  }

  /** Over every run: whenever the consumer goes back to the ring after a round of flushing, every sink is flushed. */
  lemma IdleRoundFlushes(c: Config, tids: set<Tid>, run: seq<Action>)
    requires WellFormed(c, Initial(c, tids)) && IsRun(c, Initial(c, tids), run)
    requires var s := After(c, Initial(c, tids), run); s.consumer.Flushing? && s.consumer.next == |s.sinks|
    ensures var s := After(c, Initial(c, tids), run);
      && Enabled(s, ConsumerFlush)
      && var s' := Apply(c, s, ConsumerFlush);
      && s'.consumer == (if s.consumer.last then Stopped else Peeking) && s'.sinks == s.sinks
      && forall j :: 0 <= j < |s'.sinks| ==> s'.sinks[j].flushed == |s'.sinks[j].written|
  {
    RoundRun(c, Initial(c, tids), run);
  }

  /** Between finding the ring empty and looking at it again, or stopping. */
  ghost predicate InIdleRound(pc: ConsumerPc) {
    pc.FoundEmpty? || pc.SawStop? || pc.SawQuiet? || pc.Flushing?
  }

  /** The first written[j] lines of sink j are there, and flushed unless the current idle round has still to come to
      it. */
  ghost predicate Covered(written: seq<nat>, s: State) {
    && |written| == |s.sinks|
    && (forall j :: 0 <= j < |written| ==> written[j] <= |s.sinks[j].written|)
    && (!InIdleRound(s.consumer) ==> forall j :: 0 <= j < |written| ==> written[j] <= s.sinks[j].flushed)
    && (s.consumer.Flushing? ==>
          forall j :: 0 <= j < s.consumer.next && j < |written| ==> written[j] <= s.sinks[j].flushed)
  }

  lemma CoveredConsumerStep(c: Config, written: seq<nat>, s: State, a: Action)
    requires WellFormed(c, s) && Enabled(s, a) && Covered(written, s) && IsConsumerAction(a)
    ensures Covered(written, Apply(c, s, a))
  {
    hide Capacity, SlotOf;
  }

  lemma CoveredThreadStep(c: Config, written: seq<nat>, s: State, a: Action)
    requires WellFormed(c, s) && Enabled(s, a) && Covered(written, s) && !IsConsumerAction(a)
    ensures Covered(written, Apply(c, s, a))
  {
    hide Capacity, SlotOf, CopyArg;
  }

  lemma {:induction false} CoveredRun(c: Config, written: seq<nat>, s: State, run: seq<Action>)
    requires WellFormed(c, s) && IsRun(c, s, run) && Covered(written, s)
    ensures Covered(written, After(c, s, run))
    decreases |run|
  {
    hide Apply, WellFormed, Covered;
    if run == [] {
    } else {
      ApplyWellFormed(c, s, run[0]);
      if IsConsumerAction(run[0]) {
        CoveredConsumerStep(c, written, s, run[0]);
      } else {
        CoveredThreadStep(c, written, s, run[0]);
      }
      CoveredRun(c, written, Apply(c, s, run[0]), run[1..]);
    }
  }

  /** What was written when the ring was found empty is flushed, in every sink, by the time the consumer does anything
      else than the tests and flushes of its idle round. */
  lemma EmptyRingIsFlushed(c: Config, s: State, run: seq<Action>)
    requires WellFormed(c, s) && IsRun(c, s, run)
    requires s.consumer.FoundEmpty? && !InIdleRound(After(c, s, run).consumer)
    ensures var e := After(c, s, run);
      |e.sinks| == |s.sinks| && forall j :: 0 <= j < |s.sinks| ==> |s.sinks[j].written| <= e.sinks[j].flushed
  {
    var written := seq(|s.sinks|, j requires 0 <= j < |s.sinks| => |s.sinks[j].written|);
    CoveredRun(c, written, s, run);
    var e := After(c, s, run);
    forall j | 0 <= j < |s.sinks| ensures |s.sinks[j].written| <= e.sinks[j].flushed {
      assert written[j] <= e.sinks[j].flushed;
    }
  }
}
