/** Where the logger's promises end: concrete runs outside the conditions of its theorems. */
module LogFailures {
  import opened Powers
  import opened LogArena
  import opened LogProtocol
  import opened LogInvariant
  import opened LogTheorems
  import opened LogReach

  // ---------- Building runs

  lemma {:induction false} Extend(c: Config, s: State, run: seq<Action>, a: Action)
    requires WellFormed(c, s) && IsRun(c, s, run) && Enabled(After(c, s, run), a)
    ensures IsRun(c, s, run + [a]) && After(c, s, run + [a]) == Apply(c, After(c, s, run), a)
    ensures QuietRun(c, s, run) && !(After(c, s, run).stop && a.Register?) ==> QuietRun(c, s, run + [a])
    decreases |run|
  {
    hide Apply, WellFormed;
    if run == [] {
      ApplyWellFormed(c, s, a);
      assert run + [a] == [a];
    } else {
      ApplyWellFormed(c, s, run[0]);
      Extend(c, Apply(c, s, run[0]), run[1..], a);
      assert (run + [a])[1..] == run[1..] + [a];
    }
  }

  /** A run from i that has reached s, with no late registration. */
  ghost predicate Reached(c: Config, i: State, run: seq<Action>, s: State, quiet: bool) {
    WellFormed(c, i) && IsRun(c, i, run) && After(c, i, run) == s && (quiet ==> QuietRun(c, i, run))
  }

  lemma Step(c: Config, i: State, run: seq<Action>, s: State, quiet: bool, a: Action)
    returns (run': seq<Action>, s': State)
    requires Reached(c, i, run, s, quiet) && Enabled(s, a) && (quiet && a.Register? ==> !s.stop)
    ensures WellFormed(c, s) && s' == Apply(c, s, a) && Reached(c, i, run', s', quiet) && WellFormed(c, s')
    ensures run' == run + [a]
  {
    hide Apply, WellFormed;
    Extend(c, i, run, a);
    run', s' := run + [a], Apply(c, s, a);
  }

  /** Thread t, already called, registers and loads the enqueue position. */
  lemma Enter(c: Config, i: State, run: seq<Action>, s: State, quiet: bool, t: Tid, rec: Record)
    returns (run': seq<Action>, s': State)
    requires Reached(c, i, run, s, quiet) && (quiet ==> !s.stop) && t in s.threads && s.threads[t] == Calling(rec)
    ensures Reached(c, i, run', s', quiet) && run <= run'
    ensures s' == s.(inFlight := s.inFlight + 1, threads := s.threads[t := HavePos(rec, s.enqueuePos)])
  {
    hide SlotOf, Capacity, WellFormed, Reached;
    var r1, s1 := Step(c, i, run, s, quiet, Register(t));
    run', s' := Step(c, i, r1, s1, quiet, LoadPos(t));
    assert s'.threads == s.threads[t := HavePos(rec, s.enqueuePos)];
  }

  /** Thread t, already called, claims the next position when it is free. */
  lemma ClaimFree(c: Config, i: State, run: seq<Action>, s: State, quiet: bool, t: Tid, rec: Record)
    returns (run': seq<Action>, s': State)
    requires Reached(c, i, run, s, quiet) && (quiet ==> !s.stop) && t in s.threads && s.threads[t] == Calling(rec)
    requires |s.slots| == Capacity(c) && SeqAt(c, s, s.enqueuePos) == s.enqueuePos
    ensures Reached(c, i, run', s', quiet) && run <= run'
    ensures s' == s.(enqueuePos := s.enqueuePos + 1, claims := s.claims + [rec],
                     inFlight := s.inFlight + 1, threads := s.threads[t := Copying(rec, s.enqueuePos, 0, [])])
  {
    hide SlotOf, Capacity, WellFormed, Reached;
    var r1, s1 := Enter(c, i, run, s, quiet, t, rec);
    var r2, s2 := Step(c, i, r1, s1, quiet, LoadSequence(t));
    run', s' := Step(c, i, r2, s2, quiet, Cas(t, false));
    assert s'.threads == s.threads[t := Copying(rec, s.enqueuePos, 0, [])];
  }

  /** Thread t, already called with a record without arguments, goes on to publish it when the next position is free. */
  lemma PublishFree(c: Config, i: State, run: seq<Action>, s: State, quiet: bool, t: Tid, rec: Record)
    returns (run': seq<Action>, s': State)
    requires Reached(c, i, run, s, quiet) && (quiet ==> !s.stop) && rec.args == []
    requires t in s.threads && s.threads[t] == Calling(rec)
    requires |s.slots| == Capacity(c) && SeqAt(c, s, s.enqueuePos) == s.enqueuePos
    ensures Reached(c, i, run', s', quiet) && run <= run'
    ensures s' == s.(enqueuePos := s.enqueuePos + 1, claims := s.claims + [rec],
                     inFlight := s.inFlight + 1, threads := s.threads[t := Leaving(s.enqueuePos)],
                     slots := s.slots[SlotOf(c, s.enqueuePos) := Slot(s.enqueuePos + 1, Stored(rec.meta, []))])
  {
    hide SlotOf, Capacity, WellFormed, Reached;
    var r1, s1 := ClaimFree(c, i, run, s, quiet, t, rec);
    var r2, s2 := Step(c, i, r1, s1, quiet, Store(t));
    run', s' := Step(c, i, r2, s2, quiet, Publish(t));
    assert s'.threads == s.threads[t := Leaving(s.enqueuePos)];
  }

  /** The same from the call on. */
  lemma EnqueueFree(c: Config, i: State, run: seq<Action>, s: State, quiet: bool, t: Tid, rec: Record)
    returns (run': seq<Action>, s': State)
    requires Reached(c, i, run, s, quiet) && (quiet ==> !s.stop) && rec.args == []
    requires t in s.threads && s.threads[t].Idle?
    requires |s.slots| == Capacity(c) && SeqAt(c, s, s.enqueuePos) == s.enqueuePos
    ensures Reached(c, i, run', s', quiet)
    ensures s' == s.(enqueuePos := s.enqueuePos + 1, claims := s.claims + [rec], calls := s.calls + 1,
                     inFlight := s.inFlight + 1, threads := s.threads[t := Leaving(s.enqueuePos)],
                     slots := s.slots[SlotOf(c, s.enqueuePos) := Slot(s.enqueuePos + 1, Stored(rec.meta, []))])
  {
    hide SlotOf, Capacity, WellFormed, Reached;
    var r1, s1 := Step(c, i, run, s, quiet, Call(t, rec));
    run', s' := PublishFree(c, i, r1, s1, quiet, t, rec);
    assert s'.threads == s.threads[t := Leaving(s.enqueuePos)];
  }

  /** The consumer takes a published front record without arguments when there are no sinks. */
  lemma ConsumeFront(c: Config, i: State, run: seq<Action>, s: State, quiet: bool)
    returns (run': seq<Action>, s': State)
    requires Reached(c, i, run, s, quiet) && s.consumer.Peeking? && s.sinks == []
    requires |s.slots| == Capacity(c) && SeqAt(c, s, s.dequeuePos) == s.dequeuePos + 1
    requires s.slots[SlotOf(c, s.dequeuePos)].item.args == []
    ensures Reached(c, i, run', s', quiet)
    ensures s' == SetSequence(c, s, s.dequeuePos, s.dequeuePos + Capacity(c)).(dequeuePos := s.dequeuePos + 1)
  {
    hide SlotOf, Capacity, WellFormed, Reached;
    var r1, s1 := Step(c, i, run, s, quiet, Peek);
    var r2, s2 := Step(c, i, r1, s1, quiet, Render);
    var r3, s3 := Step(c, i, r2, s2, quiet, Write);
    var r4, s4 := Step(c, i, r3, s3, quiet, Release);
    run', s' := Step(c, i, r4, s4, quiet, Advance);
  }

  lemma FindNothing(c: Config, i: State, run: seq<Action>, s: State, quiet: bool)
    returns (run': seq<Action>, s': State)
    requires Reached(c, i, run, s, quiet) && s.consumer.Peeking? && s.stop
    requires |s.slots| == Capacity(c) && SeqAt(c, s, s.dequeuePos) != s.dequeuePos + 1
    ensures Reached(c, i, run', s', quiet) && run <= run' && s' == s.(consumer := SawStop)
  {
    hide SlotOf, Capacity, WellFormed, Reached;
    var r1, s1 := Step(c, i, run, s, quiet, Peek);
    run', s' := Step(c, i, r1, s1, quiet, LoadStop);
  }

  /** Nothing written is unflushed. */
  ghost predicate AllFlushed(s: State) {
    forall j :: 0 <= j < |s.sinks| ==> s.sinks[j].flushed == |s.sinks[j].written|
  }

  /** The last flush, when there is nothing left to flush, only lets the consumer stop. */
  lemma {:induction false} LastFlush(c: Config, i: State, run: seq<Action>, s: State, quiet: bool)
    returns (run': seq<Action>, s': State)
    requires Reached(c, i, run, s, quiet) && s.consumer.Flushing? && s.consumer.last && AllFlushed(s)
    requires s.consumer.next <= |s.sinks|
    ensures Reached(c, i, run', s', quiet) && run <= run' && s' == s.(consumer := Stopped)
    decreases |s.sinks| - s.consumer.next
  {
    hide SlotOf, Capacity, WellFormed, Reached;
    var j := s.consumer.next;
    var r1, s1 := Step(c, i, run, s, quiet, ConsumerFlush);
    if j == |s.sinks| {
      run', s' := r1, s1;
    } else {
      assert s.sinks[j].(flushed := |s.sinks[j].written|) == s.sinks[j];
      assert s1 == s.(consumer := Flushing(j + 1, true));
      run', s' := LastFlush(c, i, r1, s1, quiet);
    }
  }

  /** The consumer finds nothing, passes the exit test and stops. */
  lemma Exit(c: Config, i: State, run: seq<Action>, s: State, quiet: bool) returns (run': seq<Action>, s': State)
    requires Reached(c, i, run, s, quiet) && s.consumer.Peeking? && AllFlushed(s)
    requires |s.slots| == Capacity(c) && SeqAt(c, s, s.dequeuePos) != s.dequeuePos + 1
    requires s.stop && s.inFlight == 0 && s.enqueuePos <= s.dequeuePos
    ensures Reached(c, i, run', s', quiet) && run <= run' && s' == s.(consumer := Stopped)
  {
    hide SlotOf, Capacity, WellFormed, Reached;
    var r1, s1 := FindNothing(c, i, run, s, quiet);
    var r2, s2 := Step(c, i, r1, s1, quiet, LoadInFlight);
    var r3, s3 := Step(c, i, r2, s2, quiet, LoadCounts);
    run', s' := LastFlush(c, i, r3, s3, quiet);
  }

  lemma Start(c: Config, tids: set<Tid>) returns (i: State)
    ensures i == Initial(c, tids) && WellFormed(c, i) && Reached(c, i, [], i, true)
    ensures |i.slots| == Capacity(c) && forall p: nat :: p < Capacity(c) ==> SlotOf(c, p) == p && SeqAt(c, i, p) == p
  {
    InitialInv(c, tids);
    i := Initial(c, tids);
    forall p: nat | p < Capacity(c) ensures SlotOf(c, p) == p {
      DivModUnique(p, Capacity(c), 0, p);
    }
  }

  // ---------- Failures

  /** A ring of one slot, although a power of two, loses records: a published record is overwritten unread. */
  lemma OneSlotOverwrites(room: nat, sinkCount: nat, m: int, n: int)
    requires m != n
    ensures var c := Config(0, room, sinkCount);
            WellFormed(c, Initial(c, {0, 1})) &&
            exists run :: IsRun(c, Initial(c, {0, 1}), run) &&
              var s := After(c, Initial(c, {0, 1}), run);
              && s.claims == [Record(m, []), Record(n, [])] && s.dequeuePos == 0 && s.consumer.Peeking?
              && s.slots[0].item == Stored(n, [])
  {
    hide SlotOf, WellFormed, Reached;
    var c := Config(0, room, sinkCount);
    var i := Start(c, {0, 1});
    var r1, s1 := EnqueueFree(c, i, [], i, true, 0, Record(m, []));
    var r2, s2 := EnqueueFree(c, i, r1, s1, true, 1, Record(n, []));
    ReachedRun(c, i, r2, s2, true);
  }

  lemma ReachedRun(c: Config, i: State, run: seq<Action>, s: State, quiet: bool)
    requires Reached(c, i, run, s, quiet)
    ensures WellFormed(c, i) && IsRun(c, i, run) && After(c, i, run) == s && (quiet ==> QuietRun(c, i, run))
  {
  }

  /** A record whose call counts itself in flight only after the exit test is lost, whether the call was made before
      or after the stop flag was set: the consumer has stopped and the call has returned success, but the record,
      although published, is in no sink. */
  lemma LateEnqueueIsLost(k: nat, room: nat, sinkCount: nat, rec: Record, early: bool)
    requires rec.args == []
    ensures var c := Config(k, room, sinkCount);
            WellFormed(c, Initial(c, {0})) &&
            exists run :: IsRun(c, Initial(c, {0}), run) && LateCall(rec, early) <= run &&
              Lost(c, After(c, Initial(c, {0}), run), rec)
  {
    hide Lost, WellFormed, Reached;
    var c := Config(k, room, sinkCount);
    var i, r1, s1 := StoppedTooSoon(c, rec, early);
    var r2, s2 := PublishLate(c, i, r1, s1, rec);
    ReachedRun(c, i, r2, s2, false);
    assert LateCall(rec, early) <= r2 && Lost(c, s2, rec);
  }

  /** The consumer has stopped over an empty ring, with thread 0 only about to count itself in flight. */
  ghost predicate TooLate(c: Config, s: State, rec: Record) {
    && s.consumer.Stopped? && s.claims == [] && s.enqueuePos == s.dequeuePos == 0
    && s.threads == map[0 := Calling(rec)]
    && |s.slots| == Capacity(c) && SeqAt(c, s, 0) == 0
    && |s.sinks| == c.sinkCount && forall j :: 0 <= j < |s.sinks| ==> s.sinks[j].written == []
  }

  lemma StoppedTooSoon(c: Config, rec: Record, early: bool) returns (i: State, run: seq<Action>, s: State)
    ensures i == Initial(c, {0}) && Reached(c, i, run, s, false) && LateCall(rec, early) <= run
    ensures TooLate(c, s, rec)
  {
    hide SlotOf, Capacity, WellFormed, Reached;
    i := Start(c, {0});
    assert Reached(c, i, [], i, false) by { Weaken(c, i, [], i); }
    var r1, s1 := CallAndStop(c, i, rec, early);
    run, s := Exit(c, i, r1, s1, false);
    if !early {
      run, s := Step(c, i, run, s, false, Call(0, rec));
    }
    assert s.threads == map[0 := Calling(rec)];
  }

  lemma PublishLate(c: Config, i: State, run: seq<Action>, s: State, rec: Record)
    returns (run': seq<Action>, s': State)
    requires Reached(c, i, run, s, false) && TooLate(c, s, rec) && rec.args == []
    ensures Reached(c, i, run', s', false) && run <= run' && Lost(c, s', rec)
    ensures s'.enqueuePos == 1 && s'.threads == map[0 := Idle]
  {
    hide SlotOf, Capacity, WellFormed, Reached;
    var r1, s1 := PublishFree(c, i, run, s, false, 0, rec);
    run', s' := Step(c, i, r1, s1, false, Leave(0));
    assert s'.threads == map[0 := Idle];
  }

  /** How the run starts. */
  function LateCall(rec: Record, early: bool): seq<Action> {
    if early then [Call(0, rec), SetStop] else [SetStop]
  }

  /** The record was claimed, published and reported enqueued, but the consumer has stopped without writing it. */
  ghost predicate Lost(c: Config, s: State, rec: Record) {
    && s.consumer.Stopped? && s.claims == [rec] && s.dequeuePos == 0 && 0 in s.returned
    && |s.slots| == Capacity(c) && SeqAt(c, s, 0) == 1
    && |s.sinks| == c.sinkCount && forall j :: 0 <= j < |s.sinks| ==> s.sinks[j].written == []
  }

  lemma CallAndStop(c: Config, i: State, rec: Record, early: bool) returns (run: seq<Action>, s: State)
    requires i == Initial(c, {0}) && Reached(c, i, [], i, false)
    ensures Reached(c, i, run, s, false) && run == LateCall(rec, early)
    ensures if early then s == i.(stop := true, calls := 1, threads := map[0 := Calling(rec)])
            else s == i.(stop := true)
  {
    hide SlotOf, Capacity, WellFormed, Reached;
    if early {
      var r1, s1 := Step(c, i, [], i, false, Call(0, rec));
      run, s := Step(c, i, r1, s1, false, SetStop);
      assert s.threads == map[0 := Calling(rec)];
    } else {
      run, s := Step(c, i, [], i, false, SetStop);
    }
  }

  lemma Weaken(c: Config, i: State, run: seq<Action>, s: State)
    requires Reached(c, i, run, s, true)
    ensures Reached(c, i, run, s, false)
  {
  }

  /** A flush called after the consumer's exit test hangs for ever when a record was claimed after that test: thread 0
      enqueues late, calls flush, and no run of any threads brings it back. */
  lemma FlushCanHang(k: nat, room: nat, sinkCount: nat, rec: Record, early: bool)
    requires rec.args == []
    ensures var c := Config(k, room, sinkCount);
            WellFormed(c, Initial(c, {0})) &&
            exists run :: IsRun(c, Initial(c, {0}), run) && LateCall(rec, early) <= run &&
              Hopeless(c, After(c, Initial(c, {0}), run))
  {
    hide Hopeless, WellFormed, Reached;
    var c := Config(k, room, sinkCount);
    var i, r1, s1 := StoppedTooSoon(c, rec, early);
    var r2, s2 := PublishLate(c, i, r1, s1, rec);
    var r3, s3 := CallFlushLate(c, i, r2, s2, rec);
    ReachedRun(c, i, r3, s3, false);
    assert LateCall(rec, early) <= r3 && Hopeless(c, s3);
  }

  /** Thread 0 is in a flush from which no run of any threads brings it back. */
  ghost predicate Hopeless(c: Config, s: State)
    requires WellFormed(c, s)
  {
    && 0 in s.threads && s.threads[0].FlushWaiting?
    && forall more :: !ComesBack(c, s, 0, more)
  }

  lemma CallFlushLate(c: Config, i: State, run: seq<Action>, s: State, rec: Record)
    returns (run': seq<Action>, s': State)
    requires Reached(c, i, run, s, false) && Lost(c, s, rec) && s.enqueuePos == 1 && s.threads == map[0 := Idle]
    ensures Reached(c, i, run', s', false) && run <= run' && WellFormed(c, s') && Hopeless(c, s')
  {
    hide SlotOf, Capacity, WellFormed, Reached, IsRun, After;
    var r1, s1 := Step(c, i, run, s, false, CallFlush(0));
    run', s' := Step(c, i, r1, s1, false, LoadTarget(0));
    assert Hung(s', 0);
    forall more ensures !ComesBack(c, s', 0, more) {
      if IsRun(c, s', more) { HungForGood(c, s', 0, more); }
    }
  }

  /** The shutdown summary can be short: a dropped call leaves the in-flight count before it counts its drop, so the
      consumer exits, with nobody entering after the stop flag, while written plus dropped is below the calls. */
  lemma SummaryCanBeShort(room: nat)
    ensures var c := Config(1, room, 0);
            WellFormed(c, Initial(c, {0, 1, 2})) &&
            exists run :: IsRun(c, Initial(c, {0, 1, 2}), run) && QuietRun(c, Initial(c, {0, 1, 2}), run) &&
              var s := After(c, Initial(c, {0, 1, 2}), run);
              && s.consumer.Stopped? && s.calls == 3 && s.dequeuePos == 2 && s.dropped == 0
              && 2 in s.threads && s.threads[2] == Dropping
  {
    hide SlotOf, Capacity, WellFormed, Reached;
    var c := Config(1, room, 0);
    var i, r1, s1 := FullRing(c);
    var r2, s2 := FillAndDrop(c, i, r1, s1, Record(0, []));
    var r3, s3 := LeaveAndStop(c, i, r2, s2);
    var r4, s4 := DrainTwo(c, i, r3, s3);
    var r5, s5 := Exit(c, i, r4, s4, true);
    ReachedRun(c, i, r5, s5, true);
  }

  /** Threads 0 and 1 fill a ring of two slots. */
  lemma FullRing(c: Config) returns (i: State, run: seq<Action>, s: State)
    requires c.k == 1 && c.sinkCount == 0
    ensures i == Initial(c, {0, 1, 2}) && Reached(c, i, run, s, true) && !s.stop && s.sinks == []
    ensures s.threads == map[0 := Leaving(0), 1 := Leaving(1), 2 := Idle] && s.consumer.Peeking?
    ensures s.calls == s.inFlight == 2 && s.enqueuePos == 2 && s.dequeuePos == 0 && s.dropped == 0
    ensures |s.slots| == Capacity(c) == 2 && SlotOf(c, 0) == 0 && SlotOf(c, 1) == 1 && SlotOf(c, 2) == 0
    ensures s.slots == [Slot(1, Stored(0, [])), Slot(2, Stored(0, []))]
  {
    hide SlotOf, Capacity, WellFormed, Reached;
    assert Capacity(c) == 2 by { TwoSlots(c); }
    i := Start(c, {0, 1, 2});
    SlotPeriod(c, 0);
    var r1, s1 := EnqueueFree(c, i, [], i, true, 0, Record(0, []));
    run, s := EnqueueFree(c, i, r1, s1, true, 1, Record(0, []));
  }

  /** The consumer takes both records of a full ring. */
  lemma DrainTwo(c: Config, i: State, run: seq<Action>, s: State) returns (run': seq<Action>, s': State)
    requires Reached(c, i, run, s, true) && s.sinks == [] && s.consumer.Peeking? && s.dequeuePos == 0
    requires |s.slots| == Capacity(c) == 2 && SlotOf(c, 0) == 0 && SlotOf(c, 1) == 1 && SlotOf(c, 2) == 0
    requires s.slots == [Slot(1, Stored(0, [])), Slot(2, Stored(0, []))]
    ensures Reached(c, i, run', s', true) && |s'.slots| == 2 && SeqAt(c, s', 2) == 2
    ensures s' == s.(dequeuePos := 2, slots := s'.slots)
  {
    hide SlotOf, Capacity, WellFormed, Reached;
    var r1, s1 := ConsumeFront(c, i, run, s, true);
    run', s' := ConsumeFront(c, i, r1, s1, true);
  }

  lemma TwoSlots(c: Config)
    requires c.k == 1
    ensures Capacity(c) == 2
  {
    assert Pow2(1) == 2 * Pow2(0);
  }

  /** Thread 2 finds the ring full and leaves, its drop not counted yet. */
  lemma FillAndDrop(c: Config, i: State, run: seq<Action>, s: State, rec: Record)
    returns (run': seq<Action>, s': State)
    requires Reached(c, i, run, s, true) && !s.stop && 2 in s.threads && s.threads[2].Idle?
    requires |s.slots| == Capacity(c) && SeqAt(c, s, s.enqueuePos) < s.enqueuePos
    ensures Reached(c, i, run', s', true)
    ensures s' == s.(calls := s.calls + 1, threads := s.threads[2 := Dropping])
  {
    hide SlotOf, Capacity, WellFormed, Reached;
    var r1, s1 := Step(c, i, run, s, true, Call(2, rec));
    var r2, s2 := Enter(c, i, r1, s1, true, 2, rec);
    var r3, s3 := Step(c, i, r2, s2, true, LoadSequence(2));
    run', s' := Step(c, i, r3, s3, true, GiveUp(2));
    assert s'.threads == s.threads[2 := Dropping];
  }

  lemma LeaveAndStop(c: Config, i: State, run: seq<Action>, s: State) returns (run': seq<Action>, s': State)
    requires Reached(c, i, run, s, true) && 0 in s.threads && 1 in s.threads
    requires s.threads[0] == Leaving(0) && s.threads[1] == Leaving(1)
    ensures Reached(c, i, run', s', true)
    ensures s' == s.(inFlight := s.inFlight - 2, returned := s.returned + {0} + {1}, stop := true,
                     threads := s.threads[0 := Idle][1 := Idle])
  {
    hide SlotOf, Capacity, WellFormed, Reached;
    var r1, s1 := LeaveOne(c, i, run, s, 0);
    var r2, s2 := LeaveOne(c, i, r1, s1, 1);
    run', s' := Step(c, i, r2, s2, true, SetStop);
  }

  lemma LeaveOne(c: Config, i: State, run: seq<Action>, s: State, t: Tid) returns (run': seq<Action>, s': State)
    requires Reached(c, i, run, s, true) && t in s.threads && s.threads[t].Leaving?
    ensures Reached(c, i, run', s', true)
    ensures s' == s.(inFlight := s.inFlight - 1, returned := s.returned + {s.threads[t].pos},
                     threads := s.threads[t := Idle])
  {
    hide SlotOf, Capacity, WellFormed, Reached;
    run', s' := Step(c, i, run, s, true, Leave(t));
  }
}
