/** When an enqueue claims a position, when it tries again, and when it drops its record. */
module LogDrops {
  import opened Powers
  import opened LogArena
  import opened LogProtocol
  import opened LogInvariant
  import opened LogTheorems
  import opened LogFailures

  /** Every slot is claimed and none of them has been released. */
  predicate RingFull(c: Config, s: State) {
    s.enqueuePos - Head(s) == Capacity(c)
  }

  // ---------- What a stale position reads

  /** The position of the current lap that uses the same slot. */
  lemma SameSlotInLap(c: Config, p: nat, lo: nat) returns (q: nat)
    requires p < lo
    ensures lo <= q < lo + Capacity(c) && SlotOf(c, q) == SlotOf(c, p)
  {
    hide Pow2;
    var n := Capacity(c);
    var d, r := (p - lo) / n, (p - lo) % n;
    q := lo + r;
    assert p - lo == d * n + r;
    var a, b := p / n, p % n;
    assert p == a * n + b;
    assert q == (a - d) * n + b by { assert (a - d) * n == a * n - d * n; }
    DivModUnique(q, n, a - d, b);
  }

  /** A slot that has been released carries a later number. */
  lemma ReleasedReadsLater(c: Config, s: State, p: nat)
    requires RingInv(c, s) && p < Head(s)
    ensures SeqAt(c, s, p) > p
  {
    hide SlotOf, Capacity;
    var q := SameSlotInLap(c, p, Head(s));
    assert SeqAt(c, s, q) == q || SeqAt(c, s, q) == q + 1;
  }

  /** In a full ring the next position's slot still carries the previous lap's number. */
  lemma FullReadsEarlier(c: Config, s: State)
    requires RingInv(c, s) && c.k >= 1 && RingFull(c, s)
    ensures SeqAt(c, s, s.enqueuePos) < s.enqueuePos
  {
    hide SlotOf;
    SlotPeriod(c, Head(s));
    assert Pow2(c.k) == 2 * Pow2(c.k - 1);
    assert SeqAt(c, s, Head(s)) == Head(s) || SeqAt(c, s, Head(s)) == Head(s) + 1;
  }

  lemma RoomReadsFree(c: Config, s: State)
    requires RingInv(c, s) && !RingFull(c, s)
    ensures SeqAt(c, s, s.enqueuePos) == s.enqueuePos
  {
    hide SlotOf, Capacity;
  }

  /** The sequence number read for any position up to the next one: later, equal or earlier. */
  lemma ReadExactly(c: Config, s: State, p: nat)
    requires RingInv(c, s) && c.k >= 1 && p <= s.enqueuePos
    ensures SeqAt(c, s, p) < p <==> p == s.enqueuePos && RingFull(c, s)
    ensures SeqAt(c, s, p) == p <==> (p == s.enqueuePos && !RingFull(c, s)) || Claimed(c, s, p)
  {
    if p < Head(s) {
      ReleasedReadsLater(c, s, p);
    } else if p == s.enqueuePos {
      if RingFull(c, s) { FullReadsEarlier(c, s); } else { RoomReadsFree(c, s); }
    } else {
      hide SlotOf, Capacity;
      assert SeqAt(c, s, p) == p || SeqAt(c, s, p) == p + 1;
    }
  }

  lemma PositionLoaded(c: Config, s: State, t: Tid)
    requires Inv(c, s) && t in s.threads && s.threads[t].HavePos?
    ensures s.threads[t].pos <= s.enqueuePos
  {
  }

  /** A producer gives up exactly when its position is the next one and the ring is full. It goes on to claim exactly
      when the position is free, or claimed and not yet published, and otherwise loads the position again. */
  lemma LoadSequenceExactly(c: Config, s: State, t: Tid)
    requires Inv(c, s) && WellFormed(c, s) && c.k >= 1 && Enabled(s, LoadSequence(t))
    ensures var pc, s' := s.threads[t], Apply(c, s, LoadSequence(t));
      && t in s'.threads && s' == s.(threads := s.threads[t := s'.threads[t]])
      && (s'.threads[t] == Full <==> pc.pos == s.enqueuePos && RingFull(c, s))
      && (s'.threads[t] == Trying(pc.rec, pc.pos) <==>
            (pc.pos == s.enqueuePos && !RingFull(c, s)) || Claimed(c, s, pc.pos))
      && (s'.threads[t] in {Full, Trying(pc.rec, pc.pos), Entered(pc.rec)})
  {
    PositionLoaded(c, s, t);
    ReadExactly(c, s, s.threads[t].pos);
    hide SlotOf, Capacity, RingInv, ThreadsInv, ItemsInv, ConsumerInv, SinksInv, RingFull, Claimed;
    SizesHere(c, s);
  }

  lemma SizesHere(c: Config, s: State)
    requires WellFormed(c, s)
    ensures |s.slots| == Capacity(c)
  {
  }

  // ---------- Every drop was decided in a full ring

  /** A step that reads the next position's slot in a full ring. */
  predicate DecidesDrop(c: Config, s: State, a: Action) {
    a.LoadSequence? && Enabled(s, a) && s.threads[a.t].pos == s.enqueuePos && RingFull(c, s)
  }

  /** How many steps of a run do so. */
  ghost function Decisions(c: Config, s: State, run: seq<Action>): nat
    requires WellFormed(c, s) && IsRun(c, s, run)
    decreases |run|
  {
    if run == [] then 0 else
    ApplyWellFormed(c, s, run[0]);
    (if DecidesDrop(c, s, run[0]) then 1 else 0) + Decisions(c, Apply(c, s, run[0]), run[1..])
  }

  /** A drop that is decided and not counted yet. */
  predicate Pending(pc: Pc) {
    pc.Full? || pc.Dropping?
  }

  lemma OtherThreadStep(c: Config, s: State, a: Action)
    requires WellFormed(c, s) && Enabled(s, a) && !IsConsumerAction(a) && !a.SetStop? && !a.LoadSequence?
    ensures var s' := Apply(c, s, a);
      && a.t in s'.threads
      && s'.dropped - s.dropped == One(Pending(s.threads[a.t])) - One(Pending(s'.threads[a.t]))
  {
    hide SlotOf, Capacity, CopyArg, WellFormed;
  }

  lemma LoadStep(c: Config, s: State, t: Tid)
    requires Inv(c, s) && WellFormed(c, s) && c.k >= 1 && Enabled(s, LoadSequence(t))
    ensures var s' := Apply(c, s, LoadSequence(t));
      && t in s'.threads && s'.dropped == s.dropped && !Pending(s.threads[t])
      && One(Pending(s'.threads[t])) == One(DecidesDrop(c, s, LoadSequence(t)))
  {
    LoadSequenceExactly(c, s, t);
    hide Apply, Inv, WellFormed, RingFull, Claimed;
  }

  lemma DropStep(c: Config, s: State, a: Action)
    requires Inv(c, s) && WellFormed(c, s) && c.k >= 1 && Enabled(s, a)
    ensures var s' := Apply(c, s, a);
      s'.dropped + Count(s'.threads, Pending) ==
      s.dropped + Count(s.threads, Pending) + One(DecidesDrop(c, s, a))
  {
    hide Count, WellFormed, Apply, Inv, RingFull;
    if IsConsumerAction(a) || a.SetStop? {
      ConsumerCounts(c, s, a);
    } else {
      ThreadStepMoves(c, s, a);
      if a.LoadSequence? { LoadStep(c, s, a.t); } else { OtherThreadStep(c, s, a); }
      CountUpdate(s.threads, a.t, Apply(c, s, a).threads[a.t], Pending);
    }
  }

  lemma {:induction false} DropRun(c: Config, s: State, run: seq<Action>)
    requires Inv(c, s) && WellFormed(c, s) && c.k >= 1 && IsRun(c, s, run)
    ensures var e := After(c, s, run);
      e.dropped + Count(e.threads, Pending) == s.dropped + Count(s.threads, Pending) + Decisions(c, s, run)
    decreases |run|
  {
    hide Count, Apply, Inv, WellFormed, DecidesDrop;
    if run == [] {
    } else {
      ApplyWellFormed(c, s, run[0]);
      StepKeeps(c, s, run[0]);
      DropStep(c, s, run[0]);
      DropRun(c, Apply(c, s, run[0]), run[1..]);
    }
  }

  /** Over every run, the drops counted and the drops still to be counted are exactly the reads of the next position in
      a full ring. */
  lemma DropsAreDecided(c: Config, tids: set<Tid>, run: seq<Action>)
    requires c.k >= 1 && WellFormed(c, Initial(c, tids)) && IsRun(c, Initial(c, tids), run)
    ensures var e := After(c, Initial(c, tids), run);
      e.dropped + Count(e.threads, Pending) == Decisions(c, Initial(c, tids), run)
  {
    hide Inv, WellFormed, Decisions;
    var i := Initial(c, tids);
    InitialInv(c, tids);
    DropRun(c, i, run);
    assert Those(i.threads, Pending) == {};
  }

  // ---------- An enqueue on its own

  /** Every step of the run is one of thread t. */
  ghost predicate OnlyBy(t: Tid, run: seq<Action>) {
    forall i :: 0 <= i < |run| ==> !IsConsumerAction(run[i]) && !run[i].SetStop? && run[i].t == t
  }

  /** Thread t copies the arguments that are left. */
  lemma {:induction false} CopyAll(c: Config, i: State, run: seq<Action>, s: State, t: Tid)
    returns (run': seq<Action>, s': State)
    requires Reached(c, i, run, s, false) && OnlyBy(t, run)
    requires WellFormed(c, s) && t in s.threads && s.threads[t].Copying?
    ensures Reached(c, i, run', s', false) && OnlyBy(t, run') && WellFormed(c, s')
    ensures t in s'.threads && s'.threads[t].Copying?
    ensures |run'| - |run| == |s.threads[t].rec.args| - |s.threads[t].done|
    ensures var pc, pc' := s.threads[t], s'.threads[t];
      && pc'.rec == pc.rec && pc'.pos == pc.pos && |pc'.done| == |pc.rec.args|
      && s' == s.(arenas := s'.arenas, threads := s.threads[t := pc'])
    decreases |s.threads[t].rec.args| - |s.threads[t].done|
  {
    hide SlotOf, Capacity, CopyArg, Reached;
    var pc := s.threads[t];
    if |pc.done| == |pc.rec.args| {
      run', s' := run, s;
      assert s.threads == s.threads[t := pc];
    } else {
      var r1, s1 := Step(c, i, run, s, false, Copy(t));
      run', s' := CopyAll(c, i, r1, s1, t);
    }
  }

  /** Thread t, in flight, reads the next position and its sequence number. */
  lemma TryAlone(c: Config, s: State, t: Tid) returns (run: seq<Action>, s': State)
    requires c.k >= 1 && Inv(c, s) && WellFormed(c, s) && t in s.threads && s.threads[t].Entered?
    ensures Reached(c, s, run, s', false) && OnlyBy(t, run) && |run| == 2 && Inv(c, s') && WellFormed(c, s')
    ensures var rec := s.threads[t].rec;
      s' == s.(threads := s.threads[t := if RingFull(c, s) then Full else Trying(rec, s.enqueuePos)])
  {
    hide SlotOf, Capacity, Inv, Claimed, WellFormed, Reached;
    assert Reached(c, s, [], s, false) by { StartHere(c, s); }
    var r1, s1 := Step(c, s, [], s, false, LoadPos(t));
    StepKeeps(c, s, LoadPos(t));
    LoadSequenceExactly(c, s1, t);
    StepKeeps(c, s1, LoadSequence(t));
    assert RingFull(c, s1) == RingFull(c, s);
    run, s' := Step(c, s, r1, s1, false, LoadSequence(t));
    assert s'.threads == s.threads[t := s'.threads[t]];
  }

  lemma StartHere(c: Config, s: State)
    requires WellFormed(c, s)
    ensures Reached(c, s, [], s, false)
  {
  }

  /** Thread t, having copied every argument, stores, publishes and returns. */
  lemma FinishAlone(c: Config, i: State, run: seq<Action>, s: State, t: Tid) returns (run': seq<Action>, s': State)
    requires Reached(c, i, run, s, false) && OnlyBy(t, run) && WellFormed(c, s)
    requires t in s.threads && s.threads[t].Copying? && |s.threads[t].done| == |s.threads[t].rec.args|
    ensures Reached(c, i, run', s', false) && OnlyBy(t, run') && |run'| == |run| + 3
    ensures |s'.slots| == |s.slots| == Capacity(c)
    ensures var pos := s.threads[t].pos;
      && SeqAt(c, s', pos) == pos + 1
      && s' == s.(slots := s'.slots, inFlight := s.inFlight - 1, returned := s.returned + {pos},
                  threads := s.threads[t := Idle])
  {
    hide SlotOf, Capacity, CopyArg, Reached, WellFormed;
    SizesHere(c, s);
    var r1, s1 := Step(c, i, run, s, false, Store(t));
    var r2, s2 := Step(c, i, r1, s1, false, Publish(t));
    run', s' := Step(c, i, r2, s2, false, Leave(t));
    assert s'.threads == s.threads[t := Idle];
  }

  /** Undisturbed, an enqueue that finds room claims the next position, publishes its record there and returns. */
  lemma EnqueuesAlone(c: Config, s: State, t: Tid) returns (run: seq<Action>)
    requires c.k >= 1 && Inv(c, s) && WellFormed(c, s) && t in s.threads && s.threads[t].Entered? && !RingFull(c, s)
    ensures IsRun(c, s, run) && OnlyBy(t, run) && |run| == |s.threads[t].rec.args| + 6
    ensures var e, rec := After(c, s, run), s.threads[t].rec;
      && Inv(c, e) && WellFormed(c, e) && Published(c, e, s.enqueuePos)
      && e == s.(enqueuePos := s.enqueuePos + 1, claims := s.claims + [rec], slots := e.slots, arenas := e.arenas,
                 inFlight := s.inFlight - 1, returned := s.returned + {s.enqueuePos}, threads := s.threads[t := Idle])
  {
    hide SlotOf, Capacity, CopyArg, Reached, Inv;
    var r1, s1 := TryAlone(c, s, t);
    var r2, s2 := Step(c, s, r1, s1, false, Cas(t, false));
    var r3, s3 := CopyAll(c, s, r2, s2, t);
    var r4, s4 := FinishAlone(c, s, r3, s3, t);
    assert s4.threads == s.threads[t := Idle];
    ReachedRun(c, s, r4, s4, false);
    RunKeeps(c, s, r4);
    HeadBelow(c, s);
    run := r4;
  }

  lemma HeadBelow(c: Config, s: State)
    requires Inv(c, s)
    ensures Head(s) <= s.enqueuePos
  {
    hide ThreadsInv, ItemsInv, ConsumerInv, SinksInv;
  }

  /** Undisturbed, an enqueue that finds the ring full counts one drop and changes nothing else. */
  lemma DropsAlone(c: Config, s: State, t: Tid) returns (run: seq<Action>)
    requires c.k >= 1 && Inv(c, s) && WellFormed(c, s) && t in s.threads && s.threads[t].Entered? && RingFull(c, s)
    ensures IsRun(c, s, run) && OnlyBy(t, run) && |run| == 4
    ensures After(c, s, run) ==
            s.(dropped := s.dropped + 1, inFlight := s.inFlight - 1, threads := s.threads[t := Idle])
  {
    hide SlotOf, Capacity, CopyArg, Reached, Inv;
    var r1, s1 := TryAlone(c, s, t);
    var r2, s2 := Step(c, s, r1, s1, false, GiveUp(t));
    var r3, s3 := Step(c, s, r2, s2, false, CountDrop(t));
    assert s3.threads == s.threads[t := Idle];
    ReachedRun(c, s, r3, s3, false);
    run := r3;
  }

  // ---------- The claim itself

  /** A compare-and-swap claims exactly when nobody has taken the position and it does not fail spuriously. A loser
      holds the position that is next now, and nothing else has changed. */
  lemma CasExactly(c: Config, s: State, t: Tid, spurious: bool)
    requires WellFormed(c, s) && Enabled(s, Cas(t, spurious))
    ensures var pc, s' := s.threads[t], Apply(c, s, Cas(t, spurious));
      var won := pc.pos == s.enqueuePos && !spurious;
      && (s'.claims == s.claims + [pc.rec] <==> won) && (s'.claims == s.claims <==> !won)
      && s'.enqueuePos == |s'.claims| && t in s'.threads
      && (if won then s'.threads[t] == Copying(pc.rec, s.enqueuePos, 0, [])
          else s' == s.(threads := s.threads[t := HavePos(pc.rec, s.enqueuePos)]))
  {
    hide SlotOf, Capacity;
  }
}
