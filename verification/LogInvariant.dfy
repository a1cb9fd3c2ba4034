/** What every step of the logger keeps. */
module LogInvariant {
  import opened Powers
  import opened LogArena
  import opened LogProtocol

  function SeqAt(c: Config, s: State, p: nat): nat
    requires |s.slots| == Capacity(c)
  {
    s.slots[SlotOf(c, p)].sequence
  }

  /** The oldest position whose slot has not been handed back to the producers. */
  function Head(s: State): nat {
    if s.consumer.Advancing? then s.dequeuePos + 1 else s.dequeuePos
  }

  /** Sequence numbers tell, for each of the ring's positions, whether it is free, claimed or published. */
  ghost predicate RingInv(c: Config, s: State) {
    && WellFormed(c, s)
    && Head(s) <= s.enqueuePos <= Head(s) + Capacity(c)
    && (forall p: nat :: Head(s) <= p < s.enqueuePos ==>
          s.slots[SlotOf(c, p)].sequence == p || s.slots[SlotOf(c, p)].sequence == p + 1)
    && (forall p: nat :: s.enqueuePos <= p < Head(s) + Capacity(c) ==> s.slots[SlotOf(c, p)].sequence == p)
  }

  /** A claimed position that has not been published. */
  ghost predicate Claimed(c: Config, s: State, p: nat)
    requires WellFormed(c, s)
  {
    Head(s) <= p < s.enqueuePos && SeqAt(c, s, p) == p
  }

  ghost predicate Published(c: Config, s: State, p: nat)
    requires WellFormed(c, s)
  {
    Head(s) <= p < s.enqueuePos && SeqAt(c, s, p) == p + 1
  }

  /** The slot's item and arena, together, read as promised for the record claimed at p. */
  ghost predicate ItemReady(c: Config, s: State, p: nat)
    requires WellFormed(c, s) && p < s.enqueuePos
  {
    var item := s.slots[SlotOf(c, p)].item;
    item.meta == s.claims[p].meta && |item.args| == |s.claims[p].args| &&
    Faithful(s.arenas[SlotOf(c, p)], item.args, s.claims[p].args, c.room)
  }

  ghost predicate PcInv(c: Config, s: State, pc: Pc)
    requires WellFormed(c, s)
  {
    match pc
    case HavePos(_, pos) => pos <= s.enqueuePos
    case Trying(_, pos) => pos <= s.enqueuePos && (pos == s.enqueuePos ==> SeqAt(c, s, pos) == pos)
    case Copying(rec, pos, used, done) =>
      && Claimed(c, s, pos) && s.claims[pos] == rec
      && |done| <= |rec.args| && used == Used(rec.args, |done|, c.room)
      && Faithful(s.arenas[SlotOf(c, pos)], done, rec.args, c.room) && Below(done, used)
    case Publishing(rec, pos) => Claimed(c, s, pos) && s.claims[pos] == rec && ItemReady(c, s, pos)
    case Leaving(pos) => pos < s.enqueuePos
    case FlushCalled(before) => forall p :: p in before ==> p < s.enqueuePos
    case FlushWaiting(before, target) => target <= s.enqueuePos && forall p :: p in before ==> p < target
    case FlushingSinks(before, target, next) =>
      && target <= s.dequeuePos && (forall p :: p in before ==> p < target)
      && (forall j :: 0 <= j < next && j < |s.sinks| ==> target <= s.sinks[j].flushed)
    case _ => true
  }

  predicate Owner(pc: Pc) {
    pc.Copying? || pc.Publishing?
  }

  ghost predicate ThreadsInv(c: Config, s: State)
    requires WellFormed(c, s)
  {
    && (forall t :: t in s.threads ==> PcInv(c, s, s.threads[t]))
    && (forall t, u :: t in s.threads && u in s.threads && t != u && Owner(s.threads[t]) && Owner(s.threads[u]) ==>
          s.threads[t].pos != s.threads[u].pos)
    && (forall p :: p in s.returned ==> p < s.enqueuePos)
  }

  ghost predicate ItemsInv(c: Config, s: State)
    requires WellFormed(c, s)
  {
    forall p: nat :: Head(s) <= p < s.enqueuePos && s.slots[SlotOf(c, p)].sequence == p + 1 ==> ItemReady(c, s, p)
  }

  ghost predicate ConsumerInv(c: Config, s: State)
    requires WellFormed(c, s)
  {
    match s.consumer
    case Rendering(acc) =>
      && Published(c, s, s.dequeuePos)
      && |acc| <= |s.claims[s.dequeuePos].args|
      && acc == PromisedAll(s.claims[s.dequeuePos].args, c.room)[..|acc|]
    case Writing(_, line) =>
      Published(c, s, s.dequeuePos) && line == PromisedLine(s.claims[s.dequeuePos], c.room)
    case Releasing => Published(c, s, s.dequeuePos)
    case Advancing => s.dequeuePos < s.enqueuePos
    case _ => true
  }

  /** How many of the claimed records sink j has been given. */
  function GivenTo(s: State, j: nat): nat {
    s.dequeuePos +
    match s.consumer
    case Writing(next, _) => if j < next then 1 else 0
    case Releasing => 1
    case Advancing => 1
    case _ => 0
  }

  /** The lines of the first n claimed records, in claim order. */
  ghost function Lines(c: Config, claims: seq<Record>, n: nat): (r: seq<Line>)
    requires n <= |claims|
    ensures |r| == n
  {
    seq(n, i requires 0 <= i < n => PromisedLine(claims[i], c.room))
  }

  ghost predicate SinksInv(c: Config, s: State)
    requires WellFormed(c, s)
  {
    forall j :: 0 <= j < |s.sinks| ==>
      && GivenTo(s, j) <= s.enqueuePos
      && s.sinks[j].written == Lines(c, s.claims, GivenTo(s, j))
      && s.sinks[j].flushed <= |s.sinks[j].written|
  }

  ghost predicate Inv(c: Config, s: State) {
    RingInv(c, s) && ThreadsInv(c, s) && ItemsInv(c, s) && ConsumerInv(c, s) && SinksInv(c, s)
  }

  // ---------- Start

  lemma InitialInv(c: Config, tids: set<Tid>)
    ensures Inv(c, Initial(c, tids))
  {
    hide SlotOf, Pow2, Capacity;
    forall p: nat | p < Capacity(c) ensures SlotOf(c, p) == p {
      DivModUnique(p, Capacity(c), 0, p);
    }
  }

  // ---------- Slots

  lemma SlotPeriod(c: Config, p: nat)
    ensures SlotOf(c, p + Capacity(c)) == SlotOf(c, p)
  {
    var n := Capacity(c);
    assert p == p / n * n + p % n;
    assert (p / n + 1) * n == p / n * n + n;
    DivModUnique(p + n, n, p / n + 1, p % n);
  }

  /** Two or more slots: a sequence number equal to the enqueue position means the ring is not full. */
  lemma FreeAtEnd(c: Config, s: State)
    requires RingInv(c, s) && c.k >= 1 && SeqAt(c, s, s.enqueuePos) == s.enqueuePos
    ensures s.enqueuePos < Head(s) + Capacity(c)
  {
    hide SlotOf;
    SlotPeriod(c, Head(s));
  }

  // ---------- Steps that leave slots and arenas alone

  /** Slots and arenas are the same; positions, claims and flushes only grow. */
  ghost predicate Grows(c: Config, s: State, s': State)
    requires WellFormed(c, s) && WellFormed(c, s')
  {
    && s'.slots == s.slots && s'.arenas == s.arenas && Head(s') == Head(s) && s.dequeuePos <= s'.dequeuePos
    && s.enqueuePos <= s'.enqueuePos && s.claims == s'.claims[..s.enqueuePos]
    && (forall j :: 0 <= j < |s.sinks| ==> s.sinks[j].flushed <= s'.sinks[j].flushed)
  }

  lemma PcGrows(c: Config, s: State, s': State, pc: Pc)
    requires WellFormed(c, s) && WellFormed(c, s') && Grows(c, s, s') && PcInv(c, s, pc)
    ensures PcInv(c, s', pc)
  {
    hide SlotOf, Capacity, Faithful, Below, Used;
    assert forall p :: 0 <= p < s.enqueuePos ==> s'.claims[p] == s.claims[p];
  }

  /** Thread t moves to pc'; the other threads stay where they are. */
  lemma ThreadsGrow(c: Config, s: State, s': State, t: Tid)
    requires WellFormed(c, s) && WellFormed(c, s') && ThreadsInv(c, s) && Grows(c, s, s')
    requires t in s.threads && t in s'.threads && s'.threads == s.threads[t := s'.threads[t]]
    requires PcInv(c, s', s'.threads[t])
    requires Owner(s'.threads[t]) ==> s'.threads[t].pos >= s.enqueuePos
    requires forall p :: p in s'.returned ==> p < s'.enqueuePos
    ensures ThreadsInv(c, s')
  {
    hide PcInv, Grows, WellFormed;
    forall u | u in s'.threads ensures PcInv(c, s', s'.threads[u]) {
      if u != t { PcGrows(c, s, s', s.threads[u]); }
    }
    forall u | u in s.threads && Owner(s.threads[u]) ensures s.threads[u].pos < s.enqueuePos {
      OwnerClaims(c, s, u);
    }
  }

  lemma ThreadsStay(c: Config, s: State, s': State)
    requires WellFormed(c, s) && WellFormed(c, s') && ThreadsInv(c, s) && Grows(c, s, s')
    requires s'.threads == s.threads && s'.returned == s.returned
    ensures ThreadsInv(c, s')
  {
    hide PcInv, WellFormed;
    forall u | u in s'.threads ensures PcInv(c, s', s'.threads[u]) {
      PcGrows(c, s, s', s.threads[u]);
    }
  }

  /** Items already published stay ready; positions claimed meanwhile are not published. */
  lemma ItemsGrow(c: Config, s: State, s': State)
    requires RingInv(c, s) && RingInv(c, s') && ItemsInv(c, s) && Grows(c, s, s')
    ensures ItemsInv(c, s')
  {
    hide SlotOf, Capacity, Faithful;
    assert forall p :: 0 <= p < s.enqueuePos ==> s'.claims[p] == s.claims[p];
    assert forall p: nat :: s.enqueuePos <= p < s'.enqueuePos ==> s'.slots[SlotOf(c, p)].sequence == p;
  }

  lemma SinksStay(c: Config, s: State, s': State)
    requires WellFormed(c, s) && WellFormed(c, s') && SinksInv(c, s) && Grows(c, s, s')
    requires forall j :: 0 <= j < |s.sinks| ==>
               s'.sinks[j].written == s.sinks[j].written && GivenTo(s', j) == GivenTo(s, j)
    requires forall j :: 0 <= j < |s.sinks| ==> s'.sinks[j].flushed <= |s'.sinks[j].written|
    ensures SinksInv(c, s')
  {
    hide PromisedLine;
    assert forall p :: 0 <= p < s.enqueuePos ==> s'.claims[p] == s.claims[p];
    forall j | 0 <= j < |s.sinks| ensures Lines(c, s'.claims, GivenTo(s, j)) == Lines(c, s.claims, GivenTo(s, j)) {
    }
  }

  /** The parts of the state the invariant reads, program counters aside, are the same. */
  ghost predicate SameMemory(s: State, s': State) {
    && s'.enqueuePos == s.enqueuePos && s'.dequeuePos == s.dequeuePos && s'.slots == s.slots
    && s'.arenas == s.arenas && s'.sinks == s.sinks && s'.claims == s.claims && s'.consumer == s.consumer
  }

  lemma SameMemoryKeeps(c: Config, s: State, s': State)
    requires Inv(c, s) && WellFormed(c, s') && SameMemory(s, s')
    ensures Grows(c, s, s') && RingInv(c, s') && ItemsInv(c, s') && ConsumerInv(c, s') && SinksInv(c, s')
  {
    hide SlotOf, Capacity, Faithful, PromisedLine, PromisedAll, Lines, ThreadsInv;
  }

  lemma PcOnly(c: Config, s: State, s': State, t: Tid)
    requires Inv(c, s) && WellFormed(c, s') && SameMemory(s, s')
    requires t in s.threads && t in s'.threads && s'.threads == s.threads[t := s'.threads[t]]
    requires PcInv(c, s, s'.threads[t]) && !Owner(s'.threads[t])
    requires forall p :: p in s'.returned ==> p < s.enqueuePos
    ensures Inv(c, s')
  {
    hide PcInv, RingInv, ItemsInv, ConsumerInv, SinksInv, ThreadsInv, Grows;
    InvSizes(c, s);
    SameMemoryKeeps(c, s, s');
    PcGrows(c, s, s', s'.threads[t]);
    ThreadsGrow(c, s, s', t);
  }

  lemma InvSizes(c: Config, s: State)
    requires Inv(c, s)
    ensures WellFormed(c, s)
  {
  }

  lemma ThreadFacts(c: Config, s: State, t: Tid)
    requires Inv(c, s) && t in s.threads
    ensures WellFormed(c, s) && |s.slots| == Capacity(c) && PcInv(c, s, s.threads[t])
    ensures forall p :: p in s.returned ==> p < s.enqueuePos
  {
    hide PcInv;
  }

  // ---------- The owner of a position writes to its slot

  /** The states differ only in thread t and in the slot and arena of position pos. */
  ghost predicate SameExceptAt(c: Config, s: State, s': State, pos: nat, t: Tid)
    requires WellFormed(c, s) && WellFormed(c, s')
  {
    && s'.enqueuePos == s.enqueuePos && s'.dequeuePos == s.dequeuePos && s'.claims == s.claims
    && s'.sinks == s.sinks && s'.consumer == s.consumer && s'.returned == s.returned
    && t in s.threads && t in s'.threads && s'.threads == s.threads[t := s'.threads[t]]
    && (forall i :: 0 <= i < |s.slots| && i != SlotOf(c, pos) ==>
          s'.slots[i] == s.slots[i] && s'.arenas[i] == s.arenas[i])
  }

  /** Whoever does not own pos keeps its assertion. */
  lemma PcFrame(c: Config, s: State, s': State, pos: nat, t: Tid, pc: Pc)
    requires RingInv(c, s) && c.k >= 1 && WellFormed(c, s') && SameExceptAt(c, s, s', pos, t)
    requires Claimed(c, s, pos) && PcInv(c, s, pc) && (Owner(pc) ==> pc.pos != pos)
    ensures PcInv(c, s', pc)
  {
    hide SlotOf, Capacity, Faithful, Below, Used;
    WindowDistinct(c, Head(s));
    if SeqAt(c, s, s.enqueuePos) == s.enqueuePos { FreeAtEnd(c, s); }
  }

  lemma ThreadsFrame(c: Config, s: State, s': State, pos: nat, t: Tid)
    requires Inv(c, s) && c.k >= 1 && WellFormed(c, s') && SameExceptAt(c, s, s', pos, t)
    requires Owner(s.threads[t]) && s.threads[t].pos == pos
    requires PcInv(c, s', s'.threads[t]) && (Owner(s'.threads[t]) ==> s'.threads[t].pos == pos)
    ensures ThreadsInv(c, s')
  {
    hide PcInv, SlotOf;
    assert Claimed(c, s, pos) by { OwnerClaims(c, s, t); }
    forall u | u in s'.threads ensures PcInv(c, s', s'.threads[u]) {
      if u != t { PcFrame(c, s, s', pos, t, s.threads[u]); }
    }
  }

  lemma OwnerClaims(c: Config, s: State, t: Tid)
    requires WellFormed(c, s) && ThreadsInv(c, s) && t in s.threads && Owner(s.threads[t])
    ensures Claimed(c, s, s.threads[t].pos)
  {
    hide SlotOf, Faithful, Below, Used;
    assert PcInv(c, s, s.threads[t]);
  }

  lemma ItemsFrame(c: Config, s: State, s': State, pos: nat, t: Tid)
    requires Inv(c, s) && WellFormed(c, s') && SameExceptAt(c, s, s', pos, t) && Claimed(c, s, pos)
    requires s'.slots[SlotOf(c, pos)].sequence == pos + 1 ==> ItemReady(c, s', pos)
    ensures ItemsInv(c, s')
  {
    hide SlotOf, Capacity, Faithful;
    WindowDistinct(c, Head(s));
  }

  lemma RingFrame(c: Config, s: State, s': State, pos: nat, t: Tid)
    requires Inv(c, s) && WellFormed(c, s') && SameExceptAt(c, s, s', pos, t) && Claimed(c, s, pos)
    requires s'.slots[SlotOf(c, pos)].sequence in {pos, pos + 1}
    ensures RingInv(c, s') && ConsumerInv(c, s') && SinksInv(c, s')
  {
    hide SlotOf, Capacity, PromisedLine, PromisedAll, Lines;
    WindowDistinct(c, Head(s));
  }

  lemma CopyKeeps(c: Config, s: State, t: Tid)
    requires Inv(c, s) && c.k >= 1 && Enabled(s, Copy(t))
    ensures Inv(c, Apply(c, s, Copy(t)))
  {
    hide SlotOf, Capacity, CopyArg, Faithful, Below, Used;
    ApplyWellFormed(c, s, Copy(t));
    OwnerClaims(c, s, t);
    var s', pc := Apply(c, s, Copy(t)), s.threads[t];
    assert PcInv(c, s, pc);
    CopyArgKeeps(s.arenas[SlotOf(c, pc.pos)], pc.done, pc.rec.args);
    assert PcInv(c, s', s'.threads[t]);
    RingFrame(c, s, s', pc.pos, t);
    ItemsFrame(c, s, s', pc.pos, t);
    ThreadsFrame(c, s, s', pc.pos, t);
  }

  lemma StoreKeeps(c: Config, s: State, t: Tid)
    requires Inv(c, s) && c.k >= 1 && Enabled(s, Store(t))
    ensures Inv(c, Apply(c, s, Store(t)))
  {
    hide SlotOf, Capacity, Faithful, Below, Used;
    ApplyWellFormed(c, s, Store(t));
    OwnerClaims(c, s, t);
    var s', pc := Apply(c, s, Store(t)), s.threads[t];
    assert PcInv(c, s, pc);
    RingFrame(c, s, s', pc.pos, t);
    ItemsFrame(c, s, s', pc.pos, t);
    ThreadsFrame(c, s, s', pc.pos, t);
  }

  lemma PublishKeeps(c: Config, s: State, t: Tid)
    requires Inv(c, s) && c.k >= 1 && Enabled(s, Publish(t))
    ensures Inv(c, Apply(c, s, Publish(t)))
  {
    hide SlotOf, Capacity, Faithful, Below, Used;
    ApplyWellFormed(c, s, Publish(t));
    OwnerClaims(c, s, t);
    var s', pc := Apply(c, s, Publish(t)), s.threads[t];
    assert PcInv(c, s, pc);
    RingFrame(c, s, s', pc.pos, t);
    ItemsFrame(c, s, s', pc.pos, t);
    ThreadsFrame(c, s, s', pc.pos, t);
  }

  // ---------- Claiming

  lemma CasKeepsRing(c: Config, s: State, t: Tid)
    requires Inv(c, s) && c.k >= 1
    requires t in s.threads && s.threads[t].Trying? && s.threads[t].pos == s.enqueuePos
    ensures RingInv(c, Apply(c, s, Cas(t, false))) && Grows(c, s, Apply(c, s, Cas(t, false)))
    ensures ConsumerInv(c, Apply(c, s, Cas(t, false)))
    ensures PcInv(c, Apply(c, s, Cas(t, false)), Apply(c, s, Cas(t, false)).threads[t])
  {
    hide SlotOf, Capacity, PromisedLine, PromisedAll;
    ApplyWellFormed(c, s, Cas(t, false));
    assert PcInv(c, s, s.threads[t]);
    FreeAtEnd(c, s);
  }

  lemma CasKeeps(c: Config, s: State, t: Tid)
    requires Inv(c, s) && c.k >= 1
    requires t in s.threads && s.threads[t].Trying? && s.threads[t].pos == s.enqueuePos
    ensures Inv(c, Apply(c, s, Cas(t, false)))
  {
    hide SlotOf, Capacity, PcInv, RingInv, ItemsInv, ConsumerInv, SinksInv, Grows;
    InvSizes(c, s);
    CasKeepsRing(c, s, t);
    ApplyWellFormed(c, s, Cas(t, false));
    var s' := Apply(c, s, Cas(t, false));
    ThreadsGrow(c, s, s', t);
    ItemsGrow(c, s, s');
    SinksUntouched(c, s, s');
  }

  lemma SinksUntouched(c: Config, s: State, s': State)
    requires WellFormed(c, s) && WellFormed(c, s') && SinksInv(c, s) && Grows(c, s, s')
    requires s'.sinks == s.sinks && s'.consumer == s.consumer && s'.dequeuePos == s.dequeuePos
    ensures SinksInv(c, s')
  {
    hide Lines, Grows;
    SinksStay(c, s, s');
  }

  lemma CounterStepKeeps(c: Config, s: State, a: Action)
    requires Inv(c, s) && Enabled(s, a)
    requires a.Call? || a.Register? || a.GiveUp? || a.CountDrop? || a.Leave?
    ensures Inv(c, Apply(c, s, a))
  {
    hide SlotOf, Capacity, Faithful, Below, Used, RingInv, ItemsInv, SinksInv, ConsumerInv;
    hide ThreadsInv, WellFormed;
    ThreadFacts(c, s, a.t);
    ApplyWellFormed(c, s, a);
    PcOnly(c, s, Apply(c, s, a), a.t);
  }

  lemma ClaimStepKeeps(c: Config, s: State, a: Action)
    requires Inv(c, s) && Enabled(s, a)
    requires a.LoadPos? || (a.Cas? && (a.spurious || s.enqueuePos != s.threads[a.t].pos))
    ensures Inv(c, Apply(c, s, a))
  {
    hide SlotOf, Capacity, Faithful, Below, Used, RingInv, ItemsInv, SinksInv, ConsumerInv;
    hide ThreadsInv, WellFormed;
    ThreadFacts(c, s, a.t);
    ApplyWellFormed(c, s, a);
    PcOnly(c, s, Apply(c, s, a), a.t);
  }

  lemma LoadSequenceKeeps(c: Config, s: State, t: Tid)
    requires Inv(c, s) && Enabled(s, LoadSequence(t))
    ensures Inv(c, Apply(c, s, LoadSequence(t)))
  {
    hide SlotOf, Capacity, Faithful, Below, Used, RingInv, ItemsInv, SinksInv, ConsumerInv;
    hide ThreadsInv, WellFormed;
    ThreadFacts(c, s, t);
    ApplyWellFormed(c, s, LoadSequence(t));
    PcOnly(c, s, Apply(c, s, LoadSequence(t)), t);
  }

  lemma CasEitherKeeps(c: Config, s: State, t: Tid, spurious: bool)
    requires Inv(c, s) && c.k >= 1 && Enabled(s, Cas(t, spurious))
    ensures Inv(c, Apply(c, s, Cas(t, spurious)))
  {
    hide Inv, Apply;
    if spurious || s.enqueuePos != s.threads[t].pos {
      ClaimStepKeeps(c, s, Cas(t, spurious));
    } else {
      CasKeeps(c, s, t);
    }
  }

  // ---------- Consumer steps

  lemma RenderConsumer(c: Config, s: State)
    requires Inv(c, s) && Enabled(s, Render)
    ensures WellFormed(c, Apply(c, s, Render)) && ConsumerInv(c, Apply(c, s, Render))
  {
    hide SlotOf, Capacity, Used;
    ApplyWellFormed(c, s, Render);
    assert ItemReady(c, s, s.dequeuePos);
  }

  lemma RenderKeeps(c: Config, s: State)
    requires Inv(c, s) && Enabled(s, Render)
    ensures Inv(c, Apply(c, s, Render))
  {
    hide SlotOf, Capacity, PcInv, ConsumerInv, Lines, Faithful;
    RenderConsumer(c, s);
    var s' := Apply(c, s, Render);
    ThreadsStay(c, s, s');
    ItemsGrow(c, s, s');
    SinksStay(c, s, s');
  }

  lemma WriteSinks(c: Config, s: State)
    requires Inv(c, s) && Enabled(s, Write)
    ensures WellFormed(c, Apply(c, s, Write)) && SinksInv(c, Apply(c, s, Write))
  {
    hide SlotOf, Capacity, PromisedLine, ThreadsInv, ItemsInv;
    ApplyWellFormed(c, s, Write);
    var n := s.dequeuePos;
    assert Lines(c, s.claims, n + 1) == Lines(c, s.claims, n) + [PromisedLine(s.claims[n], c.room)];
  }

  lemma WriteKeeps(c: Config, s: State)
    requires Inv(c, s) && Enabled(s, Write)
    ensures Inv(c, Apply(c, s, Write))
  {
    hide SlotOf, Capacity, PcInv, SinksInv, PromisedLine, Faithful;
    WriteSinks(c, s);
    var s' := Apply(c, s, Write);
    ThreadsStay(c, s, s');
    ItemsGrow(c, s, s');
  }

  lemma ReleaseRing(c: Config, s: State)
    requires Inv(c, s) && c.k >= 1 && Enabled(s, Release)
    ensures RingInv(c, Apply(c, s, Release))
  {
    hide SlotOf, Capacity, ThreadsInv, ItemsInv, SinksInv;
    ApplyWellFormed(c, s, Release);
    WindowDistinct(c, s.dequeuePos);
    WindowDistinct(c, s.dequeuePos + 1);
    SlotPeriod(c, s.dequeuePos);
  }

  /** Handing back the front slot concerns no producer: its position is published, so nobody owns it. */
  lemma ReleasePc(c: Config, s: State, pc: Pc)
    requires RingInv(c, s) && ConsumerInv(c, s) && c.k >= 1 && Enabled(s, Release)
    requires PcInv(c, s, pc) && WellFormed(c, Apply(c, s, Release))
    ensures PcInv(c, Apply(c, s, Release), pc)
  {
    hide SlotOf, Capacity, Faithful, Below, Used;
    WindowDistinct(c, s.dequeuePos);
    if SeqAt(c, s, s.enqueuePos) == s.enqueuePos { FreeAtEnd(c, s); }
  }

  lemma ReleaseThreads(c: Config, s: State)
    requires Inv(c, s) && c.k >= 1 && Enabled(s, Release) && WellFormed(c, Apply(c, s, Release))
    ensures ThreadsInv(c, Apply(c, s, Release))
  {
    hide PcInv, SlotOf, RingInv, ConsumerInv, ItemsInv, SinksInv;
    InvSizes(c, s);
    var s' := Apply(c, s, Release);
    forall u | u in s'.threads ensures PcInv(c, s', s'.threads[u]) {
      ReleasePc(c, s, s.threads[u]);
    }
  }

  lemma ReleaseKeeps(c: Config, s: State)
    requires Inv(c, s) && c.k >= 1 && Enabled(s, Release)
    ensures Inv(c, Apply(c, s, Release))
  {
    hide SlotOf, Capacity, PcInv, ThreadsInv, Faithful, Lines;
    ReleaseRing(c, s);
    ReleaseThreads(c, s);
    WindowDistinct(c, s.dequeuePos);
    assert ItemsInv(c, Apply(c, s, Release));
  }

  lemma AdvanceKeeps(c: Config, s: State)
    requires Inv(c, s) && Enabled(s, Advance)
    ensures Inv(c, Apply(c, s, Advance))
  {
    hide SlotOf, Capacity, PcInv, Lines, Faithful;
    ApplyWellFormed(c, s, Advance);
    var s' := Apply(c, s, Advance);
    ThreadsStay(c, s, s');
    ItemsGrow(c, s, s');
    SinksStay(c, s, s');
  }

  /** Outside the handling of a record, the consumer may move on without touching memory. */
  lemma ConsumerMove(c: Config, s: State, pc: ConsumerPc)
    requires Inv(c, s) && WellFormedConsumer(c, pc)
    requires !s.consumer.Rendering? && !s.consumer.Writing? && !s.consumer.Releasing? && !s.consumer.Advancing?
    requires pc == Rendering([]) ==> Published(c, s, s.dequeuePos)
    requires (pc.Rendering? ==> pc == Rendering([])) && !pc.Writing? && !pc.Releasing? && !pc.Advancing?
    ensures Inv(c, s.(consumer := pc))
  {
    hide SlotOf, Capacity, PcInv, Lines, Faithful;
    var s' := s.(consumer := pc);
    ThreadsStay(c, s, s');
    ItemsGrow(c, s, s');
    SinksStay(c, s, s');
  }

  lemma FlushSinkKeeps(c: Config, s: State, j: nat)
    requires Inv(c, s) && j < |s.sinks|
    ensures Inv(c, FlushSink(s, j))
  {
    hide SlotOf, Capacity, PcInv, Lines, Faithful, PromisedAll, PromisedLine;
    var s' := FlushSink(s, j);
    ThreadsStay(c, s, s');
    ItemsGrow(c, s, s');
    SinksStay(c, s, s');
  }

  lemma ConsumerPcKeeps(c: Config, s: State, a: Action)
    requires Inv(c, s) && Enabled(s, a)
    requires a.Peek? || a.LoadStop? || a.LoadInFlight? || a.LoadCounts? || a.ConsumerFlush?
    ensures Inv(c, Apply(c, s, a))
  {
    hide SlotOf, Capacity, ThreadsInv, ItemsInv, SinksInv, ConsumerInv;
    var s' := Apply(c, s, a);
    if a.ConsumerFlush? && s.consumer.next < |s.sinks| {
      FlushSinkKeeps(c, s, s.consumer.next);
      ConsumerMove(c, FlushSink(s, s.consumer.next), s'.consumer);
    } else {
      assert a.Peek? && s'.consumer.Rendering? ==> Published(c, s, s.dequeuePos) by { PeekSeesPublished(c, s); }
      ConsumerMove(c, s, s'.consumer);
    }
  }

  /** A front slot whose sequence number is one past its position has been claimed and published. */
  lemma PeekSeesPublished(c: Config, s: State)
    requires RingInv(c, s) && !s.consumer.Advancing?
    ensures SeqAt(c, s, s.dequeuePos) == s.dequeuePos + 1 ==> Published(c, s, s.dequeuePos)
  {
    hide SlotOf, Capacity;
  }

  // ---------- Flush steps

  lemma GivenAtLeast(c: Config, s: State, j: nat)
    requires WellFormed(c, s) && SinksInv(c, s) && j < |s.sinks|
    ensures s.sinks[j].flushed <= |s.sinks[j].written| && s.dequeuePos <= |s.sinks[j].written|
  {
  }

  lemma FlushOneKeeps(c: Config, s: State, t: Tid)
    requires Inv(c, s) && Enabled(s, FlushOne(t))
    ensures Inv(c, Apply(c, s, FlushOne(t)))
  {
    hide SlotOf, Capacity, Faithful, Below, Used, RingInv, ItemsInv, SinksInv, ConsumerInv;
    InvSizes(c, s);
    ApplyWellFormed(c, s, FlushOne(t));
    var pc := s.threads[t];
    var flushed := FlushSink(s, pc.next);
    GivenAtLeast(c, s, pc.next);
    assert PcInv(c, s, pc);
    FlushSinkKeeps(c, s, pc.next);
    PcOnly(c, flushed, Apply(c, s, FlushOne(t)), t);
  }

  lemma FlushStepKeeps(c: Config, s: State, a: Action)
    requires Inv(c, s) && Enabled(s, a)
    requires a.CallFlush? || a.LoadTarget? || a.CheckDrained? || a.ReturnFlush?
    ensures Inv(c, Apply(c, s, a))
  {
    hide SlotOf, Capacity, Faithful, Below, Used, RingInv, ItemsInv, SinksInv, ConsumerInv;
    hide ThreadsInv, WellFormed;
    ThreadFacts(c, s, a.t);
    ApplyWellFormed(c, s, a);
    var s' := Apply(c, s, a);
    if s' != s { PcOnly(c, s, s', a.t); }
  }

  lemma StopKeeps(c: Config, s: State)
    requires Inv(c, s)
    ensures Inv(c, Apply(c, s, SetStop))
  {
    hide PcInv, RingInv, ItemsInv, ConsumerInv, SinksInv, Grows;
    InvSizes(c, s);
    var s' := Apply(c, s, SetStop);
    ApplyWellFormed(c, s, SetStop);
    SameMemoryKeeps(c, s, s');
    ThreadsStay(c, s, s');
  }

  /** Every step of every thread keeps the invariant, on rings of at least two slots. */
  lemma StepKeeps(c: Config, s: State, a: Action)
    requires Inv(c, s) && c.k >= 1 && Enabled(s, a)
    ensures Inv(c, Apply(c, s, a))
  {
    hide *;
    match a
    case Copy(t) => CopyKeeps(c, s, t);
    case Store(t) => StoreKeeps(c, s, t);
    case Publish(t) => PublishKeeps(c, s, t);
    case FlushOne(t) => FlushOneKeeps(c, s, t);
    case CallFlush(_) => FlushStepKeeps(c, s, a);
    case LoadTarget(_) => FlushStepKeeps(c, s, a);
    case CheckDrained(_) => FlushStepKeeps(c, s, a);
    case ReturnFlush(_) => FlushStepKeeps(c, s, a);
    case SetStop => StopKeeps(c, s);
    case Render => RenderKeeps(c, s);
    case Write => WriteKeeps(c, s);
    case Release => ReleaseKeeps(c, s);
    case Advance => AdvanceKeeps(c, s);
    case Peek => ConsumerPcKeeps(c, s, a);
    case LoadStop => ConsumerPcKeeps(c, s, a);
    case LoadInFlight => ConsumerPcKeeps(c, s, a);
    case LoadCounts => ConsumerPcKeeps(c, s, a);
    case ConsumerFlush => ConsumerPcKeeps(c, s, a);
    case Cas(t, spurious) => CasEitherKeeps(c, s, t, spurious);
    case LoadPos(_) => ClaimStepKeeps(c, s, a);
    case LoadSequence(t) => LoadSequenceKeeps(c, s, t);
    case _ => CounterStepKeeps(c, s, a);
  }

}
