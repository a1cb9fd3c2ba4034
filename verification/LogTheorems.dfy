/** What the logger promises, over all runs. */
module LogTheorems {
  import opened Powers
  import opened LogArena
  import opened LogProtocol
  import opened LogInvariant

  // ---------- Safety over whole runs

  lemma {:induction false} RunKeeps(c: Config, s: State, run: seq<Action>)
    requires c.k >= 1 && Inv(c, s) && WellFormed(c, s) && IsRun(c, s, run)
    ensures Inv(c, After(c, s, run))
    decreases |run|
  {
    hide Inv, Apply;
    if run == [] {
    } else {
      StepKeeps(c, s, run[0]);
      ApplyWellFormed(c, s, run[0]);
      RunKeeps(c, Apply(c, s, run[0]), run[1..]);
    }
  }

  /** The invariant holds after every run of any number of producers and flushers with the consumer. */
  lemma Safety(c: Config, tids: set<Tid>, run: seq<Action>)
    requires c.k >= 1 && WellFormed(c, Initial(c, tids)) && IsRun(c, Initial(c, tids), run)
    ensures Inv(c, After(c, Initial(c, tids), run))
  {
    InitialInv(c, tids);
    RunKeeps(c, Initial(c, tids), run);
  }

  /** Live positions never share a slot or an arena. */
  lemma LivePositionsApart(c: Config, s: State, p: nat, q: nat)
    requires Inv(c, s) && Head(s) <= p < q < s.enqueuePos
    ensures BitAnd(p, Capacity(c) - 1) != BitAnd(q, Capacity(c) - 1)
  {
    hide BitAnd, Capacity, ItemsInv, ThreadsInv, ConsumerInv, SinksInv, WellFormed;
    WindowDistinct(c, Head(s));
    assert SlotOf(c, p) != SlotOf(c, q);
  }

  /** No step of any thread writes the item or the arena of a published position. */
  lemma PublishedIsFrozen(c: Config, s: State, a: Action, p: nat)
    requires c.k >= 1 && Inv(c, s) && Enabled(s, a) && Published(c, s, p)
    ensures var s' := Apply(c, s, a);
            && |s'.slots| == |s'.arenas| == Capacity(c)
            && s'.slots[SlotOf(c, p)].item == s.slots[SlotOf(c, p)].item
            && s'.arenas[SlotOf(c, p)] == s.arenas[SlotOf(c, p)]
  {
    hide SlotOf, Capacity, ItemsInv, SinksInv, ConsumerInv, ThreadsInv, WellFormed, Apply;
    InvSizes(c, s);
    ApplyWellFormed(c, s, a);
    Sizes(c, Apply(c, s, a));
    OnlyOwnerWrites(c, s, a, SlotOf(c, p));
    if a.Copy? || a.Store? {
      OwnerClaims(c, s, a.t);
      WindowDistinct(c, Head(s));
    }
  }

  lemma Sizes(c: Config, s: State)
    requires WellFormed(c, s)
    ensures |s.slots| == |s.arenas| == Capacity(c)
  {
  }

  /** Items and arenas are written only by copying and storing, at the slot of the position being filled. */
  lemma OnlyOwnerWrites(c: Config, s: State, a: Action, i: nat)
    requires WellFormed(c, s) && Enabled(s, a) && i < Capacity(c)
    ensures var s' := Apply(c, s, a);
            && |s'.slots| == |s'.arenas| == |s.slots| == |s.arenas| == Capacity(c)
            && ((s'.slots[i].item == s.slots[i].item && s'.arenas[i] == s.arenas[i]) ||
                ((a.Copy? || a.Store?) && i == SlotOf(c, s.threads[a.t].pos)))
  {
    hide SlotOf, Capacity, CopyArg, WellFormed, Apply;
    Sizes(c, s);
    if a.Copy? || a.Store? || a.Publish? || a.Release? {
      SlotStep(c, s, a, i);
    } else {
      OtherSteps(c, s, a);
    }
  }

  lemma OtherSteps(c: Config, s: State, a: Action)
    requires WellFormed(c, s) && Enabled(s, a) && !a.Copy? && !a.Store? && !a.Publish? && !a.Release?
    ensures Apply(c, s, a).slots == s.slots && Apply(c, s, a).arenas == s.arenas
  {
    hide SlotOf, Capacity, CopyArg, WellFormed;
  }

  lemma SlotStep(c: Config, s: State, a: Action, i: nat)
    requires WellFormed(c, s) && Enabled(s, a) && i < Capacity(c) && |s.slots| == |s.arenas| == Capacity(c)
    requires a.Copy? || a.Store? || a.Publish? || a.Release?
    ensures var s' := Apply(c, s, a);
            && |s'.slots| == |s'.arenas| == Capacity(c)
            && ((s'.slots[i].item == s.slots[i].item && s'.arenas[i] == s.arenas[i]) ||
                ((a.Copy? || a.Store?) && i == SlotOf(c, s.threads[a.t].pos)))
  {
    hide SlotOf, Capacity, CopyArg, WellFormed;
  }

  /** While a record is handled, every argument reads, from slot and arena, as promised for that record. */
  lemma RenderedAsPromised(c: Config, s: State, i: nat)
    requires Inv(c, s) && (s.consumer.Rendering? || s.consumer.Writing?)
    requires s.dequeuePos < |s.claims| && i < |s.claims[s.dequeuePos].args|
    ensures |s.slots| == |s.arenas| == Capacity(c)
    ensures var front := SlotOf(c, s.dequeuePos);
            && i < |s.slots[front].item.args|
            && ReadArg(s.arenas[front], s.slots[front].item.args[i]) == Promised(s.claims[s.dequeuePos].args, i, c.room)
  {
    hide SlotOf, Capacity, ThreadsInv, SinksInv;
    assert Published(c, s, s.dequeuePos);
    assert ItemReady(c, s, s.dequeuePos);
  }

  /** A promised string is a prefix of the caller's, cut short only when the arena is exhausted. */
  lemma PromisedIsPrefix(args: seq<Arg>, i: nat, room: nat)
    requires i < |args| && args[i].Str?
    ensures Promised(args, i, room).Chars? && Promised(args, i, room).text <= args[i].text
    ensures Promised(args, i, room).text == args[i].text || Used(args, i + 1, room) == room
    ensures Used(args, i + 1, room) == Used(args, i, room) + |Promised(args, i, room).text|
  {
    assert Used(args, i + 1, room) == Used(args, i, room) + CopyLen(args, i, room);
  }

  /** A line carries the record's own metadata and, for each argument, what that argument promises; numbers are kept
      and take no room. */
  lemma PromisedIsComplete(rec: Record, room: nat)
    ensures PromisedLine(rec, room).meta == rec.meta && |PromisedLine(rec, room).readings| == |rec.args|
    ensures forall i :: 0 <= i < |rec.args| ==> PromisedLine(rec, room).readings[i] == Promised(rec.args, i, room)
    ensures Used(rec.args, 0, room) == 0
    ensures forall i :: 0 <= i < |rec.args| && rec.args[i].Inline? ==>
              && Promised(rec.args, i, room) == Number(rec.args[i].value)
              && Used(rec.args, i + 1, room) == Used(rec.args, i, room)
  {
  }

  /** A sink holds the lines of a prefix of the claims, the consumed ones included, each once and in claim order. */
  lemma WrittenInClaimOrder(c: Config, s: State, j: nat)
    requires Inv(c, s) && j < |s.sinks|
    ensures s.dequeuePos <= |s.sinks[j].written| <= |s.claims|
    ensures s.sinks[j].written == Lines(c, s.claims, |s.sinks[j].written|)
  {
  }

  /** Line p of any sink is the whole of claim p: its metadata, one reading an argument, each number as it was passed,
      and each string as the prefix of the caller's text that still fitted the arena after the strings before it. */
  lemma WrittenLineIs(c: Config, s: State, j: nat, p: nat)
    requires Inv(c, s) && j < |s.sinks| && p < |s.sinks[j].written|
    ensures p < |s.claims|
    ensures var line, rec := s.sinks[j].written[p], s.claims[p];
      && line.meta == rec.meta && |line.readings| == |rec.args|
      && forall i :: 0 <= i < |rec.args| ==>
           match rec.args[i]
           case Inline(v) => line.readings[i] == Number(v)
           case Str(text) => line.readings[i] == Chars(text[..Min(|text|, c.room - Used(rec.args, i, c.room))])
  {
    WrittenInClaimOrder(c, s, j);
    hide Inv, Used;
    PromisedIsComplete(s.claims[p], c.room);
  }

  // ---------- Counting

  predicate InFlight(pc: Pc) {
    pc.Entered? || pc.HavePos? || pc.Trying? || pc.Full? || Owner(pc) || pc.Leaving?
  }

  /** Inside an enqueue that has neither claimed a position nor counted its drop. */
  predicate Undecided(pc: Pc) {
    pc.Calling? || pc.Entered? || pc.HavePos? || pc.Trying? || pc.Full? || pc.Dropping?
  }

  ghost function Those(threads: map<Tid, Pc>, f: Pc -> bool): set<Tid> {
    set t | t in threads && f(threads[t])
  }

  ghost function Count(threads: map<Tid, Pc>, f: Pc -> bool): nat {
    |Those(threads, f)|
  }

  lemma CountUpdate(threads: map<Tid, Pc>, t: Tid, pc: Pc, f: Pc -> bool)
    requires t in threads
    ensures Count(threads[t := pc], f) ==
            Count(threads, f) - (if f(threads[t]) then 1 else 0) + (if f(pc) then 1 else 0)
  {
    var before, after := Those(threads, f), Those(threads[t := pc], f);
    var others := before - {t};
    assert before == if f(threads[t]) then others + {t} else others;
    assert after == if f(pc) then others + {t} else others;
  }

  ghost predicate CountInv(s: State) {
    && s.inFlight == Count(s.threads, InFlight)
    && s.calls == s.enqueuePos + s.dropped + Count(s.threads, Undecided)
  }

  lemma InitialCounts(c: Config, tids: set<Tid>)
    ensures CountInv(Initial(c, tids))
  {
    var threads := Initial(c, tids).threads;
    assert Those(threads, InFlight) == {} && Those(threads, Undecided) == {};
  }

  lemma CountStep(c: Config, s: State, a: Action)
    requires WellFormed(c, s) && Enabled(s, a) && CountInv(s)
    ensures CountInv(Apply(c, s, a))
  {
    hide Count, WellFormed, Apply, Capacity;
    if IsConsumerAction(a) || a.SetStop? {
      ConsumerCounts(c, s, a);
    } else {
      ThreadStepMoves(c, s, a);
      ThreadStepCounts(c, s, a);
      CountUpdate(s.threads, a.t, Apply(c, s, a).threads[a.t], InFlight);
      CountUpdate(s.threads, a.t, Apply(c, s, a).threads[a.t], Undecided);
    }
  }

  lemma ConsumerCounts(c: Config, s: State, a: Action)
    requires WellFormed(c, s) && Enabled(s, a) && (IsConsumerAction(a) || a.SetStop?)
    ensures var s' := Apply(c, s, a);
            && s'.threads == s.threads && s'.inFlight == s.inFlight && s'.calls == s.calls
            && s'.enqueuePos == s.enqueuePos && s'.dropped == s.dropped
  {
    hide SlotOf, Capacity;
  }

  function One(b: bool): int {
    if b then 1 else 0
  }

  /** The counters move exactly as the thread's program counter does. */
  lemma ThreadStepCounts(c: Config, s: State, a: Action)
    requires WellFormed(c, s) && Enabled(s, a) && !IsConsumerAction(a) && !a.SetStop?
    ensures var s' := Apply(c, s, a);
            && a.t in s'.threads
            && s'.inFlight - s.inFlight == One(InFlight(s'.threads[a.t])) - One(InFlight(s.threads[a.t]))
            && s'.calls - s.calls - (s'.enqueuePos - s.enqueuePos) - (s'.dropped - s.dropped) ==
               One(Undecided(s'.threads[a.t])) - One(Undecided(s.threads[a.t]))
  {
    hide SlotOf, Capacity, CopyArg, WellFormed;
  }

  /** Thread steps: at most one program counter changes. */
  lemma ThreadStepMoves(c: Config, s: State, a: Action)
    requires WellFormed(c, s) && Enabled(s, a) && !IsConsumerAction(a) && !a.SetStop?
    ensures a.t in Apply(c, s, a).threads
    ensures Apply(c, s, a).threads == s.threads[a.t := Apply(c, s, a).threads[a.t]]
  {
    hide SlotOf, Capacity, CopyArg;
    if a.CheckDrained? {
      assert s.threads == s.threads[a.t := s.threads[a.t]];
    }
  }

  lemma {:induction false} RunCounts(c: Config, s: State, run: seq<Action>)
    requires WellFormed(c, s) && IsRun(c, s, run) && CountInv(s)
    ensures CountInv(After(c, s, run))
    decreases |run|
  {
    hide CountInv, Apply;
    if run == [] {
    } else {
      CountStep(c, s, run[0]);
      ApplyWellFormed(c, s, run[0]);
      RunCounts(c, Apply(c, s, run[0]), run[1..]);
    }
  }

  // ---------- Claims are only added

  lemma ClaimsGrowStep(c: Config, s: State, a: Action)
    requires WellFormed(c, s) && Enabled(s, a)
    ensures s.claims <= Apply(c, s, a).claims
  {
    hide SlotOf, Capacity, CopyArg, WellFormed;
  }

  /** A run only appends to the claims. */
  lemma {:induction false} ClaimsGrow(c: Config, s: State, run: seq<Action>)
    requires WellFormed(c, s) && IsRun(c, s, run)
    ensures s.claims <= After(c, s, run).claims
    decreases |run|
  {
    hide Apply, WellFormed;
    if run == [] {
    } else {
      ApplyWellFormed(c, s, run[0]);
      ClaimsGrowStep(c, s, run[0]);
      ClaimsGrow(c, Apply(c, s, run[0]), run[1..]);
    }
  }

  // ---------- Flushing

  /** When flush is about to return, all it waited for is in every sink and has been flushed there. */
  lemma FlushedWhenDone(c: Config, s: State, t: Tid, p: nat, j: nat)
    requires Inv(c, s) && Enabled(s, ReturnFlush(t)) && p in s.threads[t].before && j < |s.sinks|
    ensures p < s.sinks[j].flushed <= |s.sinks[j].written| <= |s.claims|
    ensures s.sinks[j].written[p] == PromisedLine(s.claims[p], c.room)
  {
    ThreadFacts(c, s, t);
    WrittenInClaimOrder(c, s, j);
    GivenAtLeast(c, s, j);
  }

  /** Thread t is inside the flush call that found the given records returned. */
  predicate InFlush(pc: Pc, before: set<nat>) {
    (pc.FlushCalled? || pc.FlushWaiting? || pc.FlushingSinks?) && pc.before == before
  }

  lemma {:induction false} FlushStaysInside(c: Config, s: State, run: seq<Action>, t: Tid, before: set<nat>)
    requires WellFormed(c, s) && IsRun(c, s, run) && ReturnFlush(t) !in run
    requires t in s.threads && InFlush(s.threads[t], before)
    ensures t in After(c, s, run).threads && InFlush(After(c, s, run).threads[t], before)
    decreases |run|
  {
    hide Apply, WellFormed;
    if run == [] {
    } else {
      var s' := Apply(c, s, run[0]);
      assert run[0] in run;
      ApplyWellFormed(c, s, run[0]);
      FlushStepInside(c, s, run[0], t, before);
      FlushStaysInside(c, s', run[1..], t, before);
    }
  }

  lemma FlushStepInside(c: Config, s: State, a: Action, t: Tid, before: set<nat>)
    requires WellFormed(c, s) && Enabled(s, a) && a != ReturnFlush(t)
    requires t in s.threads && InFlush(s.threads[t], before)
    ensures t in Apply(c, s, a).threads && InFlush(Apply(c, s, a).threads[t], before)
  {
    hide WellFormed, Apply;
    if IsConsumerAction(a) || a.SetStop? {
      ConsumerCounts(c, s, a);
    } else {
      ThreadStepMoves(c, s, a);
      if a.t == t { FlushOwnStep(c, s, a, before); }
    }
  }

  lemma FlushOwnStep(c: Config, s: State, a: Action, before: set<nat>)
    requires WellFormed(c, s) && Enabled(s, a) && !IsConsumerAction(a) && !a.SetStop? && !a.ReturnFlush?
    requires InFlush(s.threads[a.t], before)
    ensures a.t in Apply(c, s, a).threads && InFlush(Apply(c, s, a).threads[a.t], before)
  {
    hide SlotOf, Capacity, WellFormed;
    assert a.LoadTarget? || a.CheckDrained? || a.FlushOne?;
  }

  /** Flush: called in state s by thread t, and at its return, every record whose enqueue had returned before the
      call has been written to every sink and each sink has been flushed after that write. */
  lemma FlushContract(c: Config, s: State, t: Tid, run: seq<Action>, p: nat, j: nat)
    requires c.k >= 1 && Inv(c, s) && Enabled(s, CallFlush(t)) && WellFormed(c, Apply(c, s, CallFlush(t)))
    requires IsRun(c, Apply(c, s, CallFlush(t)), run) && ReturnFlush(t) !in run
    requires Enabled(After(c, Apply(c, s, CallFlush(t)), run), ReturnFlush(t))
    requires p in s.returned && j < c.sinkCount
    ensures var e := After(c, Apply(c, s, CallFlush(t)), run);
            && p < |s.claims| <= |e.claims| && e.claims[p] == s.claims[p] && |e.sinks| == c.sinkCount
            && p < e.sinks[j].flushed <= |e.sinks[j].written|
            && e.sinks[j].written[p] == PromisedLine(s.claims[p], c.room)
  {
    hide Inv, WellFormed;
    InvSizes(c, s);
    var s1 := Apply(c, s, CallFlush(t));
    StepKeeps(c, s, CallFlush(t));
    RunKeeps(c, s1, run);
    FlushStaysInside(c, s1, run, t, s.returned);
    SinkCount(c, After(c, s1, run));
    FlushedWhenDone(c, After(c, s1, run), t, p, j);
    ReturnedIsClaimed(c, s, p);
    ClaimsGrow(c, s1, run);
  }

  lemma ReturnedIsClaimed(c: Config, s: State, p: nat)
    requires Inv(c, s) && p in s.returned
    ensures p < |s.claims|
  {
  }

  lemma SinkCount(c: Config, s: State)
    requires WellFormed(c, s)
    ensures |s.sinks| == c.sinkCount
  {
  }

  // ---------- Shutdown

  /** The consumer has decided to exit. */
  predicate Exiting(pc: ConsumerPc) {
    pc.Stopped? || (pc.Flushing? && pc.last)
  }

  /** The exit test is about to pass: nothing seems to be left in the ring. */
  predicate ExitPasses(s: State) {
    Enabled(s, LoadCounts) && s.enqueuePos <= s.dequeuePos
  }

  /** What the last flush has reached. */
  ghost predicate FlushedAtExit(s: State) {
    && (s.consumer.Flushing? && s.consumer.last ==>
          forall j :: 0 <= j < s.consumer.next && j < |s.sinks| ==> s.sinks[j].flushed == |s.sinks[j].written|)
    && (s.consumer.Stopped? ==> forall j :: 0 <= j < |s.sinks| ==> s.sinks[j].flushed == |s.sinks[j].written|)
  }

  lemma ExitStep(c: Config, s: State)
    requires Inv(c, s) && ExitPasses(s)
    ensures var s' := Apply(c, s, LoadCounts);
            Exiting(s'.consumer) && FlushedAtExit(s') && s'.claims == s.claims && s'.dequeuePos == |s.claims|
  {
  }

  /** Once the consumer exits it takes no further record. */
  lemma ExitingStep(c: Config, s: State, a: Action)
    requires WellFormed(c, s) && Enabled(s, a) && Exiting(s.consumer) && FlushedAtExit(s)
    ensures var s' := Apply(c, s, a);
            Exiting(s'.consumer) && FlushedAtExit(s') && s'.dequeuePos == s.dequeuePos
  {
    if IsConsumerAction(a) {
      ExitingConsumerStep(c, s, a);
    } else {
      ExitingThreadStep(c, s, a);
    }
  }

  lemma ExitingConsumerStep(c: Config, s: State, a: Action)
    requires WellFormed(c, s) && Enabled(s, a) && Exiting(s.consumer) && FlushedAtExit(s) && IsConsumerAction(a)
    ensures var s' := Apply(c, s, a);
            Exiting(s'.consumer) && FlushedAtExit(s') && s'.dequeuePos == s.dequeuePos
  {
    hide SlotOf, Capacity;
    assert a == ConsumerFlush;
  }

  lemma ExitingThreadStep(c: Config, s: State, a: Action)
    requires WellFormed(c, s) && Enabled(s, a) && Exiting(s.consumer) && FlushedAtExit(s) && !IsConsumerAction(a)
    ensures var s' := Apply(c, s, a);
            Exiting(s'.consumer) && FlushedAtExit(s') && s'.dequeuePos == s.dequeuePos
  {
    hide WellFormed, FlushedAtExit, Apply;
    ThreadSinks(c, s, a);
    SinksFlushed(s, Apply(c, s, a), if a.FlushOne? then s.threads[a.t].next else 0);
  }

  /** A thread leaves the consumer's place alone, and of the sinks changes at most one, by flushing it. */
  lemma ThreadSinks(c: Config, s: State, a: Action)
    requires WellFormed(c, s) && Enabled(s, a) && !IsConsumerAction(a)
    ensures var s' := Apply(c, s, a);
            && s'.consumer == s.consumer && s'.dequeuePos == s.dequeuePos
            && if a.FlushOne? then s'.sinks == FlushSink(s, s.threads[a.t].next).sinks else s'.sinks == s.sinks
  {
    hide SlotOf, Capacity, CopyArg, WellFormed;
  }

  lemma SinksFlushed(s: State, s': State, j: nat)
    requires FlushedAtExit(s) && s'.consumer == s.consumer
    requires s'.sinks == s.sinks || (j < |s.sinks| && s'.sinks == FlushSink(s, j).sinks)
    ensures FlushedAtExit(s')
  {
  }

  lemma {:induction false} ExitingRun(c: Config, s: State, run: seq<Action>)
    requires WellFormed(c, s) && IsRun(c, s, run) && Exiting(s.consumer) && FlushedAtExit(s)
    ensures var e := After(c, s, run);
            Exiting(e.consumer) && FlushedAtExit(e) && e.dequeuePos == s.dequeuePos
    decreases |run|
  {
    hide Apply, WellFormed, FlushedAtExit;
    if run == [] {
    } else {
      ApplyWellFormed(c, s, run[0]);
      ExitingStep(c, s, run[0]);
      ExitingRun(c, Apply(c, s, run[0]), run[1..]);
    }
  }

  lemma WrittenAtExit(c: Config, e: State, claims: seq<Record>)
    requires Inv(c, e) && Exiting(e.consumer) && claims <= e.claims && e.dequeuePos == |claims|
    ensures forall j :: 0 <= j < |e.sinks| ==> e.sinks[j].written == Lines(c, claims, |claims|)
  {
    assert Lines(c, e.claims, |claims|) == Lines(c, claims, |claims|);
  }

  /** From the moment the exit test passes, after every further run each sink holds exactly the lines of the claims
      made before it. So all claims are written if and only if none was made after it. */
  lemma ExitExact(c: Config, s: State, run: seq<Action>)
    requires c.k >= 1 && Inv(c, s) && ExitPasses(s) && WellFormed(c, Apply(c, s, LoadCounts))
    requires IsRun(c, Apply(c, s, LoadCounts), run)
    ensures var e := After(c, Apply(c, s, LoadCounts), run);
            && Exiting(e.consumer) && s.claims <= e.claims && e.dequeuePos == |s.claims|
            && (forall j :: 0 <= j < |e.sinks| ==> e.sinks[j].written == Lines(c, s.claims, |s.claims|))
            && (e.consumer.Stopped? ==> forall j :: 0 <= j < |e.sinks| ==> e.sinks[j].flushed == |s.claims|)
            && (forall j :: 0 <= j < |e.sinks| ==>
                  (e.sinks[j].written == Lines(c, e.claims, |e.claims|) <==> e.claims == s.claims))
  {
    var s1 := Apply(c, s, LoadCounts);
    ExitStep(c, s);
    StepKeeps(c, s, LoadCounts);
    RunKeeps(c, s1, run);
    ExitingRun(c, s1, run);
    ClaimsGrow(c, s1, run);
    hide Inv, Apply, After, IsRun, WellFormed;
    WrittenAtExit(c, After(c, s1, run), s.claims);
  }

  /** A consumer comes to exit only by passing the exit test, which splits the run. */
  lemma {:induction false} ExitSplits(c: Config, s: State, run: seq<Action>)
    returns (first: seq<Action>, before: State, rest: seq<Action>)
    requires WellFormed(c, s) && IsRun(c, s, run) && !Exiting(s.consumer) && Exiting(After(c, s, run).consumer)
    ensures run == first + [LoadCounts] + rest && IsRun(c, s, first) && before == After(c, s, first)
    ensures WellFormed(c, before) && ExitPasses(before) && WellFormed(c, Apply(c, before, LoadCounts))
    ensures IsRun(c, Apply(c, before, LoadCounts), rest)
    ensures After(c, Apply(c, before, LoadCounts), rest) == After(c, s, run)
    decreases |run|
  {
    hide WellFormed, Apply;
    ApplyWellFormed(c, s, run[0]);
    var s1 := Apply(c, s, run[0]);
    if Exiting(s1.consumer) {
      OnlyTestExits(c, s, run[0]);
      first, before, rest := [], s, run[1..];
      assert run == [] + [LoadCounts] + rest;
    } else {
      var first', before', rest' := ExitSplits(c, s1, run[1..]);
      first, before, rest := [run[0]] + first', before', rest';
      assert first[1..] == first';
    }
  }

  lemma OnlyTestExits(c: Config, s: State, a: Action)
    requires WellFormed(c, s) && Enabled(s, a) && !Exiting(s.consumer) && Exiting(Apply(c, s, a).consumer)
    ensures a == LoadCounts && ExitPasses(s)
  {
    hide SlotOf, Capacity, CopyArg, WellFormed;
  }

  /** Shutdown, over every run: when the consumer has stopped, each sink holds, flushed, exactly the lines of the claims
      made before the exit test passed. Everything claimed is written if and only if nothing was claimed after the
      test; the summary accounts for every call if and only if moreover no call is still undecided. */
  lemma ShutdownContract(c: Config, tids: set<Tid>, run: seq<Action>)
    returns (first: seq<Action>, before: State, rest: seq<Action>)
    requires c.k >= 1 && WellFormed(c, Initial(c, tids)) && IsRun(c, Initial(c, tids), run)
    requires After(c, Initial(c, tids), run).consumer.Stopped?
    ensures run == first + [LoadCounts] + rest && IsRun(c, Initial(c, tids), first)
    ensures before == After(c, Initial(c, tids), first) && ExitPasses(before)
    ensures var s := After(c, Initial(c, tids), run);
            && before.claims <= s.claims && s.dequeuePos == |before.claims|
            && (forall j :: 0 <= j < |s.sinks| ==>
                  && s.sinks[j].written == Lines(c, before.claims, |before.claims|)
                  && s.sinks[j].flushed == |before.claims|)
            && (s.dequeuePos == |s.claims| <==> s.claims == before.claims)
            && (s.calls == s.dequeuePos + s.dropped <==>
                  s.claims == before.claims && forall t :: t in s.threads ==> !Undecided(s.threads[t]))
  {
    hide Apply, Inv, IsRun, After, ExitPasses, WellFormed;
    var i := Initial(c, tids);
    first, before, rest := ExitSplits(c, i, run);
    Safety(c, tids, first);
    ExitExact(c, before, rest);
    var s := After(c, i, run);
    InitialCounts(c, tids);
    RunCounts(c, i, run);
    CountZero(s.threads, Undecided);
    ClaimCount(c, s);
  }

  lemma ClaimCount(c: Config, s: State)
    requires WellFormed(c, s)
    ensures |s.claims| == s.enqueuePos
  {
  }

  /** No enqueue counts itself in flight once the stop flag is set. */
  ghost predicate QuietRun(c: Config, s: State, run: seq<Action>)
    requires WellFormed(c, s)
    decreases |run|
  {
    run == [] ||
    (Enabled(s, run[0]) && !(s.stop && run[0].Register?) &&
     (ApplyWellFormed(c, s, run[0]); QuietRun(c, Apply(c, s, run[0]), run[1..])))
  }

  /** What each load of the exit test has established. */
  ghost predicate QuietInv(s: State) {
    && (s.consumer.SawStop? || s.consumer.SawQuiet? || Exiting(s.consumer) ==> s.stop)
    && (s.consumer.SawQuiet? || Exiting(s.consumer) ==> s.inFlight == 0)
    && (Exiting(s.consumer) ==> s.enqueuePos <= s.dequeuePos)
    && FlushedAtExit(s)
  }

  lemma NobodyInFlight(s: State, t: Tid)
    requires CountInv(s) && s.inFlight == 0 && t in s.threads
    ensures !InFlight(s.threads[t])
  {
    assert t in Those(s.threads, InFlight) <==> InFlight(s.threads[t]);
  }

  lemma QuietStep(c: Config, s: State, a: Action)
    requires WellFormed(c, s) && Enabled(s, a) && CountInv(s) && QuietInv(s) && !(s.stop && a.Register?)
    ensures QuietInv(Apply(c, s, a))
  {
    if IsConsumerAction(a) {
      QuietConsumerStep(c, s, a);
    } else {
      if !a.SetStop? && s.inFlight == 0 { NobodyInFlight(s, a.t); }
      QuietThreadStep(c, s, a);
    }
  }

  lemma QuietConsumerStep(c: Config, s: State, a: Action)
    requires WellFormed(c, s) && Enabled(s, a) && QuietInv(s) && IsConsumerAction(a)
    ensures QuietInv(Apply(c, s, a))
  {
    hide SlotOf, Capacity;
  }

  lemma QuietThreadStep(c: Config, s: State, a: Action)
    requires WellFormed(c, s) && Enabled(s, a) && QuietInv(s) && !IsConsumerAction(a) && !(s.stop && a.Register?)
    requires !a.SetStop? && s.inFlight == 0 ==> !InFlight(s.threads[a.t])
    ensures QuietInv(Apply(c, s, a))
  {
    hide SlotOf, Capacity, CopyArg;
  }

  lemma {:induction false} QuietRunKeeps(c: Config, s: State, run: seq<Action>)
    requires WellFormed(c, s) && QuietRun(c, s, run) && CountInv(s) && QuietInv(s)
    ensures IsRun(c, s, run) && QuietInv(After(c, s, run))
    decreases |run|
  {
    hide CountInv, QuietInv, Apply;
    if run == [] {
    } else {
      QuietStep(c, s, run[0]);
      CountStep(c, s, run[0]);
      ApplyWellFormed(c, s, run[0]);
      QuietRunKeeps(c, Apply(c, s, run[0]), run[1..]);
    }
  }

  /** It is enough that no enqueue counts itself in flight after the stop flag is set: then, when the consumer has
      exited, every claimed record is in every sink, once and in claim order, and flushed; and the calls are all
      accounted for except those that have not yet counted their drop. */
  lemma QuietShutdown(c: Config, tids: set<Tid>, run: seq<Action>)
    requires c.k >= 1 && WellFormed(c, Initial(c, tids)) && QuietRun(c, Initial(c, tids), run)
    requires IsRun(c, Initial(c, tids), run) && After(c, Initial(c, tids), run).consumer.Stopped?
    ensures var s := After(c, Initial(c, tids), run);
            && s.dequeuePos == s.enqueuePos == |s.claims|
            && (forall j :: 0 <= j < |s.sinks| ==>
                  s.sinks[j].written == Lines(c, s.claims, |s.claims|) && s.sinks[j].flushed == |s.claims|)
            && s.calls == s.dequeuePos + s.dropped + Count(s.threads, Undecided)
            && (s.calls == s.dequeuePos + s.dropped <==> forall t :: t in s.threads ==> !Undecided(s.threads[t]))
  {
    hide Apply, RingInv, ItemsInv, ThreadsInv;
    var i := Initial(c, tids);
    InitialCounts(c, tids);
    Safety(c, tids, run);
    RunCounts(c, i, run);
    QuietRunKeeps(c, i, run);
    var s := After(c, i, run);
    DrainedPositions(c, s);
    CountZero(s.threads, Undecided);
  }

  lemma DrainedPositions(c: Config, s: State)
    requires Inv(c, s) && s.enqueuePos <= s.dequeuePos && s.consumer.Stopped?
    ensures s.dequeuePos == s.enqueuePos == |s.claims|
  {
  }

  lemma CountZero(threads: map<Tid, Pc>, f: Pc -> bool)
    ensures Count(threads, f) == 0 <==> forall t :: t in threads ==> !f(threads[t])
  {
    if t :| t in threads && f(threads[t]) {
      assert t in Those(threads, f);
    } else {
      assert Those(threads, f) == {};
    }
  }
}
