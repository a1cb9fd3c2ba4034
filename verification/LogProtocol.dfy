/** The asynchronous logger as interleaved atomic steps: producers, flushers and one consumer over a ring. */
module LogProtocol {
  import opened Powers
  import opened LogArena

  /** Ring of 2^k slots, an arena of room bytes for each slot, and a number of sinks. */
  datatype Config = Config(k: nat, room: nat, sinkCount: nat)

  function Capacity(c: Config): (n: nat)
    ensures n >= 1
  {
    Pow2(c.k)
  }

  /** Bitwise and of two unsigned numbers. */
  function BitAnd(a: nat, b: nat): nat
    decreases b
  {
    if b == 0 then 0 else 2 * BitAnd(a / 2, b / 2) + (if a % 2 == 1 && b % 2 == 1 then 1 else 0)
  }

  lemma {:induction false} MaskIsModulo(k: nat, pos: nat)
    ensures BitAnd(pos, Pow2(k) - 1) == pos % Pow2(k)
  {
    if k == 0 {
    } else {
      MaskIsModulo(k - 1, pos / 2);
      assert (Pow2(k) - 1) / 2 == Pow2(k - 1) - 1;
      HalvedResidue(pos, Pow2(k - 1));
    }
  }

  lemma HalvedResidue(pos: nat, m: nat)
    requires m >= 1
    ensures pos % (2 * m) == 2 * (pos / 2 % m) + pos % 2
  {
    var q, r := pos / 2 / m, pos / 2 % m;
    assert pos / 2 == q * m + r;
    assert q * (2 * m) == 2 * (q * m);
    DivModUnique(pos, 2 * m, q, 2 * r + pos % 2);
  }

  /** The slot of a position: pos & mask. */
  function SlotOf(c: Config, pos: nat): (i: nat)
    ensures i == pos % Capacity(c) && i < Capacity(c)
  {
    MaskIsModulo(c.k, pos);
    BitAnd(pos, Capacity(c) - 1)
  }

  /** Positions of one window of the ring's length have different slots. */
  lemma WindowDistinct(c: Config, lo: nat)
    ensures forall p: nat, q: nat :: lo <= p < q < lo + Capacity(c) ==> SlotOf(c, p) != SlotOf(c, q)
  {
    forall p: nat, q: nat | lo <= p < q < lo + Capacity(c) ensures SlotOf(c, p) != SlotOf(c, q) {
      NearbyResidues(p, q, Capacity(c));
    }
  }

  lemma NearbyResidues(p: nat, q: nat, n: nat)
    requires p < q < p + n
    ensures p % n != q % n
  {
    var a, r := p / n, p % n + (q - p);
    assert p == a * n + p % n;
    if r < n {
      DivModUnique(q, n, a, r);
    } else {
      assert (a + 1) * n == a * n + n;
      DivModUnique(q, n, a + 1, r - n);
    }
  }

  // ---------- State

  datatype Slot = Slot(sequence: nat, item: Stored)

  /** Lines handed to a sink, and how many of them its last flush pushed out. */
  datatype Sink = Sink(written: seq<Line>, flushed: nat)

  type Tid = nat

  /** Where a caller's thread is. The first group is enqueue, the second flush. */
  datatype Pc =
    | Idle
    | Calling(rec: Record)                     // before counting itself in flight
    | Entered(rec: Record)                     // before loading the enqueue position
    | HavePos(rec: Record, pos: nat)           // before loading the slot's sequence number
    | Trying(rec: Record, pos: nat)            // before the compare-and-swap
    | Full                                     // claim failed, still in flight
    | Dropping                                 // out of flight, drop not counted yet
    | Copying(rec: Record, pos: nat, used: nat, done: seq<StoredArg>)
    | Publishing(rec: Record, pos: nat)        // item stored
    | Leaving(pos: nat)                        // published, still in flight
    | FlushCalled(before: set<nat>)
    | FlushWaiting(before: set<nat>, target: nat)
    | FlushingSinks(before: set<nat>, target: nat, next: nat)

  /** Where the consumer thread is. */
  datatype ConsumerPc =
    | Peeking
    | Rendering(acc: seq<Reading>)             // holding the front slot
    | Writing(next: nat, line: Line)
    | Releasing                                // before storing the slot's next sequence number
    | Advancing                                // before storing the dequeue position
    | FoundEmpty | SawStop | SawQuiet          // before each load of the exit test
    | Flushing(next: nat, last: bool)
    | Stopped

  /** Shared memory, program counters, and three history variables: claims, calls and returned. */
  datatype State = State(
    enqueuePos: nat, dequeuePos: nat, slots: seq<Slot>, arenas: seq<Text>,
    inFlight: int, dropped: nat, stop: bool, sinks: seq<Sink>,
    threads: map<Tid, Pc>, consumer: ConsumerPc,
    claims: seq<Record>, calls: nat, returned: set<nat>)

  predicate WellFormedPc(c: Config, pc: Pc) {
    match pc
    case Copying(rec, _, used, done) => used <= c.room && |done| <= |rec.args|
    case FlushingSinks(_, _, next) => next <= c.sinkCount
    case _ => true
  }

  predicate WellFormedConsumer(c: Config, pc: ConsumerPc) {
    match pc
    case Writing(next, _) => next <= c.sinkCount
    case Flushing(next, _) => next <= c.sinkCount
    case _ => true
  }

  /** Sizes only: arrays have their declared lengths and indices stay inside them. */
  ghost predicate WellFormed(c: Config, s: State) {
    && |s.slots| == |s.arenas| == Capacity(c)
    && (forall i :: 0 <= i < |s.arenas| ==> |s.arenas[i]| == c.room)
    && |s.sinks| == c.sinkCount
    && |s.claims| == s.enqueuePos
    && (forall t :: t in s.threads ==> WellFormedPc(c, s.threads[t]))
    && WellFormedConsumer(c, s.consumer)
  }

  function Initial(c: Config, tids: set<Tid>): State {
    State(
      0, 0, seq(Capacity(c), i requires 0 <= i => Slot(i, Stored(0, []))), seq(Capacity(c), _ => seq(c.room, _ => ' ')),
      0, 0, false, seq(c.sinkCount, _ => Sink([], 0)),
      map t | t in tids :: Idle, Peeking, [], 0, {})
  }

  // ---------- Steps

  datatype Action =
    | Call(t: Tid, rec: Record) | Register(t: Tid) | LoadPos(t: Tid) | LoadSequence(t: Tid)
    | Cas(t: Tid, spurious: bool) | GiveUp(t: Tid) | CountDrop(t: Tid)
    | Copy(t: Tid) | Store(t: Tid) | Publish(t: Tid) | Leave(t: Tid)
    | CallFlush(t: Tid) | LoadTarget(t: Tid) | CheckDrained(t: Tid) | FlushOne(t: Tid) | ReturnFlush(t: Tid)
    | SetStop
    | Peek | Render | Write | Release | Advance | LoadStop | LoadInFlight | LoadCounts | ConsumerFlush

  predicate Enabled(s: State, a: Action) {
    match a
    case Call(t, _) => t in s.threads && s.threads[t].Idle?
    case Register(t) => t in s.threads && s.threads[t].Calling?
    case LoadPos(t) => t in s.threads && s.threads[t].Entered?
    case LoadSequence(t) => t in s.threads && s.threads[t].HavePos?
    case Cas(t, _) => t in s.threads && s.threads[t].Trying?
    case GiveUp(t) => t in s.threads && s.threads[t].Full?
    case CountDrop(t) => t in s.threads && s.threads[t].Dropping?
    case Copy(t) => t in s.threads && s.threads[t].Copying? && |s.threads[t].done| < |s.threads[t].rec.args|
    case Store(t) => t in s.threads && s.threads[t].Copying? && |s.threads[t].done| == |s.threads[t].rec.args|
    case Publish(t) => t in s.threads && s.threads[t].Publishing?
    case Leave(t) => t in s.threads && s.threads[t].Leaving?
    case CallFlush(t) => t in s.threads && s.threads[t].Idle?
    case LoadTarget(t) => t in s.threads && s.threads[t].FlushCalled?
    case CheckDrained(t) => t in s.threads && s.threads[t].FlushWaiting?
    case FlushOne(t) => t in s.threads && s.threads[t].FlushingSinks? && s.threads[t].next < |s.sinks|
    case ReturnFlush(t) => t in s.threads && s.threads[t].FlushingSinks? && s.threads[t].next == |s.sinks|
    case SetStop => true
    case Peek => s.consumer.Peeking?
    case Render => s.consumer.Rendering?
    case Write => s.consumer.Writing?
    case Release => s.consumer.Releasing?
    case Advance => s.consumer.Advancing?
    case LoadStop => s.consumer.FoundEmpty?
    case LoadInFlight => s.consumer.SawStop?
    case LoadCounts => s.consumer.SawQuiet?
    case ConsumerFlush => s.consumer.Flushing?
  }

  function Go(s: State, t: Tid, pc: Pc): State {
    s.(threads := s.threads[t := pc])
  }

  function SetSequence(c: Config, s: State, pos: nat, q: nat): State
    requires |s.slots| == Capacity(c)
  {
    var i := SlotOf(c, pos);
    s.(slots := s.slots[i := s.slots[i].(sequence := q)])
  }

  function FlushSink(s: State, j: nat): State
    requires j < |s.sinks|
  {
    s.(sinks := s.sinks[j := s.sinks[j].(flushed := |s.sinks[j].written|)])
  }

  /** A step of enqueue. */
  function EnqueueStep(c: Config, s: State, a: Action): State
    requires WellFormed(c, s) && Enabled(s, a)
    requires a.Call? || a.Register? || a.LoadPos? || a.LoadSequence? || a.Cas? || a.GiveUp? || a.CountDrop? ||
             a.Copy? || a.Store? || a.Publish? || a.Leave?
  {
    var t := a.t;
    var pc := s.threads[t];
    match a
    case Call(_, rec) => Go(s, t, Calling(rec)).(calls := s.calls + 1)
    case Register(_) => Go(s, t, Entered(pc.rec)).(inFlight := s.inFlight + 1)
    case LoadPos(_) => Go(s, t, HavePos(pc.rec, s.enqueuePos))
    case LoadSequence(_) =>
      var q := s.slots[SlotOf(c, pc.pos)].sequence;
      if q == pc.pos then Go(s, t, Trying(pc.rec, pc.pos))
      else if q < pc.pos then Go(s, t, Full)
      else Go(s, t, Entered(pc.rec))
    case Cas(_, spurious) =>
      if s.enqueuePos == pc.pos && !spurious then
        Go(s, t, Copying(pc.rec, pc.pos, 0, [])).(enqueuePos := pc.pos + 1, claims := s.claims + [pc.rec])
      else Go(s, t, HavePos(pc.rec, s.enqueuePos))
    case GiveUp(_) => Go(s, t, Dropping).(inFlight := s.inFlight - 1)
    case CountDrop(_) => Go(s, t, Idle).(dropped := s.dropped + 1)
    case Copy(_) =>
      var i := SlotOf(c, pc.pos);
      var copied := CopyArg(s.arenas[i], pc.used, pc.rec.args[|pc.done|]);
      Go(s, t, Copying(pc.rec, pc.pos, copied.used, pc.done + [copied.arg])).(arenas := s.arenas[i := copied.arena])
    case Store(_) =>
      var i := SlotOf(c, pc.pos);
      Go(s, t, Publishing(pc.rec, pc.pos)).(slots := s.slots[i := s.slots[i].(item := Stored(pc.rec.meta, pc.done))])
    case Publish(_) => Go(SetSequence(c, s, pc.pos, pc.pos + 1), t, Leaving(pc.pos))
    case Leave(_) => Go(s, t, Idle).(inFlight := s.inFlight - 1, returned := s.returned + {pc.pos})
  }

  /** A step of flush, or of the destructor setting the stop flag. */
  function FlushStep(c: Config, s: State, a: Action): State
    requires WellFormed(c, s) && Enabled(s, a)
    requires a.CallFlush? || a.LoadTarget? || a.CheckDrained? || a.FlushOne? || a.ReturnFlush? || a.SetStop?
  {
    match a
    case CallFlush(t) => Go(s, t, FlushCalled(s.returned))
    case LoadTarget(t) => Go(s, t, FlushWaiting(s.threads[t].before, s.enqueuePos))
    case CheckDrained(t) =>
      var pc := s.threads[t];
      if s.dequeuePos < pc.target then s else Go(s, t, FlushingSinks(pc.before, pc.target, 0))
    case FlushOne(t) => var pc := s.threads[t]; Go(FlushSink(s, pc.next), t, pc.(next := pc.next + 1))
    case ReturnFlush(t) => Go(s, t, Idle)
    case SetStop => s.(stop := true)
  }

  predicate IsConsumerAction(a: Action) {
    a.Peek? || a.Render? || a.Write? || a.Release? || a.Advance? || a.LoadStop? || a.LoadInFlight? ||
    a.LoadCounts? || a.ConsumerFlush?
  }

  /** A step of the consumer's loop. */
  function ConsumerStep(c: Config, s: State, a: Action): State
    requires WellFormed(c, s) && Enabled(s, a) && IsConsumerAction(a)
  {
    var front := SlotOf(c, s.dequeuePos);
    match a
    case Peek =>
      s.(consumer := if s.slots[front].sequence == s.dequeuePos + 1 then Rendering([]) else FoundEmpty)
    case Render =>
      var item, acc := s.slots[front].item, s.consumer.acc;
      if |acc| < |item.args| then s.(consumer := Rendering(acc + [ReadArg(s.arenas[front], item.args[|acc|])]))
      else s.(consumer := Writing(0, Line(item.meta, acc)))
    case Write =>
      var Writing(j, line) := s.consumer;
      if j == |s.sinks| then s.(consumer := Releasing)
      else s.(sinks := s.sinks[j := s.sinks[j].(written := s.sinks[j].written + [line])],
              consumer := Writing(j + 1, line))
    case Release => SetSequence(c, s, s.dequeuePos, s.dequeuePos + Capacity(c)).(consumer := Advancing)
    case Advance => s.(dequeuePos := s.dequeuePos + 1, consumer := Peeking)
    case LoadStop => s.(consumer := if s.stop then SawStop else Flushing(0, false))
    case LoadInFlight => s.(consumer := if s.inFlight == 0 then SawQuiet else Flushing(0, false))
    case LoadCounts => s.(consumer := Flushing(0, s.enqueuePos <= s.dequeuePos))
    case ConsumerFlush =>
      var Flushing(j, last) := s.consumer;
      if j == |s.sinks| then s.(consumer := if last then Stopped else Peeking)
      else FlushSink(s, j).(consumer := Flushing(j + 1, last))
  }

  function Apply(c: Config, s: State, a: Action): (s': State)
    requires WellFormed(c, s) && Enabled(s, a)
  {
    if IsConsumerAction(a) then ConsumerStep(c, s, a)
    else if a.CallFlush? || a.LoadTarget? || a.CheckDrained? || a.FlushOne? || a.ReturnFlush? || a.SetStop? then
      FlushStep(c, s, a)
    else EnqueueStep(c, s, a)
  }

  lemma ApplyWellFormed(c: Config, s: State, a: Action)
    requires WellFormed(c, s) && Enabled(s, a)
    ensures WellFormed(c, Apply(c, s, a))
    ensures Apply(c, s, a).threads.Keys == s.threads.Keys
  {
    if IsConsumerAction(a) {
      ConsumerWellFormed(c, s, a);
    } else if a.CallFlush? || a.LoadTarget? || a.CheckDrained? || a.FlushOne? || a.ReturnFlush? || a.SetStop? {
      FlushWellFormed(c, s, a);
    } else {
      EnqueueWellFormed(c, s, a);
    }
  }

  lemma ConsumerWellFormed(c: Config, s: State, a: Action)
    requires WellFormed(c, s) && Enabled(s, a) && IsConsumerAction(a)
    ensures WellFormed(c, ConsumerStep(c, s, a)) && ConsumerStep(c, s, a).threads == s.threads
  {
    hide SlotOf;
  }

  lemma FlushWellFormed(c: Config, s: State, a: Action)
    requires WellFormed(c, s) && Enabled(s, a)
    requires a.CallFlush? || a.LoadTarget? || a.CheckDrained? || a.FlushOne? || a.ReturnFlush? || a.SetStop?
    ensures WellFormed(c, FlushStep(c, s, a)) && FlushStep(c, s, a).threads.Keys == s.threads.Keys
  {
  }

  lemma EnqueueWellFormed(c: Config, s: State, a: Action)
    requires WellFormed(c, s) && Enabled(s, a) && !IsConsumerAction(a)
    requires !a.CallFlush? && !a.LoadTarget? && !a.CheckDrained? && !a.FlushOne? && !a.ReturnFlush? && !a.SetStop?
    ensures WellFormed(c, EnqueueStep(c, s, a)) && EnqueueStep(c, s, a).threads.Keys == s.threads.Keys
  {
    hide SlotOf, CopyArg;
  }

  // ---------- Runs

  /** Every action is enabled when its turn comes. */
  ghost predicate IsRun(c: Config, s: State, run: seq<Action>)
    requires WellFormed(c, s)
    decreases |run|
  {
    run == [] ||
    (Enabled(s, run[0]) && (ApplyWellFormed(c, s, run[0]); IsRun(c, Apply(c, s, run[0]), run[1..])))
  }

  ghost function After(c: Config, s: State, run: seq<Action>): (s': State)
    requires WellFormed(c, s) && IsRun(c, s, run)
    ensures WellFormed(c, s')
    decreases |run|
  {
    if run == [] then s else
    ApplyWellFormed(c, s, run[0]);
    After(c, Apply(c, s, run[0]), run[1..])
  }
}
