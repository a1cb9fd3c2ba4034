/**
 * Hashing a module: workers claim operations from a shared counter and collect
 * hash strings; the collected strings are sorted and hashed once more.
 */
module ModuleHash {
  import opened ByteStrings
  import opened Counting
  import opened HashOrder

  // ---------- Per-worker caches

  /** The hashes one worker has collected. */
  class HashCache {
    var hashes: seq<string>

    constructor ()
      ensures hashes == []
    {
      hashes := [];
    }

    /** Records the hash of one operation, unless hashing it failed. */
    method ComputeHash(outcome: Option<string>) returns (ok: bool)
      modifies this
      ensures ok == outcome.Some?
      ensures hashes == old(hashes) + Hashes([outcome])
    {
      assert [outcome][1..] == [];
      if outcome.None? {
        return false;
      }
      hashes := hashes + [outcome.value];
      return true;
    }

    /** Takes over everything the other cache holds. */
    method Join(other: HashCache)
      requires other != this
      modifies this, other
      ensures hashes == old(hashes) + old(other.hashes) && other.hashes == []
    {
      hashes := hashes + other.hashes;
      other.hashes := [];
    }
  }

  function Flatten(caches: seq<seq<string>>): seq<string> {
    if caches == [] then [] else Flatten(caches[..|caches| - 1]) + caches[|caches| - 1]
  }

  ghost function Contents(caches: seq<HashCache>): (r: seq<seq<string>>)
    reads caches
    ensures |r| == |caches| && forall i :: 0 <= i < |caches| ==> r[i] == caches[i].hashes
  {
    if caches == [] then [] else Contents(caches[..|caches| - 1]) + [caches[|caches| - 1].hashes]
  }

  /** Joins every worker's cache into the first one, in order. */
  method Consolidate(original: HashCache, caches: seq<HashCache>)
    requires original !in caches
    requires forall i, j :: 0 <= i < j < |caches| ==> caches[i] != caches[j]
    modifies original, caches
    ensures original.hashes == old(original.hashes) + Flatten(old(Contents(caches)))
    ensures forall i :: 0 <= i < |caches| ==> caches[i].hashes == []
  {
    ghost var was := Contents(caches);
    assert original.hashes + Flatten(was[..0]) == original.hashes;
    for i := 0 to |caches|
      invariant original.hashes == old(original.hashes) + Flatten(was[..i])
      invariant forall j :: 0 <= j < i ==> caches[j].hashes == []
      invariant forall j :: i <= j < |caches| ==> caches[j].hashes == was[j]
    {
      assert was[..i + 1][..i] == was[..i];
      original.Join(caches[i]);
    }
    assert was[..|was|] == was;
  }

  // ---------- The sequential form

  /** The hash strings, in order. */
  function Hashes(outcomes: seq<Option<string>>): seq<string> {
    if outcomes == [] then [] else HashIfAny(outcomes[0]) + Hashes(outcomes[1..])
  }

  function HashIfAny(outcome: Option<string>): seq<string> {
    if outcome.Some? then [outcome.value] else []
  }

  lemma {:induction false} HashesAppend(a: seq<Option<string>>, b: seq<Option<string>>)
    ensures Hashes(a + b) == Hashes(a) + Hashes(b)
  {
    hide HashIfAny;
    if a == [] {
      assert a + b == b;
    } else {
      HashesAppend(a[1..], b);
      assert (a + b)[0] == a[0] && (a + b)[1..] == a[1..] + b;
      assert Hashes(a + b) == HashIfAny(a[0]) + (Hashes(a[1..]) + Hashes(b));
    }
  }

  lemma {:induction false} HashesOccurs(outcomes: seq<Option<string>>, h: string)
    ensures Occurs(Hashes(outcomes), h) == Occurs(outcomes, Some(h))
  {
    hide Occurs;
    OccursNothing(h);
    OccursNothing(Some(h));
    if outcomes == [] {
    } else {
      HashesOccurs(outcomes[1..], h);
      OccursHead(outcomes, Some(h));
      var rest := Hashes(outcomes[1..]);
      if outcomes[0].Some? {
        OccursCons(outcomes[0].value, rest, h);
      } else {
        assert [] + rest == rest;
      }
    }
  }

  /** Without threads the operations are hashed one after the other. */
  method ForEachSequentially(cache: HashCache, outcomes: seq<Option<string>>) returns (ok: bool)
    modifies cache
    ensures ok <==> None !in outcomes
    ensures ok ==> cache.hashes == old(cache.hashes) + Hashes(outcomes)
  {
    assert cache.hashes + Hashes(outcomes[..0]) == cache.hashes;
    for i := 0 to |outcomes|
      invariant None !in outcomes[..i]
      invariant cache.hashes == old(cache.hashes) + Hashes(outcomes[..i])
    {
      assert outcomes[..i + 1] == outcomes[..i] + [outcomes[i]];
      HashesAppend(outcomes[..i], [outcomes[i]]);
      var done := cache.ComputeHash(outcomes[i]);
      if !done {
        return false;
      }
    }
    assert outcomes[..|outcomes|] == outcomes;
    return true;
  }

  // ---------- The parallel form

  datatype Pc =
    | Idle                 // about to read the failure flag
    | Claiming             // about to take the next index
    | Working(index: nat)  // hashing that operation
    | Failing              // about to raise the failure flag
    | Done

  datatype Worker = Worker(pc: Pc, cache: seq<string>)

  datatype Pool = Pool(next: nat, failed: bool, workers: seq<Worker>)

  function Start(count: nat): Pool {
    Pool(0, false, seq(count, _ => Worker(Idle, [])))
  }

  ghost predicate InRange(outcomes: seq<Option<string>>, s: Pool) {
    forall w :: 0 <= w < |s.workers| && s.workers[w].pc.Working? ==> s.workers[w].pc.index < |outcomes|
  }

  /** One step of worker w; nothing happens when it is done. */
  function Step(outcomes: seq<Option<string>>, s: Pool, w: nat): Pool
    requires w < |s.workers| && InRange(outcomes, s)
  {
    var me := s.workers[w];
    match me.pc
    case Idle =>
      s.(workers := s.workers[w := me.(pc := if s.failed then Done else Claiming)])
    case Claiming =>
      s.(next := s.next + 1,
         workers := s.workers[w := me.(pc := if s.next < |outcomes| then Working(s.next) else Done)])
    case Working(index) =>
      s.(workers := s.workers[w :=
           if outcomes[index].Some? then Worker(Idle, me.cache + [outcomes[index].value]) else me.(pc := Failing)])
    case Failing =>
      s.(failed := true, workers := s.workers[w := me.(pc := Idle)])
    case Done => s
  }

  lemma StepInRange(outcomes: seq<Option<string>>, s: Pool, w: nat)
    requires w < |s.workers| && InRange(outcomes, s)
    ensures InRange(outcomes, Step(outcomes, s, w)) && |Step(outcomes, s, w).workers| == |s.workers|
  {
  }

  /** How often the worker accounts for one outcome, in its cache or in its hands. */
  ghost function Weight(outcomes: seq<Option<string>>, me: Worker, k: Option<string>): nat {
    (if k.Some? then Occurs(me.cache, k.value) else if me.pc.Failing? then 1 else 0)
    + (if me.pc.Working? && me.pc.index < |outcomes| && outcomes[me.pc.index] == k then 1 else 0)
  }

  ghost function Total(outcomes: seq<Option<string>>, workers: seq<Worker>, k: Option<string>): nat {
    if workers == [] then 0 else Weight(outcomes, workers[0], k) + Total(outcomes, workers[1..], k)
  }

  lemma {:induction false} TotalUpdate(outcomes: seq<Option<string>>, workers: seq<Worker>, w: nat, me: Worker,
                                       k: Option<string>)
    requires w < |workers|
    ensures Total(outcomes, workers[w := me], k)
         == Total(outcomes, workers, k) - Weight(outcomes, workers[w], k) + Weight(outcomes, me, k)
  {
    hide Weight;
    if w == 0 {
      assert workers[0 := me][1..] == workers[1..];
    } else {
      TotalUpdate(outcomes, workers[1..], w - 1, me, k);
      assert workers[w := me][1..] == workers[1..][w - 1 := me];
    }
  }

  function Claimed(outcomes: seq<Option<string>>, s: Pool): seq<Option<string>> {
    outcomes[..if s.next < |outcomes| then s.next else |outcomes|]
  }

  /** Every claimed outcome is in exactly one worker's cache or hands, unless it failed. */
  ghost predicate Accounted(outcomes: seq<Option<string>>, s: Pool, k: Option<string>) {
    if k.Some? || !s.failed then Total(outcomes, s.workers, k) == Occurs(Claimed(outcomes, s), k)
    else None in Claimed(outcomes, s)
  }

  ghost predicate Inv(outcomes: seq<Option<string>>, s: Pool) {
    && InRange(outcomes, s)
    && (forall k :: Accounted(outcomes, s, k))
    && (forall w :: 0 <= w < |s.workers| && s.workers[w].pc.Done? ==> s.failed || s.next >= |outcomes|)
  }

  lemma {:induction false} TotalOfIdle(outcomes: seq<Option<string>>, count: nat, k: Option<string>)
    ensures Total(outcomes, Start(count).workers, k) == 0
  {
    if count == 0 {
    } else {
      TotalOfIdle(outcomes, count - 1, k);
      assert Start(count).workers[1..] == Start(count - 1).workers;
    }
  }

  lemma StartInv(outcomes: seq<Option<string>>, count: nat)
    ensures Inv(outcomes, Start(count))
  {
    forall k ensures Accounted(outcomes, Start(count), k) {
      TotalOfIdle(outcomes, count, k);
    }
  }

  lemma ClaimOneMore(outcomes: seq<Option<string>>, n: nat, k: Option<string>)
    requires n < |outcomes|
    ensures Occurs(outcomes[..n + 1], k) == Occurs(outcomes[..n], k) + if outcomes[n] == k then 1 else 0
  {
    assert outcomes[..n + 1] == outcomes[..n] + [outcomes[n]];
    OccursSnoc(outcomes[..n], outcomes[n], k);
  }

  /** The failure flag goes up only for an operation that was claimed and failed. */
  lemma FailingIsClaimed(outcomes: seq<Option<string>>, s: Pool, w: nat)
    requires w < |s.workers| && s.workers[w].pc.Failing? && Accounted(outcomes, s, None)
    ensures None in Claimed(outcomes, s)
  {
    hide Total;
    TotalUpdate(outcomes, s.workers, w, Worker(Done, []), None);
    OccursIn(Claimed(outcomes, s), None);
  }

  lemma StepAccounted(outcomes: seq<Option<string>>, s: Pool, w: nat, k: Option<string>)
    requires w < |s.workers| && InRange(outcomes, s) && Accounted(outcomes, s, k)
    ensures Accounted(outcomes, Step(outcomes, s, w), k)
  {
    hide Total, Occurs;
    var me, t := s.workers[w], Step(outcomes, s, w);
    TotalUpdate(outcomes, s.workers, w, t.workers[w], k);
    assert s.workers[w := me] == s.workers;
    match me.pc
    case Idle =>
    case Claiming =>
      if s.next < |outcomes| {
        ClaimOneMore(outcomes, s.next, k);
        OccursIn(outcomes[..s.next + 1], k);
        OccursIn(outcomes[..s.next], k);
      }
    case Working(index) =>
      if outcomes[index].Some? && k.Some? {
        OccursSnoc(me.cache, outcomes[index].value, k.value);
      }
    case Failing =>
      if k.None? { FailingIsClaimed(outcomes, s, w); }
    case Done =>
  }

  lemma StepInv(outcomes: seq<Option<string>>, s: Pool, w: nat)
    requires w < |s.workers| && Inv(outcomes, s)
    ensures Inv(outcomes, Step(outcomes, s, w))
  {
    StepInRange(outcomes, s, w);
    forall k ensures Accounted(outcomes, Step(outcomes, s, w), k) {
      StepAccounted(outcomes, s, w, k);
    }
  }

  /** The pool after a schedule: which worker takes each step. */
  function Run(outcomes: seq<Option<string>>, count: nat, schedule: seq<nat>): (s: Pool)
    requires forall i :: 0 <= i < |schedule| ==> schedule[i] < count
    ensures |s.workers| == count && InRange(outcomes, s)
  {
    if schedule == [] then Start(count) else
    var n := |schedule| - 1;
    var before := Run(outcomes, count, schedule[..n]);
    StepInRange(outcomes, before, schedule[n]);
    Step(outcomes, before, schedule[n])
  }

  lemma {:induction false} RunInv(outcomes: seq<Option<string>>, count: nat, schedule: seq<nat>)
    requires forall i :: 0 <= i < |schedule| ==> schedule[i] < count
    ensures Inv(outcomes, Run(outcomes, count, schedule))
  {
    if schedule == [] {
      StartInv(outcomes, count);
    } else {
      var n := |schedule| - 1;
      RunInv(outcomes, count, schedule[..n]);
      StepInv(outcomes, Run(outcomes, count, schedule[..n]), schedule[n]);
    }
  }

  predicate Finished(s: Pool) {
    forall w :: 0 <= w < |s.workers| ==> s.workers[w].pc.Done?
  }

  /** The caches joined in worker order. */
  function Joined(workers: seq<Worker>): seq<string> {
    if workers == [] then [] else workers[0].cache + Joined(workers[1..])
  }

  lemma {:induction false} JoinedAppend(workers: seq<Worker>, last: Worker)
    ensures Joined(workers + [last]) == Joined(workers) + last.cache
  {
    if workers == [] {
      assert workers + [last] == [last] && [last][1..] == [];
    } else {
      JoinedAppend(workers[1..], last);
      assert (workers + [last])[1..] == workers[1..] + [last];
    }
  }

  function OtherCaches(workers: seq<Worker>): (r: seq<seq<string>>)
    requires workers != []
    ensures |r| == |workers| - 1
  {
    seq(|workers| - 1, i requires 0 <= i < |workers| - 1 => workers[i + 1].cache)
  }

  /** Joining in worker order is what consolidating the other caches into the first gives. */
  lemma {:induction false} JoinedIsConsolidated(workers: seq<Worker>)
    requires workers != []
    ensures Joined(workers) == workers[0].cache + Flatten(OtherCaches(workers))
  {
    if |workers| == 1 {
      assert workers[1..] == [];
    } else {
      var n := |workers| - 1;
      JoinedIsConsolidated(workers[..n]);
      JoinedAppend(workers[..n], workers[n]);
      assert workers[..n] + [workers[n]] == workers;
      hide Joined;
      assert OtherCaches(workers)[..n - 1] == OtherCaches(workers[..n]);
      assert OtherCaches(workers)[n - 1] == workers[n].cache;
    }
  }

  lemma {:induction false} JoinedTotal(outcomes: seq<Option<string>>, workers: seq<Worker>, k: Option<string>)
    requires forall w :: 0 <= w < |workers| ==> workers[w].pc.Done?
    ensures Total(outcomes, workers, k) == if k.Some? then Occurs(Joined(workers), k.value) else 0
  {
    if workers == [] {
    } else {
      JoinedTotal(outcomes, workers[1..], k);
      if k.Some? { OccursAppend(workers[0].cache, Joined(workers[1..]), k.value); }
    }
  }

  /** A finished pool failed exactly when some operation fails, and otherwise holds every hash. */
  lemma FinishedExact(outcomes: seq<Option<string>>, s: Pool)
    requires Inv(outcomes, s) && Finished(s) && s.workers != []
    ensures s.failed <==> None in outcomes
    ensures !s.failed ==> multiset(Joined(s.workers)) == multiset(Hashes(outcomes))
  {
    hide Total, Joined, InRange, Occurs;
    assert s.workers[0].pc.Done?;
    var claimed := Claimed(outcomes, s);
    assert Accounted(outcomes, s, None);
    JoinedTotal(outcomes, s.workers, None);
    OccursIn(claimed, None);
    if !s.failed {
      assert claimed == outcomes;
      forall h ensures Occurs(Joined(s.workers), h) == Occurs(Hashes(outcomes), h) {
        assert Accounted(outcomes, s, Some(h));
        JoinedTotal(outcomes, s.workers, Some(h));
        HashesOccurs(outcomes, h);
      }
      SameCounts(Joined(s.workers), Hashes(outcomes));
    }
  }

  // ---------- Every schedule comes to an end

  function Rank(pc: Pc): nat {
    match pc
    case Done => 0
    case Claiming => 1
    case Idle => 2
    case Failing => 3
    case Working(_) => 4
  }

  function Ranks(workers: seq<Worker>): nat {
    if workers == [] then 0 else Rank(workers[0].pc) + Ranks(workers[1..])
  }

  lemma {:induction false} RanksUpdate(workers: seq<Worker>, w: nat, me: Worker)
    requires w < |workers|
    ensures Ranks(workers[w := me]) == Ranks(workers) - Rank(workers[w].pc) + Rank(me.pc)
  {
    if w == 0 {
      assert workers[0 := me][1..] == workers[1..];
    } else {
      RanksUpdate(workers[1..], w - 1, me);
      assert workers[w := me][1..] == workers[1..][w - 1 := me];
    }
  }

  /** The steps that can still be taken, at most. */
  function Remaining(outcomes: seq<Option<string>>, s: Pool): nat {
    4 * (if s.next < |outcomes| then |outcomes| - s.next else 0) + Ranks(s.workers)
  }

  lemma StepProgress(outcomes: seq<Option<string>>, s: Pool, w: nat)
    requires w < |s.workers| && InRange(outcomes, s) && !s.workers[w].pc.Done?
    ensures Remaining(outcomes, Step(outcomes, s, w)) < Remaining(outcomes, s)
  {
    hide InRange, Ranks;
    RanksUpdate(s.workers, w, Step(outcomes, s, w).workers[w]);
  }

  /** Each step is taken by a worker that is not done. */
  ghost predicate Busy(outcomes: seq<Option<string>>, count: nat, schedule: seq<nat>)
    requires forall i :: 0 <= i < |schedule| ==> schedule[i] < count
  {
    forall i :: 0 <= i < |schedule| ==> !Run(outcomes, count, schedule[..i]).workers[schedule[i]].pc.Done?
  }

  lemma {:induction false} StartRanks(count: nat)
    ensures Ranks(Start(count).workers) == 2 * count
  {
    if count == 0 {
    } else {
      StartRanks(count - 1);
      assert Start(count).workers[1..] == Start(count - 1).workers;
    }
  }

  /** A busy schedule was busy before its last step, which some unfinished worker took. */
  lemma BusyBefore(outcomes: seq<Option<string>>, count: nat, schedule: seq<nat>)
    requires schedule != [] && forall i :: 0 <= i < |schedule| ==> schedule[i] < count
    requires Busy(outcomes, count, schedule)
    ensures var n := |schedule| - 1;
      && Busy(outcomes, count, schedule[..n])
      && !Run(outcomes, count, schedule[..n]).workers[schedule[n]].pc.Done?
  {
    hide Run, InRange;
    var n := |schedule| - 1;
    forall i | 0 <= i < n
      ensures !Run(outcomes, count, schedule[..n][..i]).workers[schedule[..n][i]].pc.Done?
    {
      assert schedule[..n][..i] == schedule[..i];
    }
  }

  /** The last step of a busy schedule uses up some of the budget. */
  lemma LastStepProgress(outcomes: seq<Option<string>>, count: nat, schedule: seq<nat>)
    requires schedule != [] && forall i :: 0 <= i < |schedule| ==> schedule[i] < count
    requires !Run(outcomes, count, schedule[..|schedule| - 1]).workers[schedule[|schedule| - 1]].pc.Done?
    ensures Remaining(outcomes, Run(outcomes, count, schedule))
          < Remaining(outcomes, Run(outcomes, count, schedule[..|schedule| - 1]))
  {
    hide Step, InRange, Remaining;
    var n := |schedule| - 1;
    StepProgress(outcomes, Run(outcomes, count, schedule[..n]), schedule[n]);
  }

  lemma StartRemaining(outcomes: seq<Option<string>>, count: nat)
    ensures Remaining(outcomes, Start(count)) == 4 * |outcomes| + 2 * count
  {
    hide Ranks;
    StartRanks(count);
  }

  /** No schedule keeps workers busy for more than four steps an operation and two a worker. */
  lemma {:induction false} RunsEnd(outcomes: seq<Option<string>>, count: nat, schedule: seq<nat>)
    requires forall i :: 0 <= i < |schedule| ==> schedule[i] < count
    requires Busy(outcomes, count, schedule)
    ensures |schedule| + Remaining(outcomes, Run(outcomes, count, schedule)) <= 4 * |outcomes| + 2 * count
  {
    if schedule == [] {
      StartRemaining(outcomes, count);
    } else {
      hide Run, Busy, Remaining;
      BusyBefore(outcomes, count, schedule);
      RunsEnd(outcomes, count, schedule[..|schedule| - 1]);
      LastStepProgress(outcomes, count, schedule);
    }
  }

  /** Every schedule can be completed: some continuation, within the budget that is left, finishes the pool. */
  lemma {:induction false} RunsFinish(outcomes: seq<Option<string>>, count: nat, schedule: seq<nat>)
    returns (more: seq<nat>)
    requires forall i :: 0 <= i < |schedule| ==> schedule[i] < count
    ensures forall i :: 0 <= i < |schedule + more| ==> (schedule + more)[i] < count
    ensures |more| <= Remaining(outcomes, Run(outcomes, count, schedule))
    ensures Finished(Run(outcomes, count, schedule + more))
    decreases Remaining(outcomes, Run(outcomes, count, schedule))
  {
    hide Run, Remaining, InRange;
    var s := Run(outcomes, count, schedule);
    if w :| 0 <= w < |s.workers| && !s.workers[w].pc.Done? {
      var next := schedule + [w];
      assert next[..|next| - 1] == schedule;
      LastStepProgress(outcomes, count, next);
      var rest := RunsFinish(outcomes, count, next);
      more := [w] + rest;
      assert schedule + more == next + rest;
    } else {
      more := [];
      assert schedule + more == schedule;
    }
  }

  // ---------- The module's hash

  /** The hash of the sorted hashes written one after the other. */
  function Digest(hasher: string -> string, hashes: seq<string>): string {
    hasher(Concat(Sort(hashes)))
  }

  function ModuleHashOf(hasher: string -> string, outcomes: seq<Option<string>>): Option<string> {
    if None in outcomes then None else Some(Digest(hasher, Hashes(outcomes)))
  }

  function PoolHash(hasher: string -> string, s: Pool): Option<string> {
    if s.failed then None else Some(Digest(hasher, Joined(s.workers)))
  }

  lemma DigestOfMultiset(hasher: string -> string, a: seq<string>, b: seq<string>)
    requires multiset(a) == multiset(b)
    ensures Digest(hasher, a) == Digest(hasher, b)
  {
    SortSorts(a);
    SortSorts(b);
    hide Sort, Sorted, Concat;
    SortedUnique(Sort(a), Sort(b));
  }

  /** However the hashes are listed in ascending order, the digest is the hash of that list written out. */
  lemma DigestIs(hasher: string -> string, hashes: seq<string>, sorted: seq<string>)
    requires Sorted(sorted) && multiset(sorted) == multiset(hashes)
    ensures Digest(hasher, hashes) == hasher(Concat(sorted))
  {
    SortSorts(hashes);
    hide Sort, Sorted, Concat;
    SortedUnique(Sort(hashes), sorted);
  }

  /** The hash of a module: none if an operation fails, else the hash of the operations' hashes, each as often as it
      occurs, written out in ascending order. */
  lemma ModuleHashIs(hasher: string -> string, outcomes: seq<Option<string>>, sorted: seq<string>)
    requires Sorted(sorted) && forall h :: multiset(sorted)[h] == multiset(outcomes)[Some(h)]
    ensures ModuleHashOf(hasher, outcomes) == if None in outcomes then None else Some(hasher(Concat(sorted)))
  {
    hide Sorted, Digest;
    forall h ensures Occurs(sorted, h) == Occurs(Hashes(outcomes), h) {
      HashesOccurs(outcomes, h);
    }
    SameCounts(sorted, Hashes(outcomes));
    DigestIs(hasher, Hashes(outcomes), sorted);
  }

  /** Every schedule of any number of workers that finishes gives the sequential answer. */
  lemma ScheduleIndependent(hasher: string -> string, outcomes: seq<Option<string>>, count: nat, schedule: seq<nat>)
    requires count > 0 && forall i :: 0 <= i < |schedule| ==> schedule[i] < count
    requires Finished(Run(outcomes, count, schedule))
    ensures PoolHash(hasher, Run(outcomes, count, schedule)) == ModuleHashOf(hasher, outcomes)
  {
    RunInv(outcomes, count, schedule);
    hide Run, Inv, Digest;
    var s := Run(outcomes, count, schedule);
    FinishedExact(outcomes, s);
    if !s.failed { DigestOfMultiset(hasher, Joined(s.workers), Hashes(outcomes)); }
  }

  /** The order of the operations does not matter. */
  lemma OrderIndependent(hasher: string -> string, a: seq<Option<string>>, b: seq<Option<string>>)
    requires multiset(a) == multiset(b)
    ensures ModuleHashOf(hasher, a) == ModuleHashOf(hasher, b)
  {
    OccursIn(a, None);
    OccursIn(b, None);
    assert forall x :: Occurs(a, x) == Occurs(b, x);
    hide Digest, Occurs;
    forall h ensures Occurs(Hashes(a), h) == Occurs(Hashes(b), h) {
      HashesOccurs(a, h);
      HashesOccurs(b, h);
    }
    SameCounts(Hashes(a), Hashes(b));
    DigestOfMultiset(hasher, Hashes(a), Hashes(b));
  }

  ghost predicate Injective(hasher: string -> string) {
    forall x, y :: hasher(x) == hasher(y) ==> x == y
  }

  lemma SortLengths(s: seq<string>, n: nat)
    requires AllOfLength(s, n)
    ensures AllOfLength(Sort(s), n)
  {
    SortSorts(s);
    hide Sort, Sorted;
    forall i | 0 <= i < |Sort(s)| ensures |Sort(s)[i]| == n {
      assert Sort(s)[i] in multiset(Sort(s));
      assert Sort(s)[i] in s;
    }
  }

  /** With hashes of one length and no collision, the digest tells different collections apart. */
  lemma DigestExact(hasher: string -> string, a: seq<string>, b: seq<string>, n: nat)
    requires n > 0 && AllOfLength(a, n) && AllOfLength(b, n) && Injective(hasher)
    ensures Digest(hasher, a) == Digest(hasher, b) <==> multiset(a) == multiset(b)
  {
    if multiset(a) == multiset(b) {
      DigestOfMultiset(hasher, a, b);
    } else if Digest(hasher, a) == Digest(hasher, b) {
      SortLengths(a, n);
      SortLengths(b, n);
      SortSorts(a);
      SortSorts(b);
      hide Sort, Concat, Sorted;
      ConcatInjective(Sort(a), Sort(b), n);
    }
  }

  /** Sorts the collected hashes and streams them into the hasher. */
  method Finish(hasher: string -> string, hashes: seq<string>) returns (r: string)
    ensures r == Digest(hasher, hashes)
    ensures forall s :: Sorted(s) && multiset(s) == multiset(hashes) ==> r == hasher(Concat(s))
  {
    forall s | Sorted(s) && multiset(s) == multiset(hashes) ensures Digest(hasher, hashes) == hasher(Concat(s)) {
      DigestIs(hasher, hashes, s);
    }
    var sorted := Sort(hashes);
    hide Sort, Sorted;
    var written := "";
    assert Concat(sorted[..0]) == "";
    for i := 0 to |sorted|
      invariant written == Concat(sorted[..i])
    {
      ConcatAppend(sorted[..i], sorted[i]);
      assert sorted[..i + 1] == sorted[..i] + [sorted[i]];
      written := written + sorted[i];
    }
    assert sorted[..|sorted|] == sorted;
    r := hasher(written);
  }

  // ---------- A failure stops the others

  function AboutToClaim(workers: seq<Worker>): nat {
    if workers == [] then 0 else (if workers[0].pc.Claiming? then 1 else 0) + AboutToClaim(workers[1..])
  }

  lemma {:induction false} AboutToClaimUpdate(workers: seq<Worker>, w: nat, me: Worker)
    requires w < |workers|
    ensures AboutToClaim(workers[w := me]) ==
            AboutToClaim(workers) - (if workers[w].pc.Claiming? then 1 else 0) + (if me.pc.Claiming? then 1 else 0)
  {
    if w == 0 {
      assert workers[0 := me][1..] == workers[1..];
    } else {
      AboutToClaimUpdate(workers[1..], w - 1, me);
      assert workers[w := me][1..] == workers[1..][w - 1 := me];
    }
  }

  lemma FailedStep(outcomes: seq<Option<string>>, s: Pool, w: nat)
    requires w < |s.workers| && InRange(outcomes, s) && s.failed
    ensures var s' := Step(outcomes, s, w);
      s'.failed && s'.next + AboutToClaim(s'.workers) == s.next + AboutToClaim(s.workers)
  {
    hide InRange, AboutToClaim;
    AboutToClaimUpdate(s.workers, w, Step(outcomes, s, w).workers[w]);
    assert s.workers[w := s.workers[w]] == s.workers;
  }

  /** From the moment the failure flag is up, only workers that had already looked at it claim another operation. */
  lemma {:induction false} FailureStops(outcomes: seq<Option<string>>, count: nat, schedule: seq<nat>, n: nat)
    requires n <= |schedule| && forall i :: 0 <= i < |schedule| ==> schedule[i] < count
    requires Run(outcomes, count, schedule[..n]).failed
    ensures var s, e := Run(outcomes, count, schedule[..n]), Run(outcomes, count, schedule);
      e.failed && e.next + AboutToClaim(e.workers) == s.next + AboutToClaim(s.workers)
    decreases |schedule| - n
  {
    hide Step, InRange, AboutToClaim;
    if n == |schedule| {
      assert schedule[..n] == schedule;
    } else {
      assert schedule[..n + 1][..n] == schedule[..n];
      FailedStep(outcomes, Run(outcomes, count, schedule[..n]), schedule[n]);
      FailureStops(outcomes, count, schedule, n + 1);
    }
  }
}
