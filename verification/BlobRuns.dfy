/** Runs of the cache: in-memory levels over one writable directory, observed from outside. */
module BlobRuns {
  import opened ByteStrings
  import opened BlobChain
  import Base64Url

  /** In-memory levels, then one writable directory. */
  ghost predicate Standard(ls: Chain) {
    && ls != []
    && (forall i :: 0 <= i < |ls| - 1 ==> ls[i].Memory?)
    && ls[|ls| - 1].Disk? && !ls[|ls| - 1].readOnly
  }

  function Files(ls: Chain): map<string, Bytes>
    requires ls != [] && ls[|ls| - 1].Disk?
  {
    ls[|ls| - 1].files
  }

  // ---------- What an outside observer needs to know

  /** What was stored since the chain was opened, and what the directory holds. */
  datatype View = View(session: map<Key, Bytes>, disk: map<Key, Bytes>) {
    function Visible(k: Key): Bytes
      requires k in session || k in disk
    {
      if k in session then session[k] else disk[k]
    }
  }

  /** The directory, read by file name, is the map held by the view, read by key. */
  ghost predicate DiskMatches(h: Digest, files: map<string, Bytes>, disk: map<Key, Bytes>) {
    forall k: Key :: (k in disk <==> FileName(k) in files) && (k in disk ==> files[FileName(k)] == Seal(h, disk[k]))
  }

  /** A memory level holds everything of the session and nothing but what is visible. */
  ghost predicate MemoryMatches(cache: map<Key, Bytes>, v: View) {
    && v.session.Keys <= v.disk.Keys
    && (forall k :: k in v.session ==> k in cache)
    && (forall k :: k in cache ==> k in v.disk && cache[k] == v.Visible(k))
  }

  ghost predicate Matches(h: Digest, ls: Chain, v: View) {
    && Standard(ls) && DiskMatches(h, Files(ls), v.disk)
    && (forall i :: 0 <= i < |ls| - 1 ==> MemoryMatches(ls[i].cache, v))
  }

  // ---------- Effect of each operation

  lemma {:induction false} TailStandard(ls: Chain)
    requires Standard(ls) && |ls| > 1
    ensures Standard(ls[1..]) && Files(ls[1..]) == Files(ls)
  {
  }

  /** Every memory level holds the value, and the directory has it if the key was new there. */
  ghost predicate StoredIn(h: Digest, r: Chain, ls: Chain, k: Key, x: Bytes)
    requires Standard(ls)
  {
    && Standard(r) && |r| == |ls|
    && (forall i :: 0 <= i < |ls| - 1 ==> r[i] == Memory(ls[i].cache[k := x]))
    && Files(r) == if FileName(k) in Files(ls) then Files(ls) else Files(ls)[FileName(k) := Seal(h, x)]
  }

  lemma InsertInDirectory(h: Digest, ls: Chain, k: Key, x: Bytes)
    requires Standard(ls) && |ls| == 1
    ensures StoredIn(h, Insert(h, ls, k, x), ls, k, x)
  {
    hide FileName, Seal;
    assert Contains(ls[1..], k) == false;
    assert Insert(h, ls, k, x) == [InsertHere(h, ls, k, x)];
  }

  lemma StoredAbove(h: Digest, r: Chain, ls: Chain, k: Key, x: Bytes)
    requires Standard(ls) && |ls| > 1 && Standard(ls[1..]) && StoredIn(h, r, ls[1..], k, x)
    ensures StoredIn(h, [Memory(ls[0].cache[k := x])] + r, ls, k, x)
  {
    hide FileName, Seal;
    var whole := [Memory(ls[0].cache[k := x])] + r;
    forall i | 0 <= i < |ls| - 1 ensures ls[i].Memory? && whole[i] == Memory(ls[i].cache[k := x]) {
      if i > 0 { assert whole[i] == r[i - 1] && ls[i] == ls[1..][i - 1]; }
    }
    assert whole[|whole| - 1] == r[|r| - 1] && ls[|ls| - 1] == ls[1..][|ls| - 2];
  }

  /** A store reaches every memory level, and the directory if the key is new there. */
  lemma {:induction false} InsertEffect(h: Digest, ls: Chain, k: Key, x: Bytes)
    requires Standard(ls)
    ensures StoredIn(h, Insert(h, ls, k, x), ls, k, x)
  {
    if |ls| == 1 {
      InsertInDirectory(h, ls, k, x);
    } else {
      TailStandard(ls);
      InsertEffect(h, ls[1..], k, x);
      hide StoredIn;
      StoredAbove(h, Insert(h, ls[1..], k, x), ls, k, x);
      assert ls[0].Memory?;
    }
  }

  lemma {:induction false} DiskGrows(h: Digest, files: map<string, Bytes>, disk: map<Key, Bytes>, k: Key, x: Bytes)
    requires DiskMatches(h, files, disk)
    ensures DiskMatches(h, if FileName(k) in files then files else files[FileName(k) := Seal(h, x)],
                        if k in disk then disk else disk[k := x])
  {
    hide Seal;
    forall q: Key | FileName(q) == FileName(k) ensures q == k {
      Base64Url.Injective(q, k);
    }
  }

  function Stored(v: View, k: Key, x: Bytes, hasMemory: bool): View {
    View(if hasMemory then v.session[k := x] else v.session, if k in v.disk then v.disk else v.disk[k := x])
  }

  lemma {:induction false} MemoryStored(cache: map<Key, Bytes>, v: View, k: Key, x: Bytes)
    requires MemoryMatches(cache, v)
    ensures MemoryMatches(cache[k := x], Stored(v, k, x, true))
  {
  }

  lemma {:induction false} InsertMatches(h: Digest, ls: Chain, v: View, k: Key, x: Bytes)
    requires Matches(h, ls, v)
    ensures Matches(h, Insert(h, ls, k, x), Stored(v, k, x, |ls| > 1))
  {
    hide FileName, Seal, DiskMatches, Insert, MemoryMatches;
    InsertEffect(h, ls, k, x);
    DiskGrows(h, Files(ls), v.disk, k, x);
    DiskKey(h, Files(ls), v.disk, k);
    forall i | 0 <= i < |ls| - 1 ensures MemoryMatches(ls[i].cache[k := x], Stored(v, k, x, true)) {
      MemoryStored(ls[i].cache, v, k, x);
    }
  }

  lemma {:induction false} DiskKey(h: Digest, files: map<string, Bytes>, disk: map<Key, Bytes>, k: Key)
    requires DiskMatches(h, files, disk)
    ensures k in disk <==> FileName(k) in files
    ensures k in disk ==> ReadFile(h, files[FileName(k)]) == Hit(disk[k])
  {
    hide FileName, Seal;
    if k in disk { ReadFileExact(h, files[FileName(k)], disk[k]); }
  }

  /** Membership is membership in the directory, whichever level answers. */
  lemma {:induction false} ContainsMatches(h: Digest, ls: Chain, v: View, k: Key)
    requires Matches(h, ls, v)
    ensures Contains(ls, k) <==> k in v.disk
  {
    hide FileName, DiskMatches;
    DiskKey(h, Files(ls), v.disk, k);
    if |ls| == 1 {
      assert Contains(ls[1..], k) == false;
    } else {
      TailMatches(h, ls, v);
      ContainsMatches(h, ls[1..], v, k);
    }
  }

  lemma {:induction false} TailMatches(h: Digest, ls: Chain, v: View)
    requires Matches(h, ls, v) && |ls| > 1
    ensures Matches(h, ls[1..], v)
  {
    hide DiskMatches, MemoryMatches;
    TailStandard(ls);
    assert forall i :: 0 <= i < |ls| - 2 ==> ls[1..][i] == ls[i + 1];
  }

  ghost predicate Everywhere(ls: Chain, k: Key, x: Bytes) {
    forall i :: 0 <= i < |ls| && ls[i].Memory? ==> k in ls[i].cache && ls[i].cache[k] == x
  }

  /** A search answers with the visible value, keeps the view, and puts a value found below into every level above. */
  lemma {:induction false} FindMatches(h: Digest, ls: Chain, v: View, k: Key)
    requires Matches(h, ls, v) && (|ls| > 1 || k !in v.session)
    ensures var f := Find(h, ls, k);
            && Matches(h, f.chain, v)
            && f.answer == (if k in v.disk then Hit(v.Visible(k)) else Miss)
            && (LevelFind(h, ls[0], k).Miss? && f.answer.Hit? ==> Everywhere(f.chain, k, f.answer.value))
  {
    hide FileName, Seal, DiskMatches, ReadFile, Insert;
    DiskKey(h, Files(ls), v.disk, k);
    if |ls| == 1 {
      DirectoryAnswers(h, ls, v, k);
    } else if k in ls[0].cache {
      assert MemoryMatches(ls[0].cache, v);
    } else {
      assert MemoryMatches(ls[0].cache, v);
      TailMatches(h, ls, v);
      FindMatches(h, ls[1..], v, k);
      var below := Find(h, ls[1..], k);
      var after := [ls[0]] + below.chain;
      PrependMatches(h, ls, below.chain, v);
      if below.answer.Hit? {
        Promote(h, after, v, k);
      }
    }
  }

  lemma {:induction false} DirectoryAnswers(h: Digest, ls: Chain, v: View, k: Key)
    requires Matches(h, ls, v) && |ls| == 1 && k !in v.session
    ensures Find(h, ls, k) == Found(if k in v.disk then Hit(v.disk[k]) else Miss, ls)
  {
    hide FileName, DiskMatches, ReadFile;
    DiskKey(h, Files(ls), v.disk, k);
    assert ls[1..] == [] && [ls[0]] + [] == ls;
  }

  lemma {:induction false} PrependMatches(h: Digest, ls: Chain, below: Chain, v: View)
    requires Matches(h, ls, v) && |ls| > 1 && Matches(h, below, v)
    ensures Matches(h, [ls[0]] + below, v)
  {
    hide DiskMatches, MemoryMatches;
    var r := [ls[0]] + below;
    assert r[|r| - 1] == below[|below| - 1];
    forall i | 0 <= i < |r| - 1 ensures r[i].Memory? && MemoryMatches(r[i].cache, v) {
      if i > 0 { assert r[i] == below[i - 1]; }
    }
  }

  /** Storing what the directory already holds, for a key not of this session, keeps the view. */
  lemma {:induction false} Promote(h: Digest, ls: Chain, v: View, k: Key)
    requires Matches(h, ls, v) && k in v.disk && k !in v.session
    ensures Matches(h, Insert(h, ls, k, v.disk[k]), v) && Everywhere(Insert(h, ls, k, v.disk[k]), k, v.disk[k])
  {
    hide FileName, Seal, DiskMatches, Insert, MemoryMatches;
    var r := Insert(h, ls, k, v.disk[k]);
    InsertEffect(h, ls, k, v.disk[k]);
    assert Files(r) == Files(ls) by { DiskKey(h, Files(ls), v.disk, k); }
    forall i | 0 <= i < |ls| - 1 ensures r[i].Memory? && MemoryMatches(r[i].cache, v) {
      MemoryPromoted(ls[i].cache, v, k);
    }
    assert Everywhere(r, k, v.disk[k]) by { NewEverywhere(ls, r, k, v.disk[k]); }
  }

  lemma {:induction false} NewEverywhere(ls: Chain, r: Chain, k: Key, x: Bytes)
    requires Standard(ls) && Standard(r) && |r| == |ls|
    requires forall i :: 0 <= i < |ls| - 1 ==> r[i] == Memory(ls[i].cache[k := x])
    ensures Everywhere(r, k, x)
  {
  }

  lemma {:induction false} MemoryPromoted(cache: map<Key, Bytes>, v: View, k: Key)
    requires MemoryMatches(cache, v) && k in v.disk && k !in v.session
    ensures MemoryMatches(cache[k := v.disk[k]], v)
  {
  }

  // ---------- Runs

  /** What a user of the cache may do; reopening starts again with empty memory over the same directory. */
  datatype Op = Put(k: Key, x: Bytes) | Has(k: Key) | Get(k: Key) | Reopen

  datatype Seen = Done | Answered(found: bool) | Got(answer: Answer)

  function Emptied(ls: Chain): (r: Chain)
    ensures |r| == |ls|
  {
    seq(|ls|, i requires 0 <= i < |ls| => if ls[i].Memory? then Memory(map[]) else ls[i])
  }

  function ChainAfter(h: Digest, ls: Chain, op: Op): (r: Chain)
    ensures |r| == |ls|
  {
    match op
    case Put(k, x) => Insert(h, ls, k, x)
    case Has(_) => ls
    case Get(k) => Find(h, ls, k).chain
    case Reopen => Emptied(ls)
  }

  function ChainShows(h: Digest, ls: Chain, op: Op): Seen {
    match op
    case Put(_, _) => Done
    case Has(k) => Answered(Contains(ls, k))
    case Get(k) => Got(Find(h, ls, k).answer)
    case Reopen => Done
  }

  function Observe(h: Digest, ls: Chain, run: seq<Op>): seq<Seen>
    decreases |run|
  {
    if run == [] then [] else [ChainShows(h, ls, run[0])] + Observe(h, ChainAfter(h, ls, run[0]), run[1..])
  }

  /** The same operations on a view. */
  function ViewAfter(v: View, op: Op, hasMemory: bool): View {
    match op
    case Put(k, x) => Stored(v, k, x, hasMemory)
    case Reopen => View(map[], v.disk)
    case _ => v
  }

  function ViewShows(v: View, op: Op): Seen {
    match op
    case Has(k) => Answered(k in v.disk)
    case Get(k) => Got(if k in v.disk then Hit(v.Visible(k)) else Miss)
    case _ => Done
  }

  function ObserveView(v: View, run: seq<Op>, hasMemory: bool): seq<Seen>
    decreases |run|
  {
    if run == [] then [] else [ViewShows(v, run[0])] + ObserveView(ViewAfter(v, run[0], hasMemory), run[1..], hasMemory)
  }

  lemma {:induction false} EmptiedMatches(h: Digest, ls: Chain, v: View)
    requires Matches(h, ls, v)
    ensures Matches(h, Emptied(ls), View(map[], v.disk))
  {
    hide DiskMatches;
    assert Emptied(ls)[|ls| - 1] == ls[|ls| - 1];
  }

  lemma {:induction false} StepMatches(h: Digest, ls: Chain, v: View, op: Op)
    requires Matches(h, ls, v) && (|ls| > 1 || v.session == map[])
    ensures ChainShows(h, ls, op) == ViewShows(v, op)
    ensures Matches(h, ChainAfter(h, ls, op), ViewAfter(v, op, |ls| > 1))
    ensures |ls| > 1 || ViewAfter(v, op, |ls| > 1).session == map[]
  {
    hide Matches, Insert, Contains, Find, Emptied;
    match op
    case Put(k, x) => InsertMatches(h, ls, v, k, x);
    case Has(k) => ContainsMatches(h, ls, v, k);
    case Get(k) => FindAnswers(h, ls, v, k);
    case Reopen => EmptiedMatches(h, ls, v);
  }

  lemma {:induction false} FindAnswers(h: Digest, ls: Chain, v: View, k: Key)
    requires Matches(h, ls, v) && (|ls| > 1 || v.session == map[])
    ensures Matches(h, Find(h, ls, k).chain, v)
    ensures Find(h, ls, k).answer == if k in v.disk then Hit(v.Visible(k)) else Miss
  {
    hide Find, MemoryMatches, DiskMatches;
    FindMatches(h, ls, v, k);
  }

  /** Every run over the chain shows exactly what the view shows: whatever the number of levels, and whatever values
      are stored under one key. */
  lemma {:induction false} RunMatches(h: Digest, ls: Chain, v: View, run: seq<Op>)
    requires Matches(h, ls, v) && (|ls| > 1 || v.session == map[])
    ensures Observe(h, ls, run) == ObserveView(v, run, |ls| > 1)
    decreases |run|
  {
    hide Matches, ChainShows, ViewShows, ChainAfter, ViewAfter;
    if run == [] {
    } else {
      StepMatches(h, ls, v, run[0]);
      RunMatches(h, ChainAfter(h, ls, run[0]), ViewAfter(v, run[0], |ls| > 1), run[1..]);
    }
  }

  // ---------- One value per key

  /** The same operations on a plain map. */
  function MapAfter(m: map<Key, Bytes>, op: Op): map<Key, Bytes> {
    if op.Put? then m[op.k := op.x] else m
  }

  function MapShows(m: map<Key, Bytes>, op: Op): Seen {
    match op
    case Has(k) => Answered(k in m)
    case Get(k) => Got(if k in m then Hit(m[k]) else Miss)
    case _ => Done
  }

  function ObserveMap(m: map<Key, Bytes>, run: seq<Op>): seq<Seen>
    decreases |run|
  {
    if run == [] then [] else [MapShows(m, run[0])] + ObserveMap(MapAfter(m, run[0]), run[1..])
  }

  /** No key is ever stored with a value other than the one it has. */
  predicate OneValuePerKey(m: map<Key, Bytes>, run: seq<Op>)
    decreases |run|
  {
    run == [] ||
    ((run[0].Put? && run[0].k in m ==> m[run[0].k] == run[0].x) && OneValuePerKey(MapAfter(m, run[0]), run[1..]))
  }

  /** Session and directory agree, so the view is a plain map. */
  ghost predicate Agrees(v: View) {
    forall k :: k in v.session ==> k in v.disk && v.session[k] == v.disk[k]
  }

  lemma {:induction false} ViewIsMap(v: View, run: seq<Op>, hasMemory: bool)
    requires Agrees(v) && OneValuePerKey(v.disk, run)
    ensures ObserveView(v, run, hasMemory) == ObserveMap(v.disk, run)
    decreases |run|
  {
    if run == [] {
    } else {
      var v' := ViewAfter(v, run[0], hasMemory);
      assert v'.disk == MapAfter(v.disk, run[0]) && Agrees(v');
      ViewIsMap(v', run[1..], hasMemory);
    }
  }

  /** With one value per key, a chain of any number of memory levels over a directory is, to its users, a single map;
      reopening is invisible. */
  lemma {:induction false} CacheIsAMap(h: Digest, ls: Chain, disk: map<Key, Bytes>, run: seq<Op>)
    requires Matches(h, ls, View(map[], disk)) && OneValuePerKey(disk, run)
    ensures Observe(h, ls, run) == ObserveMap(disk, run)
  {
    hide Matches, Observe, ObserveMap, OneValuePerKey;
    RunMatches(h, ls, View(map[], disk), run);
    ViewIsMap(View(map[], disk), run, |ls| > 1);
  }

  lemma {:induction false} ViewIsNoMap(v: View, run: seq<Op>, hasMemory: bool) returns (n: nat, k: Key)
    requires Agrees(v) && !OneValuePerKey(v.disk, run)
    ensures n <= |run|
    ensures ObserveView(v, run[..n] + [Reopen, Get(k)], hasMemory) != ObserveMap(v.disk, run[..n] + [Reopen, Get(k)])
    decreases |run|
  {
    var v' := ViewAfter(v, run[0], hasMemory);
    if run[0].Put? && run[0].k in v.disk && v.disk[run[0].k] != run[0].x {
      n, k := 1, run[0].k;
      ViewLosesSecondValue(v, k, run[0].x, hasMemory);
      assert run[..1] + [Reopen, Get(k)] == [run[0], Reopen, Get(k)];
    } else {
      assert v'.disk == MapAfter(v.disk, run[0]) && Agrees(v');
      var n', k' := ViewIsNoMap(v', run[1..], hasMemory);
      n, k := n' + 1, k';
      assert run[..n] + [Reopen, Get(k)] == [run[0]] + (run[1..][..n'] + [Reopen, Get(k)]);
      FirstStep(v, run[0], run[1..][..n'] + [Reopen, Get(k)], hasMemory);
      TailsDiffer(ViewShows(v, run[0]), ObserveView(v', run[1..][..n'] + [Reopen, Get(k)], hasMemory),
                  MapShows(v.disk, run[0]), ObserveMap(v'.disk, run[1..][..n'] + [Reopen, Get(k)]));
    }
  }

  lemma {:induction false} TailsDiffer(a: Seen, s: seq<Seen>, b: Seen, t: seq<Seen>)
    requires s != t
    ensures [a] + s != [b] + t
  {
    assert ([a] + s)[1..] == s && ([b] + t)[1..] == t;
  }

  lemma {:induction false} FirstStep(v: View, op: Op, rest: seq<Op>, hasMemory: bool)
    ensures ObserveView(v, [op] + rest, hasMemory) ==
            [ViewShows(v, op)] + ObserveView(ViewAfter(v, op, hasMemory), rest, hasMemory)
    ensures ObserveMap(v.disk, [op] + rest) == [MapShows(v.disk, op)] + ObserveMap(MapAfter(v.disk, op), rest)
  {
    assert ([op] + rest)[1..] == rest;
  }

  lemma {:induction false} ViewLosesSecondValue(v: View, k: Key, x: Bytes, hasMemory: bool)
    requires k in v.disk && v.disk[k] != x
    ensures ObserveView(v, [Put(k, x), Reopen, Get(k)], hasMemory) == [Done, Done, Got(Hit(v.disk[k]))]
    ensures ObserveMap(v.disk, [Put(k, x), Reopen, Get(k)]) == [Done, Done, Got(Hit(x))]
  {
    FirstStep(v, Put(k, x), [Reopen, Get(k)], hasMemory);
    var v1 := ViewAfter(v, Put(k, x), hasMemory);
    assert [Put(k, x)] + [Reopen, Get(k)] == [Put(k, x), Reopen, Get(k)];
    FirstStep(v1, Reopen, [Get(k)], hasMemory);
    assert [Reopen] + [Get(k)] == [Reopen, Get(k)];
    var m1 := MapAfter(v.disk, Put(k, x));
    FirstStep(View(map[], m1), Reopen, [Get(k)], hasMemory);
    FirstStep(ViewAfter(v1, Reopen, hasMemory), Get(k), [], hasMemory);
    FirstStep(View(map[], m1), Get(k), [], hasMemory);
    assert [Get(k)] + [] == [Get(k)];
  }

  /** After a second value for a key and a reopening, the cache is back at the first value. */
  lemma SecondValueLost(h: Digest, ls: Chain, disk: map<Key, Bytes>, k: Key, x: Bytes)
    requires Matches(h, ls, View(map[], disk)) && k in disk && disk[k] != x
    ensures Observe(h, ls, [Put(k, x), Reopen, Get(k)]) == [Done, Done, Got(Hit(disk[k]))]
    ensures ObserveMap(disk, [Put(k, x), Reopen, Get(k)]) == [Done, Done, Got(Hit(x))]
  {
    hide Matches, Observe, ObserveView, ObserveMap;
    RunMatches(h, ls, View(map[], disk), [Put(k, x), Reopen, Get(k)]);
    ViewLosesSecondValue(View(map[], disk), k, x, |ls| > 1);
  }

  /** A run that gives a key a second value can be cut and extended to tell the cache from a map. */
  lemma MapOnlyIfOneValue(h: Digest, ls: Chain, disk: map<Key, Bytes>, run: seq<Op>) returns (n: nat, k: Key)
    requires Matches(h, ls, View(map[], disk)) && !OneValuePerKey(disk, run)
    ensures n <= |run|
    ensures Observe(h, ls, run[..n] + [Reopen, Get(k)]) != ObserveMap(disk, run[..n] + [Reopen, Get(k)])
  {
    hide Matches, Observe, ObserveView, ObserveMap, OneValuePerKey;
    n, k := ViewIsNoMap(View(map[], disk), run, |ls| > 1);
    RunMatches(h, ls, View(map[], disk), run[..n] + [Reopen, Get(k)]);
  }

  lemma {:induction false} OneValueInPrefix(m: map<Key, Bytes>, run: seq<Op>, n: nat, k: Key)
    requires OneValuePerKey(m, run) && n <= |run|
    ensures OneValuePerKey(m, run[..n] + [Reopen, Get(k)])
    decreases n
  {
    var cut := run[..n] + [Reopen, Get(k)];
    if n == 0 {
      assert cut == [Reopen, Get(k)] && cut[1..] == [Get(k)] && cut[1..][1..] == [];
    } else {
      OneValueInPrefix(MapAfter(m, run[0]), run[1..], n - 1, k);
      assert cut[0] == run[0] && cut[1..] == run[1..][..n - 1] + [Reopen, Get(k)];
    }
  }

  /** Nobody who looks a key up after reopening, at any point of the run, can tell the cache from a map. */
  ghost predicate LooksLikeMap(h: Digest, ls: Chain, disk: map<Key, Bytes>, run: seq<Op>) {
    forall n: nat, k: Key :: n <= |run| ==>
      Observe(h, ls, run[..n] + [Reopen, Get(k)]) == ObserveMap(disk, run[..n] + [Reopen, Get(k)])
  }

  /** The cache looks like a map throughout a run if and only if the run keeps one value per key. */
  lemma MapExactlyIfOneValue(h: Digest, ls: Chain, disk: map<Key, Bytes>, run: seq<Op>)
    requires Matches(h, ls, View(map[], disk))
    ensures LooksLikeMap(h, ls, disk, run) <==> OneValuePerKey(disk, run)
  {
    hide Matches, Observe, ObserveMap, OneValuePerKey;
    if OneValuePerKey(disk, run) {
      forall n: nat, k: Key | n <= |run|
        ensures Observe(h, ls, run[..n] + [Reopen, Get(k)]) == ObserveMap(disk, run[..n] + [Reopen, Get(k)])
      {
        OneValueInPrefix(disk, run, n, k);
        CacheIsAMap(h, ls, disk, run[..n] + [Reopen, Get(k)]);
      }
    } else {
      var n, k := MapOnlyIfOneValue(h, ls, disk, run);
    }
  }
}
