/** A chain of cache levels as values: what each operation answers and what it leaves behind. */
module BlobChain {
  import opened ByteStrings
  import Base64Url

  /** Key hashes; the file name encoder is undefined on the empty string. */
  type Key = k: Bytes | k != [] witness [0]

  /** A 16-byte content digest. */
  type Digest = h: Bytes -> Bytes | forall b :: |h(b)| == 16 witness (_ => seq(16, _ => 0))

  /** An in-memory map, or a directory of files. */
  datatype Level = Memory(cache: map<Key, Bytes>) | Disk(files: map<string, Bytes>, readOnly: bool)

  type Chain = seq<Level>

  datatype Error = EmptyFile | TruncatedFile | HashMismatch

  datatype Answer = Hit(value: Bytes) | Miss | Failed(error: Error)

  function FileName(k: Key): string {
    Base64Url.UrlSafe(k)
  }

  /** A file name holds only letters, digits, '-' and '_', one for each six bits of the key, and decodes to the key. */
  lemma FileNameIs(k: Key, j: nat)
    ensures FileName(k) != "" && Base64Url.FromUrlSafe(FileName(k)) == Some(k)
    ensures forall c :: c in FileName(k) ==>
              'A' <= c <= 'Z' || 'a' <= c <= 'z' || '0' <= c <= '9' || c == '-' || c == '_'
    ensures |Base64Url.ALPHABET| == 64 && |FileName(k)| == (4 * |k| + 2) / 3
    ensures j < |FileName(k)| ==> FileName(k)[j] == Base64Url.UrlChar(Base64Url.SixBits(k, j))
  {
    hide Base64Url.UrlSafe, Base64Url.FromUrlSafe, Base64Url.SixBits, Base64Url.UrlChar, Base64Url.ALPHABET;
    Base64Url.FilenameSafe(k);
    Base64Url.RoundTrip(k);
    Base64Url.UrlSafeIs(k, j);
  }

  /** A file's bytes: the contents, then their digest. */
  function Seal(h: Digest, obj: Bytes): Bytes {
    obj + h(obj)
  }

  // ---------- One level

  predicate LevelContains(l: Level, k: Key) {
    match l
    case Memory(cache) => k in cache
    case Disk(files, _) => FileName(k) in files
  }

  function ReadFile(h: Digest, file: Bytes): Answer {
    if |file| == 0 then Failed(EmptyFile)
    else if |file| < 16 then Failed(TruncatedFile)
    else
      var contents := file[..|file| - 16];
      if h(contents) != file[|file| - 16..] then Failed(HashMismatch) else Hit(contents)
  }

  function LevelFind(h: Digest, l: Level, k: Key): Answer {
    match l
    case Memory(cache) => if k in cache then Hit(cache[k]) else Miss
    case Disk(files, _) => if FileName(k) !in files then Miss else ReadFile(h, files[FileName(k)])
  }

  /** A file is accepted exactly when it is some contents followed by their digest. */
  lemma {:induction false} ReadFileExact(h: Digest, file: Bytes, v: Bytes)
    ensures ReadFile(h, file) == Hit(v) <==> file == Seal(h, v)
  {
    if file == Seal(h, v) {
      assert file[..|file| - 16] == v && file[|file| - 16..] == h(v);
    }
    if ReadFile(h, file) == Hit(v) {
      assert file == file[..|file| - 16] + file[|file| - 16..];
    }
  }

  /** A sealed value is the value and then the sixteen bytes of its digest. */
  lemma SealLayout(h: Digest, v: Bytes)
    ensures |Seal(h, v)| == |v| + 16 && Seal(h, v)[..|v|] == v && Seal(h, v)[|v|..] == h(v)
  {
  }

  /** A file that is not a sealed value is an error, never a miss: empty, shorter than a digest, or with another
      digest. */
  lemma BadFileFails(h: Digest, file: Bytes)
    requires forall v :: file != Seal(h, v)
    ensures ReadFile(h, file).Failed?
    ensures ReadFile(h, file).error.EmptyFile? <==> file == []
    ensures ReadFile(h, file).error.TruncatedFile? <==> 0 < |file| < 16
    ensures ReadFile(h, file).error.HashMismatch? <==> |file| >= 16
  {
    if ReadFile(h, file).Hit? {
      ReadFileExact(h, file, ReadFile(h, file).value);
    }
  }

  /** A level misses exactly the keys it does not contain. */
  lemma MissIsAbsent(h: Digest, l: Level, k: Key)
    ensures LevelFind(h, l, k).Miss? <==> !LevelContains(l, k)
  {
  }

  // ---------- Synchronous operations

  predicate Contains(ls: Chain, k: Key) {
    ls != [] && (LevelContains(ls[0], k) || Contains(ls[1..], k))
  }

  /** Storing at the first level; a directory asks the whole rest of the chain before writing. */
  function InsertHere(h: Digest, ls: Chain, k: Key, v: Bytes): Level
    requires ls != []
  {
    match ls[0]
    case Memory(cache) => Memory(cache[k := v])
    case Disk(files, readOnly) =>
      if Contains(ls, k) || readOnly then ls[0] else Disk(files[FileName(k) := Seal(h, v)], readOnly)
  }

  function Insert(h: Digest, ls: Chain, k: Key, v: Bytes): (r: Chain)
    ensures |r| == |ls|
  {
    if ls == [] then [] else [InsertHere(h, ls, k, v)] + Insert(h, ls[1..], k, v)
  }

  datatype Found = Found(answer: Answer, chain: Chain)

  function Find(h: Digest, ls: Chain, k: Key): (r: Found)
    ensures |r.chain| == |ls|
  {
    if ls == [] then Found(Miss, ls) else
    var here := LevelFind(h, ls[0], k);
    if !here.Miss? then Found(here, ls) else
    var below := Find(h, ls[1..], k);
    var after := [ls[0]] + below.chain;
    if below.answer.Hit? then Found(below.answer, Insert(h, after, k, below.answer.value))
    else Found(below.answer, after)
  }

  // ---------- Asynchronous operations, run without interference

  /** Each level's asynchronous store is the synchronous store of the whole chain from there on. */
  function InsertAsync(h: Digest, ls: Chain, k: Key, v: Bytes): (r: Chain)
    ensures |r| == |ls|
    decreases |ls|
  {
    if ls == [] then [] else
    var here := Insert(h, ls, k, v);
    [here[0]] + InsertAsync(h, here[1..], k, v)
  }

  predicate ContainsAsync(ls: Chain, k: Key) {
    ls != [] && (Contains(ls, k) || ContainsAsync(ls[1..], k))
  }

  function FindAsync(h: Digest, ls: Chain, k: Key): (r: Found)
    ensures |r.chain| == |ls|
    decreases |ls|
  {
    if ls == [] then Found(Miss, ls) else
    var here := Find(h, ls, k);
    if !here.answer.Miss? then here else
    var below := FindAsync(h, here.chain[1..], k);
    var after := [here.chain[0]] + below.chain;
    if below.answer.Hit? then Found(below.answer, InsertAsync(h, after, k, below.answer.value))
    else Found(below.answer, after)
  }

  // ---------- The asynchronous forms agree with the synchronous ones

  /** Storing never removes a key from view. */
  lemma {:induction false} InsertMonotone(h: Digest, ls: Chain, k: Key, v: Bytes, q: Key)
    ensures Contains(ls, q) ==> Contains(Insert(h, ls, k, v), q)
  {
    if ls == [] {
    } else {
      InsertMonotone(h, ls[1..], k, v, q);
      assert Insert(h, ls, k, v)[1..] == Insert(h, ls[1..], k, v);
    }
  }

  lemma {:induction false} StoredHere(h: Digest, ls: Chain, k: Key, v: Bytes)
    requires ls != []
    ensures InsertHere(h, Insert(h, ls, k, v), k, v) == InsertHere(h, ls, k, v)
  {
    hide FileName, Seal, Insert;
    var once := Insert(h, ls, k, v);
    InsertMonotone(h, ls, k, v, k);
    InsertHead(h, ls, k, v);
    assert once[0] == InsertHere(h, ls, k, v);
  }

  lemma {:induction false} InsertHead(h: Digest, ls: Chain, k: Key, v: Bytes)
    requires ls != []
    ensures Insert(h, ls, k, v)[0] == InsertHere(h, ls, k, v) && Insert(h, ls, k, v)[1..] == Insert(h, ls[1..], k, v)
  {
  }

  /** Storing the same entry again changes nothing, on any chain. */
  lemma {:induction false} InsertIdempotent(h: Digest, ls: Chain, k: Key, v: Bytes)
    ensures Insert(h, Insert(h, ls, k, v), k, v) == Insert(h, ls, k, v)
  {
    hide InsertHere;
    if ls == [] {
    } else {
      InsertHead(h, ls, k, v);
      StoredHere(h, ls, k, v);
      InsertIdempotent(h, ls[1..], k, v);
    }
  }

  /** The asynchronous store, which visits deeper levels again and again, leaves the same chain. */
  lemma {:induction false} InsertAsyncAgrees(h: Digest, ls: Chain, k: Key, v: Bytes)
    ensures InsertAsync(h, ls, k, v) == Insert(h, ls, k, v)
    decreases |ls|
  {
    if ls == [] {
    } else {
      var here := Insert(h, ls, k, v);
      assert here[1..] == Insert(h, ls[1..], k, v);
      InsertAsyncAgrees(h, here[1..], k, v);
      InsertIdempotent(h, ls[1..], k, v);
    }
  }

  lemma {:induction false} ContainsAsyncAgrees(ls: Chain, k: Key)
    ensures ContainsAsync(ls, k) == Contains(ls, k)
  {
    if ls == [] {
    } else {
      ContainsAsyncAgrees(ls[1..], k);
    }
  }

  // ---------- What a find answers and leaves behind

  /** The first level that does not miss. */
  ghost predicate Answers(h: Digest, ls: Chain, k: Key, i: nat)
    requires i < |ls|
  {
    LevelContains(ls[i], k) && forall j :: 0 <= j < i ==> !LevelContains(ls[j], k)
  }

  /** A find answers as the first level that contains the key, a bad file hiding whatever lies below it; when no level
      contains the key it misses. */
  lemma {:induction false} FindAnswersFirst(h: Digest, ls: Chain, k: Key)
    ensures Find(h, ls, k).answer.Miss? <==> !Contains(ls, k)
    ensures forall i :: 0 <= i < |ls| && Answers(h, ls, k, i) ==> Find(h, ls, k).answer == LevelFind(h, ls[i], k)
  {
    hide LevelFind, LevelContains, Insert;
    if ls == [] {
    } else {
      MissIsAbsent(h, ls[0], k);
      FindAnswersFirst(h, ls[1..], k);
      forall i | 0 <= i < |ls| && Answers(h, ls, k, i) ensures Find(h, ls, k).answer == LevelFind(h, ls[i], k) {
        if i > 0 {
          assert forall j :: 0 <= j < i - 1 ==> ls[1..][j] == ls[j + 1];
          assert Answers(h, ls[1..], k, i - 1);
        }
      }
    }
  }

  /** The key is at none of the first i levels. */
  ghost predicate AbsentBefore(ls: Chain, i: nat, k: Key)
    requires i <= |ls|
  {
    forall j :: 0 <= j < i ==>
      && (ls[j].Memory? ==> k !in ls[j].cache)
      && (ls[j].Disk? ==> FileName(k) !in ls[j].files)
  }

  /** A find answers with the value of the first level that has the key: the one a memory level maps it to, or the one
      whose bytes and digest make up the file of a directory, read-only or not. */
  lemma FindHits(h: Digest, ls: Chain, k: Key, i: nat, v: Bytes)
    requires i < |ls| && AbsentBefore(ls, i, k)
    requires ls[i].Memory? ==> k in ls[i].cache && ls[i].cache[k] == v
    requires ls[i].Disk? ==> FileName(k) in ls[i].files && ls[i].files[FileName(k)] == v + h(v)
    ensures Find(h, ls, k).answer == Hit(v)
  {
    hide FileName, Find;
    FindAnswersFirst(h, ls, k);
    assert Answers(h, ls, k, i);
    if ls[i].Disk? { ReadFileExact(h, ls[i].files[FileName(k)], v); }
  }

  /** A key is contained exactly when some level has it, and a find misses exactly the others. */
  lemma ContainsExactly(h: Digest, ls: Chain, k: Key)
    ensures !Contains(ls, k) <==> AbsentBefore(ls, |ls|, k)
    ensures Find(h, ls, k).answer.Miss? <==> AbsentBefore(ls, |ls|, k)
  {
    hide FileName, Find, Contains;
    ContainsSomewhere(ls, k);
    FindAnswersFirst(h, ls, k);
    assert HasFrom(ls, 0, k) <==> exists j :: 0 <= j < |ls| && LevelContains(ls[j], k);
  }

  /** A bad file is an error of the whole find, whatever lies below it, and changes nothing: empty, shorter than a
      digest, or with another digest. */
  lemma BadFileFailsFind(h: Digest, ls: Chain, k: Key, i: nat)
    requires i < |ls| && Answers(h, ls, k, i) && ls[i].Disk?
    requires forall v :: ls[i].files[FileName(k)] != Seal(h, v)
    ensures var file := ls[i].files[FileName(k)];
      Find(h, ls, k) ==
      Found(Failed(if file == [] then EmptyFile else if |file| < 16 then TruncatedFile else HashMismatch), ls)
  {
    hide Seal, FileName, Find, ReadFile;
    FindAnswersFirst(h, ls, k);
    BadFileFails(h, ls[i].files[FileName(k)]);
    FindLeavesExactly(h, ls, k);
  }

  lemma {:induction false} HitIsContained(h: Digest, ls: Chain, k: Key)
    requires Find(h, ls, k).answer.Hit?
    ensures Contains(Find(h, ls, k).chain, k)
  {
    hide InsertHere, ReadFile, FileName;
    if LevelFind(h, ls[0], k).Miss? {
      var below := Find(h, ls[1..], k);
      var after := [ls[0]] + below.chain;
      HitIsContained(h, ls[1..], k);
      assert after[1..] == below.chain;
      InsertMonotone(h, after, k, below.answer.value, k);
    }
  }

  /** What a find leaves behind, exactly: when a level below the first one answers with a value, that value is inserted
      into the whole chain; after any other answer, errors included, the chain is as it was. */
  lemma {:induction false} FindLeavesExactly(h: Digest, ls: Chain, k: Key)
    ensures var r := Find(h, ls, k);
      r.chain == if ls != [] && r.answer.Hit? && !LevelContains(ls[0], k) then Insert(h, ls, k, r.answer.value) else ls
  {
    if ls == [] {
    } else {
      MissIsAbsent(h, ls[0], k);
      FindLeavesExactly(h, ls[1..], k);
      var below := Find(h, ls[1..], k);
      if below.answer.Hit? {
        FindInsertsBelow(h, ls, k, below);
      } else {
        assert [ls[0]] + ls[1..] == ls;
      }
      hide Insert, LevelFind, LevelContains;
    }
  }

  /** Inserting a value found below, above a rest that holds it already, is inserting it everywhere. */
  lemma FindInsertsBelow(h: Digest, ls: Chain, k: Key, below: Found)
    requires ls != [] && below == Find(h, ls[1..], k) && below.answer.Hit?
    requires below.chain == ls[1..] || below.chain == Insert(h, ls[1..], k, below.answer.value)
    ensures Insert(h, [ls[0]] + below.chain, k, below.answer.value) == Insert(h, ls, k, below.answer.value)
  {
    hide Find, FileName, Seal, LevelContains, Insert;
    var after, v := [ls[0]] + below.chain, below.answer.value;
    assert after[1..] == below.chain;
    HitIsContained(h, ls[1..], k);
    FindAnswersFirst(h, ls[1..], k);
    InsertHead(h, after, k, v);
    InsertHead(h, ls, k, v);
    InsertIdempotent(h, ls[1..], k, v);
    assert InsertHere(h, after, k, v) == InsertHere(h, ls, k, v);
    SameHeadAndTail(Insert(h, after, k, v), Insert(h, ls, k, v));
  }

  lemma SameHeadAndTail(a: Chain, b: Chain)
    requires a != [] && b != [] && a[0] == b[0] && a[1..] == b[1..]
    ensures a == b
  {
    assert a == [a[0]] + a[1..] && b == [b[0]] + b[1..];
  }

  /** A search that finds nothing leaves the chain as it was, and so does every search of its rest. */
  lemma MissLeavesChain(h: Digest, ls: Chain, k: Key)
    requires Find(h, ls, k).answer.Miss?
    ensures Find(h, ls, k).chain == ls
    ensures ls != [] ==> Find(h, ls[1..], k).answer.Miss?
  {
    FindLeavesExactly(h, ls, k);
    FindAnswersFirst(h, ls, k);
    if ls != [] { FindAnswersFirst(h, ls[1..], k); }
    hide Find;
  }

  /** The asynchronous search gives the same answer and leaves the same chain. */
  lemma {:induction false} FindAsyncAgrees(h: Digest, ls: Chain, k: Key)
    ensures FindAsync(h, ls, k) == Find(h, ls, k)
    decreases |ls|
  {
    if ls != [] && Find(h, ls, k).answer.Miss? {
      MissLeavesChain(h, ls, k);
      FindAsyncAgrees(h, ls[1..], k);
      MissLeavesChain(h, ls[1..], k);
      assert [ls[0]] + ls[1..] == ls;
    }
  }

  // ---------- What an operation leaves alone

  /** Whether any level from i on has the key. */
  ghost predicate HasFrom(ls: Chain, i: nat, k: Key) {
    exists j :: i <= j < |ls| && LevelContains(ls[j], k)
  }

  lemma {:induction false} ContainsSomewhere(ls: Chain, k: Key)
    ensures Contains(ls, k) <==> HasFrom(ls, 0, k)
  {
    hide LevelContains;
    if ls == [] {
    } else {
      ContainsSomewhere(ls[1..], k);
      if j :| 0 <= j < |ls| && LevelContains(ls[j], k) {
        if j > 0 { assert LevelContains(ls[1..][j - 1], k); }
      }
      if j :| 0 <= j < |ls[1..]| && LevelContains(ls[1..][j], k) { assert LevelContains(ls[j + 1], k); }
    }
  }

  /** The levels from i on, seen from one level further down. */
  lemma HasFromTail(ls: Chain, i: nat, k: Key)
    requires ls != []
    ensures HasFrom(ls, i + 1, k) <==> HasFrom(ls[1..], i, k)
  {
    hide LevelContains;
    if j :| i + 1 <= j < |ls| && LevelContains(ls[j], k) { assert LevelContains(ls[1..][j - 1], k); }
    if j :| i <= j < |ls[1..]| && LevelContains(ls[1..][j], k) { assert LevelContains(ls[j + 1], k); }
  }

  /** What an insert does to each level: memory takes the value; a directory changes exactly when it is writable and
      no level from it on has the key, and then by exactly one sealed file. */
  lemma {:induction false} InsertAt(h: Digest, ls: Chain, k: Key, v: Bytes, i: nat)
    requires i < |ls|
    ensures var l, r := ls[i], Insert(h, ls, k, v)[i];
      && (l.Memory? ==> r == Memory(l.cache[k := v]))
      && (l.Disk? ==> r.Disk? && r.readOnly == l.readOnly)
      && (l.Disk? && !l.readOnly && !HasFrom(ls, i, k) ==> r.files == l.files[FileName(k) := v + h(v)])
      && (l.Disk? && (l.readOnly || HasFrom(ls, i, k)) ==> r == l)
  {
    hide LevelContains, FileName;
    if i == 0 {
      ContainsSomewhere(ls, k);
    } else {
      InsertAt(h, ls[1..], k, v, i - 1);
      HasFromTail(ls, i - 1, k);
    }
  }

  /** An absent key is really new to a directory, so a write is a change. */
  lemma AbsentIsNew(ls: Chain, k: Key, i: nat)
    requires i < |ls| && ls[i].Disk? && !HasFrom(ls, i, k)
    ensures FileName(k) !in ls[i].files
  {
    assert !LevelContains(ls[i], k);
  }

  /** A directory changes exactly when it is writable and no level from it on has the key. */
  lemma DirectoryChangesExactly(h: Digest, ls: Chain, k: Key, v: Bytes, i: nat)
    requires i < |ls| && ls[i].Disk?
    ensures Insert(h, ls, k, v)[i] != ls[i] <==> !ls[i].readOnly && !HasFrom(ls, i, k)
  {
    hide FileName, Seal, LevelContains, HasFrom, Insert;
    InsertAt(h, ls, k, v, i);
    if !HasFrom(ls, i, k) { AbsentIsNew(ls, k, i); }
  }

  /** Every read-only directory is as it was. */
  ghost predicate ReadOnlyKept(ls: Chain, r: Chain) {
    |r| == |ls| && forall i :: 0 <= i < |ls| && ls[i].Disk? && ls[i].readOnly ==> r[i] == ls[i]
  }

  lemma InsertSparesReadOnly(h: Digest, ls: Chain, k: Key, v: Bytes)
    ensures ReadOnlyKept(ls, Insert(h, ls, k, v))
  {
    hide Insert;
    forall i | 0 <= i < |ls| && ls[i].Disk? && ls[i].readOnly ensures Insert(h, ls, k, v)[i] == ls[i] {
      InsertAt(h, ls, k, v, i);
    }
  }

  lemma {:induction false} FindSparesReadOnly(h: Digest, ls: Chain, k: Key)
    ensures ReadOnlyKept(ls, Find(h, ls, k).chain)
  {
    hide LevelFind, Insert;
    if ls == [] {
    } else {
      var below := Find(h, ls[1..], k);
      FindSparesReadOnly(h, ls[1..], k);
      var after := [ls[0]] + below.chain;
      forall i | 0 <= i < |ls| && ls[i].Disk? && ls[i].readOnly ensures after[i] == ls[i] {
        if i > 0 { assert ls[i] == ls[1..][i - 1] && after[i] == below.chain[i - 1]; }
      }
      if below.answer.Hit? { InsertSparesReadOnly(h, after, k, below.answer.value); }
    }
  }

  /** No operation, synchronous or asynchronous, changes a read-only directory at any level. */
  lemma ReadOnlyIsSpared(h: Digest, ls: Chain, k: Key, v: Bytes)
    ensures ReadOnlyKept(ls, Insert(h, ls, k, v)) && ReadOnlyKept(ls, InsertAsync(h, ls, k, v))
    ensures ReadOnlyKept(ls, Find(h, ls, k).chain) && ReadOnlyKept(ls, FindAsync(h, ls, k).chain)
  {
    hide Insert, InsertAsync, Find, FindAsync;
    InsertSparesReadOnly(h, ls, k, v);
    FindSparesReadOnly(h, ls, k);
    InsertAsyncAgrees(h, ls, k, v);
    FindAsyncAgrees(h, ls, k);
  }

  // ---------- What a hit from below does to each level

  /** When a level below the first answers with a value, every memory level of the chain holds it afterwards besides
      what it held, and a directory gets it, sealed, exactly if it is writable and no level from it on has the key. */
  lemma FindPromotes(h: Digest, ls: Chain, k: Key, i: nat)
    requires Find(h, ls, k).answer.Hit? && i < |ls| && !LevelContains(ls[0], k)
    ensures var l, r, v := ls[i], Find(h, ls, k).chain[i], Find(h, ls, k).answer.value;
      && (l.Memory? ==> r == Memory(l.cache[k := v]))
      && (l.Disk? ==> r == if l.readOnly || HasFrom(ls, i, k) then l else Disk(l.files[FileName(k) := v + h(v)], false))
  {
    hide Find, Insert, FileName, LevelContains, HasFrom;
    FindLeavesExactly(h, ls, k);
    InsertAt(h, ls, k, Find(h, ls, k).answer.value, i);
  }

  /** A directory above the level that answers is never filled from below: asked to store the hit, it finds the key in
      its own delegates and skips the write. */
  lemma DirectoryAboveIsNotFilled(h: Digest, ls: Chain, k: Key, i: nat)
    requires i < |ls| && ls[i].Disk? && Find(h, ls, k).answer.Hit? && HasFrom(ls, i, k)
    ensures Find(h, ls, k).chain[i] == ls[i]
  {
    hide Find, Insert, FileName, LevelContains, HasFrom;
    FindLeavesExactly(h, ls, k);
    if !LevelContains(ls[0], k) {
      InsertAt(h, ls, k, Find(h, ls, k).answer.value, i);
    }
  }
}
