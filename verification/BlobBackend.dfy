/** The backends as objects linked by their delegates, updated in place. */
module BlobBackend {
  import opened ByteStrings
  import opened BlobChain

  /** An in-memory backend, or a filesystem backend over a directory. */
  class Backend {
    const inMemory: bool
    const readOnly: bool
    var cache: map<Key, Bytes>
    var files: map<string, Bytes>
    var delegate: Backend?
    ghost var nodes: set<Backend>

    /** The delegates form a finite list without repetition. */
    ghost predicate Valid()
      reads this, nodes
      decreases nodes
    {
      this in nodes &&
      (delegate != null ==>
         delegate in nodes && delegate.nodes <= nodes && this !in delegate.nodes && delegate.Valid())
    }

    function Here(): Level
      reads this
    {
      if inMemory then Memory(cache) else Disk(files, readOnly)
    }

    /** The chain from this backend on, as values. */
    ghost function Levels(): (ls: Chain)
      requires Valid()
      reads this, nodes
      ensures ls != [] && ls[0] == Here()
      decreases nodes
    {
      [Here()] + (if delegate == null then [] else delegate.Levels())
    }

    constructor InMemory()
      ensures Valid() && fresh(nodes) && Levels() == [Memory(map[])]
    {
      inMemory, readOnly, cache, files, delegate := true, false, map[], map[], null;
      nodes := {this};
    }

    constructor Filesystem(contents: map<string, Bytes>, readOnly: bool)
      ensures Valid() && fresh(nodes) && Levels() == [Disk(contents, readOnly)]
    {
      inMemory := false;
      this.readOnly := readOnly;
      cache, files, delegate := map[], contents, null;
      nodes := {this};
    }

    method ContainsSync(k: Key) returns (found: bool)
      requires Valid()
      ensures found == Contains(Levels(), k)
      decreases nodes
    {
      hide FileName;
      if LevelContains(Here(), k) {
        return true;
      }
      if delegate == null {
        return false;
      }
      found := delegate.ContainsSync(k);
    }

    /** Stores the object at this level only. */
    method InsertSyncImpl(h: Digest, k: Key, obj: Bytes)
      requires Valid()
      modifies this`cache, this`files
      ensures Valid() && Here() == InsertHere(h, old(Levels()), k, obj)
      ensures inMemory ==> cache == old(cache)[k := obj]
      ensures !inMemory ==>
                files == if readOnly || Contains(old(Levels()), k) then old(files)
                         else old(files)[FileName(k) := Seal(h, obj)]
      ensures delegate != null ==> delegate.Levels() == old(delegate.Levels())
    {
      hide FileName, Seal, Contains;
      if inMemory {
        cache := cache[k := obj];
      } else {
        var contained := ContainsSync(k);
        if contained || readOnly {
          return;
        }
        files := files[FileName(k) := Seal(h, obj)];
      }
    }

    /** Writes through: this level, then every level below. */
    method InsertSync(h: Digest, k: Key, obj: Bytes)
      requires Valid()
      modifies nodes`cache, nodes`files
      ensures Valid() && Levels() == Insert(h, old(Levels()), k, obj)
      decreases nodes
    {
      hide InsertHere;
      ghost var before := Levels();
      InsertSyncImpl(h, k, obj);
      if delegate == null {
        return;
      }
      assert before[1..] == delegate.Levels();
      ghost var here := Here();
      delegate.InsertSync(h, k, obj);
      assert Here() == here && Levels() == [here] + delegate.Levels();
    }

    /** Reads through: a hit found below is stored at this level, and so at every level, on the way back. */
    method FindSync(h: Digest, k: Key) returns (r: Answer)
      requires Valid()
      modifies nodes`cache, nodes`files
      ensures Valid() && Found(r, Levels()) == Find(h, old(Levels()), k)
      decreases nodes
    {
      hide LevelFind, Insert;
      ghost var before := Levels();
      r := LevelFind(h, Here(), k);
      if !r.Miss? {
        return;
      }
      if delegate == null {
        return;
      }
      assert before[1..] == delegate.Levels();
      r := delegate.FindSync(h, k);
      assert Levels() == [before[0]] + delegate.Levels();
      if r.Hit? {
        InsertSync(h, k, r.value);
      }
    }

    /** The asynchronous store, run without interference: this chain synchronously, then the delegate's again. */
    method InsertThenDelegate(h: Digest, k: Key, obj: Bytes)
      requires Valid()
      modifies nodes`cache, nodes`files
      ensures Valid() && Levels() == InsertAsync(h, old(Levels()), k, obj)
      ensures Levels() == Insert(h, old(Levels()), k, obj)
      decreases nodes
    {
      hide Insert;
      InsertAsyncAgrees(h, Levels(), k, obj);
      InsertSync(h, k, obj);
      if delegate == null {
        return;
      }
      ghost var here := Levels();
      assert here[1..] == delegate.Levels();
      delegate.InsertThenDelegate(h, k, obj);
      assert Levels() == [here[0]] + delegate.Levels();
    }

    /** The asynchronous membership test. */
    method ContainsThenDelegate(k: Key) returns (found: bool)
      requires Valid()
      ensures found == ContainsAsync(Levels(), k) == Contains(Levels(), k)
      decreases nodes
    {
      hide LevelContains;
      ContainsAsyncAgrees(Levels(), k);
      found := ContainsSync(k);
      if found || delegate == null {
        return;
      }
      assert Levels()[1..] == delegate.Levels();
      found := delegate.ContainsThenDelegate(k);
    }

    /** The asynchronous search, run without interference. */
    method FindThenDelegate(h: Digest, k: Key) returns (r: Answer)
      requires Valid()
      modifies nodes`cache, nodes`files
      ensures Valid() && Found(r, Levels()) == FindAsync(h, old(Levels()), k)
      ensures Found(r, Levels()) == Find(h, old(Levels()), k)
      decreases nodes
    {
      r := FindLocallyOrBelow(h, k);
      FindAsyncAgrees(h, old(Levels()), k);
    }

    /** The recursion of the asynchronous search, with the promotion that a hit below would need. */
    method FindLocallyOrBelow(h: Digest, k: Key) returns (r: Answer)
      requires Valid()
      modifies nodes`cache, nodes`files
      ensures Valid() && Found(r, Levels()) == FindAsync(h, old(Levels()), k)
      decreases nodes, 0
    {
      hide Insert, InsertAsync, Find;
      r := FindSync(h, k);
      if !r.Miss? || delegate == null {
        return;
      }
      ghost var here := Levels();
      assert here[1..] == delegate.Levels();
      r := delegate.FindLocallyOrBelow(h, k);
      assert Levels() == [here[0]] + delegate.Levels();
      if r.Hit? {
        InsertThenDelegate(h, k, r.value);
      }
    }

    /** Links another chain to the end of this one. */
    method AppendDelegate(d: Backend)
      requires Valid() && d.Valid() && nodes !! d.nodes
      modifies nodes`delegate, nodes`nodes
      ensures Valid() && nodes == old(nodes) + old(d.nodes)
      ensures Levels() == old(Levels()) + old(d.Levels())
      decreases nodes
    {
      if delegate == null {
        LinkDelegate(d);
      } else {
        ghost var before, below := Levels(), delegate.Levels();
        delegate.AppendDelegate(d);
        nodes := nodes + d.nodes;
        LongerChain(before[0], below, old(d.Levels()));
        assert Levels() == [before[0]] + delegate.Levels();
      }
    }

    /** Sets the delegate of a node that has none. */
    method LinkDelegate(d: Backend)
      requires Valid() && d.Valid() && nodes !! d.nodes && delegate == null
      modifies this`delegate, this`nodes
      ensures Valid() && nodes == old(nodes) + d.nodes && d.nodes == old(d.nodes)
      ensures Levels() == old(Levels()) + old(d.Levels())
    {
      ghost var added := d.Levels();
      delegate := d;
      nodes := nodes + d.nodes;
      assert d.Valid() && d.Levels() == added;
    }
  }

  lemma LongerChain(l: Level, below: Chain, added: Chain)
    ensures [l] + (below + added) == [l] + below + added
  {
  }
}
