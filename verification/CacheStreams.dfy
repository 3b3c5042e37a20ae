/** The open streams of the disk cache: exclusion of readers and writers, and the ledger that compares
    the sizes of the entries with the bytes on disk. */
module CacheStreams {
  import opened CacheAccounting

  /** An open stream of a resource; destroying it releases the resource. */
  class DiskCacheAdapter {
    const id: string
    const index: nat
    ghost const writes: bool

    constructor (id: string, index: nat, ghost writes: bool)
      ensures this.id == id && this.index == index && this.writes == writes
    {
      this.id, this.index, this.writes := id, index, writes;
    }
  }

  ghost function StreamsOf(open: set<DiskCacheAdapter>, id: string): set<DiskCacheAdapter> {
    set s | s in open && s.id == id
  }

  /** The indices of the streams of a resource that are being written. */
  ghost function Busy(open: set<DiskCacheAdapter>, id: string): set<nat> {
    set s | s in open && s.id == id && s.writes :: s.index
  }

  // ---------------------------------------------------------------- what every step keeps

  /** Readers or writers, never both: the lock state of the entry says which. */
  ghost predicate Exclusive(entries: map<string, Entry>, open: set<DiskCacheAdapter>) {
    && (forall s :: s in open ==> s.id in entries && (s.writes <==> entries[s.id].lockState != LS_UNLOCKED))
    && (forall s :: s in open ==> s.index < entries[s.id].streams)
    && (forall id :: id in entries ==> entries[id].accessors == |StreamsOf(open, id)|)
    && (forall id :: id in entries && entries[id].lockState == LS_UNLOCKING ==> entries[id].accessors > 0)
  }

  /** By how much the size of an entry exceeds the bytes at rest in its files. */
  ghost function Surplus(entries: map<string, Entry>, files: map<FileName, nat>, open: set<DiskCacheAdapter>,
                         id: string): int
    requires id in entries
  {
    entries[id].size - BytesAtRest(files, Busy(open, id), id, entries[id].streams)
  }

  /** Every file belongs to a stream of an entry. */
  ghost predicate Known(entries: map<string, Entry>, files: map<FileName, nat>) {
    forall f :: f in files ==> f.0 in entries && f.1 < entries[f.0].streams
  }

  /** Every size is the number of bytes at rest in the resource's files, and no file is forgotten. */
  ghost predicate SizesMatch(entries: map<string, Entry>, files: map<FileName, nat>, open: set<DiskCacheAdapter>) {
    && (forall id :: id in entries ==> Surplus(entries, files, open, id) == 0)
    && Known(entries, files)
  }

  /** Every file belongs to an entry. */
  ghost predicate NoneForgotten(entries: map<string, Entry>, files: map<FileName, nat>) {
    forall f :: f in files ==> f.0 in entries
  }

  /** No file is being written by two streams. */
  ghost predicate OneWriterEach(open: set<DiskCacheAdapter>) {
    forall s, t :: s in open && t in open && s.writes && t.writes && s.id == t.id && s.index == t.index ==> s == t
  }

  /** Only files of these resources are gone. */
  ghost predicate OnlyDeletesOf(before: map<FileName, nat>, after: map<FileName, nat>, ids: seq<string>) {
    && (forall f :: f in after ==> f in before && after[f] == before[f])
    && (forall f :: f in before && f.0 !in ids ==> f in after)
  }

  /** Every file of this resource can be deleted. */
  predicate Deletable(files: map<FileName, nat>, stuck: set<FileName>, id: string, streams: nat) {
    forall i :: 0 <= i < streams && (id, i) in files ==> (id, i) !in stuck
  }

  /** The resources whose files can all be deleted. */
  ghost function RemovableOf(entries: map<string, Entry>, files: map<FileName, nat>,
                             stuck: set<FileName>): set<string>
  {
    set id | id in entries && Deletable(files, stuck, id, entries[id].streams)
  }

  /** The lock is being given up, or nobody has the resource open. */
  predicate Lockable(e: Entry): (b: bool)
    ensures b <==> e.lockState == LS_UNLOCKING || (e.lockState == LS_UNLOCKED && e.accessors == 0)
  {
    e.lockState == LS_UNLOCKING || Evictable(e)
  }

  function Locked(e: Entry): Entry { e.(lockState := LS_LOCKED) }

  function NewEntry(now: int): Entry { Entry(LS_UNLOCKED, 0, 0, 0, now) }

  function Created(entries: map<string, Entry>, id: string, now: int): map<string, Entry> {
    if id in entries then entries else entries[id := NewEntry(now)]
  }

  /** The entry after a stream was opened for writing whose file had the given size. */
  function ForWriting(e: Entry, previousSize: nat, index: nat): Entry {
    e.(streams := if index + 1 > e.streams then index + 1 else e.streams,
       size := if previousSize > e.size then 0 else e.size - previousSize,
       accessors := e.accessors + 1)
  }

  /** The entry after one of its streams was released whose file has the given size. */
  function Released(e: Entry, newSize: nat, now: int): Entry
    requires e.accessors > 0
  {
    if e.lockState == LS_UNLOCKED then e.(accessors := e.accessors - 1)
    else if e.lockState == LS_UNLOCKING && e.accessors == 1 then
      e.(accessors := 0, size := e.size + newSize, lockState := LS_UNLOCKED, lastModified := now)
    else e.(accessors := e.accessors - 1, size := e.size + newSize)
  }

  // ---------------------------------------------------------------- exclusion

  lemma {:induction false} NoneOpen(entries: map<string, Entry>, open: set<DiskCacheAdapter>, id: string)
    requires Exclusive(entries, open) && id in entries && entries[id].accessors == 0
    ensures StreamsOf(open, id) == {} && forall s :: s in open ==> s.id != id
  {
    assert StreamsOf(open, id) == {};
    forall s | s in open ensures s.id == id <==> s in StreamsOf(open, id) { }
  }

  lemma {:induction false} CreatedIsExclusive(entries: map<string, Entry>, open: set<DiskCacheAdapter>, id: string,
                                              e: Entry)
    requires Exclusive(entries, open) && id !in entries && e.accessors == 0 && e.lockState == LS_UNLOCKED
    ensures Exclusive(entries[id := e], open)
  {
    assert StreamsOf(open, id) == {};
  }

  lemma {:induction false} OpenedIsExclusive(entries: map<string, Entry>, open: set<DiskCacheAdapter>,
                                             s: DiskCacheAdapter, e: Entry)
    requires Exclusive(entries, open) && s !in open && s.id in entries
    requires e.lockState == entries[s.id].lockState && e.accessors == entries[s.id].accessors + 1
    requires (s.writes <==> e.lockState != LS_UNLOCKED) && e.streams >= entries[s.id].streams && s.index < e.streams
    ensures Exclusive(entries[s.id := e], open + {s})
  {
    var after := entries[s.id := e];
    assert StreamsOf(open + {s}, s.id) == StreamsOf(open, s.id) + {s};
    forall id | id in after ensures after[id].accessors == |StreamsOf(open + {s}, id)| {
      if id != s.id { assert StreamsOf(open + {s}, id) == StreamsOf(open, id); }
    }
    forall t | t in open && t.id == s.id ensures t.writes == s.writes { }
  }

  /** A lock state may change when no stream is open, or between the two states of writers. */
  lemma {:induction false} StateIsExclusive(entries: map<string, Entry>, open: set<DiskCacheAdapter>, id: string,
                                            e: Entry)
    requires Exclusive(entries, open) && id in entries
    requires e.accessors == entries[id].accessors && e.streams == entries[id].streams
    requires e.accessors == 0 || (entries[id].lockState != LS_UNLOCKED && e.lockState != LS_UNLOCKED)
    requires e.lockState == LS_UNLOCKING ==> e.accessors > 0
    ensures Exclusive(entries[id := e], open)
  {
    if e.accessors == 0 { NoneOpen(entries, open, id); }
  }

  lemma {:induction false} ReleasedIsExclusive(entries: map<string, Entry>, open: set<DiskCacheAdapter>,
                                               s: DiskCacheAdapter, newSize: nat, now: int)
    requires Exclusive(entries, open) && s in open
    ensures s.id in entries && entries[s.id].accessors > 0
    ensures Exclusive(entries[s.id := Released(entries[s.id], newSize, now)], open - {s})
  {
    assert s in StreamsOf(open, s.id);
    var rest := StreamsOf(open - {s}, s.id);
    assert StreamsOf(open, s.id) == rest + {s};
    forall id | id != s.id ensures StreamsOf(open - {s}, id) == StreamsOf(open, id) { }
    forall t | t in open - {s} && t.id == s.id ensures entries[s.id].accessors > 1 {
      assert t in rest;
    }
  }

  /** Readers and writers of one resource are never open together. */
  lemma {:induction false} NeverBoth(entries: map<string, Entry>, open: set<DiskCacheAdapter>,
                                     s: DiskCacheAdapter, t: DiskCacheAdapter)
    requires Exclusive(entries, open) && s in open && t in open && s.id == t.id
    ensures s.writes == t.writes
  {
  }

  /** The sum of the entries' counts is the number of open streams. */
  lemma {:induction false} AccessorsAreOpenStreams(entries: map<string, Entry>, open: set<DiskCacheAdapter>)
    requires Exclusive(entries, open)
    ensures Sum(entries, AccessorsOf) == |open|
    decreases |entries|
  {
    if entries == map[] {
      assert open == {};
    } else {
      var id :| id in entries;
      var here, rest := StreamsOf(open, id), open - StreamsOf(open, id);
      forall j | j in entries && j != id ensures StreamsOf(rest, j) == StreamsOf(open, j) { }
      SumWithout(entries, AccessorsOf, id);
      AccessorsAreOpenStreams(entries - {id}, rest);
      assert open == here + rest;
    }
  }

  // ---------------------------------------------------------------- erasing

  /** These entries are erased, and of the files only some of theirs. An account that was right stays
      right, and no file is forgotten, exactly if all their files could be deleted. */
  ghost predicate Erases(entries: map<string, Entry>, files: map<FileName, nat>,
                         entries': map<string, Entry>, files': map<FileName, nat>,
                         open: set<DiskCacheAdapter>, stuck: set<FileName>, ids: seq<string>) {
    var removable := RemovableOf(entries, files, stuck);
    && entries' == Without(entries, ids) && (forall id :: id in ids ==> id in entries)
    && OnlyDeletesOf(files, files', ids)
    && RemovableOf(entries', files', stuck) == removable * entries'.Keys
    && (SizesMatch(entries, files, open) ==>
          && (SizesMatch(entries', files', open) <==> forall id :: id in ids ==> id in removable)
          && (NoneForgotten(entries', files') <==> forall id :: id in ids ==> id in removable))
  }

  lemma {:induction false} ErasesNothing(entries: map<string, Entry>, files: map<FileName, nat>,
                                         open: set<DiskCacheAdapter>, stuck: set<FileName>)
    ensures Erases(entries, files, entries, files, open, stuck, [])
  {
    assert Without(entries, []) == entries;
  }

  lemma {:induction false} NothingErased(entries: map<string, Entry>, files: map<FileName, nat>,
                                         entries': map<string, Entry>, files': map<FileName, nat>,
                                         open: set<DiskCacheAdapter>, stuck: set<FileName>)
    requires Erases(entries, files, entries', files', open, stuck, [])
    ensures entries' == entries && files' == files
  {
  }

  lemma {:induction false} ErasesMore(entries: map<string, Entry>, files: map<FileName, nat>,
                                      entries1: map<string, Entry>, files1: map<FileName, nat>,
                                      entries2: map<string, Entry>, files2: map<FileName, nat>,
                                      open: set<DiskCacheAdapter>, stuck: set<FileName>, ids: seq<string>,
                                      more: seq<string>)
    requires Erases(entries, files, entries1, files1, open, stuck, ids)
    requires Erases(entries1, files1, entries2, files2, open, stuck, more)
    requires forall id :: id in ids ==> id in RemovableOf(entries, files, stuck)
    ensures Erases(entries, files, entries2, files2, open, stuck, ids + more)
  {
    assert entries2 == Without(entries, ids + more);
    var removable := RemovableOf(entries, files, stuck);
    assert (forall id :: id in ids + more ==> id in removable)
      <==> (forall id :: id in more ==> id in RemovableOf(entries1, files1, stuck));
  }

  lemma {:induction false} ErasesOne(entries: map<string, Entry>, files: map<FileName, nat>, files': map<FileName, nat>,
                                     open: set<DiskCacheAdapter>, stuck: set<FileName>, id: string, all: bool)
    requires id in entries && OnlyDeletesOf(files, files', [id])
    requires all <==> Deletable(files, stuck, id, entries[id].streams)
    requires all <==> forall i :: 0 <= i < entries[id].streams ==> (id, i) !in files'
    ensures Erases(entries, files, entries - {id}, files', open, stuck, [id])
  {
    assert entries - {id} == Without(entries, [id]);
    RemovableAfter(entries, files, files', stuck, id);
    if SizesMatch(entries, files, open) { ErasedMatches(entries, files, files', open, id, all); }
  }

  lemma {:induction false} RemovableAfter(entries: map<string, Entry>, files: map<FileName, nat>,
                                          files': map<FileName, nat>, stuck: set<FileName>, id: string)
    requires OnlyDeletesOf(files, files', [id])
    ensures RemovableOf(entries - {id}, files', stuck) == RemovableOf(entries, files, stuck) - {id}
  {
    forall j, n: nat | j != id ensures Deletable(files', stuck, j, n) <==> Deletable(files, stuck, j, n) {
      forall i: nat ensures (j, i) in files' <==> (j, i) in files { assert (j, i).0 == j; }
    }
  }

  lemma {:induction false} RemovableAlike(entries: map<string, Entry>, files: map<FileName, nat>, stuck: set<FileName>,
                                          id: string, e: Entry)
    requires id in entries && e.streams == entries[id].streams
    ensures RemovableOf(entries[id := e], files, stuck) == RemovableOf(entries, files, stuck)
  {
  }

  lemma {:induction false} ErasedMatches(entries: map<string, Entry>, files: map<FileName, nat>,
                                         files': map<FileName, nat>,
                                         open: set<DiskCacheAdapter>, id: string, all: bool)
    requires SizesMatch(entries, files, open) && id in entries && OnlyDeletesOf(files, files', [id])
    requires all <==> forall i :: 0 <= i < entries[id].streams ==> (id, i) !in files'
    ensures SizesMatch(entries - {id}, files', open) <==> all
    ensures NoneForgotten(entries - {id}, files') <==> all
  {
    if all {
      forall j | j in entries && j != id ensures Surplus(entries - {id}, files', open, j) == 0 {
        assert Surplus(entries, files, open, j) == 0;
        BytesDependOn(files, files', Busy(open, j), j, entries[j].streams);
      }
      forall f | f in files' ensures f.0 != id { assert f == (f.0, f.1); }
    } else {
      var i :| 0 <= i < entries[id].streams && (id, i) in files';
      assert (id, i).0 !in entries - {id};
    }
  }

  // ---------------------------------------------------------------- sizes

  lemma {:induction false} CreatedMatches(entries: map<string, Entry>, files: map<FileName, nat>,
                                          open: set<DiskCacheAdapter>, id: string, e: Entry)
    requires SizesMatch(entries, files, open) && id !in entries && e.size == e.streams == 0
    ensures SizesMatch(entries[id := e], files, open)
  {
    forall j | j in entries ensures Surplus(entries[id := e], files, open, j) == Surplus(entries, files, open, j) { }
  }

  /** Locking and reading do not change the account. */
  lemma {:induction false} MatchesAlike(entries: map<string, Entry>, files: map<FileName, nat>,
                                        open: set<DiskCacheAdapter>, open': set<DiskCacheAdapter>, id: string, e: Entry)
    requires id in entries && e.size == entries[id].size && e.streams == entries[id].streams
    requires forall s :: s in open + open' && s.writes ==> s in open && s in open'
    ensures SizesMatch(entries[id := e], files, open') <==> SizesMatch(entries, files, open)
  {
    forall j | j in entries ensures Surplus(entries[id := e], files, open', j) == Surplus(entries, files, open, j) {
      assert Busy(open', j) == Busy(open, j);
    }
  }

  lemma {:induction false} StoredMatches(entries: map<string, Entry>, files: map<FileName, nat>,
                                         open: set<DiskCacheAdapter>, s: DiskCacheAdapter, size: nat)
    requires SizesMatch(entries, files, open) && Exclusive(entries, open) && s in open && s.writes
    ensures SizesMatch(entries, files[(s.id, s.index) := size], open)
  {
    var files' := files[(s.id, s.index) := size];
    forall j | j in entries ensures Surplus(entries, files', open, j) == Surplus(entries, files, open, j) {
      if j == s.id { assert s.index in Busy(open, j); }
      BytesDependOn(files, files', Busy(open, j), j, entries[j].streams);
    }
  }

  /** The bytes that opening an idle stream takes out. */
  lemma {:induction false} BytesTakenOut(files: map<FileName, nat>, busy: set<nat>, id: string, n: nat, index: nat)
    requires index !in busy && forall f :: f in files && f.0 == id ==> f.1 < n
    ensures BytesAtRest(files[(id, index) := 0], busy + {index}, id, if index + 1 > n then index + 1 else n)
         == BytesAtRest(files, busy, id, n) - SizeOf(files, id, index)
  {
    var files' := files[(id, index) := 0];
    if index < n {
      BytesWithoutStream(files, busy, id, n, index);
      BytesDependOn(files, files', busy + {index}, id, n);
    } else {
      BytesDependOn(files, files', busy + {index}, id, index);
      BytesIgnoreBusy(files, busy, id, index, index);
      forall i | n <= i < index ensures (id, i) !in files { assert (id, i).1 >= n; }
      assert (id, index).1 >= n;
      BytesOfMissing(files, busy, id, n, index);
    }
  }

  /** Opening a stream for writing takes the bytes of its file out of the account, whether or not they
      are in it. They are not when the stream is being written. */
  lemma {:induction false} OpenedSurplus(entries: map<string, Entry>, files: map<FileName, nat>,
                                         open: set<DiskCacheAdapter>, s: DiskCacheAdapter, id: string)
    requires Exclusive(entries, open) && Known(entries, files) && s !in open && s.writes && s.id in entries
    requires id in entries
    ensures var size, bytes := entries[s.id].size, SizeOf(files, s.id, s.index);
      var after := entries[s.id := ForWriting(entries[s.id], bytes, s.index)];
      Surplus(after, files[(s.id, s.index) := 0], open + {s}, id) == Surplus(entries, files, open, id)
        + if id != s.id then 0
          else if s.index in Busy(open, s.id) then -(if bytes <= size then bytes else size)
          else if bytes <= size then 0 else bytes - size
  {
    var files', n := files[(s.id, s.index) := 0], entries[id].streams;
    if id != s.id {
      assert Busy(open + {s}, id) == Busy(open, id);
      BytesDependOn(files, files', Busy(open, id), id, n);
    } else if s.index in Busy(open, id) {
      assert Busy(open + {s}, id) == Busy(open, id);
      BytesDependOn(files, files', Busy(open, id), id, n);
    } else {
      assert Busy(open + {s}, id) == Busy(open, id) + {s.index};
      BytesTakenOut(files, Busy(open, id), id, n, s.index);
    }
  }

  /** Releasing a writer adds the bytes of its file. They are one too many while another stream still
      writes it, so that a file is counted once for each of its writers. */
  lemma {:induction false} ReleasedSurplus(entries: map<string, Entry>, files: map<FileName, nat>,
                                           open: set<DiskCacheAdapter>, s: DiskCacheAdapter, now: int, id: string)
    requires Exclusive(entries, open) && s in open && entries[s.id].accessors > 0 && id in entries
    ensures var bytes := SizeOf(files, s.id, s.index);
      Surplus(entries[s.id := Released(entries[s.id], bytes, now)], files, open - {s}, id)
        == Surplus(entries, files, open, id)
           + if id == s.id && s.writes && s.index in Busy(open - {s}, id) then bytes else 0
  {
    var open' := open - {s};
    if id != s.id || !s.writes || s.index in Busy(open', id) {
      assert Busy(open, id) == Busy(open', id);
    } else {
      assert Busy(open, id) == Busy(open', id) + {s.index};
      BytesWithoutStream(files, Busy(open', id), id, entries[id].streams, s.index);
    }
  }

  lemma {:induction false} OthersWriting(entries: map<string, Entry>, open: set<DiskCacheAdapter>, s: DiskCacheAdapter)
    requires Exclusive(entries, open) && s in open
    ensures OneWriterEach(open) ==> OneWriterEach(open - {s}) && (s.writes ==> s.index !in Busy(open - {s}, s.id))
    ensures entries[s.id].accessors == 1 ==> Busy(open - {s}, s.id) == {}
  {
    assert s in StreamsOf(open, s.id);
    assert StreamsOf(open, s.id) == StreamsOf(open - {s}, s.id) + {s};
    forall t | t in open - {s} && t.id == s.id ensures t in StreamsOf(open - {s}, s.id) { }
  }

  lemma {:induction false} OneMoreWriter(open: set<DiskCacheAdapter>, s: DiskCacheAdapter)
    requires s !in open && s.writes && OneWriterEach(open)
    ensures OneWriterEach(open + {s}) <==> s.index !in Busy(open, s.id)
  {
    if s.index in Busy(open, s.id) {
      var t :| t in open && t.id == s.id && t.writes && t.index == s.index;
      assert t in open + {s} && s in open + {s} && s != t;
    } else {
      forall t | t in open && t.writes && t.id == s.id ensures t.index != s.index {
        assert t.index in Busy(open, s.id);
      }
    }
  }

  /** When the sizes still match after a stream was opened for writing. */
  lemma {:induction false} OpenedMatches(entries: map<string, Entry>, files: map<FileName, nat>,
                                         open: set<DiskCacheAdapter>, s: DiskCacheAdapter)
    requires Exclusive(entries, open) && SizesMatch(entries, files, open) && s !in open && s.writes && s.id in entries
    ensures s.index !in Busy(open, s.id) ==> SizeOf(files, s.id, s.index) <= entries[s.id].size
    ensures var after := entries[s.id := ForWriting(entries[s.id], SizeOf(files, s.id, s.index), s.index)];
      SizesMatch(after, files[(s.id, s.index) := 0], open + {s})
      <==> s.index !in Busy(open, s.id) || SizeOf(files, s.id, s.index) == 0 || entries[s.id].size == 0
  {
    if s.index !in Busy(open, s.id) {
      BytesTakenOut(files, Busy(open, s.id), s.id, entries[s.id].streams, s.index);
    }
    forall id | id in entries ensures Surplus(entries, files, open, id) == 0 { }
    forall id | id in entries { OpenedSurplus(entries, files, open, s, id); }
  }

  /** When the sizes still match after a stream was released. */
  lemma {:induction false} ReleasedMatches(entries: map<string, Entry>, files: map<FileName, nat>,
                                           open: set<DiskCacheAdapter>, s: DiskCacheAdapter, now: int)
    requires Exclusive(entries, open) && SizesMatch(entries, files, open) && s in open && entries[s.id].accessors > 0
    ensures var bytes := SizeOf(files, s.id, s.index);
      SizesMatch(entries[s.id := Released(entries[s.id], bytes, now)], files, open - {s})
      <==> !s.writes || s.index !in Busy(open - {s}, s.id) || bytes == 0
  {
    forall id | id in entries { ReleasedSurplus(entries, files, open, s, now, id); }
  }

  lemma {:induction false} ReleasedSums(entries: map<string, Entry>, id: string, newSize: nat, now: int)
    requires id in entries && entries[id].accessors > 0
    ensures var after := entries[id := Released(entries[id], newSize, now)];
      && Sum(after, AccessorsOf) + 1 == Sum(entries, AccessorsOf)
      && Sum(after, SizeOfEntry)
         == Sum(entries, SizeOfEntry) + if entries[id].lockState == LS_UNLOCKED then 0 else newSize
  {
    var e := Released(entries[id], newSize, now);
    SumUpdated(entries, SizeOfEntry, id, e);
    SumUpdated(entries, AccessorsOf, id, e);
  }

  /** All that releasing a stream keeps. */
  lemma {:induction false} StreamReleased(entries: map<string, Entry>, files: map<FileName, nat>,
                                          open: set<DiskCacheAdapter>, stuck: set<FileName>, s: DiskCacheAdapter,
                                          now: int)
    requires Exclusive(entries, open) && s in open
    ensures s.id in entries && entries[s.id].accessors > 0 && (s.writes <==> entries[s.id].lockState != LS_UNLOCKED)
    ensures var bytes := SizeOf(files, s.id, s.index);
      var after := entries[s.id := Released(entries[s.id], bytes, now)];
      && Exclusive(after, open - {s}) && RemovableOf(after, files, stuck) == RemovableOf(entries, files, stuck)
      && Sum(after, AccessorsOf) + 1 == Sum(entries, AccessorsOf)
      && Sum(after, SizeOfEntry) == Sum(entries, SizeOfEntry) + (if s.writes then bytes else 0)
      && (SizesMatch(entries, files, open) ==>
            (SizesMatch(after, files, open - {s}) <==>
              !s.writes || s.index !in Busy(open - {s}, s.id) || bytes == 0))
  {
    var bytes := SizeOf(files, s.id, s.index);
    ReleasedIsExclusive(entries, open, s, bytes, now);
    ReleasedSums(entries, s.id, bytes, now);
    RemovableAlike(entries, files, stuck, s.id, Released(entries[s.id], bytes, now));
    if SizesMatch(entries, files, open) { ReleasedMatches(entries, files, open, s, now); }
  }
}
