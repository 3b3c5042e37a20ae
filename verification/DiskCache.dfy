/** The disk cache of diskcache.cc over every run of its operations. Times are parameters. */
module DiskCaching {
  import opened CacheAccounting
  import opened CacheStreams
  import opened CacheLimiting

  class DiskCache {
    const maxCache: nat
    var entries: map<string, Entry>
    var totalSize: nat
    var totalAccessors: nat
    /** The sizes of the cache files. */
    var files: map<FileName, nat>
    /** The files that the file system will not delete at present. */
    var stuck: set<FileName>
    /** The streams handed out and not yet destroyed. */
    ghost var open: set<DiskCacheAdapter>

    ghost predicate Valid()
      reads this
    {
      Summed() && Exclusive(entries, open)
    }

    ghost predicate Summed()
      reads this
    {
      totalSize == Sum(entries, SizeOfEntry) && totalAccessors == Sum(entries, AccessorsOf)
    }

    /** The sizes are the bytes on disk. */
    ghost predicate Matching()
      reads this
    {
      SizesMatch(entries, files, open)
    }

    /** They are, and no file is being written twice at a time. As long as neither that nor a failed
        deletion happens, every operation keeps this. */
    ghost predicate Accounted()
      reads this
    {
      Matching() && OneWriterEach(open)
    }

    /** The resources whose files can all be deleted. */
    ghost function Removable(): set<string>
      reads this
    {
      RemovableOf(entries, files, stuck)
    }

    constructor (maxCache: nat)
      ensures Valid() && Accounted() && open == {} && entries == map[] && files == map[]
      ensures totalSize == 0 && this.maxCache == maxCache && stuck == {}
    {
      this.maxCache := maxCache;
      entries, files, stuck := map[], map[], {};
      totalSize, totalAccessors := 0, 0;
      open := {};
    }

    /** Between calls the file system may begin or cease to refuse a deletion. One call tries a file
        at most once, because a file that is not deleted ends it. */
    method ChangeFileSystem(stuck: set<FileName>)
      modifies this`stuck
      ensures this.stuck == stuck
    {
      this.stuck := stuck;
    }

    // -------------------------------------------------------------- deleting

    /** What deleting this resource erases: its entry, if that is idle. */
    ghost function Erased(id: string): seq<string>
      reads this
    {
      if id in entries && Evictable(entries[id]) then [id] else []
    }

    /** Erases an entry that is neither locked nor open, and its files. Failing to delete a file does
        not keep the entry. */
    method DeleteResource(id: string) returns (success: bool)
      requires Valid()
      modifies this`entries, this`totalSize, this`files
      ensures Valid() && Erases(old(entries), old(files), entries, files, open, stuck, old(Erased(id)))
      ensures success <==> id !in old(entries) || (old(Erased(id)) == [id] && id in old(Removable()))
      ensures var idle := id in old(entries) && old(entries)[id].lockState == LS_UNLOCKED
                          && old(entries)[id].accessors == 0;
        entries == if idle then old(entries) - {id} else old(entries)
    {
      if id !in entries {
        ErasesNothing(entries, files, open, stuck);
        return true;
      }
      var entry := entries[id];
      if entry.lockState != LS_UNLOCKED || entry.accessors > 0 {
        ErasesNothing(entries, files, open, stuck);
        return false;
      }
      success := DeleteFiles(id, entry.streams);
      ErasesOne(entries, old(files), files, open, stuck, id, success);
      EraseEntry(id);
    }

    method EraseEntry(id: string)
      requires Valid() && id in entries && Evictable(entries[id])
      modifies this`entries, this`totalSize
      ensures Valid() && entries == old(entries) - {id}
    {
      SumWithout(entries, SizeOfEntry, id);
      SumWithout(entries, AccessorsOf, id);
      NoneOpen(entries, open, id);
      totalSize := totalSize - entries[id].size;
      entries := entries - {id};
    }

    /** The loop over the streams of one resource. */
    method DeleteFiles(id: string, streams: nat) returns (success: bool)
      modifies this`files
      ensures OnlyDeletesOf(old(files), files, [id])
      ensures success <==> forall i :: 0 <= i < streams ==> (id, i) !in files
      ensures success <==> old(Deletable(files, stuck, id, streams))
    {
      success := true;
      for index := 0 to streams
        invariant OnlyDeletesOf(old(files), files, [id])
        invariant success <==> forall i :: 0 <= i < index ==> (id, i) !in files
        invariant success <==> old(Deletable(files, stuck, id, index))
        invariant forall i :: index <= i < streams ==> ((id, i) in files <==> (id, i) in old(files))
      {
        if (id, index) !in files {
          continue;
        }
        if (id, index) !in stuck {
          files := files - {(id, index)};
        } else {
          success := false;
        }
      }
    }

    // -------------------------------------------------------------- the limit

    /** Evicts until the limit is met, the search finds nothing that may be evicted, a file cannot be
        deleted, or the search reads behind the end of the map. */
    method CheckLimit() returns (result: LimitResult, ghost victims: seq<string>)
      requires Valid()
      modifies this`entries, this`totalSize, this`files
      ensures Valid() && Checked(old(entries), old(files), victims, result)
      ensures old(totalSize) <= maxCache ==> result == Met && victims == []
    {
      victims := [];
      ErasesNothing(entries, files, open, stuck);
      while totalSize > maxCache
        invariant Valid() && Checking(old(entries), old(files), victims)
        invariant old(totalSize) <= maxCache ==> victims == []
        decreases |entries|
      {
        var stopped;
        stopped, result, victims := EvictNext(old(entries), old(files), victims);
        if stopped {
          return result, victims;
        }
      }
      LimitIsMet(old(entries), maxCache, old(Removable()), victims);
      return Met, victims;
    }

    /** The check has come this far, as seen from the entries and files before it. */
    ghost predicate Checking(before: map<string, Entry>, filesBefore: map<FileName, nat>, victims: seq<string>)
      reads this
    {
      && Erases(before, filesBefore, entries, files, open, stuck, victims)
      && Limiting(before, maxCache, RemovableOf(before, filesBefore, stuck), victims)
    }

    /** The check is over. */
    ghost predicate Checked(before: map<string, Entry>, filesBefore: map<FileName, nat>, victims: seq<string>,
                            result: LimitResult)
      reads this
    {
      && Erases(before, filesBefore, entries, files, open, stuck, victims)
      && Limited(before, maxCache, RemovableOf(before, filesBefore, stuck), victims, result)
    }

    lemma {:induction false} CheckGoesOn(before: map<string, Entry>, filesBefore: map<FileName, nat>,
                                         entries1: map<string, Entry>, files1: map<FileName, nat>,
                                         victims: seq<string>, evicted: seq<string>, stopped: bool, result: LimitResult)
      requires Erases(before, filesBefore, entries1, files1, open, stuck, victims)
      requires Limiting(before, maxCache, RemovableOf(before, filesBefore, stuck), victims)
      requires Erases(entries1, files1, entries, files, open, stuck, evicted)
      requires Round(entries1, maxCache, RemovableOf(entries1, files1, stuck), evicted, stopped, result)
      requires Sum(entries1, SizeOfEntry) > maxCache
      ensures if stopped then Checked(before, filesBefore, victims + evicted, result)
              else Checking(before, filesBefore, victims + evicted)
    {
      LimitingGoesOn(before, maxCache, RemovableOf(before, filesBefore, stuck), victims, evicted, stopped, result);
      ErasesMore(before, filesBefore, entries1, files1, entries, files, open, stuck, victims, evicted);
    }

    lemma {:induction false} CheckStops(before: map<string, Entry>, filesBefore: map<FileName, nat>,
                                        victims: seq<string>,
                                        result: LimitResult)
      requires Checking(before, filesBefore, victims) && Sum(entries, SizeOfEntry) > maxCache && Stuck(entries, result)
      ensures Checked(before, filesBefore, victims, result)
    {
      ErasesNothing(entries, files, open, stuck);
      CheckGoesOn(before, filesBefore, entries, files, victims, [], true, result);
      assert victims + [] == victims;
    }

    /** One round of the loop, lines 226 to 246. */
    method EvictNext(ghost before: map<string, Entry>, ghost filesBefore: map<FileName, nat>, ghost so: seq<string>)
      returns (stopped: bool, result: LimitResult, ghost victims: seq<string>)
      requires Valid() && totalSize > maxCache && Checking(before, filesBefore, so)
      modifies this`entries, this`totalSize, this`files
      ensures Valid()
      ensures if stopped then Checked(before, filesBefore, victims, result)
              else Checking(before, filesBefore, victims) && |entries| < |old(entries)|
    {
      var found := FindVictim(entries);
      match found {
        case NoneIdle =>
          CheckStops(before, filesBefore, so, NotMet);
          return true, NotMet, so;
        case PastTheEnd =>
          CheckStops(before, filesBefore, so, Undefined);
          return true, Undefined, so;
        case Victim(id) =>
          ghost var evicted;
          stopped, evicted := EvictFound(id);
          CheckGoesOn(before, filesBefore, old(entries), old(files), so, evicted, stopped, NotMet);
          return stopped, NotMet, so + evicted;
      }
    }

    /** Lines 243 to 246. The victim is deleted only if it is idle. */
    method EvictFound(id: string) returns (stopped: bool, ghost evicted: seq<string>)
      requires Valid() && totalSize > maxCache && id in entries && Finds(entries, Victim(id))
      modifies this`entries, this`totalSize, this`files
      ensures Valid() && Erases(old(entries), old(files), entries, files, open, stuck, evicted)
      ensures Round(old(entries), maxCache, old(Removable()), evicted, stopped, NotMet)
      ensures !stopped ==> |entries| < |old(entries)|
    {
      evicted := Erased(id);
      var deleted := DeleteResource(id);
      return !deleted, evicted;
    }

    // -------------------------------------------------------------- locking

    /** Locks for writing. It fails on a locked entry, on one that is being read, or when the cache is
        overfull and cannot be reduced. It is not defined when the limit check reads behind the end of
        the map, or evicts the very entry that is then locked. */
    method LockResource(id: string, now: int)
      returns (locked: bool, defined: bool, ghost victims: seq<string>, ghost limit: LimitResult)
      requires Valid()
      modifies this`entries, this`totalSize, this`files
      ensures Valid()
      ensures var before := Created(old(entries), id, now);
        if Lockable(before[id]) then
          Locks(before, old(files), id, locked, defined, victims, limit)
        else !locked && defined && entries == old(entries) && files == old(files)
      ensures old(Matching()) ==> SizesMatch(Created(old(entries), id, now), old(files), open)
      ensures old(totalSize) <= maxCache && Lockable(Created(old(entries), id, now)[id]) ==>
        && locked && entries == Created(old(entries), id, now)[id := Locked(Created(old(entries), id, now)[id])]
        && files == old(files) && totalSize == old(totalSize)
      ensures id in old(entries) && (old(entries)[id].lockState == LS_LOCKED
                || (old(entries)[id].lockState == LS_UNLOCKED && old(entries)[id].accessors > 0)) ==>
        !locked && defined && entries == old(entries) && files == old(files)
      ensures locked && id in old(entries) ==>
        id in entries && entries[id] == old(entries)[id].(lockState := LS_LOCKED)
      ensures locked && id !in old(entries) ==> id in entries && entries[id] == Entry(LS_LOCKED, 0, 0, 0, now)
    {
      CreateEntry(id, now);
      var entry := entries[id];
      if entry.lockState == LS_LOCKED {
        return false, true, [], Met;
      }
      if entry.lockState == LS_UNLOCKED && entry.accessors > 0 {
        return false, true, [], Met;
      }
      locked, defined, victims, limit := LockEntry(id);
    }

    /** The limit check and the lock, as seen from the entries and files before them. */
    ghost predicate Locks(before: map<string, Entry>, filesBefore: map<FileName, nat>, id: string,
                          locked: bool, defined: bool, victims: seq<string>, limit: LimitResult)
      requires id in before
      reads this
    {
      && Limited(before, maxCache, RemovableOf(before, filesBefore, stuck), victims, limit)
      && Erases(before, filesBefore, Without(before, victims), files, open, stuck, victims)
      && (locked <==> limit == Met && id !in victims)
      && (defined <==> locked || limit == NotMet)
      && entries == (if locked then Without(before, victims)[id := Locked(before[id])] else Without(before, victims))
      && (Matching() <==> SizesMatch(Without(before, victims), files, open))
    }

    /** Lines 105 to 110. Within the limit the check does nothing, so that it may as well be made. */
    method LockEntry(id: string)
      returns (locked: bool, defined: bool, ghost victims: seq<string>, ghost limit: LimitResult)
      requires Valid() && id in entries && Lockable(entries[id])
      modifies this`entries, this`totalSize, this`files
      ensures Valid()
      ensures Locks(old(entries), old(files), id, locked, defined, victims, limit)
      ensures old(totalSize) <= maxCache ==>
        && locked && entries == old(entries)[id := Locked(old(entries)[id])]
        && files == old(files) && totalSize == old(totalSize)
    {
      var result;
      result, victims := CheckLimit();
      limit := result;
      if victims == [] { NothingErased(old(entries), old(files), entries, files, open, stuck); }
      if result != Met {
        return false, result == NotMet, victims, limit;
      }
      if id !in entries {
        return false, false, victims, limit;
      }
      SetLockState(id, LS_LOCKED, entries[id].lastModified);
      return true, true, victims, limit;
    }

    /** The creating half of GetOrCreateEntry. */
    method CreateEntry(id: string, now: int)
      requires Valid()
      modifies this`entries
      ensures Valid() && entries == Created(old(entries), id, now)
      ensures old(Matching()) ==> Matching()
    {
      if id !in entries {
        var e := NewEntry(now);
        SumUpdated(entries, SizeOfEntry, id, e);
        SumUpdated(entries, AccessorsOf, id, e);
        CreatedIsExclusive(entries, open, id, e);
        if Matching() { CreatedMatches(entries, files, open, id, e); }
        entries := entries[id := e];
      }
    }

    method SetLockState(id: string, state: LockState, lastModified: int)
      requires Valid() && id in entries && (state == LS_UNLOCKING ==> entries[id].accessors > 0)
      requires entries[id].accessors == 0 || (entries[id].lockState != LS_UNLOCKED && state != LS_UNLOCKED)
      modifies this`entries
      ensures Valid()
      ensures entries == old(entries)[id := old(entries)[id].(lockState := state, lastModified := lastModified)]
      ensures (Matching() <==> old(Matching())) && totalSize == old(totalSize) && Removable() == old(Removable())
    {
      var e := entries[id].(lockState := state, lastModified := lastModified);
      SumUpdated(entries, SizeOfEntry, id, e);
      SumUpdated(entries, AccessorsOf, id, e);
      StateIsExclusive(entries, open, id, e);
      MatchesAlike(entries, files, open, open, id, e);
      RemovableAlike(entries, files, stuck, id, e);
      entries := entries[id := e];
    }

    /** Ends the lock at once, or when the last open writer is released. */
    method UnlockResource(id: string, now: int)
      returns (unlocked: bool, defined: bool, ghost victims: seq<string>, ghost limit: LimitResult)
      requires Valid() && id in entries
      modifies this`entries, this`totalSize, this`files
      ensures Valid() && (unlocked <==> old(entries)[id].lockState == LS_LOCKED)
      ensures !unlocked ==> defined && entries == old(entries) && files == old(files)
      ensures unlocked && old(entries)[id].accessors > 0 ==>
        && defined && entries == old(entries)[id := old(entries)[id].(lockState := LS_UNLOCKING)]
        && files == old(files) && totalSize == old(totalSize)
      ensures unlocked && old(entries)[id].accessors == 0 ==>
        var before := old(entries)[id := old(entries)[id].(lockState := LS_UNLOCKED, lastModified := now)];
        && Checked(before, old(files), victims, limit) && (defined <==> limit != Undefined)
        && (victims == [] ==> entries == before && files == old(files))
        && (old(totalSize) <= maxCache ==> limit == Met && victims == [])
      ensures old(Matching()) ==> (Matching() <==> forall v :: v in victims ==> v in old(Removable()))
    {
      var entry := entries[id];
      victims, limit, defined := [], Met, true;
      if entry.lockState != LS_LOCKED {
        return false, true, [], Met;
      }
      if entry.accessors > 0 {
        SetLockState(id, LS_UNLOCKING, entry.lastModified);
      } else {
        SetLockState(id, LS_UNLOCKED, now);
        ghost var before, filesBefore := entries, files;
        var result;
        result, victims := CheckLimit();
        if victims == [] { NothingErased(before, filesBefore, entries, files, open, stuck); }
        limit, defined := result, result != Undefined;
      }
      unlocked := true;
    }

    // -------------------------------------------------------------- streams

    /** Opens a stream of a locked resource for writing and takes its old bytes out of the account.
        Unless the stream is being written already they are in it, as the source asserts. */
    method WriteResource(id: string, index: nat, opens: bool) returns (stream: DiskCacheAdapter?)
      requires Valid() && id in entries
      modifies this`entries, this`totalSize, this`totalAccessors, this`files, this`open
      ensures Valid()
      ensures stream == null ==> unchanged(this)
      ensures stream != null <==> old(entries)[id].lockState == LS_LOCKED && opens
      ensures stream != null ==> fresh(stream) && stream.id == id && stream.index == index && stream.writes
      ensures stream != null ==> open == old(open) + {stream} && files == old(files)[(id, index) := 0]
      ensures stream != null ==>
        entries == old(entries)[id := ForWriting(old(entries)[id], SizeOf(old(files), id, index), index)]
      ensures stream != null ==>
        var e, size := old(entries)[id], SizeOf(old(files), id, index);
        && entries[id].lockState == LS_LOCKED && entries[id].accessors == e.accessors + 1
        && entries[id].lastModified == e.lastModified
        && entries[id].size == (if size > e.size then 0 else e.size - size)
        && entries[id].streams == if index >= e.streams then index + 1 else e.streams
      ensures stream != null ==> totalSize + old(entries)[id].size == old(totalSize) + entries[id].size
      ensures stream != null && old(Matching()) ==>
        (Matching() <==>
          index !in Busy(old(open), id) || SizeOf(old(files), id, index) == 0 || old(entries)[id].size == 0)
      ensures stream != null && old(Matching()) && index !in Busy(old(open), id) ==>
        SizeOf(old(files), id, index) <= old(entries)[id].size
      ensures stream != null && OneWriterEach(old(open)) ==> (OneWriterEach(open) <==> index !in Busy(old(open), id))
      ensures stream != null && old(Accounted()) ==> (Accounted() <==> index !in Busy(old(open), id))
    {
      if entries[id].lockState != LS_LOCKED || !opens {
        return null;
      }
      stream := new DiskCacheAdapter(id, index, true);
      if Matching() { OpenedMatches(entries, files, open, stream); }
      if OneWriterEach(open) { OneMoreWriter(open, stream); }
      OpenWriter(stream);
    }

    /** The accounting of WriteResource, lines 118 to 133. */
    method OpenWriter(stream: DiskCacheAdapter)
      requires Valid() && stream !in open && stream.writes
      requires stream.id in entries && entries[stream.id].lockState == LS_LOCKED
      modifies this`entries, this`totalSize, this`totalAccessors, this`files, this`open
      ensures Valid() && open == old(open) + {stream} && files == old(files)[(stream.id, stream.index) := 0]
      ensures entries == old(entries)[stream.id :=
        ForWriting(old(entries)[stream.id], SizeOf(old(files), stream.id, stream.index), stream.index)]
      ensures totalSize + old(entries)[stream.id].size == old(totalSize) + entries[stream.id].size
    {
      var id := stream.id;
      var entry := entries[id];
      var previousSize := SizeOf(files, id, stream.index);
      if previousSize > entry.size {
        previousSize := entry.size;
      }
      var e := ForWriting(entry, previousSize, stream.index);
      SumAtLeast(entries, SizeOfEntry, id);
      files := files[(id, stream.index) := 0];
      totalSize := totalSize - previousSize;
      AddStream(stream, e);
    }

    /** The counters of a stream that was just opened. */
    method AddStream(stream: DiskCacheAdapter, e: Entry)
      requires Exclusive(entries, open) && stream !in open && stream.id in entries
      requires e.lockState == entries[stream.id].lockState && e.accessors == entries[stream.id].accessors + 1
      requires stream.writes <==> e.lockState != LS_UNLOCKED
      requires e.streams >= entries[stream.id].streams && stream.index < e.streams
      requires totalAccessors == Sum(entries, AccessorsOf)
      requires totalSize + entries[stream.id].size == Sum(entries, SizeOfEntry) + e.size
      modifies this`entries, this`totalAccessors, this`open
      ensures Valid() && entries == old(entries)[stream.id := e] && open == old(open) + {stream}
    {
      SumUpdated(entries, SizeOfEntry, stream.id, e);
      SumUpdated(entries, AccessorsOf, stream.id, e);
      OpenedIsExclusive(entries, open, stream, e);
      entries := entries[stream.id := e];
      totalAccessors := totalAccessors + 1;
      open := open + {stream};
    }

    /** Opens a stream of an unlocked resource for reading. */
    method ReadResource(id: string, index: nat, opens: bool) returns (stream: DiskCacheAdapter?)
      requires Valid() && id in entries
      modifies this`entries, this`totalAccessors, this`open
      ensures Valid()
      ensures stream == null ==> unchanged(this)
      ensures stream != null <==>
        old(entries)[id].lockState == LS_UNLOCKED && index < old(entries)[id].streams && (id, index) in files && opens
      ensures stream != null ==> fresh(stream) && stream.id == id && stream.index == index && !stream.writes
      ensures stream != null ==> open == old(open) + {stream}
      ensures stream != null ==>
        entries == old(entries)[id := old(entries)[id].(accessors := old(entries)[id].accessors + 1)]
      ensures Matching() <==> old(Matching())
    {
      var entry := entries[id];
      if entry.lockState != LS_UNLOCKED || index >= entry.streams {
        return null;
      }
      if (id, index) !in files || !opens {
        return null;
      }
      stream := new DiskCacheAdapter(id, index, false);
      var e := entry.(accessors := entry.accessors + 1);
      MatchesAlike(entries, files, open, open + {stream}, id, e);
      AddStream(stream, e);
    }

    /** A writer's data reaches its file. */
    method Store(stream: DiskCacheAdapter, size: nat)
      requires Valid() && stream in open && stream.writes
      modifies this`files
      ensures Valid() && files == old(files)[(stream.id, stream.index) := size]
      ensures old(Matching()) ==> Matching()
    {
      if Matching() { StoredMatches(entries, files, open, stream, size); }
      files := files[(stream.id, stream.index) := size];
    }

    /** This stream is the last one of a resource whose lock was given up. */
    ghost predicate EndsUnlocking(stream: DiskCacheAdapter)
      reads this
    {
      stream.id in entries && entries[stream.id].lockState == LS_UNLOCKING && entries[stream.id].accessors == 1
    }

    /** The entries after this stream is gone. */
    ghost function Settled(stream: DiskCacheAdapter, now: int): map<string, Entry>
      requires stream.id in entries && entries[stream.id].accessors > 0
      reads this
    {
      entries[stream.id := Released(entries[stream.id], SizeOf(files, stream.id, stream.index), now)]
    }

    /** Destroying a stream. Its entry is always there, so the missing-entry branch is dead. */
    method ReleaseResource(stream: DiskCacheAdapter, now: int)
      returns (defined: bool, ghost victims: seq<string>, ghost limit: LimitResult)
      requires Valid() && stream in open
      modifies this`entries, this`totalSize, this`totalAccessors, this`files, this`open
      ensures Valid() && open == old(open) - {stream}
      ensures stream.id in old(entries) && old(entries)[stream.id].accessors > 0
      ensures if old(EndsUnlocking(stream)) then
          Checked(old(Settled(stream, now)), old(files), victims, limit) && (defined <==> limit != Undefined)
        else defined && entries == old(Settled(stream, now)) && files == old(files)
      ensures old(EndsUnlocking(stream)) || totalSize ==
        old(totalSize) + (if stream.writes then SizeOf(old(files), stream.id, stream.index) else 0)
      ensures old(Matching()) ==>
        (SizesMatch(old(Settled(stream, now)), old(files), open) <==>
          !stream.writes || stream.index !in Busy(open, stream.id) || SizeOf(old(files), stream.id, stream.index) == 0)
      ensures old(Accounted() || (Matching() && EndsUnlocking(stream))) ==>
        SizesMatch(old(Settled(stream, now)), old(files), open)
      ensures OneWriterEach(old(open)) ==> OneWriterEach(open)
      ensures var e, size := old(entries)[stream.id], SizeOf(old(files), stream.id, stream.index);
        if e.lockState == LS_UNLOCKING && e.accessors == 1 then
          && (stream.id in entries <==> stream.id !in victims)
          && (stream.id in entries ==> entries[stream.id] == Entry(LS_UNLOCKED, 0, e.size + size, e.streams, now))
        else
          stream.id in entries && entries[stream.id]
            == e.(accessors := e.accessors - 1, size := e.size + if stream.writes then size else 0)
    {
      OthersWriting(entries, open, stream);
      var last := Settle(stream, now);
      defined, victims, limit := true, [], Met;
      if last {
        var result;
        result, victims := CheckLimit();
        limit, defined := result, result != Undefined;
      }
    }

    /** The counters, the size and the lock state, lines 324 to 341. */
    method Settle(stream: DiskCacheAdapter, now: int) returns (last: bool)
      requires Valid() && stream in open
      modifies this`entries, this`totalSize, this`totalAccessors, this`open
      ensures Valid() && open == old(open) - {stream} && last == old(EndsUnlocking(stream))
      ensures stream.id in old(entries) && old(entries)[stream.id].accessors > 0 && entries == old(Settled(stream, now))
      ensures totalSize == old(totalSize) + if stream.writes then SizeOf(files, stream.id, stream.index) else 0
      ensures old(Matching()) ==>
        (Matching() <==>
          !stream.writes || stream.index !in Busy(open, stream.id) || SizeOf(files, stream.id, stream.index) == 0)
    {
      var id := stream.id;
      StreamReleased(entries, files, open, stuck, stream, now);
      var entry := entries[id];
      var newSize := SizeOf(files, id, stream.index);
      totalAccessors := totalAccessors - 1;
      if entry.lockState != LS_UNLOCKED {
        totalSize := totalSize + newSize;
      }
      entries := entries[id := Released(entry, newSize, now)];
      open := open - {stream};
      last := entry.lockState == LS_UNLOCKING && entry.accessors == 1;
    }
  }
}
