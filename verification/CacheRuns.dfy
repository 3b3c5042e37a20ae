/** Runs of the disk cache that reach its exceptional states, for every limit for which they exist. */
module CacheRuns {
  import opened Common
  import opened CacheAccounting
  import opened CacheStreams
  import opened CacheLimiting
  import opened DiskCaching

  ghost predicate Started(cache: DiskCache, maxCache: nat)
    reads cache
  {
    cache.Valid() && cache.maxCache == maxCache && cache.stuck == {}
  }

  // ---------------------------------------------------------------- one resource

  method LockedCache(maxCache: nat, id: string) returns (cache: DiskCache)
    ensures fresh(cache) && Started(cache, maxCache) && cache.Accounted() && cache.totalSize == 0
    ensures cache.entries == map[id := Entry(LS_LOCKED, 0, 0, 0, 0)] && cache.files == map[] && cache.open == {}
  {
    cache := new DiskCache(maxCache);
    var locked, defined, _, _ := cache.LockResource(id, 0);
  }

  method OneWriter(maxCache: nat, id: string) returns (cache: DiskCache, one: DiskCacheAdapter)
    ensures fresh(cache) && Started(cache, maxCache) && cache.Accounted() && cache.totalSize == 0
    ensures one.id == id && one.index == 0 && one.writes && cache.open == {one}
    ensures cache.entries == map[id := Entry(LS_LOCKED, 1, 0, 1, 0)] && cache.files == map[(id, 0) := 0]
  {
    cache := LockedCache(maxCache, id);
    one := cache.WriteResource(id, 0, true);
  }

  /** Two writers of the same file. As long as it is empty, the sizes match. */
  method TwoOpen(maxCache: nat) returns (cache: DiskCache, one: DiskCacheAdapter, two: DiskCacheAdapter)
    ensures fresh(cache) && Started(cache, maxCache) && one != two && cache.open == {one, two}
    ensures one.id == two.id == "a" && one.index == two.index == 0 && one.writes && two.writes
    ensures cache.entries == map["a" := Entry(LS_LOCKED, 2, 0, 1, 0)] && cache.files == map[("a", 0) := 0]
    ensures cache.Matching() && !cache.Accounted()
  {
    cache, one := OneWriter(maxCache, "a");
    two := cache.WriteResource("a", 0, true);
    assert one.index in Busy({one}, "a");
  }

  method StoredByOne(maxCache: nat) returns (cache: DiskCache, one: DiskCacheAdapter, two: DiskCacheAdapter)
    ensures fresh(cache) && Started(cache, maxCache) && one != two && cache.open == {one, two}
    ensures one.id == two.id == "a" && one.index == two.index == 0 && one.writes && two.writes
    ensures cache.entries == map["a" := Entry(LS_LOCKED, 2, 0, 1, 0)] && cache.files == map[("a", 0) := 5]
  {
    cache, one, two := TwoOpen(maxCache);
    cache.Store(one, 5);
  }

  method OneReleased(maxCache: nat) returns (cache: DiskCache, two: DiskCacheAdapter)
    ensures fresh(cache) && Started(cache, maxCache) && cache.open == {two}
    ensures two.id == "a" && two.index == 0 && two.writes
    ensures cache.entries == map["a" := Entry(LS_LOCKED, 1, 5, 1, 0)] && cache.files == map[("a", 0) := 5]
  {
    var one;
    cache, one, two := StoredByOne(maxCache);
    assert cache.Settled(one, 0) == map["a" := Entry(LS_LOCKED, 1, 5, 1, 0)];
    var defined, _, _ := cache.ReleaseResource(one, 0);
  }

  /** One file of five bytes, counted as ten, because two writers of it were open at a time. */
  method TwoWriters(maxCache: nat) returns (cache: DiskCache)
    ensures fresh(cache) && Started(cache, maxCache) && cache.open == {} && !cache.Matching()
    ensures cache.entries == map["a" := Entry(LS_LOCKED, 0, 10, 1, 0)] && cache.files == map[("a", 0) := 5]
  {
    var two;
    cache, two := OneReleased(maxCache);
    var defined, _, _ := cache.ReleaseResource(two, 0);
    AtRest(cache.files, "a");
    assert Busy(cache.open, "a") == {};
    assert Surplus(cache.entries, cache.files, cache.open, "a") == 5;
  }

  lemma {:induction false} AtRest(files: map<FileName, nat>, id: string)
    ensures BytesAtRest(files, {}, id, 1) == SizeOf(files, id, 0)
  {
    assert BytesAtRest(files, {}, id, 0) == 0;
  }

  method OneStored(maxCache: nat) returns (cache: DiskCache, one: DiskCacheAdapter)
    ensures fresh(cache) && Started(cache, maxCache) && cache.Accounted() && cache.totalSize == 0
    ensures one.id == "a" && one.index == 0 && one.writes && cache.open == {one}
    ensures cache.entries == map["a" := Entry(LS_LOCKED, 1, 0, 1, 0)] && cache.files == map[("a", 0) := 5]
  {
    cache, one := OneWriter(maxCache, "a");
    cache.Store(one, 5);
  }

  method OneFile(maxCache: nat) returns (cache: DiskCache)
    ensures fresh(cache) && Started(cache, maxCache) && cache.Accounted() && cache.totalSize == 5 && cache.open == {}
    ensures cache.entries == map["a" := Entry(LS_LOCKED, 0, 5, 1, 0)] && cache.files == map[("a", 0) := 5]
  {
    var one;
    cache, one := OneStored(maxCache);
    var defined, _, _ := cache.ReleaseResource(one, 0);
  }

  /** Unlocking a resource that alone is over the limit reads behind the end of the map. */
  method UnlockOneFile(maxCache: nat) returns (cache: DiskCache, defined: bool)
    ensures fresh(cache) && Started(cache, maxCache) && cache.Matching() && cache.open == {}
    ensures cache.entries == map["a" := Entry(LS_UNLOCKED, 0, 5, 1, 0)] && cache.files == map[("a", 0) := 5]
    ensures cache.totalSize == 5 && (defined <==> 5 <= maxCache)
  {
    cache := OneFile(maxCache);
    ghost var before := map["a" := Entry(LS_UNLOCKED, 0, 5, 1, 0)];
    assert cache.entries["a" := cache.entries["a"].(lockState := LS_UNLOCKED, lastModified := 0)] == before;
    ghost var removable := RemovableOf(before, cache.files, cache.stuck);
    var unlocked;
    ghost var victims, limit;
    unlocked, defined, victims, limit := cache.UnlockResource("a", 0);
    if maxCache < 5 { LoneEntryIsLast(before, "a", maxCache, removable, victims, limit); }
    SumOfOne(before, "a");
  }

  /** One file of five bytes that no entry accounts for, because it could not be deleted. */
  method ForgottenFile(maxCache: nat) returns (cache: DiskCache)
    requires maxCache >= 5
    ensures fresh(cache) && cache.Valid() && !cache.Matching()
    ensures cache.entries == map[] && cache.files == map[("a", 0) := 5]
  {
    var defined;
    cache, defined := UnlockOneFile(maxCache);
    cache.ChangeFileSystem({("a", 0)});
    var deleted := cache.DeleteResource("a");
  }

  // ---------------------------------------------------------------- two resources

  lemma {:induction false} LockedNew(entries: map<string, Entry>, id: string, now: int)
    requires id !in entries
    ensures var created := Created(entries, id, now);
      created[id := Locked(created[id])] == entries[id := Entry(LS_LOCKED, 0, 0, 0, now)]
  {
  }

  method UnlockingWriter(maxCache: nat) returns (cache: DiskCache, writer: DiskCacheAdapter)
    ensures fresh(cache) && Started(cache, maxCache) && cache.totalSize == 0
    ensures writer.id == "b" && cache.open == {writer}
    ensures cache.entries == map["b" := Entry(LS_UNLOCKING, 1, 0, 1, 0)] && cache.files == map[("b", 0) := 0]
  {
    cache, writer := OneWriter(maxCache, "b");
    var unlocked, defined, _, _ := cache.UnlockResource("b", 0);
  }

  method SecondLock(maxCache: nat) returns (cache: DiskCache, writer: DiskCacheAdapter)
    ensures fresh(cache) && Started(cache, maxCache) && cache.totalSize == 0
    ensures writer.id == "b" && cache.open == {writer} && cache.files == map[("b", 0) := 0]
    ensures cache.entries == map["b" := Entry(LS_UNLOCKING, 1, 0, 1, 0), "a" := Entry(LS_LOCKED, 0, 0, 0, 0)]
  {
    cache, writer := UnlockingWriter(maxCache);
    LockedNew(cache.entries, "a", 0);
    var locked, defined, _, _ := cache.LockResource("a", 0);
  }

  method SecondWriter(maxCache: nat) returns (cache: DiskCache, writer: DiskCacheAdapter, one: DiskCacheAdapter)
    ensures fresh(cache) && Started(cache, maxCache) && cache.totalSize == 0
    ensures writer.id == "b" && one.id == "a" && one.index == 0 && one.writes && cache.open == {writer, one}
    ensures cache.entries == map["a" := Entry(LS_LOCKED, 1, 0, 1, 0), "b" := Entry(LS_UNLOCKING, 1, 0, 1, 0)]
    ensures cache.files == map[("a", 0) := 0, ("b", 0) := 0]
  {
    cache, writer := SecondLock(maxCache);
    assert SizeOf(cache.files, "a", 0) == 0;
    assert ForWriting(cache.entries["a"], 0, 0) == Entry(LS_LOCKED, 1, 0, 1, 0);
    one := cache.WriteResource("a", 0, true);
  }

  method SecondStored(maxCache: nat) returns (cache: DiskCache, one: DiskCacheAdapter)
    ensures fresh(cache) && Started(cache, maxCache) && cache.totalSize == 0
    ensures one.id == "a" && one.index == 0 && one.writes && one in cache.open
    ensures cache.entries == map["a" := Entry(LS_LOCKED, 1, 0, 1, 0), "b" := Entry(LS_UNLOCKING, 1, 0, 1, 0)]
    ensures cache.files == map[("a", 0) := 5, ("b", 0) := 0]
  {
    var writer;
    cache, writer, one := SecondWriter(maxCache);
    cache.Store(one, 5);
  }

  method SecondFile(maxCache: nat) returns (cache: DiskCache)
    ensures fresh(cache) && Started(cache, maxCache) && cache.totalSize == 5
    ensures cache.entries == map["a" := Entry(LS_LOCKED, 0, 5, 1, 0), "b" := Entry(LS_UNLOCKING, 1, 0, 1, 0)]
    ensures cache.files == map[("a", 0) := 5, ("b", 0) := 0]
  {
    var one;
    cache, one := SecondStored(maxCache);
    assert cache.Settled(one, 0) == map["a" := Entry(LS_LOCKED, 0, 5, 1, 0), "b" := Entry(LS_UNLOCKING, 1, 0, 1, 0)];
    var defined, _, _ := cache.ReleaseResource(one, 0);
  }

  ghost const IDLE_AND_UNLOCKING: map<string, Entry> :=
    map["a" := Entry(LS_UNLOCKED, 0, 5, 1, 0), "b" := Entry(LS_UNLOCKING, 1, 0, 1, 0)]

  /** The idle entry a is over the limit and can be deleted. But the search prefers b, which is as old
      and stands behind it, and b is in use: nothing is evicted, and b cannot be locked again. */
  method LockFails(maxCache: nat) returns (cache: DiskCache, locked: bool, defined: bool)
    requires maxCache < 5
    ensures fresh(cache) && Started(cache, maxCache) && cache.entries == IDLE_AND_UNLOCKING
    ensures !locked && defined
  {
    cache := SecondFile(maxCache);
    var unlocked;
    ghost var victims, limit, removable := [], Met, RemovableOf(IDLE_AND_UNLOCKING, cache.files, cache.stuck);
    assert cache.entries["a" := Entry(LS_UNLOCKED, 0, 5, 1, 0)] == IDLE_AND_UNLOCKING;
    unlocked, defined, victims, limit := cache.UnlockResource("a", 0);
    InUseIsPreferred(maxCache, removable, victims, limit);
    locked, defined, victims, limit := cache.LockResource("b", 0);
    InUseIsPreferred(maxCache, RemovableOf(IDLE_AND_UNLOCKING, cache.files, cache.stuck), victims, limit);
  }

  lemma {:induction false} InUseIsPreferred(maxCache: nat, removable: set<string>, victims: seq<string>,
                                            limit: LimitResult)
    requires Limited(IDLE_AND_UNLOCKING, maxCache, removable, victims, limit) && maxCache < 5
    ensures victims == [] && limit == NotMet
  {
    var entries := IDLE_AND_UNLOCKING;
    SumAtLeast(entries, SizeOfEntry, "a");
    assert Below("a", "b") && !Below("b", "a") && !Below("a", "a");
    assert From(entries, "a") == {"a", "b"} && From(entries, "a") - {"a"} == {"b"};
    assert IsFirstIdle(entries, "a") && IsFirst({"b"}, "b") && IsOldest(entries, "a", "b", "b");
    StopsAtOnce(entries, maxCache, removable, victims, limit, NotMet);
  }

  method IdleAndLocked(maxCache: nat) returns (cache: DiskCache)
    requires 5 <= maxCache
    ensures fresh(cache) && Started(cache, maxCache) && cache.open == {} && cache.totalSize == 5
    ensures cache.entries == map["a" := Entry(LS_UNLOCKED, 0, 5, 1, 0), "b" := Entry(LS_LOCKED, 0, 0, 0, 1)]
    ensures cache.files == map[("a", 0) := 5]
  {
    var defined;
    cache, defined := UnlockOneFile(maxCache);
    LockedNew(cache.entries, "b", 1);
    var locked, lockDefined, _, _ := cache.LockResource("b", 1);
  }

  method IdleAndWriter(maxCache: nat) returns (cache: DiskCache, one: DiskCacheAdapter)
    requires 5 <= maxCache
    ensures fresh(cache) && Started(cache, maxCache) && cache.totalSize == 5
    ensures one.id == "b" && one.index == 0 && one.writes && cache.open == {one}
    ensures cache.entries == map["a" := Entry(LS_UNLOCKED, 0, 5, 1, 0), "b" := Entry(LS_LOCKED, 1, 0, 1, 1)]
    ensures cache.files == map[("a", 0) := 5, ("b", 0) := 0]
  {
    cache := IdleAndLocked(maxCache);
    assert SizeOf(cache.files, "b", 0) == 0;
    assert ForWriting(cache.entries["b"], 0, 0) == Entry(LS_LOCKED, 1, 0, 1, 1);
    one := cache.WriteResource("b", 0, true);
  }

  ghost const IDLE_AND_LOCKED: map<string, Entry> :=
    map["a" := Entry(LS_UNLOCKED, 0, 5, 1, 0), "b" := Entry(LS_LOCKED, 0, 5, 1, 1)]

  method Overfull(maxCache: nat) returns (cache: DiskCache)
    requires 5 <= maxCache
    ensures fresh(cache) && Started(cache, maxCache) && cache.totalSize == 10 && cache.entries == IDLE_AND_LOCKED
  {
    var one;
    cache, one := IdleAndWriter(maxCache);
    cache.Store(one, 5);
    assert cache.Settled(one, 1) == IDLE_AND_LOCKED;
    var defined, _, _ := cache.ReleaseResource(one, 1);
  }

  /** The entry a is idle and the oldest of an overfull cache, so that the limit check of its own lock
      evicts it. */
  method EvictedByItsLock(maxCache: nat) returns (cache: DiskCache, defined: bool)
    requires 5 <= maxCache < 10
    ensures fresh(cache) && Started(cache, maxCache) && cache.entries == map["b" := Entry(LS_LOCKED, 0, 5, 1, 1)]
    ensures !defined
  {
    cache := Overfull(maxCache);
    ghost var removable := cache.Removable();
    assert "a" in removable;
    var locked;
    ghost var victims, limit;
    locked, defined, victims, limit := cache.LockResource("a", 1);
    OldestIsEvicted(maxCache, removable, victims, limit);
  }

  lemma {:induction false} OldestIsEvicted(maxCache: nat, removable: set<string>, victims: seq<string>,
                                           limit: LimitResult)
    requires Limited(IDLE_AND_LOCKED, maxCache, removable, victims, limit) && 5 <= maxCache < 10 && "a" in removable
    ensures victims == ["a"] && limit == Met
  {
    var entries := IDLE_AND_LOCKED;
    OldestIsFound();
    assert Without(entries, ["a"][..0]) == entries && Without(entries, ["a"]) == entries - {"a"};
    SumWithout(entries, SizeOfEntry, "a");
    SumOfOne(entries - {"a"}, "b");
    assert Evicts(entries, maxCache, ["a"]);
    LimitIsDetermined(entries, maxCache, removable, victims, limit, ["a"], Met);
  }

  lemma {:induction false} OldestIsFound()
    ensures Finds(IDLE_AND_LOCKED, Victim("a"))
  {
    var entries := IDLE_AND_LOCKED;
    assert Below("a", "b") && !Below("b", "a") && !Below("a", "a");
    assert From(entries, "a") == {"a", "b"} && From(entries, "a") - {"a"} == {"b"};
    assert IsFirstIdle(entries, "a") && IsFirst({"b"}, "b") && IsOldest(entries, "a", "b", "a");
  }
}
