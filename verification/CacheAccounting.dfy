/** Sums over the entries of the disk cache, and the bytes a resource has on disk. */
module CacheAccounting {

  datatype LockState = LS_UNLOCKED | LS_LOCKED | LS_UNLOCKING

  datatype Entry = Entry(lockState: LockState, accessors: nat, size: nat, streams: nat, lastModified: int)

  function SizeOfEntry(e: Entry): nat { e.size }

  function AccessorsOf(e: Entry): nat { e.accessors }

  predicate Evictable(e: Entry) { e.lockState == LS_UNLOCKED && e.accessors == 0 }

  type FileName = (string, nat)

  function Without(entries: map<string, Entry>, ids: seq<string>): map<string, Entry> {
    entries - set id | id in ids
  }

  // ---------------------------------------------------------------- sums over the map

  ghost function Sum(m: map<string, Entry>, f: Entry -> nat): nat {
    if m == map[] then 0
    else
      var k :| k in m;
      f(m[k]) + Sum(m - {k}, f)
  }

  /** The sum does not depend on the order in which the entries are taken. */
  lemma {:induction false} SumWithout(m: map<string, Entry>, f: Entry -> nat, k: string)
    requires k in m
    ensures Sum(m, f) == f(m[k]) + Sum(m - {k}, f)
    decreases |m|
  {
    var j :| j in m && Sum(m, f) == f(m[j]) + Sum(m - {j}, f);
    if j != k {
      SumWithout(m - {j}, f, k);
      SumWithout(m - {k}, f, j);
      assert m - {j} - {k} == m - {k} - {j};
    }
  }

  lemma {:induction false} SumUpdated(m: map<string, Entry>, f: Entry -> nat, k: string, e: Entry)
    ensures Sum(m[k := e], f) == Sum(m, f) - (if k in m then f(m[k]) else 0) + f(e)
  {
    SumWithout(m[k := e], f, k);
    assert m[k := e] - {k} == m - {k};
    if k in m { SumWithout(m, f, k); } else { assert m - {k} == m; }
  }

  lemma {:induction false} SumAtLeast(m: map<string, Entry>, f: Entry -> nat, k: string)
    requires k in m
    ensures f(m[k]) <= Sum(m, f)
  {
    SumWithout(m, f, k);
  }

  // ---------------------------------------------------------------- bytes on disk

  /** The bytes in the first n streams of a resource that nobody is writing. */
  ghost function BytesAtRest(files: map<FileName, nat>, busy: set<nat>, id: string, n: nat): nat {
    if n == 0 then 0
    else BytesAtRest(files, busy, id, n - 1) + if n - 1 in busy then 0 else SizeOf(files, id, n - 1)
  }

  function SizeOf(files: map<FileName, nat>, id: string, index: nat): nat {
    if (id, index) in files then files[(id, index)] else 0
  }

  /** Only the sizes of the idle streams of this resource matter. */
  lemma {:induction false} BytesDependOn(files: map<FileName, nat>, files': map<FileName, nat>, busy: set<nat>,
                                         id: string, n: nat)
    requires forall i :: 0 <= i < n && i !in busy ==> SizeOf(files, id, i) == SizeOf(files', id, i)
    ensures BytesAtRest(files, busy, id, n) == BytesAtRest(files', busy, id, n)
  {
    if n == 0 {
    } else {
      BytesDependOn(files, files', busy, id, n - 1);
    }
  }

  /** A stream that becomes busy takes its bytes out. */
  lemma {:induction false} BytesWithoutStream(files: map<FileName, nat>, busy: set<nat>, id: string, n: nat, index: nat)
    requires index < n && index !in busy
    ensures BytesAtRest(files, busy, id, n) == BytesAtRest(files, busy + {index}, id, n) + SizeOf(files, id, index)
  {
    if index == n - 1 {
      BytesIgnoreBusy(files, busy, id, n - 1, index);
    } else {
      BytesWithoutStream(files, busy, id, n - 1, index);
    }
  }

  lemma {:induction false} BytesIgnoreBusy(files: map<FileName, nat>, busy: set<nat>, id: string, n: nat, index: nat)
    requires n <= index
    ensures BytesAtRest(files, busy, id, n) == BytesAtRest(files, busy + {index}, id, n)
  {
    if n == 0 {
    } else {
      BytesIgnoreBusy(files, busy, id, n - 1, index);
    }
  }

  /** Streams without a file add nothing. */
  lemma {:induction false} BytesOfMissing(files: map<FileName, nat>, busy: set<nat>, id: string, n: nat, m: nat)
    requires n <= m && forall i :: n <= i < m ==> (id, i) !in files
    ensures BytesAtRest(files, busy, id, m) == BytesAtRest(files, busy, id, n)
  {
    if n == m {
    } else {
      BytesOfMissing(files, busy, id, n, m - 1);
    }
  }
}
