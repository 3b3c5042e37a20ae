/** The limit check of the disk cache: which entry is evicted, when the check succeeds, and when it
    reads behind the end of the map. Lines 214 to 249 of diskcache.cc. */
module CacheLimiting {
  import opened Common
  import opened CacheAccounting

  // ---------------------------------------------------------------- the order of the map, by its keys

  lemma {:induction false} BelowIsTotal(a: string, b: string)
    ensures Below(a, b) || Below(b, a) || a == b
    ensures !(Below(a, b) && Below(b, a)) && (a == b ==> !Below(a, b))
  {
    if a == "" || b == "" {
    } else {
      BelowIsTotal(a[1..], b[1..]);
      assert a == [a[0]] + a[1..] && b == [b[0]] + b[1..];
    }
  }

  lemma {:induction false} BelowIsTransitive(a: string, b: string, c: string)
    requires Below(a, b) && Below(b, c)
    ensures Below(a, c)
  {
    if a == "" {
    } else if a[0] == b[0] && b[0] == c[0] {
      BelowIsTransitive(a[1..], b[1..], c[1..]);
    }
  }

  ghost predicate IsFirst(keys: set<string>, k: string) {
    k in keys && forall j :: j in keys && j != k ==> Below(k, j)
  }

  /** Where an iterator over these keys begins. */
  method First(keys: set<string>) returns (k: string)
    requires keys != {}
    ensures IsFirst(keys, k)
  {
    k :| k in keys;
    var others := keys - {k};
    while others != {}
      invariant k in keys && others <= keys
      invariant forall j :: j in keys && j !in others && j != k ==> Below(k, j)
      decreases others
    {
      var j :| j in others;
      BelowIsTotal(j, k);
      if Below(j, k) {
        forall i | i in keys && i !in others && i != k ensures Below(j, i) { BelowIsTransitive(j, k, i); }
        k := j;
      }
      others := others - {j};
    }
  }

  // ---------------------------------------------------------------- the search for a victim

  datatype Search = NoneIdle | PastTheEnd | Victim(id: string)

  ghost predicate IsFirstIdle(entries: map<string, Entry>, p: string) {
    p in entries && Evictable(entries[p]) && forall j :: j in entries && Below(j, p) ==> !Evictable(entries[j])
  }

  /** The entry p and everything behind it. */
  ghost function From(entries: map<string, Entry>, p: string): set<string> {
    set j | j in entries && !Below(j, p)
  }

  /** The oldest entry, idle or not, from the first idle one on. The comparison begins with the
      entry n behind the first idle one, so that n is taken among equally old ones. */
  ghost predicate IsOldest(entries: map<string, Entry>, p: string, n: string, v: string) {
    && v in From(entries, p)
    && forall j :: j in From(entries, p) && j != v ==> Before(entries, n, v, j)
  }

  ghost predicate Before(entries: map<string, Entry>, n: string, v: string, j: string)
    requires v in entries && j in entries
  {
    || entries[v].lastModified < entries[j].lastModified
    || (entries[v].lastModified == entries[j].lastModified && (v == n || (j != n && Below(v, j))))
  }

  /** What the search of lines 227 to 242 comes to: there is no idle entry; or the first idle entry is
      the last of the map, and the comparison reads behind the end; or a victim, which need not be
      idle. */
  ghost predicate Finds(entries: map<string, Entry>, s: Search) {
    match s
    case NoneIdle => forall id :: id in entries ==> !Evictable(entries[id])
    case PastTheEnd => exists p :: IsFirstIdle(entries, p) && From(entries, p) == {p}
    case Victim(v) =>
      exists p, n :: IsFirstIdle(entries, p) && IsFirst(From(entries, p) - {p}, n) && IsOldest(entries, p, n, v)
  }

  /** The search has one outcome. */
  lemma {:induction false} SearchIsDetermined(entries: map<string, Entry>, s: Search, t: Search)
    requires Finds(entries, s) && Finds(entries, t)
    ensures s == t
  {
    if s != NoneIdle && t != NoneIdle {
      var p :| IsFirstIdle(entries, p) && (s == PastTheEnd ==> From(entries, p) == {p});
      var q :| IsFirstIdle(entries, q) && (t == PastTheEnd ==> From(entries, q) == {q});
      forall a, b | IsFirstIdle(entries, a) && IsFirstIdle(entries, b) ensures a == b { BelowIsTotal(a, b); }
      forall a, b, m | IsFirst(m, a) && IsFirst(m, b) ensures a == b { BelowIsTotal(a, b); }
      if s.Victim? && t.Victim? { BelowIsTotal(s.id, t.id); }
    }
  }

  method FindVictim(entries: map<string, Entry>) returns (s: Search)
    ensures Finds(entries, s) && (s.Victim? ==> s.id in entries)
  {
    var it, rest := "", entries.Keys;
    while rest != {}
      invariant rest <= entries.Keys
      invariant forall j :: j in entries && j !in rest ==> !Evictable(entries[j])
      invariant forall j, k :: j in entries && j !in rest && k in rest ==> Below(j, k)
      decreases rest
    {
      it := First(rest);
      if Evictable(entries[it]) {
        break;
      }
      rest := rest - {it};
    }
    if rest == {} {
      return NoneIdle;
    }
    forall j | j in entries ensures j in rest <==> !Below(j, it) { BelowIsTotal(j, it); }
    assert rest == From(entries, it);
    if rest == {it} {
      assert IsFirstIdle(entries, it);
      return PastTheEnd;
    }
    var oldest := OldestFrom(entries, it, rest);
    return Victim(oldest);
  }

  /** The second loop of the search, lines 238 to 242. */
  method OldestFrom(entries: map<string, Entry>, p: string, rest: set<string>) returns (oldest: string)
    requires IsFirst(rest, p) && rest != {p} && rest <= entries.Keys
    ensures oldest in rest
    ensures exists n :: IsFirst(rest - {p}, n) && forall j :: j in rest && j != oldest ==> Before(entries, n, oldest, j)
  {
    oldest := First(rest - {p});
    ghost var n := oldest;
    var todo := rest;
    while todo != {}
      invariant todo <= rest && oldest in rest
      invariant forall j, k :: j in rest && j !in todo && k in todo ==> Below(j, k)
      invariant forall j :: j in rest && j !in todo && j != oldest ==> Before(entries, n, oldest, j)
      invariant oldest != n ==> oldest !in todo
      invariant oldest != n && n in todo ==> entries[oldest].lastModified < entries[n].lastModified
      decreases todo
    {
      var it := First(todo);
      if entries[it].lastModified < entries[oldest].lastModified {
        oldest := it;
      }
      todo := todo - {it};
    }
  }

  // ---------------------------------------------------------------- the check as a whole

  /** The check succeeds, or fails, or reads behind the end of the map, which C++ does not define. */
  datatype LimitResult = Met | NotMet | Undefined

  /** Each of these entries was evicted in its turn, when it was over the limit, found and idle. */
  ghost predicate Evicts(entries: map<string, Entry>, maxCache: nat, victims: seq<string>) {
    forall i {:trigger EvictsNext(Without(entries, victims[..i]), maxCache, victims[i])} ::
      0 <= i < |victims| ==> EvictsNext(Without(entries, victims[..i]), maxCache, victims[i])
  }

  ghost predicate EvictsNext(entries: map<string, Entry>, maxCache: nat, v: string) {
    Sum(entries, SizeOfEntry) > maxCache && Finds(entries, Victim(v)) && v in entries && Evictable(entries[v])
  }

  /** The search finds nothing that may be evicted. */
  ghost predicate Blocked(entries: map<string, Entry>) {
    Finds(entries, NoneIdle) || exists v :: v in entries && Finds(entries, Victim(v)) && !Evictable(entries[v])
  }

  /** Over the limit, the check ends with this result before it evicts anything. */
  ghost predicate Stuck(entries: map<string, Entry>, result: LimitResult) {
    match result
    case Met => false
    case NotMet => Blocked(entries)
    case Undefined => Finds(entries, PastTheEnd)
  }

  /** What the check does to the entries, and what it returns. Entries whose files cannot all be
      deleted are evicted too, but end the check. */
  ghost predicate Limited(entries: map<string, Entry>, maxCache: nat, removable: set<string>, victims: seq<string>,
                          result: LimitResult) {
    var after := Without(entries, victims);
    var n := |victims|;
    && Evicts(entries, maxCache, victims)
    && (forall i :: 0 <= i < n - 1 ==> victims[i] in removable)
    && if n > 0 && victims[n - 1] !in removable then result == NotMet
       else if Sum(after, SizeOfEntry) <= maxCache then result == Met
       else Stuck(after, result)
  }

  /** The check after some evictions that it was able to finish. */
  ghost predicate Limiting(entries: map<string, Entry>, maxCache: nat, removable: set<string>, victims: seq<string>) {
    Evicts(entries, maxCache, victims) && forall v :: v in victims ==> v in removable
  }

  lemma {:induction false} LimitIsMet(entries: map<string, Entry>, maxCache: nat, removable: set<string>,
                                      victims: seq<string>)
    requires Limiting(entries, maxCache, removable, victims) && Sum(Without(entries, victims), SizeOfEntry) <= maxCache
    ensures Limited(entries, maxCache, removable, victims, Met)
  {
  }

  /** One round over the limit: it evicts one entry, or ends the check before it does. */
  ghost predicate Round(entries: map<string, Entry>, maxCache: nat, removable: set<string>, evicted: seq<string>,
                        stopped: bool, result: LimitResult) {
    if evicted == [] then stopped && Stuck(entries, result)
    else
      && |evicted| == 1 && EvictsNext(entries, maxCache, evicted[0])
      && (stopped <==> evicted[0] !in removable) && (stopped ==> result == NotMet)
  }

  lemma {:induction false} LimitingGoesOn(entries: map<string, Entry>, maxCache: nat, removable: set<string>,
                                          victims: seq<string>, evicted: seq<string>, stopped: bool,
                                          result: LimitResult)
    requires Limiting(entries, maxCache, removable, victims)
    requires Sum(Without(entries, victims), SizeOfEntry) > maxCache
    requires var here := Without(entries, victims);
      Round(here, maxCache, removable * here.Keys, evicted, stopped, result)
    ensures Without(entries, victims + evicted) == Without(Without(entries, victims), evicted)
    ensures if stopped then Limited(entries, maxCache, removable, victims + evicted, result)
            else Limiting(entries, maxCache, removable, victims + evicted)
    ensures (forall v :: v in victims + evicted ==> v in removable) <==> !stopped || evicted == []
  {
    if evicted == [] {
      assert victims + [] == victims;
    } else {
      assert evicted == [evicted[0]] && evicted[0] in victims + evicted;
      EvictsOneMore(entries, maxCache, victims, evicted[0]);
    }
  }

  lemma {:induction false} EvictsOneMore(entries: map<string, Entry>, maxCache: nat, victims: seq<string>, v: string)
    requires Evicts(entries, maxCache, victims) && EvictsNext(Without(entries, victims), maxCache, v)
    ensures Evicts(entries, maxCache, victims + [v])
  {
    var all := victims + [v];
    forall i | 0 <= i < |all| ensures EvictsNext(Without(entries, all[..i]), maxCache, all[i]) {
      if i < |victims| {
        assert all[..i] == victims[..i];
      } else {
        assert all[..i] == victims;
      }
    }
  }

  /** Nothing else can happen: the entries, their order and times, and the files that can be deleted
      determine the evictions and the result. */
  lemma {:induction false} LimitIsDetermined(entries: map<string, Entry>, maxCache: nat, removable: set<string>,
                                             vs: seq<string>, r: LimitResult, ws: seq<string>, q: LimitResult)
    requires Limited(entries, maxCache, removable, vs, r) && Limited(entries, maxCache, removable, ws, q)
    ensures vs == ws && r == q
  {
    SamePrefix(entries, maxCache, vs, ws, if |vs| <= |ws| then |vs| else |ws|);
    if |vs| <= |ws| {
      StopsThere(entries, maxCache, removable, vs, r, ws);
    } else {
      StopsThere(entries, maxCache, removable, ws, q, vs);
    }
    assert vs == vs[..|vs|] && ws == ws[..|ws|];
    SameResult(Without(entries, vs));
  }

  lemma {:induction false} SamePrefix(entries: map<string, Entry>, maxCache: nat, vs: seq<string>, ws: seq<string>,
                                      k: nat)
    requires Evicts(entries, maxCache, vs) && Evicts(entries, maxCache, ws) && k <= |vs| && k <= |ws|
    ensures vs[..k] == ws[..k]
  {
    if k == 0 {
    } else {
      SamePrefix(entries, maxCache, vs, ws, k - 1);
      var so, v, w := vs[..k - 1], vs[k - 1], ws[k - 1];
      assert vs[..k] == so + [v] && ws[..k] == so + [w];
      assert EvictsNext(Without(entries, so), maxCache, v);
      assert EvictsNext(Without(entries, ws[..k - 1]), maxCache, w);
      SameVictim(Without(entries, so), maxCache, v, w);
    }
  }

  lemma {:induction false} SameVictim(entries: map<string, Entry>, maxCache: nat, v: string, w: string)
    requires EvictsNext(entries, maxCache, v) && EvictsNext(entries, maxCache, w)
    ensures v == w
  {
    SearchIsDetermined(entries, Victim(v), Victim(w));
  }

  lemma {:induction false} StopsThere(entries: map<string, Entry>, maxCache: nat, removable: set<string>,
                                      vs: seq<string>, r: LimitResult, ws: seq<string>)
    requires Limited(entries, maxCache, removable, vs, r) && Evicts(entries, maxCache, ws)
    requires |vs| <= |ws| && vs == ws[..|vs|] && forall i :: 0 <= i < |ws| - 1 ==> ws[i] in removable
    ensures |vs| == |ws|
  {
    assert |vs| < |ws| ==> EvictsNext(Without(entries, ws[..|vs|]), maxCache, ws[|vs|]);
    SameResult(Without(entries, vs));
    if |vs| < |ws| {
      assert false;
    }
  }

  /** A victim that may be evicted, a blocked search and the end of the map exclude each other. */
  lemma {:induction false} SameResult(entries: map<string, Entry>)
    ensures !(Blocked(entries) && Finds(entries, PastTheEnd))
    ensures forall v :: v in entries && Finds(entries, Victim(v)) && Evictable(entries[v]) ==>
      !Blocked(entries) && !Finds(entries, PastTheEnd)
  {
    forall s, t | Finds(entries, s) && Finds(entries, t) ensures s == t { SearchIsDetermined(entries, s, t); }
  }

  /** The check evicts unlocked entries without open streams, leaves all others as they were, and has
      met the limit exactly if it says so, unless a file could not be deleted. */
  lemma {:induction false} EvictedWereIdle(entries: map<string, Entry>, maxCache: nat, removable: set<string>,
                                           victims: seq<string>, result: LimitResult)
    requires Limited(entries, maxCache, removable, victims, result)
    ensures forall v :: v in victims ==>
      v in entries && entries[v].lockState == LS_UNLOCKED && entries[v].accessors == 0
    ensures Without(entries, victims) == map v | v in entries && v !in victims :: entries[v]
    ensures (forall v :: v in victims ==> v in removable) ==>
      (result == Met <==> Sum(Without(entries, victims), SizeOfEntry) <= maxCache)
    ensures result == Met ==> forall v :: v in victims ==> v in removable
  {
    var n := |victims|;
    forall i | 0 <= i < n ensures EvictsNext(Without(entries, victims[..i]), maxCache, victims[i]) { }
    if n > 0 { assert victims[n - 1] in victims; }
  }

  /** Where the check can only stop, it evicts nothing. */
  lemma {:induction false} StopsAtOnce(entries: map<string, Entry>, maxCache: nat, removable: set<string>,
                                       victims: seq<string>, result: LimitResult, reason: LimitResult)
    requires Limited(entries, maxCache, removable, victims, result)
    requires Sum(entries, SizeOfEntry) > maxCache && Stuck(entries, reason)
    ensures victims == [] && result == reason
  {
    assert Without(entries, []) == entries;
    LimitIsDetermined(entries, maxCache, removable, victims, result, [], reason);
  }

  /** A lone idle entry is the last of the map. */
  lemma {:induction false} LoneEntryIsLast(entries: map<string, Entry>, p: string, maxCache: nat,
                                           removable: set<string>,
                                           victims: seq<string>, result: LimitResult)
    requires Limited(entries, maxCache, removable, victims, result)
    requires entries.Keys == {p} && Evictable(entries[p]) && entries[p].size > maxCache
    ensures victims == [] && result == Undefined
  {
    BelowIsTotal(p, p);
    assert IsFirstIdle(entries, p) && From(entries, p) == {p};
    SumOfOne(entries, p);
    StopsAtOnce(entries, maxCache, removable, victims, result, Undefined);
  }

  // ---------------------------------------------------------------- when the limit is met

  ghost predicate AllIdle(entries: map<string, Entry>) {
    forall id :: id in entries ==> Evictable(entries[id])
  }

  /** Every entry in use was changed after every idle one. */
  ghost predicate IdleIsOlder(entries: map<string, Entry>) {
    forall i, j :: i in entries && j in entries && Evictable(entries[i]) && !Evictable(entries[j]) ==>
      entries[i].lastModified < entries[j].lastModified
  }

  ghost function Idle(entries: map<string, Entry>): set<string> {
    set id | id in entries && Evictable(entries[id])
  }

  /** If the idle entries are the oldest and can be deleted, the check fails only when no entry is idle
      any more. */
  lemma {:induction false} FailsOnlyWithoutIdle(entries: map<string, Entry>, maxCache: nat, removable: set<string>,
                                                victims: seq<string>, result: LimitResult)
    requires Limited(entries, maxCache, removable, victims, result)
    requires Idle(entries) <= removable && IdleIsOlder(entries) && result == NotMet
    ensures Idle(Without(entries, victims)) == {}
  {
    var after, n := Without(entries, victims), |victims|;
    if n > 0 {
      assert EvictsNext(Without(entries, victims[..n - 1]), maxCache, victims[n - 1]);
      assert victims[n - 1] in Idle(entries);
    }
    forall v | v in after && Finds(after, Victim(v)) ensures Evictable(after[v]) {
      var p, m :| IsFirstIdle(after, p) && IsFirst(From(after, p) - {p}, m) && IsOldest(after, p, m, v);
      BelowIsTotal(p, p);
      assert p in From(after, p);
    }
  }

  /** If all entries are idle and can be deleted, the check succeeds, unless it is left with one entry
      that alone is over the limit: there it reads behind the end of the map. */
  lemma {:induction false} AllIdleIsLimited(entries: map<string, Entry>, maxCache: nat, removable: set<string>,
                                            victims: seq<string>, result: LimitResult)
    requires Limited(entries, maxCache, removable, victims, result)
    requires entries.Keys <= removable && AllIdle(entries)
    ensures result != NotMet
    ensures result == Undefined <==> OneTooBig(Without(entries, victims), maxCache)
  {
    var after, n := Without(entries, victims), |victims|;
    if n > 0 {
      assert EvictsNext(Without(entries, victims[..n - 1]), maxCache, victims[n - 1]);
    }
    if Finds(after, NoneIdle) {
      assert after == map[];
    }
    if Finds(after, PastTheEnd) {
      var p :| IsFirstIdle(after, p) && From(after, p) == {p};
      forall j | j in after ensures j == p { assert j in From(after, p); }
      SumOfOne(after, p);
    }
    forall p | after.Keys == {p} ensures Sum(after, SizeOfEntry) == after[p].size { SumOfOne(after, p); }
  }

  ghost predicate OneTooBig(entries: map<string, Entry>, maxCache: nat) {
    exists p :: entries.Keys == {p} && entries[p].size > maxCache
  }

  /** In a cache of idle entries that can be deleted, the newest one decides: the check succeeds exactly
      if that entry alone is within the limit. */
  lemma {:induction false} NewestDecides(entries: map<string, Entry>, maxCache: nat, removable: set<string>,
                                         victims: seq<string>, result: LimitResult, newest: string)
    requires Limited(entries, maxCache, removable, victims, result)
    requires entries.Keys <= removable && AllIdle(entries) && newest in entries
    requires forall j :: j in entries && j != newest ==> entries[j].lastModified < entries[newest].lastModified
    ensures result == if entries[newest].size <= maxCache then Met else Undefined
  {
    var after := Without(entries, victims);
    AllIdleIsLimited(entries, maxCache, removable, victims, result);
    NewestStays(entries, maxCache, victims, newest, |victims|);
    assert victims[..|victims|] == victims;
    SumAtLeast(after, SizeOfEntry, newest);
  }

  lemma {:induction false} NewestStays(entries: map<string, Entry>, maxCache: nat, victims: seq<string>, newest: string,
                                       k: nat)
    requires Evicts(entries, maxCache, victims) && k <= |victims| && newest in entries
    requires forall j :: j in entries && j != newest ==> entries[j].lastModified < entries[newest].lastModified
    ensures newest !in victims[..k]
  {
    if k == 0 {
    } else {
      NewestStays(entries, maxCache, victims, newest, k - 1);
      var so, v := victims[..k - 1], victims[k - 1];
      assert victims[..k] == so + [v];
      NewestIsNoVictim(Without(entries, so), maxCache, v, newest);
    }
  }

  lemma {:induction false} NewestIsNoVictim(entries: map<string, Entry>, maxCache: nat, v: string, newest: string)
    requires EvictsNext(entries, maxCache, v) && newest in entries
    requires forall j :: j in entries && j != newest ==> entries[j].lastModified < entries[newest].lastModified
    ensures v != newest
  {
    var p, n :| IsFirstIdle(entries, p) && IsFirst(From(entries, p) - {p}, n) && IsOldest(entries, p, n, v);
    BelowIsTotal(p, p);
    assert p in From(entries, p) && n in From(entries, p) && n != p;
  }

  lemma {:induction false} SumOfOne(entries: map<string, Entry>, p: string)
    requires entries.Keys == {p}
    ensures Sum(entries, SizeOfEntry) == entries[p].size
  {
    SumWithout(entries, SizeOfEntry, p);
    assert entries - {p} == map[];
  }
}
