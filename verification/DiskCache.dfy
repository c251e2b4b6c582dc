/**
 The disk cache of analysis results, pkg/analysis/cache.go: a file of at most ten entries, each usable for a day,
 the least recently used thrown out first. Every operation holds the file's lock, so operations follow one another.
 */
module DiskCache {
  import opened Issues
  import opened Sums
  import opened Counting
  import Sorting

  const MAX_ENTRIES: nat := 10
  /** Twenty-four hours in nanoseconds. */
  const MAX_AGE: nat := 86_400_000_000_000
  /** Ten megabytes. */
  const MAX_SIZE: nat := 10 * 1024 * 1024

  /** Times are nanoseconds; 0 is the zero time. */
  datatype Entry<T> = Entry(createdAt: nat, accessedAt: nat, dataHash: string, configHash: string, blob: T)

  /** A file that cannot be decoded, as a write cut short leaves it, is like an empty one to a reader. */
  datatype File<T> = Missing | Unreadable | Stored(entries: map<string, Entry<T>>)

  function Readable<T>(f: File<T>): map<string, Entry<T>>
  {
    if f.Stored? then f.entries else map[]
  }

  predicate Expired<T>(now: nat, e: Entry<T>)
  {
    e.createdAt == 0 || now - e.createdAt > MAX_AGE
  }

  ghost function Pruned<T>(now: nat, es: map<string, Entry<T>>): map<string, Entry<T>>
  {
    map k | k in es && !Expired(now, es[k]) :: es[k]
  }

  /** When the entry was last used. */
  function Stamp<T>(e: Entry<T>): nat
  {
    if e.accessedAt == 0 then e.createdAt else e.accessedAt
  }

  datatype Item = Item(key: string, t: nat)

  function Older(): (Item, Item) -> bool
  {
    (a: Item, b: Item) => a.t < b.t || (a.t == b.t && Less(a.key, b.key))
  }

  lemma OlderTotal()
    ensures Sorting.TotalOrder(Older()) && Sorting.WeakOrder(Older())
  {
    Sorting.ByIdTotal();
    forall a: Item, b: Item ensures !(Older()(a, b) && Older()(b, a)) && (a == b || Older()(a, b) || Older()(b, a)) {
      assert Sorting.ById()(a.key, b.key) == Less(a.key, b.key) && Sorting.ById()(b.key, a.key) == Less(b.key, a.key);
    }
    forall a: Item, b: Item, c: Item | Older()(a, b) && Older()(b, c) ensures Older()(a, c) {
      assert Sorting.ById()(a.key, b.key) == Less(a.key, b.key) && Sorting.ById()(b.key, c.key) == Less(b.key, c.key);
      assert Sorting.ById()(a.key, c.key) == Less(a.key, c.key);
    }
    Sorting.TotalIsWeak(Older());
  }

  ghost function ItemOf<T>(es: map<string, Entry<T>>, k: string): Item
    requires k in es
  {
    Item(k, Stamp(es[k]))
  }

  /** What eviction leaves: as many entries as allowed, unchanged, and none older than one that went. */
  ghost predicate EvictedTo<T>(es: map<string, Entry<T>>, r: map<string, Entry<T>>)
  {
    && r.Keys <= es.Keys && (forall k | k in r :: r[k] == es[k])
    && |r| == Min(|es|, MAX_ENTRIES)
    && forall gone, kept | gone in es && gone !in r && kept in r :: Older()(ItemOf(es, gone), ItemOf(es, kept))
  }

  /** The outcome does not depend on the order in which the map is walked. */
  lemma EvictionUnique<T>(es: map<string, Entry<T>>, r: map<string, Entry<T>>, s: map<string, Entry<T>>)
    requires EvictedTo(es, r) && EvictedTo(es, s)
    ensures r == s
  {
    if r.Keys != s.Keys {
      var a := OnlyIn(r.Keys, s.Keys);
      var b := OnlyIn(s.Keys, r.Keys);
      GoneOlder(es, s, a, b);
      GoneOlder(es, r, b, a);
      OlderOneWay(ItemOf(es, a), ItemOf(es, b));
    }
  }

  lemma GoneOlder<T>(es: map<string, Entry<T>>, r: map<string, Entry<T>>, gone: string, kept: string)
    requires EvictedTo(es, r) && gone in es && gone !in r && kept in r
    ensures Older()(ItemOf(es, gone), ItemOf(es, kept))
  {
  }

  lemma OlderOneWay(a: Item, b: Item)
    ensures !(Older()(a, b) && Older()(b, a))
  {
    OlderTotal();
  }

  lemma OnlyIn(a: set<string>, b: set<string>) returns (x: string)
    requires |a| == |b| && a != b
    ensures x in a && x !in b
  {
    if a <= b {
      SubsetSame(a, b);
    }
    x :| x in a && x !in b;
  }

  lemma SubsetSame(a: set<string>, b: set<string>)
    requires |a| == |b| && a <= b
    ensures a == b
  {
    CardSplit(b, a);
    assert b - a == {} ==> b <= a;
  }

  // ---------- the two helpers that work on the map ----------

  method Prune<T>(now: nat, es: map<string, Entry<T>>) returns (r: map<string, Entry<T>>)
    ensures r == Pruned(now, es)
  {
    r := es;
    var keys := es.Keys;
    while keys != {}
      invariant keys <= es.Keys
      invariant r == map k | k in es && (k in keys || !Expired(now, es[k])) :: es[k]
    {
      var k :| k in keys;
      keys := keys - {k};
      if Expired(now, es[k]) {
        r := r - {k};
      }
    }
  }

  method ItemsOf<T>(es: map<string, Entry<T>>) returns (items: seq<Item>)
    ensures |items| == |es| && Distinct(items)
    ensures forall i | 0 <= i < |items| :: items[i].key in es && items[i] == ItemOf(es, items[i].key)
    ensures Sorting.Ascending(Older(), items)
  {
    items := [];
    var keys := es.Keys;
    while keys != {}
      invariant keys <= es.Keys && |items| + |keys| == |es| && Distinct(items)
      invariant forall i | 0 <= i < |items| ::
        items[i].key in es && items[i].key !in keys && items[i] == ItemOf(es, items[i].key)
    {
      var k :| k in keys;
      keys := keys - {k};
      items := items + [Item(k, Stamp(es[k]))];
    }
    var all := items;
    Sorting.SortKeeps(Older(), all);
    Sorting.SortDistinct(Older(), all);
    OlderTotal();
    Sorting.SortAscends(Older(), all);
    items := Sorting.Sort(Older(), all);
    forall i | 0 <= i < |items| ensures items[i].key in es && items[i] == ItemOf(es, items[i].key) {
      assert items[i] in all;
    }
  }

  method EvictLru<T>(es: map<string, Entry<T>>) returns (r: map<string, Entry<T>>)
    ensures EvictedTo(es, r)
  {
    r := es;
    if |r| <= MAX_ENTRIES {
      return;
    }
    var items := ItemsOf(es);
    var d := 0;
    while |r| > MAX_ENTRIES && d < |items|
      invariant d <= |items| && |r| == |es| - d && |r| >= MAX_ENTRIES
      invariant r.Keys <= es.Keys && forall k | k in r :: r[k] == es[k]
      invariant forall k | k in es :: k !in r <==> exists i | 0 <= i < d :: items[i].key == k
    {
      var k := items[d].key;
      OnceListed(es, items, d);
      assert k in r;
      assert (r - {k}).Keys == r.Keys - {k};
      r := r - {k};
      d := d + 1;
    }
    CutOlder(es, items, d, r);
  }

  lemma OnceListed<T>(es: map<string, Entry<T>>, items: seq<Item>, d: nat)
    requires Distinct(items) && forall i | 0 <= i < |items| ::
      items[i].key in es && items[i] == ItemOf(es, items[i].key)
    requires d < |items|
    ensures forall i | 0 <= i < |items| && i != d :: items[i].key != items[d].key
  {
  }

  /** Cutting an ascending list leaves the younger part. */
  lemma CutOlder<T>(es: map<string, Entry<T>>, items: seq<Item>, d: nat, r: map<string, Entry<T>>)
    requires Distinct(items) && Sorting.Ascending(Older(), items) && d <= |items| == |es|
    requires forall i | 0 <= i < |items| :: items[i].key in es && items[i] == ItemOf(es, items[i].key)
    requires r.Keys <= es.Keys && forall k | k in es :: k !in r <==> exists i | 0 <= i < d :: items[i].key == k
    ensures forall gone, kept | gone in es && gone !in r && kept in r :: Older()(ItemOf(es, gone), ItemOf(es, kept))
  {
    OlderTotal();
    AllListed(es, items);
    forall gone, kept | gone in es && gone !in r && kept in r ensures Older()(ItemOf(es, gone), ItemOf(es, kept)) {
      var i :| 0 <= i < d && items[i].key == gone;
      var j :| 0 <= j < |items| && items[j].key == kept;
      assert j >= d && items[i] != items[j] && !Older()(items[j], items[i]);
    }
  }

  /** A list of distinct keys as long as the map has them all. */
  lemma AllListed<T>(es: map<string, Entry<T>>, items: seq<Item>)
    requires Distinct(items) && |items| == |es|
    requires forall i | 0 <= i < |items| :: items[i].key in es && items[i] == ItemOf(es, items[i].key)
    ensures forall k | k in es :: exists i | 0 <= i < |items| :: items[i].key == k
  {
    var keys := seq(|items|, i requires 0 <= i < |items| => items[i].key);
    forall i, j | 0 <= i < j < |keys| ensures keys[i] != keys[j] {
      OnceListed(es, items, i);
    }
    ListCard(keys);
    var listed := set k | k in keys;
    assert listed <= es.Keys;
    CardSplit(es.Keys, listed);
    forall k | k in es ensures exists i | 0 <= i < |items| :: items[i].key == k {
      assert k in keys;
      var i :| 0 <= i < |keys| && keys[i] == k;
      assert items[i].key == k;
    }
  }

  // ---------- the operations, each under the lock ----------

  /** How writing the file back goes: in full, not at all, or only in part. Nobody looks at the error. */
  datatype Write = Done | Refused | CutShort

  function Written<T>(f: File<T>, es: map<string, Entry<T>>, write: Write): File<T>
  {
    match write
    case Done => Stored(es)
    case Refused => f
    case CutShort => Unreadable
  }

  /** The file after writing back what eviction leaves of the entries. */
  ghost predicate WrittenEvicted<T>(f: File<T>, es: map<string, Entry<T>>, write: Write, f': File<T>)
  {
    if write.Done? then f'.Stored? && EvictedTo(es, f'.entries) else f' == Written(f, es, write)
  }

  /** Looking a key up: what is expired goes, a hit is stamped with the time of the access, and returned in any case. */
  ghost predicate GetStep<T>(f: File<T>, now: nat, key: string, write: Write, f': File<T>, hit: Option<T>)
  {
    var es := Pruned(now, Readable(f));
    if f.Missing? then f' == f && hit == None
    else if key !in es then f' == Written(f, es, write) && hit == None
    else hit == Some(es[key].blob) && WrittenEvicted(f, es[key := es[key].(accessedAt := now)], write, f')
  }

  /** Storing a result; one that is too large is dropped. */
  ghost predicate PutStep<T>(f: File<T>, now: nat, key: string, dataHash: string, configHash: string, blob: T,
                             size: nat, write: Write, f': File<T>)
  {
    if size > MAX_SIZE then f' == f
    else WrittenEvicted(f, Pruned(now, Readable(f))[key := Entry(now, now, dataHash, configHash, blob)], write, f')
  }

  class Cache<T> {
    var file: File<T>

    constructor ()
      ensures file == Missing
    {
      file := Missing;
    }

    method Get(now: nat, key: string, write: Write) returns (hit: Option<T>)
      modifies this
      ensures GetStep(old(file), now, key, write, file, hit)
    {
      if file.Missing? {
        return None;
      }
      var entries := Prune(now, Readable(file));
      if key !in entries {
        file := Written(file, entries, write);
        return None;
      }
      var entry := entries[key].(accessedAt := now);
      entries := entries[key := entry];
      entries := EvictLru(entries);
      file := Written(file, entries, write);
      return Some(entry.blob);
    }

    method Put(now: nat, key: string, dataHash: string, configHash: string, blob: T, size: nat, write: Write)
      modifies this
      ensures PutStep(old(file), now, key, dataHash, configHash, blob, size, write, file)
    {
      if size > MAX_SIZE {
        return;
      }
      var entries := Prune(now, Readable(file));
      entries := entries[key := Entry(now, now, dataHash, configHash, blob)];
      entries := EvictLru(entries);
      file := Written(file, entries, write);
    }
  }

  // ---------- runs ----------

  /** A process that dies, or cannot open or lock the file, leaves it as it was or cut short, and answers nothing. */
  datatype Event<T> =
    | Get(now: nat, key: string, write: Write, hit: Option<T>)
    | Put(now: nat, key: string, dataHash: string, configHash: string, blob: T, size: nat, write: Write)
    | Crash(now: nat)

  ghost predicate Step<T>(f: File<T>, e: Event<T>, f': File<T>)
  {
    match e
    case Get(now, key, write, hit) => GetStep(f, now, key, write, f', hit)
    case Put(now, key, dataHash, configHash, blob, size, write) =>
      PutStep(f, now, key, dataHash, configHash, blob, size, write, f')
    case Crash(_) => f' == f || f' == Unreadable
  }

  ghost predicate StepAt<T>(files: seq<File<T>>, events: seq<Event<T>>, i: nat)
    requires i < |events| && |files| == |events| + 1
  {
    Step(files[i], events[i], files[i + 1])
  }

  ghost predicate InTime<T>(events: seq<Event<T>>, i: nat)
    requires i + 1 < |events|
  {
    events[i].now <= events[i + 1].now
  }

  /** A run from no file at all, by a clock that never goes back. */
  ghost predicate IsRun<T>(files: seq<File<T>>, events: seq<Event<T>>)
  {
    && |files| == |events| + 1 && files[0] == Missing
    && (forall i | 0 <= i < |events| :: StepAt(files, events, i))
    && forall i | 0 <= i < |events| - 1 :: InTime(events, i)
  }

  /** A put that is small enough and whose write is complete. */
  predicate Stores<T>(e: Event<T>, key: string)
  {
    e.Put? && e.key == key && e.size <= MAX_SIZE && e.write.Done?
  }

  /** Such a put, or a hit whose stamp is written. */
  predicate Uses<T>(e: Event<T>, key: string)
  {
    Stores(e, key) || (e.Get? && e.key == key && e.hit.Some? && e.write.Done?)
  }

  /** The index of the latest event among the first n that stores the key, or -1. */
  ghost function LatestPut<T>(events: seq<Event<T>>, n: nat, key: string): (i: int)
    requires n <= |events|
    ensures -1 <= i < n && (i >= 0 ==> Stores(events[i], key)) && forall j | i < j < n :: !Stores(events[j], key)
  {
    if n == 0 then -1 else if Stores(events[n - 1], key) then n - 1 else LatestPut(events, n - 1, key)
  }

  /** The index of the latest event among the first n that uses the key, or -1. */
  ghost function LatestUse<T>(events: seq<Event<T>>, n: nat, key: string): (i: int)
    requires n <= |events|
    ensures -1 <= i < n && (i >= 0 ==> Uses(events[i], key)) && forall j | i < j < n :: !Uses(events[j], key)
  {
    if n == 0 then -1 else if Uses(events[n - 1], key) then n - 1 else LatestUse(events, n - 1, key)
  }

  /** An entry carries the latest stored put of its key and the time of its latest use. */
  ghost predicate Current<T>(events: seq<Event<T>>, n: nat, key: string, e: Entry<T>)
    requires n <= |events|
  {
    var i, j := LatestPut(events, n, key), LatestUse(events, n, key);
    && 0 <= i <= j && e.blob == events[i].blob && e.createdAt == events[i].now && e.accessedAt == events[j].now
  }

  ghost predicate Inv<T>(events: seq<Event<T>>, n: nat, f: File<T>)
    requires n <= |events|
  {
    |Readable(f)| <= MAX_ENTRIES && forall k | k in Readable(f) :: Current(events, n, k, Readable(f)[k])
  }

  lemma EventsAscend<T>(files: seq<File<T>>, events: seq<Event<T>>, i: nat, j: nat)
    requires IsRun(files, events) && i <= j < |events|
    ensures events[i].now <= events[j].now
    decreases j - i
  {
    if i < j {
      EventsAscend(files, events, i, j - 1);
      assert InTime(events, j - 1);
    }
  }

  /** An event that does not use the key changes nothing about it. */
  lemma OtherKey<T>(events: seq<Event<T>>, n: nat, k: string, e: Entry<T>)
    requires n < |events| && Current(events, n, k, e) && !Uses(events[n], k)
    ensures Current(events, n + 1, k, e)
  {
  }

  lemma RunStep<T>(files: seq<File<T>>, events: seq<Event<T>>, i: nat)
    requires IsRun(files, events) && i < |events|
    ensures Step(files[i], events[i], files[i + 1])
  {
    assert StepAt(files, events, i);
  }

  lemma {:induction false} RunInv<T>(files: seq<File<T>>, events: seq<Event<T>>, n: nat)
    requires IsRun(files, events) && n <= |events|
    ensures Inv(events, n, files[n])
  {
    if n == 0 {
      StartInv(events);
    } else {
      var m := n - 1;
      RunInv(files, events, m);
      RunStep(files, events, m);
      StepInv(events, m, files[m], files[n]);
    }
  }

  lemma StartInv<T>(events: seq<Event<T>>)
    ensures Inv(events, 0, Missing)
  {
  }

  lemma StepInv<T>(events: seq<Event<T>>, n: nat, f: File<T>, f': File<T>)
    requires n < |events| && Inv(events, n, f) && Step(f, events[n], f')
    ensures Inv(events, n + 1, f')
  {
    forall k | k in Readable(f') ensures Current(events, n + 1, k, Readable(f')[k]) {
      EntryInv(events, n, f, f', k);
    }
    StepSmall(f, events[n], f');
  }

  lemma StepSmall<T>(f: File<T>, e: Event<T>, f': File<T>)
    requires Step(f, e, f') && |Readable(f)| <= MAX_ENTRIES
    ensures |Readable(f')| <= MAX_ENTRIES
  {
    if e.Get? {
      PrunedSmaller(e.now, Readable(f));
    }
  }

  lemma PrunedSmaller<T>(now: nat, es: map<string, Entry<T>>)
    ensures |Pruned(now, es)| <= |es|
  {
    var r := Pruned(now, es);
    assert r.Keys <= es.Keys;
    CardSplit(es.Keys, r.Keys);
  }

  lemma EntryInv<T>(events: seq<Event<T>>, n: nat, f: File<T>, f': File<T>, k: string)
    requires n < |events| && Inv(events, n, f) && Step(f, events[n], f') && k in Readable(f')
    ensures Current(events, n + 1, k, Readable(f')[k])
  {
    match events[n]
    case Get(_, _, _, _) => GetEntry(events, n, f, f', k);
    case Put(_, _, _, _, _, _, _) => PutEntry(events, n, f, f', k);
    case Crash(_) => OtherKey(events, n, k, Readable(f)[k]);
  }

  lemma GetEntry<T>(events: seq<Event<T>>, n: nat, f: File<T>, f': File<T>, k: string)
    requires n < |events| && events[n].Get? && Step(f, events[n], f') && k in Readable(f')
    requires k in Readable(f) ==> Current(events, n, k, Readable(f)[k])
    ensures Current(events, n + 1, k, Readable(f')[k])
  {
    var e := events[n];
    GetFrom(f, e, f', k);
    var was := Readable(f)[k];
    if Uses(e, k) {
      UsedAgain(events, n, k, was);
    } else {
      OtherKey(events, n, k, was);
    }
  }

  lemma GetFrom<T>(f: File<T>, e: Event<T>, f': File<T>, k: string)
    requires e.Get? && Step(f, e, f') && k in Readable(f')
    ensures k in Readable(f)
    ensures Readable(f')[k] == if Uses(e, k) then Readable(f)[k].(accessedAt := e.now) else Readable(f)[k]
  {
  }

  lemma UsedAgain<T>(events: seq<Event<T>>, n: nat, k: string, e: Entry<T>)
    requires n < |events| && Current(events, n, k, e) && events[n].Get? && Uses(events[n], k)
    ensures Current(events, n + 1, k, e.(accessedAt := events[n].now))
  {
  }

  lemma PutEntry<T>(events: seq<Event<T>>, n: nat, f: File<T>, f': File<T>, k: string)
    requires n < |events| && Inv(events, n, f) && Step(f, events[n], f') && k in Readable(f') && events[n].Put?
    ensures Current(events, n + 1, k, Readable(f')[k])
  {
    var e := events[n];
    PutFrom(f, e, f', k);
    if Stores(e, k) {
      StoredNow(events, n, k);
    } else {
      OtherKey(events, n, k, Readable(f)[k]);
    }
  }

  lemma PutFrom<T>(f: File<T>, e: Event<T>, f': File<T>, k: string)
    requires e.Put? && Step(f, e, f') && k in Readable(f')
    ensures Stores(e, k) ==> Readable(f')[k] == Entry(e.now, e.now, e.dataHash, e.configHash, e.blob)
    ensures !Stores(e, k) ==> k in Readable(f) && Readable(f')[k] == Readable(f)[k]
  {
  }

  lemma StoredNow<T>(events: seq<Event<T>>, n: nat, k: string)
    requires n < |events| && Stores(events[n], k)
    ensures var e := events[n]; Current(events, n + 1, k, Entry(e.now, e.now, e.dataHash, e.configHash, e.blob))
  {
  }

  // ---------- what the runs promise ----------

  /** A hit, stamped or not, returns the blob of the latest stored put of its key, made at most a day ago. */
  lemma HitIsLatest<T>(files: seq<File<T>>, events: seq<Event<T>>, n: nat)
    requires IsRun(files, events) && n < |events| && events[n].Get? && events[n].hit.Some?
    ensures var i := LatestPut(events, n, events[n].key);
      i >= 0 && events[n].hit == Some(events[i].blob) && events[i].now <= events[n].now <= events[i].now + MAX_AGE
  {
    var key := events[n].key;
    RunInv(files, events, n);
    RunStep(files, events, n);
    var e := Readable(files[n])[key];
    assert Current(events, n, key, e) && !Expired(events[n].now, e);
    EventsAscend(files, events, LatestPut(events, n, key), n);
  }

  /** Never more than ten entries. */
  lemma NeverMoreThanTen<T>(files: seq<File<T>>, events: seq<Event<T>>, n: nat)
    requires IsRun(files, events) && n <= |events|
    ensures |Readable(files[n])| <= 10
  {
    RunInv(files, events, n);
  }

  /** The stamp of an entry is the time of the latest use of its key, and that is not in the future. */
  lemma StampIsLatestUse<T>(files: seq<File<T>>, events: seq<Event<T>>, n: nat, k: string)
    requires IsRun(files, events) && n <= |events| && k in Readable(files[n])
    ensures var j := LatestUse(events, n, k); j >= 0 && Stamp(Readable(files[n])[k]) == events[j].now
  {
    RunInv(files, events, n);
    var i, j := LatestPut(events, n, k), LatestUse(events, n, k);
    assert Current(events, n, k, Readable(files[n])[k]);
    EventsAscend(files, events, i, j);
  }

  /** What a put pushes out was used before everything it leaves, or at the same time with a smaller key. */
  lemma PutEvictsOldest<T>(files: seq<File<T>>, events: seq<Event<T>>, n: nat, gone: string, kept: string)
    requires IsRun(files, events) && n < |events| && events[n].Put? && gone != events[n].key
    requires gone in Pruned(events[n].now, Readable(files[n])) && gone !in Readable(files[n + 1])
    requires kept in Readable(files[n + 1])
    ensures var i, j := LatestUse(events, n, gone), LatestUse(events, n + 1, kept);
      i >= 0 && j >= 0 && (events[i].now < events[j].now || (events[i].now == events[j].now && Less(gone, kept)))
  {
    var f, e, f' := files[n], events[n], files[n + 1];
    assert Step(f, e, f') by {
      RunStep(files, events, n);
    }
    PutGone(f, e, f', gone, kept);
    StampIsLatestUse(files, events, n, gone);
    StampIsLatestUse(files, events, n + 1, kept);
  }

  lemma PutGone<T>(f: File<T>, e: Event<T>, f': File<T>, gone: string, kept: string)
    requires e.Put? && Step(f, e, f') && kept in Readable(f') && gone !in Readable(f')
    requires Stores(e, gone) || gone in Pruned(e.now, Readable(f))
    ensures var t, stays := if gone == e.key then e.now else Stamp(Readable(f)[gone]), Stamp(Readable(f')[kept]);
      t < stays || (t == stays && Less(gone, kept))
  {
    var es := Pruned(e.now, Readable(f))[e.key := Entry(e.now, e.now, e.dataHash, e.configHash, e.blob)];
    GoneOlder(es, Readable(f'), gone, kept);
  }

  /** A fresh entry is thrown out at once only when all that stay were used at the very same time. */
  lemma FreshIsKept<T>(files: seq<File<T>>, events: seq<Event<T>>, n: nat, kept: string)
    requires IsRun(files, events) && n < |events| && events[n].Put? && Stores(events[n], events[n].key)
    requires events[n].key !in Readable(files[n + 1]) && kept in Readable(files[n + 1])
    ensures var j := LatestUse(events, n + 1, kept);
      j >= 0 && events[j].now == events[n].now && Less(events[n].key, kept)
  {
    RunStep(files, events, n);
    StampIsLatestUse(files, events, n + 1, kept);
    PutGone(files[n], events[n], files[n + 1], events[n].key, kept);
    EventsAscend(files, events, LatestUse(events, n + 1, kept), n);
  }
}
