/**
 When the disk cache of pkg/analysis/cache.go must hit: exactly when the file holds an entry of the key that is not
 too old; and when an entry must still be there: while fewer than ten other keys have been used since.
 */
module DiskCacheHits {
  import opened Issues
  import opened Counting
  import opened DiskCache

  // ---------- what a get must answer ----------

  /** What a get answers, by the entry in the file. */
  lemma Answer<T>(f: File<T>, e: Event<T>, f': File<T>)
    requires e.Get? && Step(f, e, f')
    ensures e.hit ==
      if e.key in Readable(f) && Readable(f)[e.key].createdAt > 0 && e.now <= Readable(f)[e.key].createdAt + MAX_AGE
      then Some(Readable(f)[e.key].blob) else None
  {
  }

  lemma Carried<T>(files: seq<File<T>>, events: seq<Event<T>>, n: nat, key: string)
    requires IsRun(files, events) && n <= |events| && key in Readable(files[n])
    ensures var i := LatestPut(events, n, key);
      i >= 0 && Readable(files[n])[key].blob == events[i].blob && Readable(files[n])[key].createdAt == events[i].now
  {
    RunInv(files, events, n);
    assert Current(events, n, key, Readable(files[n])[key]);
  }

  /** A get answers with the latest stored put of its key exactly when the file has its entry, at most a day old. */
  lemma HitIff<T>(files: seq<File<T>>, events: seq<Event<T>>, n: nat)
    requires IsRun(files, events) && n < |events| && events[n].Get?
    ensures var key, i := events[n].key, LatestPut(events, n, events[n].key);
      && (key in Readable(files[n]) ==> i >= 0 && events[i].size <= 10 * 1024 * 1024)
      && events[n].hit ==
        if key in Readable(files[n]) && events[i].now > 0 && events[n].now <= events[i].now + 24 * 3600 * 1_000_000_000
        then Some(events[i].blob) else None
  {
    RunStep(files, events, n);
    Answer(files[n], events[n], files[n + 1]);
    if events[n].key in Readable(files[n]) {
      Carried(files, events, n, events[n].key);
    }
  }

  // ---------- what must still be there ----------

  /** The other keys that a recorded use at time t or later has touched, among the first n events. */
  ghost function OthersSince<T(!new)>(events: seq<Event<T>>, n: nat, key: string, t: nat): set<string>
    requires n <= |events|
  {
    set j | 0 <= j < n && OtherUse(events[j], key, t) :: events[j].key
  }

  predicate OtherUse<T>(e: Event<T>, key: string, t: nat)
  {
    (e.Get? || e.Put?) && e.key != key && Uses(e, e.key) && e.now >= t
  }

  lemma OthersGrow<T(!new)>(events: seq<Event<T>>, m: nat, n: nat, key: string, t: nat)
    requires m <= n <= |events|
    ensures |OthersSince(events, m, key, t)| <= |OthersSince(events, n, key, t)|
  {
    assert OthersSince(events, m, key, t) <= OthersSince(events, n, key, t);
    CardSplit(OthersSince(events, n, key, t), OthersSince(events, m, key, t));
  }

  lemma TenStay<T>(es: map<string, Entry<T>>, r: map<string, Entry<T>>, key: string)
    requires EvictedTo(es, r) && key in es && key !in r
    ensures |r| == 10 && forall k | k in r :: k != key && Stamp(r[k]) >= Stamp(es[key])
  {
    assert r.Keys <= es.Keys - {key};
    CardSplit(es.Keys - {key}, r.Keys);
    assert |es.Keys - {key}| == |es| - 1;
    forall k | k in r ensures Stamp(r[k]) >= Stamp(es[key]) {
      GoneOlder(es, r, key, k);
    }
  }

  lemma UsedSince<T(!new)>(files: seq<File<T>>, events: seq<Event<T>>, n: nat, key: string, k: string, t: nat)
    requires IsRun(files, events) && n <= |events| && k in Readable(files[n]) && k != key
    requires Stamp(Readable(files[n])[k]) >= t
    ensures k in OthersSince(events, n, key, t)
  {
    StampIsLatestUse(files, events, n, k);
    var j := LatestUse(events, n, k);
    assert OtherUse(events[j], key, t) && events[j].key == k;
  }

  /** Whoever pushes an entry out has been used since. */
  lemma NotPushedOut<T(!new)>(files: seq<File<T>>, events: seq<Event<T>>, n: nat, es: map<string, Entry<T>>,
                              key: string, t: nat)
    requires IsRun(files, events) && n <= |events| && files[n].Stored? && EvictedTo(es, files[n].entries)
    requires key in es && Stamp(es[key]) >= t && |OthersSince(events, n, key, t)| < 10
    ensures key in files[n].entries
  {
    var r := files[n].entries;
    if key !in r {
      TenStay(es, r, key);
      forall k | k in r ensures k in OthersSince(events, n, key, t) {
        UsedSince(files, events, n, key, k, t);
      }
      CardSplit(OthersSince(events, n, key, t), r.Keys);
    }
  }

  /** The entries a recorded use puts through eviction. */
  ghost function Prepared<T>(f: File<T>, e: Event<T>): map<string, Entry<T>>
    requires (e.Get? && e.key in Pruned(e.now, Readable(f))) || e.Put?
  {
    var es := Pruned(e.now, Readable(f));
    if e.Get? then es[e.key := es[e.key].(accessedAt := e.now)]
    else es[e.key := DiskCache.Entry(e.now, e.now, e.dataHash, e.configHash, e.blob)]
  }

  lemma UseEvicts<T>(f: File<T>, e: Event<T>, f': File<T>)
    requires Step(f, e, f') && (e.Get? || e.Put?) && Uses(e, e.key)
    ensures e.Put? || e.key in Pruned(e.now, Readable(f))
    ensures f'.Stored? && EvictedTo(Prepared(f, e), f'.entries)
    ensures e.key in Prepared(f, e) && (e.now > 0 ==> Stamp(Prepared(f, e)[e.key]) == e.now)
    ensures forall k | k in Pruned(e.now, Readable(f)) && k != e.key ::
      k in Prepared(f, e) && Prepared(f, e)[k] == Readable(f)[k]
  {
  }

  /** Without a recorded use and without a write cut short, what is young stays. */
  lemma OtherwiseStays<T>(f: File<T>, e: Event<T>, f': File<T>, key: string)
    requires Step(f, e, f') && f' != Unreadable && !((e.Get? || e.Put?) && Uses(e, e.key))
    requires key in Readable(f) && !Expired(e.now, Readable(f)[key])
    ensures key in Readable(f')
  {
    assert key in Pruned(e.now, Readable(f));
  }

  /** An entry that is young, whose stamp is not before t, outlasts an event. */
  lemma OutlastsEvent<T(!new)>(files: seq<File<T>>, events: seq<Event<T>>, m: nat, key: string, t: nat)
    requires IsRun(files, events) && m < |events| && files[m + 1] != Unreadable
    requires key in Readable(files[m]) && !Expired(events[m].now, Readable(files[m])[key])
    requires Stamp(Readable(files[m])[key]) >= t && events[m].now >= t && events[m].now > 0
    requires |OthersSince(events, m + 1, key, t)| < 10
    ensures key in Readable(files[m + 1])
  {
    var f, e, f' := files[m], events[m], files[m + 1];
    RunStep(files, events, m);
    if (e.Get? || e.Put?) && Uses(e, e.key) {
      UseEvicts(f, e, f');
      assert key in Pruned(e.now, Readable(f));
      NotPushedOut(files, events, m + 1, Prepared(f, e), key, t);
    } else {
      OtherwiseStays(f, e, f', key);
    }
  }

  /** A recorded use leaves the entry in the file. */
  lemma UsedIsThere<T(!new)>(files: seq<File<T>>, events: seq<Event<T>>, m: nat, key: string)
    requires IsRun(files, events) && m < |events| && Uses(events[m], key) && events[m].now > 0
    requires |OthersSince(events, m + 1, key, events[m].now)| < 10
    ensures key in Readable(files[m + 1])
  {
    RunStep(files, events, m);
    UseEvicts(files[m], events[m], files[m + 1]);
    NotPushedOut(files, events, m + 1, Prepared(files[m], events[m]), key, events[m].now);
  }

  /** In the file an entry stored at i and used at u is young, and its stamp is not before that use. */
  lemma YoungAt<T(!new)>(files: seq<File<T>>, events: seq<Event<T>>, i: nat, u: nat, m: nat, key: string)
    requires IsRun(files, events) && i <= u < m < |events| && key in Readable(files[m])
    requires Stores(events[i], key) && events[i].now > 0 && Uses(events[u], key)
    requires events[m].now <= events[i].now + MAX_AGE
    ensures !Expired(events[m].now, Readable(files[m])[key])
    ensures Stamp(Readable(files[m])[key]) >= events[u].now && events[m].now >= events[u].now
  {
    Carried(files, events, m, key);
    EventsAscend(files, events, i, LatestPut(events, m, key));
    StampIsLatestUse(files, events, m, key);
    EventsAscend(files, events, u, LatestUse(events, m, key));
    EventsAscend(files, events, u, m);
  }

  lemma StaysOn<T(!new)>(files: seq<File<T>>, events: seq<Event<T>>, i: nat, u: nat, m: nat, key: string)
    requires IsRun(files, events) && i <= u < m < |events| && key in Readable(files[m]) && files[m + 1] != Unreadable
    requires Stores(events[i], key) && events[i].now > 0 && Uses(events[u], key)
    requires events[m].now <= events[i].now + MAX_AGE && |OthersSince(events, m + 1, key, events[u].now)| < 10
    ensures key in Readable(files[m + 1])
  {
    EventsAscend(files, events, i, m);
    YoungAt(files, events, i, u, m, key);
    OutlastsEvent(files, events, m, key, events[u].now);
  }

  lemma StaysAtUse<T(!new)>(files: seq<File<T>>, events: seq<Event<T>>, i: nat, u: nat, key: string)
    requires IsRun(files, events) && i <= u < |events| && events[i].now > 0 && Uses(events[u], key)
    requires |OthersSince(events, u + 1, key, events[u].now)| < 10
    ensures key in Readable(files[u + 1])
  {
    EventsAscend(files, events, i, u);
    UsedIsThere(files, events, u, key);
  }

  ghost predicate PassedOn<T>(f: File<T>, f': File<T>, key: string)
  {
    key in Readable(f) ==> key in Readable(f')
  }

  lemma KeptAt<T(!new)>(files: seq<File<T>>, events: seq<Event<T>>, i: nat, u: nat, n: nat, m: nat, key: string)
    requires IsRun(files, events) && i <= u < m < n <= |events| && files[m + 1] != Unreadable
    requires Stores(events[i], key) && events[i].now > 0 && Uses(events[u], key)
    requires events[n - 1].now <= events[i].now + MAX_AGE && |OthersSince(events, n, key, events[u].now)| < 10
    ensures PassedOn(files[m], files[m + 1], key)
  {
    if key in Readable(files[m]) {
      OthersGrow(events, m + 1, n, key, events[u].now);
      EventsAscend(files, events, m, n - 1);
      StaysOn(files, events, i, u, m, key);
    }
  }

  lemma {:induction false} AlwaysPassedOn<T>(files: seq<File<T>>, a: nat, n: nat, key: string)
    requires a <= n < |files| && key in Readable(files[a])
    requires forall m | a <= m < n :: PassedOn(files[m], files[m + 1], key)
    ensures key in Readable(files[n])
  {
    if a < n {
      AlwaysPassedOn(files, a, n - 1, key);
      assert PassedOn(files[n - 1], files[n - 1 + 1], key);
    }
  }

  /**
   What has been stored stays: an entry stored at i and last seen used at u is still in the file after n events, if it
   is at most a day old, no write has been cut short since, and fewer than ten other keys have been used since.
   */
  lemma StaysStored<T(!new)>(files: seq<File<T>>, events: seq<Event<T>>, i: nat, u: nat, n: nat, key: string)
    requires IsRun(files, events) && i <= u < n <= |events|
    requires Stores(events[i], key) && events[i].now > 0 && Uses(events[u], key)
    requires events[n - 1].now <= events[i].now + 24 * 3600 * 1_000_000_000
    requires forall m | u + 1 < m <= n :: files[m] != Unreadable
    requires |OthersSince(events, n, key, events[u].now)| < 10
    ensures key in Readable(files[n])
  {
    StaysAtUse(files, events, i, u, key) by {
      OthersGrow(events, u + 1, n, key, events[u].now);
    }
    forall m | u < m < n ensures PassedOn(files[m], files[m + 1], key) {
      KeptAt(files, events, i, u, n, m, key);
    }
    AlwaysPassedOn(files, u + 1, n, key);
  }

  /** A key stored within the last day, with fewer than ten others used since and no write cut short, is hit. */
  lemma RecentIsHit<T(!new)>(files: seq<File<T>>, events: seq<Event<T>>, i: nat, u: nat, n: nat, key: string)
    requires IsRun(files, events) && i <= u < n < |events| && events[n].Get? && events[n].key == key
    requires events[i].Put? && events[i].key == key && events[i].size <= 10 * 1024 * 1024 && events[i].write.Done?
    requires events[i].now > 0 && Uses(events[u], key)
    requires events[n].now <= events[i].now + 24 * 3600 * 1_000_000_000
    requires forall m | u + 1 < m <= n :: files[m] != Unreadable
    requires |OthersSince(events, n, key, events[u].now)| < 10
    ensures i <= LatestPut(events, n, key) && events[n].hit == Some(events[LatestPut(events, n, key)].blob)
  {
    EventsAscend(files, events, n - 1, n);
    StaysStored(files, events, i, u, n, key);
    HitIff(files, events, n);
    EventsAscend(files, events, i, LatestPut(events, n, key));
  }
}
