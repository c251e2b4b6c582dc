/**
 Snapshot loads when a commit may bring an old manifest back, internal/datasource/embedded.go: every load of a database
 is linearizable, in every run, exactly when the history of that database is settled.
 */
module SnapshotReuse {
  import opened Issues
  import opened SnapshotNames
  import opened SnapshotCache

  /** Only before its first commit a database has no manifest. */
  ghost predicate Possible<D>(h: seq<Version<D>>)
  {
    forall n | 0 < n < |h| :: h[n].manifest.Some?
  }

  /** The history of db is, all along the run, the beginning of h. */
  ghost predicate Within<D>(trace: seq<World<D>>, db: string, h: seq<Version<D>>)
  {
    forall t | 0 <= t < |trace| :: Behind(trace[t], db, h)
  }

  ghost predicate Behind<D>(w: World<D>, db: string, h: seq<Version<D>>)
  {
    db in w.states ==> w.states[db] <= h
  }

  /** Every call on db that has returned has returned a state of db from inside the call. */
  ghost predicate Linear<D>(trace: seq<World<D>>, db: string)
  {
    forall b: nat, k: nat, i: nat | Returned(trace, db, b, k, i) :: HasMoment(trace, b, k, i)
  }

  /** Call i on db began at moment b and has returned by moment k. */
  ghost predicate Returned<D>(trace: seq<World<D>>, db: string, b: nat, k: nat, i: nat)
  {
    && BeganAt(trace, b, i) && b <= k < |trace| && i < |trace[k].calls|
    && trace[k].calls[i].db == db && trace[k].calls[i].phase.Loaded?
  }

  ghost predicate HasMoment<D>(trace: seq<World<D>>, b: nat, k: nat, i: nat)
    requires b <= k < |trace| && i < |trace[k].calls| && trace[k].calls[i].phase.Loaded?
  {
    exists t: nat :: IsMoment(trace, b, k, i, t)
  }

  ghost predicate AlwaysLinear<D(!new)>(cfg: Config, db: string, h: seq<Version<D>>)
  {
    forall trace: seq<World<D>> | Run(cfg, trace) && Within(trace, db, h) :: Linear(trace, db)
  }

  // ---------- settled is enough ----------

  lemma SettledPart<D>(g: seq<Version<D>>, h: seq<Version<D>>, base: nat)
    requires g <= h && SettledFrom(h, 0)
    ensures SettledFrom(g, base)
  {
    forall j: nat, i: nat, k: nat | base <= j && Returns(g, j, i, k) ensures g[i].data == g[k].data {
      assert Returns(h, j, i, k);
    }
  }

  lemma SettledLinear<D(!new)>(cfg: Config, trace: seq<World<D>>, db: string, h: seq<Version<D>>)
    requires Run(cfg, trace) && Within(trace, db, h) && SettledFrom(h, 0)
    ensures Linear(trace, db)
  {
    forall b: nat, k: nat, i: nat | Returned(trace, db, b, k, i) ensures HasMoment(trace, b, k, i) {
      var c := trace[k].calls[i];
      RunInv(cfg, trace, k);
      assert CallOk(trace[0], trace[k], c) && Behind(trace[k], db, h);
      SettledPart(trace[k].states[db], h, Base(trace[0], db));
      SettledSince(trace[0], trace[k], c);
      var t := SinceMoment(cfg, trace, b, k, i);
    }
  }

  // ---------- and needed ----------

  ghost predicate Leads<D(!new)>(cfg: Config, db: string, h: seq<Version<D>>, trace: seq<World<D>>, w: World<D>)
  {
    Run(cfg, trace) && Within(trace, db, h) && trace[|trace| - 1] == w
  }

  lemma Take<D(!new)>(cfg: Config, db: string, h: seq<Version<D>>, trace: seq<World<D>>, w: World<D>, s: Step<D>)
      returns (w': World<D>, longer: seq<World<D>>)
    requires Leads(cfg, db, h, trace, w) && Enabled(cfg, w, s) && Behind(After(cfg, w, s), db, h)
    ensures w' == After(cfg, w, s) && longer == trace + [w'] && Leads(cfg, db, h, longer, w')
  {
    w' := After(cfg, w, s);
    longer := trace + [w'];
    assert Next(cfg, w, w');
    forall t | 0 <= t < |longer| - 1 ensures Next(cfg, longer[t], longer[t + 1]) {
      assert t < |trace| - 1 ==> Next(cfg, trace[t], trace[t + 1]);
    }
  }

  /** The world in which db, the only database, has come to state n of h. */
  ghost function At<D>(db: string, h: seq<Version<D>>, n: nat, files: map<string, Entry<D>>,
                       calls: seq<Call<D>>): World<D>
    requires n < |h|
  {
    World(map[db := h[..n + 1]], files, calls)
  }

  /** Committing the states up to m. */
  lemma {:induction false} Commits<D(!new)>(cfg: Config, db: string, h: seq<Version<D>>, trace: seq<World<D>>, n: nat,
                                            m: nat, files: map<string, Entry<D>>, calls: seq<Call<D>>)
      returns (longer: seq<World<D>>)
    requires cfg.reuse && Possible(h) && n <= m < |h| && Leads(cfg, db, h, trace, At(db, h, n, files, calls))
    ensures Leads(cfg, db, h, longer, At(db, h, m, files, calls))
    decreases m - n
  {
    if n == m {
      longer := trace;
    } else {
      assert h[..n + 2] == h[..n + 1] + [h[n + 1]];
      var w := At(db, h, n, files, calls);
      var w', next := Take(cfg, db, h, trace, w, Commit(db, h[n + 1]));
      assert w' == At(db, h, n + 1, files, calls);
      longer := Commits(cfg, db, h, next, n + 1, m, files, calls);
    }
  }

  /** A call on state j, with nothing cached. */
  lemma Misses<D(!new)>(cfg: Config, db: string, h: seq<Version<D>>, j: nat) returns (trace: seq<World<D>>)
    requires j < |h| && h[j].manifest.Some?
    ensures Leads(cfg, db, h, trace,
      At(db, h, j, map[], [Call(db, j, Exporting(Some(Key(db, h[j].manifest.value)), 0))]))
  {
    var key := Key(db, h[j].manifest.value);
    var w := At(db, h, j, map[], []);
    trace := [w];
    w, trace := Take(cfg, db, h, trace, w, Begin(db));
    assert w.calls == [Call(db, j, Begun)];
    w, trace := Take(cfg, db, h, trace, w, ReadKey(0));
    assert w.calls == [Call(db, j, Keyed(Some(key)))];
    w, trace := Take(cfg, db, h, trace, w, Probe(0));
    assert w.calls == [Call(db, j, Exporting(Some(key), 0))];
  }

  /** It goes on at state i: what is exported there is stored under the key read at j. */
  lemma Stores<D(!new)>(cfg: Config, db: string, h: seq<Version<D>>, trace: seq<World<D>>, j: nat, i: nat, key: Key)
      returns (longer: seq<World<D>>)
    requires i < |h| && key.db == db
    requires Leads(cfg, db, h, trace, At(db, h, i, map[], [Call(db, j, Exporting(Some(key), 0))]))
    ensures Leads(cfg, db, h, longer,
      At(db, h, i, map[CachePath(db) := Entry(key, h[i].data, i)], [Call(db, j, Loaded(h[i].data))]))
  {
    var w := At(db, h, i, map[], [Call(db, j, Exporting(Some(key), 0))]);
    var w1, t1 := Take(cfg, db, h, trace, w, Export(0));
    assert w1.calls == [Call(db, j, Exported(Some(key), h[i].data, i))];
    var w2, t2 := Take(cfg, db, h, t1, w1, Rename(0));
    assert w2.calls == [Call(db, j, Loaded(h[i].data))];
    longer := t2;
  }

  /**
   A call reads the manifest of state j, finds no file, and exports once state i is there; state i is stored under it.
   */
  lemma StoresLater<D(!new)>(cfg: Config, db: string, h: seq<Version<D>>, j: nat, i: nat) returns (trace: seq<World<D>>)
    requires cfg.reuse && Possible(h) && j <= i < |h| && h[j].manifest.Some?
    ensures var key := Key(db, h[j].manifest.value);
      Leads(cfg, db, h, trace,
        At(db, h, i, map[CachePath(db) := Entry(key, h[i].data, i)], [Call(db, j, Loaded(h[i].data))]))
  {
    var key := Key(db, h[j].manifest.value);
    trace := Misses(cfg, db, h, j);
    trace := Commits(cfg, db, h, trace, j, i, map[], [Call(db, j, Exporting(Some(key), 0))]);
    trace := Stores(cfg, db, h, trace, j, i, key);
  }

  /** A new call at state k, where the manifest of the stored file is back, is served the stored data. */
  lemma ServesStored<D(!new)>(cfg: Config, db: string, h: seq<Version<D>>, trace: seq<World<D>>, k: nat, e: Entry<D>,
                              c: Call<D>)
      returns (longer: seq<World<D>>)
    requires k < |h| && h[k].manifest == Some(e.key.manifest) && e.key.db == db
    requires Leads(cfg, db, h, trace, At(db, h, k, map[CachePath(db) := e], [c]))
    ensures Run(cfg, longer) && Within(longer, db, h) && |longer| == |trace| + 3
    ensures Returned(longer, db, |trace|, |trace| + 2, 1) && longer[|trace| + 2].calls[1].phase == Loaded(e.data)
    ensures forall t | |trace| <= t < |longer| :: longer[t].states == map[db := h[..k + 1]]
  {
    var w := At(db, h, k, map[CachePath(db) := e], [c]);
    var w1, t1 := Take(cfg, db, h, trace, w, Begin(db));
    assert w1.calls == [c, Call(db, k, Begun)];
    var w2, t2 := Take(cfg, db, h, t1, w1, ReadKey(1));
    assert w2.calls == [c, Call(db, k, Keyed(Some(e.key)))];
    var w3, t3 := Take(cfg, db, h, t2, w2, Probe(1));
    longer := t3;
  }

  lemma UnsettledRun<D(!new)>(cfg: Config, db: string, h: seq<Version<D>>, j: nat, i: nat, k: nat)
      returns (trace: seq<World<D>>)
    requires cfg.reuse && Possible(h) && Returns(h, j, i, k) && h[i].data != h[k].data
    ensures Run(cfg, trace) && Within(trace, db, h) && !Linear(trace, db)
  {
    var e := Entry(Key(db, h[j].manifest.value), h[i].data, i);
    var c := Call(db, j, Loaded(h[i].data));
    var stored := StoresLater(cfg, db, h, j, i);
    var later := Commits(cfg, db, h, stored, i, k, map[CachePath(db) := e], [c]);
    trace := ServesStored(cfg, db, h, later, k, e, c);
    var b, end := |later|, |later| + 2;
    assert Returned(trace, db, b, end, 1);
    forall t: nat ensures !IsMoment(trace, b, end, 1, t) {
      if b <= t <= end {
        assert trace[t].states == map[db := h[..k + 1]];
      }
    }
    assert !HasMoment(trace, b, end, 1);
  }

  /**
   Loads of a database are linearizable in every run along a history exactly when the history is settled: whatever was
   current while, or after, a manifest was current is current again whenever that manifest is back.
   */
  lemma LinearIffSettled<D(!new)>(cfg: Config, db: string, h: seq<Version<D>>)
    requires cfg.reuse && Possible(h)
    ensures AlwaysLinear(cfg, db, h) <==> SettledFrom(h, 0)
  {
    if SettledFrom(h, 0) {
      forall trace: seq<World<D>> | Run(cfg, trace) && Within(trace, db, h) ensures Linear(trace, db) {
        SettledLinear(cfg, trace, db, h);
      }
    } else {
      var j: nat, i: nat, k: nat :| 0 <= j && Returns(h, j, i, k) && h[i].data != h[k].data;
      var trace := UnsettledRun(cfg, db, h, j, i, k);
    }
  }
}
