/**
 EmbeddedReader.LoadIssues (internal/datasource/embedded.go) against concurrent commits and other
 loaders: read the manifest, probe the cache file, export, rename a new cache file into place. A state
 machine interleaves the steps; every load is linearizable.
 */
module SnapshotCache {
  import opened Issues
  import opened SnapshotNames

  /** One committed state of a database: its manifest's hash (absent before the first commit) and its issues. */
  datatype Version<D> = Version(manifest: Option<int>, data: D)

  datatype Key = Key(db: string, manifest: int)

  /** A cache file. version is a history variable: the index of the state that was exported. */
  datatype Entry<D> = Entry(key: Key, data: D, version: nat)

  /** Where a call of LoadIssues stands. first and version are history variables. */
  datatype Phase<D> =
    | Begun                                               // nothing read yet
    | Keyed(key: Option<Key>)                             // the cache key, when there is a manifest
    | Exporting(key: Option<Key>, attempt: nat)           // cache miss, or no caching
    | Exported(key: Option<Key>, data: D, version: nat)   // a successful export, not yet written back
    | Loaded(data: D)                                     // returned
    | Failed                                              // returned an error

  /** A call on a database; first is the state that was current when the call began. */
  datatype Call<D> = Call(db: string, first: nat, phase: Phase<D>)

  datatype World<D> = World(
    states: map<string, seq<Version<D>>>,   // every state each database has had
    files: map<string, Entry<D>>,           // the cache directory
    calls: seq<Call<D>>)

  /** maxRetries bounds the retries of a failed export; reuse allows a manifest to come back. */
  datatype Config = Config(maxRetries: nat, reuse: bool)

  datatype Step<D> =
    | Commit(db: string, next: Version<D>)
    | Create(db: string, start: Version<D>)
    | Begin(db: string)
    | ReadKey(i: nat)
    | Probe(i: nat)
    | Export(i: nat)
    | ExportFails(i: nat)
    | GiveUp(i: nat)            // no bd tool, timeout, or unparsable output
    | Rename(i: nat)            // the new cache file replaces the old one in one step
    | Remove(i: nat)            // where rename does not replace, the old file is removed first
    | SkipWrite(i: nat)         // writing failed, or caching is off

  ghost predicate Exists<D>(w: World<D>, db: string)
  {
    db in w.states && w.states[db] != []
  }

  ghost function Current<D>(w: World<D>, db: string): Version<D>
    requires Exists(w, db)
  {
    w.states[db][|w.states[db]| - 1]
  }

  ghost predicate Seen<D>(states: seq<Version<D>>, m: Option<int>)
  {
    exists k :: 0 <= k < |states| && states[k].manifest == m
  }

  ghost predicate InPhase<D>(w: World<D>, i: nat)
  {
    i < |w.calls| && Exists(w, w.calls[i].db)
  }

  ghost predicate Hit<D>(w: World<D>, key: Option<Key>)
  {
    key.Some? && CachePath(key.value.db) in w.files && w.files[CachePath(key.value.db)].key == key.value
  }

  ghost predicate Enabled<D>(cfg: Config, w: World<D>, s: Step<D>)
  {
    match s
    case Commit(db, next) =>
      Exists(w, db) && next.manifest.Some? && (cfg.reuse || !Seen(w.states[db], next.manifest))
    case Create(db, start) => db !in w.states
    case Begin(db) => Exists(w, db)
    case ReadKey(i) => InPhase(w, i) && w.calls[i].phase.Begun?
    case Probe(i) => InPhase(w, i) && w.calls[i].phase.Keyed?
    case Export(i) => InPhase(w, i) && w.calls[i].phase.Exporting?
    case ExportFails(i) => InPhase(w, i) && w.calls[i].phase.Exporting?
    case GiveUp(i) => InPhase(w, i) && (w.calls[i].phase.Begun? || w.calls[i].phase.Exporting?)
    case Rename(i) => InPhase(w, i) && w.calls[i].phase.Exported? && w.calls[i].phase.key.Some?
    case Remove(i) => InPhase(w, i) && w.calls[i].phase.Exported? && w.calls[i].phase.key.Some?
    case SkipWrite(i) => InPhase(w, i) && w.calls[i].phase.Exported?
  }

  ghost function To<D>(w: World<D>, i: nat, phase: Phase<D>): World<D>
    requires i < |w.calls|
  {
    w.(calls := w.calls[i := w.calls[i].(phase := phase)])
  }

  ghost function KeyOf<D>(w: World<D>, db: string): Option<Key>
    requires Exists(w, db)
  {
    match Current(w, db).manifest
    case Some(m) => Some(Key(db, m))
    case None => None
  }

  ghost function After<D>(cfg: Config, w: World<D>, s: Step<D>): World<D>
    requires Enabled(cfg, w, s)
  {
    match s
    case Commit(db, next) => w.(states := w.states[db := w.states[db] + [next]])
    case Create(db, start) => w.(states := w.states[db := [start]])
    case Begin(db) => w.(calls := w.calls + [Call(db, |w.states[db]| - 1, Begun)])
    case ReadKey(i) => To(w, i, Keyed(KeyOf(w, w.calls[i].db)))
    case Probe(i) =>
      var key := w.calls[i].phase.key;
      if Hit(w, key) then To(w, i, Loaded(w.files[CachePath(key.value.db)].data)) else To(w, i, Exporting(key, 0))
    case Export(i) =>
      var c := w.calls[i];
      To(w, i, Exported(c.phase.key, Current(w, c.db).data, |w.states[c.db]| - 1))
    case ExportFails(i) =>
      var p := w.calls[i].phase;
      if p.attempt < cfg.maxRetries then To(w, i, Exporting(p.key, p.attempt + 1)) else To(w, i, Failed)
    case GiveUp(i) => To(w, i, Failed)
    case Rename(i) =>
      var p := w.calls[i].phase;
      To(w, i, Loaded(p.data)).(files := w.files[CachePath(p.key.value.db) := Entry(p.key.value, p.data, p.version)])
    case Remove(i) => w.(files := w.files - {CachePath(w.calls[i].phase.key.value.db)})
    case SkipWrite(i) => To(w, i, Loaded(w.calls[i].phase.data))
  }

  // ---------- the invariant ----------

  /** data was the state of db at index k or later, up to now. */
  ghost predicate Since<D>(w: World<D>, db: string, k: nat, data: D)
  {
    Exists(w, db) && exists v :: k <= v < |w.states[db]| && w.states[db][v].data == data
  }

  ghost predicate HasManifest<D>(w: World<D>, db: string, k: nat, m: int)
  {
    Exists(w, db) && k < |w.states[db]| && w.states[db][k].manifest == Some(m)
  }

  /** Where the history of db stood when the run began. */
  ghost function Base<D>(w0: World<D>, db: string): nat
  {
    if Exists(w0, db) then |w0.states[db]| - 1 else 0
  }

  /** Some state of db from index lo to index hi has the manifest. */
  ghost predicate HadManifest<D>(w: World<D>, db: string, lo: nat, hi: nat, m: int)
  {
    exists k: nat :: lo <= k <= hi && HasManifest(w, db, k, m)
  }

  /** A cache file holds a state at which, or before which, in this run, its key was current. */
  ghost predicate EntryOk<D>(w0: World<D>, w: World<D>, e: Entry<D>)
  {
    && Exists(w, e.key.db) && e.version < |w.states[e.key.db]| && w.states[e.key.db][e.version].data == e.data
    && HadManifest(w, e.key.db, Base(w0, e.key.db), e.version, e.key.manifest)
  }

  /** The key of a call is the manifest of a state that was current inside the call, up to index hi. */
  ghost predicate KeyOk<D>(w: World<D>, c: Call<D>, key: Option<Key>, hi: nat)
  {
    key.Some? ==> key.value.db == c.db && HadManifest(w, c.db, c.first, hi, key.value.manifest)
  }

  /** At k a manifest is back that was current at j, and i lies in between. */
  ghost predicate Returns<D>(h: seq<Version<D>>, j: nat, i: nat, k: nat)
  {
    j <= i < k < |h| && h[j].manifest.Some? && h[j].manifest == h[k].manifest
  }

  /** Data from before the call, kept under a manifest that came back inside the call. */
  ghost predicate Relic<D>(h: seq<Version<D>>, base: nat, first: nat, data: D)
  {
    exists j: nat, i: nat, k: nat :: Returns(h, j, i, k) && base <= j && i < first <= k && h[i].data == data
  }

  ghost predicate CallOk<D>(w0: World<D>, w: World<D>, c: Call<D>)
  {
    && Exists(w, c.db) && Base(w0, c.db) <= c.first < |w.states[c.db]|
    && match c.phase
       case Begun => true
       case Keyed(key) => KeyOk(w, c, key, |w.states[c.db]| - 1)
       case Exporting(key, _) => KeyOk(w, c, key, |w.states[c.db]| - 1)
       case Exported(key, data, v) =>
         KeyOk(w, c, key, v) && c.first <= v < |w.states[c.db]| && w.states[c.db][v].data == data
       case Loaded(data) => Since(w, c.db, c.first, data) || Relic(w.states[c.db], Base(w0, c.db), c.first, data)
       case Failed => true
  }

  /** Seen from the beginning w0 of the run. */
  ghost predicate Inv<D>(w0: World<D>, w: World<D>)
  {
    && Grows(w0, w)
    && (forall path | path in w.files :: EntryOk(w0, w, w.files[path]))
    && (forall i | 0 <= i < |w.calls| :: CallOk(w0, w, w.calls[i]))
  }

  // ---------- every step keeps the invariant ----------

  /** Histories only grow. */
  ghost predicate Grows<D>(w: World<D>, w': World<D>)
  {
    forall db | db in w.states :: db in w'.states && w.states[db] <= w'.states[db]
  }

  lemma ManifestKept<D>(w: World<D>, w': World<D>, db: string, k: nat, m: int)
    requires Grows(w, w') && Exists(w, db) && k < |w.states[db]|
    ensures HasManifest(w', db, k, m) <==> HasManifest(w, db, k, m)
  {
  }

  lemma HadKept<D>(w: World<D>, w': World<D>, db: string, lo: nat, hi: nat, hi': nat, m: int)
    requires Grows(w, w') && HadManifest(w, db, lo, hi, m) && hi <= hi'
    ensures HadManifest(w', db, lo, hi', m)
  {
    var k: nat :| lo <= k <= hi && HasManifest(w, db, k, m);
    ManifestKept(w, w', db, k, m);
  }

  lemma KeyKept<D>(w: World<D>, w': World<D>, c: Call<D>, key: Option<Key>, hi: nat, hi': nat)
    requires Grows(w, w') && KeyOk(w, c, key, hi) && hi <= hi'
    ensures KeyOk(w', c, key, hi')
  {
    if key.Some? {
      HadKept(w, w', c.db, c.first, hi, hi', key.value.manifest);
    }
  }

  lemma EntryKept<D>(w0: World<D>, w: World<D>, w': World<D>, e: Entry<D>)
    requires Grows(w, w') && EntryOk(w0, w, e)
    ensures EntryOk(w0, w', e)
  {
    HadKept(w, w', e.key.db, Base(w0, e.key.db), e.version, e.version, e.key.manifest);
  }

  lemma ServedKept<D>(w0: World<D>, w: World<D>, w': World<D>, c: Call<D>)
    requires Grows(w, w') && CallOk(w0, w, c) && c.phase.Loaded?
    ensures CallOk(w0, w', c)
  {
    var h, h', data := w.states[c.db], w'.states[c.db], c.phase.data;
    if Since(w, c.db, c.first, data) {
      var v :| c.first <= v < |h| && h[v].data == data;
      assert h'[v].data == data;
    } else {
      var j: nat, i: nat, k: nat :| Returns(h, j, i, k) && Base(w0, c.db) <= j && i < c.first <= k && h[i].data == data;
      assert Returns(h', j, i, k);
    }
  }

  lemma CallKept<D>(w0: World<D>, w: World<D>, w': World<D>, c: Call<D>)
    requires Grows(w, w') && CallOk(w0, w, c)
    ensures CallOk(w0, w', c)
  {
    var last, last' := |w.states[c.db]| - 1, |w'.states[c.db]| - 1;
    match c.phase
    case Begun =>
    case Keyed(key) => KeyKept(w, w', c, key, last, last');
    case Exporting(key, _) => KeyKept(w, w', c, key, last, last');
    case Exported(key, _, v) => KeyKept(w, w', c, key, v, v);
    case Loaded(_) => ServedKept(w0, w, w', c);
    case Failed =>
  }

  lemma StepGrows<D>(cfg: Config, w: World<D>, s: Step<D>)
    requires Enabled(cfg, w, s)
    ensures Grows(w, After(cfg, w, s))
  {
  }

  /** A step that changes a call leaves the databases alone and begins no call. */
  lemma OnlyActor<D>(cfg: Config, w: World<D>, s: Step<D>, i: nat)
    requires Enabled(cfg, w, s) && i < |w.calls| && After(cfg, w, s).calls[i] != w.calls[i]
    ensures After(cfg, w, s).states == w.states && InPhase(w, i)
    ensures s == ReadKey(i) || s == Probe(i) || s == Export(i) || s == ExportFails(i) || s == GiveUp(i)
      || s == Rename(i)
      || s == SkipWrite(i)
  {
  }

  lemma ReadKeyOk<D>(cfg: Config, w0: World<D>, w: World<D>, i: nat)
    requires Enabled(cfg, w, ReadKey(i)) && i < |w.calls| && CallOk(w0, w, w.calls[i])
    ensures CallOk(w0, After(cfg, w, ReadKey(i)), After(cfg, w, ReadKey(i)).calls[i])
  {
    var w', c := After(cfg, w, ReadKey(i)), w.calls[i];
    var key := KeyOf(w, c.db);
    if key.Some? {
      assert HasManifest(w', c.db, |w.states[c.db]| - 1, key.value.manifest);
    }
  }

  /** An exported state is returned whether or not it was stored. */
  lemma DeliveredOk<D>(w0: World<D>, w: World<D>, w': World<D>, c: Call<D>)
    requires w'.states == w.states && CallOk(w0, w, c) && c.phase.Exported?
    ensures CallOk(w0, w', c.(phase := Loaded(c.phase.data)))
  {
    assert w'.states[c.db][c.phase.version].data == c.phase.data;
  }

  /** What the acting call looks like after its step. */
  lemma ActorOk<D>(cfg: Config, w0: World<D>, w: World<D>, s: Step<D>, i: nat)
    requires Enabled(cfg, w, s) && Inv(w0, w) && i < |w.calls| && After(cfg, w, s).calls[i] != w.calls[i]
    ensures CallOk(w0, After(cfg, w, s), After(cfg, w, s).calls[i])
  {
    OnlyActor(cfg, w, s, i);
    var w', c := After(cfg, w, s), w.calls[i];
    assert CallOk(w0, w, c);
    match s
    case ReadKey(_) => ReadKeyOk(cfg, w0, w, i);
    case Probe(_) =>
      if Hit(w, c.phase.key) {
        ProbeHit(w0, w, c);
      } else {
        KeptKey(w0, w, w', c);
      }
    case Export(_) => KeptKey(w0, w, w', c);
    case ExportFails(_) => KeptKey(w0, w, w', c);
    case Rename(_) => DeliveredOk(w0, w, w', c);
    case SkipWrite(_) => DeliveredOk(w0, w, w', c);
    case _ =>
  }

  lemma KeptKey<D>(w0: World<D>, w: World<D>, w': World<D>, c: Call<D>)
    requires w'.states == w.states && CallOk(w0, w, c) && (c.phase.Keyed? || c.phase.Exporting?)
    ensures KeyOk(w', c, c.phase.key, |w.states[c.db]| - 1)
  {
    KeyKept(w, w', c, c.phase.key, |w.states[c.db]| - 1, |w.states[c.db]| - 1);
  }

  /**
   A hit returns a state that is no older than the call, or one kept under a manifest that came back inside the call.
   */
  lemma ProbeHit<D>(w0: World<D>, w: World<D>, c: Call<D>)
    requires Inv(w0, w) && CallOk(w0, w, c) && c.phase.Keyed? && Hit(w, c.phase.key)
    ensures var data := w.files[CachePath(c.phase.key.value.db)].data;
      Since(w, c.db, c.first, data) || Relic(w.states[c.db], Base(w0, c.db), c.first, data)
  {
    var key := c.phase.key.value;
    var e := w.files[CachePath(key.db)];
    assert EntryOk(w0, w, e);
    if e.version < c.first {
      var j: nat :| Base(w0, c.db) <= j <= e.version && HasManifest(w, c.db, j, key.manifest);
      var k: nat :| c.first <= k <= |w.states[c.db]| - 1 && HasManifest(w, c.db, k, key.manifest);
      assert Returns(w.states[c.db], j, e.version, k);
    }
  }

  lemma WrittenOk<D>(w0: World<D>, w: World<D>, w': World<D>, c: Call<D>)
    requires CallOk(w0, w, c) && c.phase.Exported? && c.phase.key.Some? && w'.states == w.states
    ensures EntryOk(w0, w', Entry(c.phase.key.value, c.phase.data, c.phase.version))
  {
    var key := c.phase.key.value;
    var k: nat :| c.first <= k <= c.phase.version && HasManifest(w, c.db, k, key.manifest);
    assert HasManifest(w', c.db, k, key.manifest);
  }

  lemma StepFiles<D>(cfg: Config, w0: World<D>, w: World<D>, s: Step<D>, path: string)
    requires Enabled(cfg, w, s) && Inv(w0, w) && path in After(cfg, w, s).files
    ensures EntryOk(w0, After(cfg, w, s), After(cfg, w, s).files[path])
  {
    var w' := After(cfg, w, s);
    StepGrows(cfg, w, s);
    if s.Rename? && path == CachePath(w.calls[s.i].phase.key.value.db) {
      WrittenOk(w0, w, w', w.calls[s.i]);
    } else {
      EntryKept(w0, w, w', w.files[path]);
    }
  }

  lemma BeginOk<D>(cfg: Config, w0: World<D>, w: World<D>, s: Step<D>)
    requires Enabled(cfg, w, s) && s.Begin? && Grows(w0, w)
    ensures CallOk(w0, After(cfg, w, s), After(cfg, w, s).calls[|w.calls|])
  {
  }

  lemma StepCalls<D>(cfg: Config, w0: World<D>, w: World<D>, s: Step<D>, i: nat)
    requires Enabled(cfg, w, s) && Inv(w0, w) && i < |After(cfg, w, s).calls|
    ensures CallOk(w0, After(cfg, w, s), After(cfg, w, s).calls[i])
  {
    if i >= |w.calls| {
      BeginOk(cfg, w0, w, s);
    } else if After(cfg, w, s).calls[i] == w.calls[i] {
      StepGrows(cfg, w, s);
      CallKept(w0, w, After(cfg, w, s), w.calls[i]);
    } else {
      ActorOk(cfg, w0, w, s, i);
    }
  }

  lemma StepInv<D>(cfg: Config, w0: World<D>, w: World<D>, s: Step<D>)
    requires Enabled(cfg, w, s) && Inv(w0, w)
    ensures Inv(w0, After(cfg, w, s))
  {
    var w' := After(cfg, w, s);
    StepGrows(cfg, w, s);
    forall path | path in w'.files ensures EntryOk(w0, w', w'.files[path]) {
      StepFiles(cfg, w0, w, s, path);
    }
    forall i | 0 <= i < |w'.calls| ensures CallOk(w0, w', w'.calls[i]) {
      StepCalls(cfg, w0, w, s, i);
    }
  }

  // ---------- whole runs ----------

  ghost predicate Next<D(!new)>(cfg: Config, w: World<D>, w': World<D>)
  {
    exists s :: Enabled(cfg, w, s) && w' == After(cfg, w, s)
  }

  /** Any databases, an empty cache, no calls; then any steps in any order. */
  ghost predicate Run<D(!new)>(cfg: Config, trace: seq<World<D>>)
  {
    && |trace| > 0 && trace[0].files == map[] && trace[0].calls == []
    && forall t | 0 <= t < |trace| - 1 :: Next(cfg, trace[t], trace[t + 1])
  }

  lemma {:induction false} RunInv<D(!new)>(cfg: Config, trace: seq<World<D>>, t: nat)
    requires Run(cfg, trace) && t < |trace|
    ensures Inv(trace[0], trace[t])
  {
    if t > 0 {
      RunInv(cfg, trace, t - 1);
      assert Next(cfg, trace[t - 1], trace[t - 1 + 1]);
      var s :| Enabled(cfg, trace[t - 1], s) && trace[t] == After(cfg, trace[t - 1], s);
      StepInv(cfg, trace[0], trace[t - 1], s);
    }
  }

  // ---------- when manifests come back ----------

  /** No state after base has the manifest of an earlier one. */
  ghost predicate FreshAfter<D>(h: seq<Version<D>>, base: nat)
  {
    forall j, k | 0 <= j < k < |h| && base < k && h[k].manifest.Some? :: h[j].manifest != h[k].manifest
  }

  /** Whatever was current since a manifest was current, is current again when the manifest is back. */
  ghost predicate SettledFrom<D>(h: seq<Version<D>>, base: nat)
  {
    forall j: nat, i: nat, k: nat | base <= j && Returns(h, j, i, k) :: h[i].data == h[k].data
  }

  lemma FreshSettles<D>(h: seq<Version<D>>, base: nat)
    requires FreshAfter(h, base)
    ensures SettledFrom(h, base)
  {
  }

  ghost predicate AllFresh<D>(w0: World<D>, w: World<D>)
  {
    forall db | db in w.states :: FreshAfter(w.states[db], Base(w0, db))
  }

  lemma StepFresh<D>(cfg: Config, w0: World<D>, w: World<D>, s: Step<D>)
    requires !cfg.reuse && Enabled(cfg, w, s) && Grows(w0, w) && AllFresh(w0, w)
    ensures AllFresh(w0, After(cfg, w, s))
  {
    if s.Commit? {
      var h, h' := w.states[s.db], w.states[s.db] + [s.next];
      forall j, k | 0 <= j < k < |h'| && Base(w0, s.db) < k && h'[k].manifest.Some?
        ensures h'[j].manifest != h'[k].manifest
      {
        if k == |h| {
          assert h'[j] == h[j];
        }
      }
    }
  }

  /** Without reuse every history is fresh from where the run found it. */
  lemma {:induction false} RunFresh<D(!new)>(cfg: Config, trace: seq<World<D>>, t: nat)
    requires !cfg.reuse && Run(cfg, trace) && t < |trace|
    ensures AllFresh(trace[0], trace[t])
  {
    if t > 0 {
      RunFresh(cfg, trace, t - 1);
      RunInv(cfg, trace, t - 1);
      assert Next(cfg, trace[t - 1], trace[t - 1 + 1]);
      var s :| Enabled(cfg, trace[t - 1], s) && trace[t] == After(cfg, trace[t - 1], s);
      StepFresh(cfg, trace[0], trace[t - 1], s);
    }
  }

  /** In a settled history nothing is a relic. */
  lemma SettledSince<D>(w0: World<D>, w: World<D>, c: Call<D>)
    requires CallOk(w0, w, c) && c.phase.Loaded? && SettledFrom(w.states[c.db], Base(w0, c.db))
    ensures Since(w, c.db, c.first, c.phase.data)
  {
    var h := w.states[c.db];
    if Relic(h, Base(w0, c.db), c.first, c.phase.data) {
      var j: nat, i: nat, k: nat :|
        Returns(h, j, i, k) && Base(w0, c.db) <= j && i < c.first <= k && h[i].data == c.phase.data;
      assert h[k].data == c.phase.data;
    }
  }

  /** Without reuse a result is a state not older than its call. */
  lemma LoadedSince<D(!new)>(cfg: Config, trace: seq<World<D>>, k: nat, i: nat)
    requires !cfg.reuse && Run(cfg, trace) && k < |trace| && i < |trace[k].calls| && trace[k].calls[i].phase.Loaded?
    ensures var c := trace[k].calls[i]; Since(trace[k], c.db, c.first, c.phase.data)
  {
    var c := trace[k].calls[i];
    RunInv(cfg, trace, k);
    RunFresh(cfg, trace, k);
    assert CallOk(trace[0], trace[k], c);
    FreshSettles(trace[k].states[c.db], Base(trace[0], c.db));
    SettledSince(trace[0], trace[k], c);
  }

  /** A step adds at most one state to a history and never rewrites one. */
  lemma StatesShape<D(!new)>(cfg: Config, w: World<D>, w': World<D>, db: string)
    requires Next(cfg, w, w') && Exists(w, db)
    ensures Exists(w', db) && w.states[db] <= w'.states[db] && |w'.states[db]| <= |w.states[db]| + 1
  {
    var s :| Enabled(cfg, w, s) && w' == After(cfg, w, s);
    assert !(s.Create? && s.db == db);
  }

  /** Calls keep their database and beginning; a new call begins at the current state. */
  lemma CallsShape<D(!new)>(cfg: Config, w: World<D>, w': World<D>)
    requires Next(cfg, w, w')
    ensures |w.calls| <= |w'.calls|
    ensures forall i | 0 <= i < |w.calls| :: w'.calls[i].db == w.calls[i].db && w'.calls[i].first == w.calls[i].first
    ensures |w'.calls| > |w.calls| ==> |w'.calls| == |w.calls| + 1 && var c := w'.calls[|w.calls|];
      Exists(w', c.db) && c.first == |w'.states[c.db]| - 1
  {
    var s :| Enabled(cfg, w, s) && w' == After(cfg, w, s);
    OldCalls(cfg, w, s);
  }

  lemma OldCalls<D>(cfg: Config, w: World<D>, s: Step<D>)
    requires Enabled(cfg, w, s)
    ensures var w' := After(cfg, w, s);
      && |w'.calls| == |w.calls| + (if s.Begin? then 1 else 0)
      && forall i | 0 <= i < |w.calls| :: w'.calls[i].db == w.calls[i].db && w'.calls[i].first == w.calls[i].first
  {
  }

  /** Call i begins with the step that leads to trace[b]. */
  ghost predicate BeganAt<D>(trace: seq<World<D>>, b: nat, i: nat)
  {
    0 < b < |trace| && |trace[b - 1].calls| == i && i < |trace[b].calls|
  }

  /** From one state to the next no call loses its database or its beginning. */
  ghost predicate KeepCalls<D>(w: World<D>, w': World<D>)
  {
    |w.calls| <= |w'.calls|
    && forall i | 0 <= i < |w.calls| :: w'.calls[i].db == w.calls[i].db && w'.calls[i].first == w.calls[i].first
  }

  lemma RunKeepsCalls<D(!new)>(cfg: Config, trace: seq<World<D>>)
    requires Run(cfg, trace)
    ensures forall k | 0 <= k < |trace| - 1 :: KeepCalls(trace[k], trace[k + 1])
  {
    forall k | 0 <= k < |trace| - 1 ensures KeepCalls(trace[k], trace[k + 1]) {
      CallsShape(cfg, trace[k], trace[k + 1]);
    }
  }

  lemma {:induction false} KeptAlong<D(!new)>(trace: seq<World<D>>, b: nat, k: nat)
    requires (forall j | 0 <= j < |trace| - 1 :: KeepCalls(trace[j], trace[j + 1])) && b <= k < |trace|
    ensures KeepCalls(trace[b], trace[k])
  {
    if b < k {
      KeptAlong(trace, b, k - 1);
      assert KeepCalls(trace[k - 1], trace[k - 1 + 1]);
    }
  }

  lemma CallKeptAlong<D(!new)>(cfg: Config, trace: seq<World<D>>, b: nat, k: nat, i: nat)
    requires Run(cfg, trace) && b <= k < |trace| && i < |trace[b].calls|
    ensures i < |trace[k].calls| && trace[k].calls[i].db == trace[b].calls[i].db
    ensures trace[k].calls[i].first == trace[b].calls[i].first
  {
    RunKeepsCalls(cfg, trace);
    KeptAlong(trace, b, k);
  }

  /** Every state in the history of db between two moments was current at some moment in between. */
  lemma {:induction false} Moment<D(!new)>(cfg: Config, trace: seq<World<D>>, b: nat, k: nat, db: string, v: nat)
      returns (t: nat)
    requires Run(cfg, trace) && b <= k < |trace| && Exists(trace[b], db)
    requires |trace[b].states[db]| - 1 <= v
    requires Exists(trace[k], db) ==> v < |trace[k].states[db]|
    ensures b <= t <= k && Exists(trace[t], db) && Exists(trace[k], db) && |trace[t].states[db]| - 1 == v
    ensures trace[t].states[db][v] == trace[k].states[db][v]
  {
    if b == k {
      t := k;
    } else {
      HistoryPrefix(cfg, trace, b, k - 1, db);
      assert Next(cfg, trace[k - 1], trace[k - 1 + 1]);
      StatesShape(cfg, trace[k - 1], trace[k], db);
      if v < |trace[k - 1].states[db]| {
        t := Moment(cfg, trace, b, k - 1, db, v);
      } else {
        t := k;
      }
    }
  }

  /** The result of the call was the state of its database at some moment between its beginning and its return. */
  lemma SinceMoment<D(!new)>(cfg: Config, trace: seq<World<D>>, b: nat, k: nat, i: nat) returns (t: nat)
    requires Run(cfg, trace) && BeganAt(trace, b, i) && b <= k < |trace|
    requires i < |trace[k].calls| && trace[k].calls[i].phase.Loaded?
    requires var c := trace[k].calls[i]; Since(trace[k], c.db, c.first, c.phase.data)
    ensures trace[b].calls[i].db == trace[k].calls[i].db && IsMoment(trace, b, k, i, t)
  {
    var db := trace[b].calls[i].db;
    assert Next(cfg, trace[b - 1], trace[b - 1 + 1]);
    CallsShape(cfg, trace[b - 1], trace[b]);
    CallKeptAlong(cfg, trace, b, k, i);
    var c := trace[k].calls[i];
    var v :| c.first <= v < |trace[k].states[db]| && trace[k].states[db][v].data == c.phase.data;
    t := Moment(cfg, trace, b, k, db, v);
  }

  /** At moment t of the call its result was the state of its database. */
  ghost predicate IsMoment<D>(trace: seq<World<D>>, b: nat, k: nat, i: nat, t: nat)
    requires b <= k < |trace| && i < |trace[k].calls| && trace[k].calls[i].phase.Loaded?
  {
    var c := trace[k].calls[i];
    b <= t <= k && Exists(trace[t], c.db) && Current(trace[t], c.db).data == c.phase.data
  }

  /**
   Linearizability: whatever a call of LoadIssues returns, hit or miss, was the state of its own database
   at some moment between the call's beginning and its return.
   */
  lemma Linearizable<D(!new)>(cfg: Config, trace: seq<World<D>>, b: nat, k: nat, i: nat) returns (t: nat)
    requires !cfg.reuse && Run(cfg, trace) && BeganAt(trace, b, i) && b <= k < |trace|
    requires i < |trace[k].calls| && trace[k].calls[i].phase.Loaded?
    ensures trace[b].calls[i].db == trace[k].calls[i].db && IsMoment(trace, b, k, i, t)
  {
    LoadedSince(cfg, trace, k, i);
    t := SinceMoment(cfg, trace, b, k, i);
  }

  /** A call that begins after another has returned never sees an older state than the other did. */
  lemma NeverBackwards<D(!new)>(cfg: Config, trace: seq<World<D>>, k: nat, i: nat, b: nat, l: nat, j: nat)
      returns (u: nat, v: nat)
    requires !cfg.reuse && Run(cfg, trace) && k <= b <= l < |trace|
    requires i < |trace[k].calls| && trace[k].calls[i].phase.Loaded?
    requires BeganAt(trace, b, j) && j < |trace[l].calls| && trace[l].calls[j].phase.Loaded?
    requires trace[l].calls[j].db == trace[k].calls[i].db
    ensures var states := trace[l].states; var db := trace[k].calls[i].db;
      && db in states && u <= v < |states[db]|
      && states[db][u].data == trace[k].calls[i].phase.data
      && states[db][v].data == trace[l].calls[j].phase.data
  {
    var db := trace[k].calls[i].db;
    LoadedSince(cfg, trace, k, i);
    LoadedSince(cfg, trace, l, j);
    u :| trace[k].calls[i].first <= u < |trace[k].states[db]|
      && trace[k].states[db][u].data == trace[k].calls[i].phase.data;
    v :| trace[l].calls[j].first <= v < |trace[l].states[db]|
      && trace[l].states[db][v].data == trace[l].calls[j].phase.data;
    assert Next(cfg, trace[b - 1], trace[b - 1 + 1]);
    CallsShape(cfg, trace[b - 1], trace[b]);
    CallKeptAlong(cfg, trace, b, l, j);
    HistoryPrefix(cfg, trace, k, b, db);
    HistoryPrefix(cfg, trace, k, l, db);
  }

  lemma {:induction false} HistoryPrefix<D(!new)>(cfg: Config, trace: seq<World<D>>, b: nat, k: nat, db: string)
    requires Run(cfg, trace) && b <= k < |trace| && Exists(trace[b], db)
    ensures Exists(trace[k], db) && trace[b].states[db] <= trace[k].states[db]
  {
    if b < k {
      HistoryPrefix(cfg, trace, b, k - 1, db);
      assert Next(cfg, trace[k - 1], trace[k - 1 + 1]);
      StatesShape(cfg, trace[k - 1], trace[k], db);
    }
  }

  ghost const V0: Version<int> := Version(Some(1), 10)
  ghost const V1: Version<int> := Version(Some(2), 20)
  ghost const Lax: Config := Config(3, true)

  /** A call reads the key of the first state and misses. */
  lemma MissingCall() returns (ws: seq<World<int>>)
    ensures |ws| == 4 && ws[0] == World(map["d" := [V0]], map[], [])
    ensures forall t | 0 <= t < 3 :: Next(Lax, ws[t], ws[t + 1])
    ensures ws[3] == World(map["d" := [V0]], map[], [Call("d", 0, Exporting(Some(Key("d", 1)), 0))])
  {
    var w0 := World(map["d" := [V0]], map[], []);
    var w1 := Apply(Lax, w0, Begin("d"));
    assert w1.calls == [Call("d", 0, Begun)];
    var w2 := Apply(Lax, w1, ReadKey(0));
    assert w2.calls == [Call("d", 0, Keyed(Some(Key("d", 1))))];
    var w3 := Apply(Lax, w2, Probe(0));
    assert w3.calls == [Call("d", 0, Exporting(Some(Key("d", 1)), 0))];
    ws := [w0, w1, w2, w3];
  }

  /** It is overtaken by a commit, exports the new state, and stores it under the old key. */
  lemma OvertakenCall(w: World<int>) returns (ws: seq<World<int>>)
    requires w == World(map["d" := [V0]], map[], [Call("d", 0, Exporting(Some(Key("d", 1)), 0))])
    ensures |ws| == 4 && ws[0] == w && forall t | 0 <= t < 3 :: Next(Lax, ws[t], ws[t + 1])
    ensures ws[3] == World(map["d" := [V0, V1]], map[CachePath("d") := Entry(Key("d", 1), 20, 1)],
      [Call("d", 0, Loaded(20))])
  {
    var w4 := Apply(Lax, w, Commit("d", V1));
    assert [V0] + [V1] == [V0, V1];
    assert w4.states == map["d" := [V0, V1]];
    var w5 := Apply(Lax, w4, Export(0));
    assert w5.calls == [Call("d", 0, Exported(Some(Key("d", 1)), 20, 1))];
    var w6 := Apply(Lax, w5, Rename(0));
    ws := [w, w4, w5, w6];
  }

  /** The old manifest comes back, and a new call hits the file stored under it. */
  lemma MisledCall(w: World<int>) returns (ws: seq<World<int>>)
    requires w == World(map["d" := [V0, V1]], map[CachePath("d") := Entry(Key("d", 1), 20, 1)],
      [Call("d", 0, Loaded(20))])
    ensures |ws| == 5 && ws[0] == w && forall t | 0 <= t < 4 :: Next(Lax, ws[t], ws[t + 1])
    ensures |ws[1].calls| == 1 && forall t | 2 <= t < 5 ::
      |ws[t].calls| == 2 && ws[t].states == map["d" := [V0, V1, V0]]
    ensures ws[4].calls[1] == Call("d", 2, Loaded(20))
  {
    var w1 := Apply(Lax, w, Commit("d", V0));
    assert [V0, V1] + [V0] == [V0, V1, V0];
    assert w1.states == map["d" := [V0, V1, V0]];
    var w2 := Apply(Lax, w1, Begin("d"));
    assert w2.calls == [Call("d", 0, Loaded(20)), Call("d", 2, Begun)];
    var w3 := Apply(Lax, w2, ReadKey(1));
    assert w3.calls == [Call("d", 0, Loaded(20)), Call("d", 2, Keyed(Some(Key("d", 1))))];
    var w4 := Apply(Lax, w3, Probe(1));
    ws := [w, w1, w2, w3, w4];
  }

  /**
   The condition on manifests is needed. If a commit may bring an old manifest back, there is a run in which
   a load returns data that was not current at any moment of the call.
   */
  lemma StaleWithReusedManifest() returns (trace: seq<World<int>>)
    ensures Run(Lax, trace) && |trace| == 11 && BeganAt(trace, 8, 1)
    ensures |trace[10].calls| == 2 && trace[10].calls[1] == Call("d", 2, Loaded(20))
    ensures forall t | 8 <= t < 11 :: Exists(trace[t], "d") && Current(trace[t], "d").data != 20
  {
    var first := MissingCall();
    var second := OvertakenCall(first[3]);
    var third := MisledCall(second[3]);
    trace := first + second[1..] + third[1..];
    forall t | 0 <= t < |trace| - 1 ensures Next(Lax, trace[t], trace[t + 1]) {
      if t < 3 {
        assert Next(Lax, first[t], first[t + 1]);
      } else if t < 6 {
        assert Next(Lax, second[t - 3], second[t - 3 + 1]);
      } else {
        assert Next(Lax, third[t - 6], third[t - 6 + 1]);
      }
    }
  }

  lemma Apply(cfg: Config, w: World<int>, s: Step<int>) returns (w': World<int>)
    requires Enabled(cfg, w, s)
    ensures w' == After(cfg, w, s) && Next(cfg, w, w')
  {
    w' := After(cfg, w, s);
  }
}
