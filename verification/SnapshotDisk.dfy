/**
 The bytes under the snapshot cache. A second state machine has no table of entries: its loaders read, write and delete
 files of bytes. The two machines have the same runs, so what is read from the bytes is linearizable too.
 */
module SnapshotDisk {
  import opened Issues
  import opened SnapshotNames
  import C = SnapshotCodec
  import S = SnapshotCache

  /**
   How issues, database names and manifests become bytes; hash gives 32 bytes, and known are the manifests that occur.
   */
  datatype Codec<!D> = Codec(
    encode: D -> seq<C.Byte>, decode: seq<C.Byte> -> Option<D>, name: string -> seq<C.Byte>, hash: int -> seq<C.Byte>,
    known: set<int>)

  /** Issues are decoded as they were encoded, names differ as bytes, and no two manifests that occur have one hash. */
  ghost predicate Sound<D(!new)>(c: Codec<D>)
  {
    && C.Faithful(c.encode, c.decode)
    && (forall a, b | c.name(a) == c.name(b) :: a == b)
    && (forall m, n | m in c.known && n in c.known && c.hash(m) == c.hash(n) :: m == n)
    && forall m :: |c.hash(m)| == 32
  }

  ghost function KeyBytes<D>(c: Codec<D>, key: S.Key): C.Key
  {
    C.Key(c.name(key.db), c.hash(key.manifest))
  }

  ghost function FileBytes<D>(c: Codec<D>, key: S.Key, data: D): seq<C.Byte>
    requires |c.name(key.db)| < 0x10000
  {
    C.Header(KeyBytes(c, key), [0, 0]) + c.encode(data)
  }

  /** A file from which no key can be read: empty, cut short, or of another kind. */
  ghost predicate Junk(file: seq<C.Byte>)
  {
    forall want, payload | C.WellFormed(want) :: !C.Carries(file, want, payload)
  }

  /** The file holds the bytes of the entry. */
  ghost predicate Holds<D>(c: Codec<D>, file: seq<C.Byte>, e: S.Entry<D>)
  {
    e.key.manifest in c.known && |c.name(e.key.db)| < 0x10000 && file == FileBytes(c, e.key, e.data)
  }

  /** The cache directory holds, for every entry, the bytes of its file; what else is there is junk. */
  ghost predicate Stored<D>(c: Codec<D>, w: S.World<D>, disk: map<string, seq<C.Byte>>)
  {
    && w.files.Keys <= disk.Keys
    && forall path | path in disk :: if path in w.files then Holds(c, disk[path], w.files[path]) else Junk(disk[path])
  }

  /** What a reader gets: from no file nothing, from a file what its bytes carry under the key. */
  ghost predicate ReadsFrom<D>(c: Codec<D>, disk: map<string, seq<C.Byte>>, key: S.Key, r: Option<D>)
  {
    var path := CachePath(key.db);
    if path in disk then C.ReadAs(disk[path], KeyBytes(c, key), c.decode, r) else r == None
  }

  ghost function Served<D>(w: S.World<D>, key: S.Key): Option<D>
  {
    if S.Hit(w, Some(key)) then Some(w.files[CachePath(key.db)].data) else None
  }

  lemma SameKey<D(!new)>(c: Codec<D>, a: S.Key, b: S.Key)
    requires Sound(c) && a.manifest in c.known && b.manifest in c.known
    ensures KeyBytes(c, a) == KeyBytes(c, b) <==> a == b
  {
  }

  /** Probing the state machine's cache is reading the bytes: a hit with the entry's data, or a miss. */
  lemma ProbeReads<D(!new)>(c: Codec<D>, w: S.World<D>, disk: map<string, seq<C.Byte>>, key: S.Key, r: Option<D>)
    requires Sound(c) && Stored(c, w, disk) && key.manifest in c.known
    ensures ReadsFrom(c, disk, key, r) <==> r == Served(w, key)
  {
    var path, want := CachePath(key.db), KeyBytes(c, key);
    if path in w.files {
      var e := w.files[path];
      assert Holds(c, disk[path], e);
      SameKey(c, e.key, key);
      forall payload {
        C.OnlyItsOwnKey(KeyBytes(c, e.key), want, c.encode(e.data), payload);
      }
      if e.key == key {
        assert C.Carries(disk[path], want, c.encode(e.data));
      }
    } else if path in disk {
      assert Junk(disk[path]);
    }
  }

  /** The state machine hits exactly when the file carries the wanted key. */
  lemma HitCarries<D(!new)>(c: Codec<D>, w: S.World<D>, disk: map<string, seq<C.Byte>>, key: S.Key)
    requires Sound(c) && Stored(c, w, disk) && key.manifest in c.known
    ensures var path := CachePath(key.db);
      S.Hit(w, Some(key)) <==> path in disk && exists payload :: C.Carries(disk[path], KeyBytes(c, key), payload)
  {
    var path := CachePath(key.db);
    if path in w.files {
      var e := w.files[path];
      assert Holds(c, disk[path], e);
      SameKey(c, e.key, key);
      forall payload {
        C.OnlyItsOwnKey(KeyBytes(c, e.key), KeyBytes(c, key), c.encode(e.data), payload);
      }
      if S.Hit(w, Some(key)) {
        assert C.Carries(disk[path], KeyBytes(c, key), c.encode(e.data));
      }
    } else if path in disk {
      assert Junk(disk[path]);
    }
  }

  /** Renaming the written bytes into place is the Rename step. */
  lemma RenameWrites<D(!new)>(c: Codec<D>, cfg: S.Config, w: S.World<D>, disk: map<string, seq<C.Byte>>, i: nat)
    requires Stored(c, w, disk) && S.Enabled(cfg, w, S.Rename(i))
    requires var key := w.calls[i].phase.key.value; key.manifest in c.known && |c.name(key.db)| < 0x10000
    ensures var p := w.calls[i].phase;
      Stored(c, S.After(cfg, w, S.Rename(i)), disk[CachePath(p.key.value.db) := FileBytes(c, p.key.value, p.data)])
  {
  }

  /** Deleting the file is the Remove step. */
  lemma RemoveDeletes<D(!new)>(c: Codec<D>, cfg: S.Config, w: S.World<D>, disk: map<string, seq<C.Byte>>, i: nat)
    requires Stored(c, w, disk) && S.Enabled(cfg, w, S.Remove(i))
    ensures Stored(c, S.After(cfg, w, S.Remove(i)), disk - {CachePath(w.calls[i].phase.key.value.db)})
  {
  }

  // ---------- the machine that works on bytes ----------

  /** Databases and calls, whose own table of entries stays empty, and a directory of byte strings. */
  datatype Machine<!D> = Machine(w: S.World<D>, disk: map<string, seq<C.Byte>>)

  /** A call probes its file: what the bytes give under its key is returned, or else it exports. */
  ghost predicate Probes<D(!new)>(c: Codec<D>, m: Machine<D>, m': Machine<D>, i: nat)
    requires i < |m.w.calls| && m.w.calls[i].phase.Keyed?
  {
    var key := m.w.calls[i].phase.key;
    exists r: Option<D> :: (if key.Some? then ReadsFrom(c, m.disk, key.value, r) else r == None)
      && m' == m.(w := S.To(m.w, i, if r.Some? then S.Loaded(r.value) else S.Exporting(key, 0)))
  }

  /**
   A call puts the bytes it has written in the place of its file; a name too long for its length field is never written.
   */
  ghost predicate Renames<D>(c: Codec<D>, m: Machine<D>, m': Machine<D>, i: nat)
    requires i < |m.w.calls| && m.w.calls[i].phase.Exported? && m.w.calls[i].phase.key.Some?
  {
    var key, data := m.w.calls[i].phase.key.value, m.w.calls[i].phase.data;
    && |c.name(key.db)| < 0x10000
    && m' == Machine(S.To(m.w, i, S.Loaded(data)), m.disk[CachePath(key.db) := FileBytes(c, key, data)])
  }

  ghost predicate Moves<D(!new)>(c: Codec<D>, cfg: S.Config, m: Machine<D>, m': Machine<D>, s: S.Step<D>)
  {
    && S.Enabled(cfg, m.w, s)
    && match s
       case Probe(i) => Probes(c, m, m', i)
       case Rename(i) => Renames(c, m, m', i)
       case Remove(i) => m' == m.(disk := m.disk - {CachePath(m.w.calls[i].phase.key.value.db)})
       case _ => m' == m.(w := S.After(cfg, m.w, s))
  }

  /** The byte machine shows the abstract world: the same databases and calls, and the entries as bytes. */
  ghost predicate Shows<D>(c: Codec<D>, m: Machine<D>, w: S.World<D>)
  {
    m.w == w.(files := map[]) && Stored(c, w, m.disk)
  }

  ghost predicate Known<D>(c: Codec<D>, w: S.World<D>)
  {
    forall db, k: nat, m | S.HasManifest(w, db, k, m) :: m in c.known
  }

  /** The key of a call is the manifest of some state of its database. */
  lemma KeyKnown<D>(c: Codec<D>, w0: S.World<D>, w: S.World<D>, i: nat)
    requires S.Inv(w0, w) && Known(c, w) && i < |w.calls|
    ensures var p := w.calls[i].phase; (p.Keyed? || p.Exported?) && p.key.Some? ==> p.key.value.manifest in c.known
  {
    var call := w.calls[i];
    assert S.CallOk(w0, w, call);
    if (call.phase.Keyed? || call.phase.Exported?) && call.phase.key.Some? {
      var key := call.phase.key.value;
      var k: nat :| call.first <= k && S.HasManifest(w, call.db, k, key.manifest);
    }
  }

  /** Steps that touch no file do the same whatever the files are. */
  lemma FilesApart<D>(cfg: S.Config, w: S.World<D>, s: S.Step<D>)
    requires S.Enabled(cfg, w, s) && !s.Probe? && !s.Rename? && !s.Remove?
    ensures S.Enabled(cfg, w.(files := map[]), s)
    ensures S.After(cfg, w, s).files == w.files
    ensures S.After(cfg, w.(files := map[]), s) == S.After(cfg, w, s).(files := map[])
  {
  }

  lemma ProbeRefines<D(!new)>(c: Codec<D>, cfg: S.Config, w: S.World<D>, m: Machine<D>, m': Machine<D>, i: nat)
    requires Sound(c) && Shows(c, m, w) && S.Enabled(cfg, w, S.Probe(i)) && Probes(c, m, m', i)
    requires var key := w.calls[i].phase.key; key.Some? ==> key.value.manifest in c.known
    ensures Shows(c, m', S.After(cfg, w, S.Probe(i)))
  {
    var key := w.calls[i].phase.key;
    if key.Some? {
      forall r {
        ProbeReads(c, w, m.disk, key.value, r);
      }
    }
  }

  lemma ProbeRealized<D(!new)>(c: Codec<D>, w: S.World<D>, m: Machine<D>, i: nat) returns (m': Machine<D>)
    requires Sound(c) && Shows(c, m, w) && i < |w.calls| && w.calls[i].phase.Keyed?
    requires var key := w.calls[i].phase.key; key.Some? ==> key.value.manifest in c.known
    ensures Probes(c, m, m', i)
  {
    var key := w.calls[i].phase.key;
    var r := if key.Some? then Served(w, key.value) else None;
    if key.Some? {
      ProbeReads(c, w, m.disk, key.value, r);
    }
    m' := m.(w := S.To(m.w, i, if r.Some? then S.Loaded(r.value) else S.Exporting(key, 0)));
  }

  lemma RenameRefines<D(!new)>(c: Codec<D>, cfg: S.Config, w: S.World<D>, m: Machine<D>, m': Machine<D>, i: nat)
    requires Shows(c, m, w) && S.Enabled(cfg, w, S.Rename(i)) && Renames(c, m, m', i)
    requires w.calls[i].phase.key.value.manifest in c.known
    ensures Shows(c, m', S.After(cfg, w, S.Rename(i)))
  {
    RenameWrites(c, cfg, w, m.disk, i);
  }

  lemma RenameRealized<D(!new)>(c: Codec<D>, w: S.World<D>, m: Machine<D>, i: nat) returns (m': Machine<D>)
    requires m.w.calls == w.calls && i < |w.calls| && w.calls[i].phase.Exported? && w.calls[i].phase.key.Some?
    requires |c.name(w.calls[i].phase.key.value.db)| < 0x10000
    ensures Renames(c, m, m', i)
  {
    var key, data := m.w.calls[i].phase.key.value, m.w.calls[i].phase.data;
    m' := Machine(S.To(m.w, i, S.Loaded(data)), m.disk[CachePath(key.db) := FileBytes(c, key, data)]);
  }

  lemma SameEnabled<D>(cfg: S.Config, w: S.World<D>, v: S.World<D>, s: S.Step<D>)
    requires v == w.(files := map[])
    ensures S.Enabled(cfg, v, s) <==> S.Enabled(cfg, w, s)
  {
  }

  /** The steps of the byte machine are the abstract steps. */
  lemma StepRefines<D(!new)>(c: Codec<D>, cfg: S.Config, w0: S.World<D>, w: S.World<D>, m: Machine<D>, m': Machine<D>,
                             s: S.Step<D>)
    requires Sound(c) && S.Inv(w0, w) && Known(c, w) && Shows(c, m, w) && Moves(c, cfg, m, m', s)
    ensures S.Enabled(cfg, w, s) && Shows(c, m', S.After(cfg, w, s))
  {
    SameEnabled(cfg, w, m.w, s);
    match s
    case Probe(i) =>
      KeyKnown(c, w0, w, i);
      ProbeRefines(c, cfg, w, m, m', i);
    case Rename(i) =>
      KeyKnown(c, w0, w, i);
      RenameRefines(c, cfg, w, m, m', i);
    case Remove(i) => RemoveDeletes(c, cfg, w, m.disk, i);
    case _ => FilesApart(cfg, w, s);
  }

  /** Every abstract step of short names is a step of the byte machine. */
  lemma StepRealized<D(!new)>(c: Codec<D>, cfg: S.Config, w0: S.World<D>, w: S.World<D>, m: Machine<D>, s: S.Step<D>)
      returns (m': Machine<D>)
    requires Sound(c) && S.Inv(w0, w) && Known(c, w) && Short(c, w) && Shows(c, m, w) && S.Enabled(cfg, w, s)
    ensures Moves(c, cfg, m, m', s)
  {
    SameEnabled(cfg, w, m.w, s);
    match s
    case Probe(i) =>
      KeyKnown(c, w0, w, i);
      m' := ProbeRealized(c, w, m, i);
    case Rename(i) =>
      assert S.CallOk(w0, w, w.calls[i]);
      m' := RenameRealized(c, w, m, i);
    case Remove(i) => m' := m.(disk := m.disk - {CachePath(m.w.calls[i].phase.key.value.db)});
    case _ => m' := m.(w := S.After(cfg, m.w, s));
  }

  // ---------- whole runs ----------

  ghost predicate Short<D>(c: Codec<D>, w: S.World<D>)
  {
    forall db | db in w.states :: |c.name(db)| < 0x10000
  }

  ghost predicate NextMachine<D(!new)>(c: Codec<D>, cfg: S.Config, m: Machine<D>, m': Machine<D>)
  {
    exists s :: Moves(c, cfg, m, m', s)
  }

  /** Any databases and a directory of junk, no calls; then any steps in any order. */
  ghost predicate MachineRun<D(!new)>(c: Codec<D>, cfg: S.Config, ms: seq<Machine<D>>)
  {
    && |ms| > 0 && ms[0].w.files == map[] && ms[0].w.calls == []
    && (forall path | path in ms[0].disk :: Junk(ms[0].disk[path]))
    && forall t | 0 <= t < |ms| - 1 :: NextMachine(c, cfg, ms[t], ms[t + 1])
  }

  lemma Longer<D(!new)>(cfg: S.Config, trace: seq<S.World<D>>, s: S.Step<D>) returns (longer: seq<S.World<D>>)
    requires S.Run(cfg, trace) && S.Enabled(cfg, trace[|trace| - 1], s)
    ensures longer == trace + [S.After(cfg, trace[|trace| - 1], s)] && S.Run(cfg, longer)
  {
    var w := trace[|trace| - 1];
    longer := trace + [S.After(cfg, w, s)];
    assert S.Next(cfg, w, S.After(cfg, w, s));
    forall t | 0 <= t < |longer| - 1 ensures S.Next(cfg, longer[t], longer[t + 1]) {
      assert t < |trace| - 1 ==> S.Next(cfg, trace[t], trace[t + 1]);
    }
  }

  lemma LongerMachine<D(!new)>(c: Codec<D>, cfg: S.Config, ms: seq<Machine<D>>, m': Machine<D>)
    requires MachineRun(c, cfg, ms) && NextMachine(c, cfg, ms[|ms| - 1], m')
    ensures MachineRun(c, cfg, ms + [m'])
  {
    var longer := ms + [m'];
    forall t | 0 <= t < |longer| - 1 ensures NextMachine(c, cfg, longer[t], longer[t + 1]) {
      assert t < |ms| - 1 ==> NextMachine(c, cfg, ms[t], ms[t + 1]);
    }
  }

  /** One more step of the byte machine, one more step of the run it shows. */
  lemma Follow<D(!new)>(c: Codec<D>, cfg: S.Config, trace: seq<S.World<D>>, m: Machine<D>, m': Machine<D>)
      returns (longer: seq<S.World<D>>)
    requires Sound(c) && S.Run(cfg, trace) && Known(c, m.w) && Shows(c, m, trace[|trace| - 1])
      && NextMachine(c, cfg, m, m')
    ensures S.Run(cfg, longer) && |longer| == |trace| + 1 && trace <= longer && Shows(c, m', longer[|trace|])
  {
    var w := trace[|trace| - 1];
    S.RunInv(cfg, trace, |trace| - 1);
    KnownShown(c, m, w);
    var s :| Moves(c, cfg, m, m', s);
    StepRefines(c, cfg, trace[0], w, m, m', s);
    longer := Longer(cfg, trace, s);
  }

  lemma KnownShown<D>(c: Codec<D>, m: Machine<D>, w: S.World<D>)
    requires Shows(c, m, w)
    ensures Known(c, m.w) <==> Known(c, w)
  {
    forall db, k: nat, f ensures S.HasManifest(w, db, k, f) <==> S.HasManifest(m.w, db, k, f) {
    }
  }

  /** Every run on bytes is, entry for byte string, a run of the abstract machine. */
  lemma {:induction false} RunRefines<D(!new)>(c: Codec<D>, cfg: S.Config, ms: seq<Machine<D>>, n: nat)
      returns (trace: seq<S.World<D>>)
    requires Sound(c) && MachineRun(c, cfg, ms) && n < |ms| && forall t | 0 <= t < |ms| :: Known(c, ms[t].w)
    ensures S.Run(cfg, trace) && |trace| == n + 1 && forall t | 0 <= t <= n :: Shows(c, ms[t], trace[t])
  {
    if n == 0 {
      trace := [ms[0].w];
    } else {
      var before := RunRefines(c, cfg, ms, n - 1);
      assert NextMachine(c, cfg, ms[n - 1], ms[n - 1 + 1]);
      trace := Follow(c, cfg, before, ms[n - 1], ms[n]);
    }
  }

  /** A step of the abstract machine is a step on bytes. */
  lemma Mirror<D(!new)>(c: Codec<D>, cfg: S.Config, w0: S.World<D>, w: S.World<D>, w': S.World<D>, m: Machine<D>)
      returns (m': Machine<D>)
    requires Sound(c) && S.Inv(w0, w) && S.Next(cfg, w, w') && Shows(c, m, w) && Known(c, w) && Short(c, w)
    ensures NextMachine(c, cfg, m, m') && Shows(c, m', w')
  {
    var s :| S.Enabled(cfg, w, s) && w' == S.After(cfg, w, s);
    m' := StepRealized(c, cfg, w0, w, m, s);
    StepRefines(c, cfg, w0, w, m, m', s);
  }

  /** Every run of the abstract machine over short names has a directory of bytes that follows it. */
  lemma {:induction false} RunRealized<D(!new)>(c: Codec<D>, cfg: S.Config, trace: seq<S.World<D>>, n: nat)
      returns (ms: seq<Machine<D>>)
    requires Sound(c) && S.Run(cfg, trace) && n < |trace|
    requires forall t | 0 <= t < |trace| :: Known(c, trace[t]) && Short(c, trace[t])
    ensures MachineRun(c, cfg, ms) && ms[0].disk == map[]
    ensures |ms| == n + 1 && forall t | 0 <= t <= n :: Shows(c, ms[t], trace[t])
  {
    if n == 0 {
      ms := [Machine(trace[0], map[])];
    } else {
      var before := RunRealized(c, cfg, trace, n - 1);
      S.RunInv(cfg, trace, n - 1);
      assert S.Next(cfg, trace[n - 1], trace[n - 1 + 1]);
      var m' := Mirror(c, cfg, trace[0], trace[n - 1], trace[n], before[n - 1]);
      LongerMachine(c, cfg, before, m');
      ms := before + [m'];
    }
  }

  /**
   Linearizability down to the bytes: whatever a load returns that reads, writes and deletes files of bytes was the
   state of its own database at some moment of the call, as long as no manifest comes back.
   */
  lemma BytesLinearizable<D(!new)>(c: Codec<D>, cfg: S.Config, ms: seq<Machine<D>>, b: nat, k: nat, i: nat)
      returns (t: nat)
    requires Sound(c) && !cfg.reuse && MachineRun(c, cfg, ms) && forall t | 0 <= t < |ms| :: Known(c, ms[t].w)
    requires 0 < b <= k < |ms| && |ms[b - 1].w.calls| == i < |ms[b].w.calls|
    requires i < |ms[k].w.calls| && ms[k].w.calls[i].phase.Loaded?
    ensures b <= t <= k && ms[k].w.calls[i].db == ms[b].w.calls[i].db
    ensures var call := ms[k].w.calls[i];
      S.Exists(ms[t].w, call.db) && S.Current(ms[t].w, call.db).data == call.phase.data
  {
    var trace := RunRefines(c, cfg, ms, |ms| - 1);
    assert Shows(c, ms[b - 1], trace[b - 1]) && Shows(c, ms[b], trace[b]) && Shows(c, ms[k], trace[k]);
    t := S.Linearizable(cfg, trace, b, k, i);
    assert Shows(c, ms[t], trace[t]);
  }
}
