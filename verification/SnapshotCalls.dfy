/**
 What becomes of a call of LoadIssues, internal/datasource/embedded.go: an exported state is delivered whatever happens
 to the cache file, only giving up or too many failed exports make a call fail, every other call can still return
 issues, and an unchanged database is served from its file.
 */
module SnapshotCalls {
  import opened Issues
  import opened Counting
  import opened SnapshotNames
  import opened SnapshotCache
  import C = SnapshotCodec

  /** A run with the step taken at every moment. */
  ghost predicate Labelled<D>(cfg: Config, trace: seq<World<D>>, steps: seq<Step<D>>)
  {
    && |trace| == |steps| + 1 && trace[0].files == map[] && trace[0].calls == []
    && forall t | 0 <= t < |steps| :: Taken(cfg, trace[t], steps[t], trace[t + 1])
  }

  ghost predicate Taken<D>(cfg: Config, w: World<D>, s: Step<D>, w': World<D>)
  {
    Enabled(cfg, w, s) && w' == After(cfg, w, s)
  }

  /** Every run can be labelled. */
  lemma {:induction false} Labels<D(!new)>(cfg: Config, trace: seq<World<D>>, n: nat) returns (steps: seq<Step<D>>)
    requires Run(cfg, trace) && n < |trace|
    ensures |steps| == n && forall t | 0 <= t < n :: Taken(cfg, trace[t], steps[t], trace[t + 1])
  {
    if n == 0 {
      steps := [];
    } else {
      steps := Labels(cfg, trace, n - 1);
      assert Next(cfg, trace[n - 1], trace[n - 1 + 1]);
      var s :| Enabled(cfg, trace[n - 1], s) && trace[n] == After(cfg, trace[n - 1], s);
      steps := steps + [s];
    }
  }

  lemma LabelledRuns<D(!new)>(cfg: Config, trace: seq<World<D>>, steps: seq<Step<D>>)
    requires Labelled(cfg, trace, steps)
    ensures Run(cfg, trace)
  {
    forall t | 0 <= t < |trace| - 1 ensures Next(cfg, trace[t], trace[t + 1]) {
      assert Taken(cfg, trace[t], steps[t], trace[t + 1]);
    }
  }

  // ---------- delivered ----------

  /** The call has come to an end. */
  predicate Ended<D>(p: Phase<D>)
  {
    p.Loaded? || p.Failed?
  }

  /** An exported state stays or is returned, and what is returned stays. */
  ghost predicate Keeps<D>(p: Phase<D>, p': Phase<D>)
  {
    && (p.Exported? ==> p' == p || p' == Loaded(p.data))
    && (Ended(p) ==> p' == p)
  }

  lemma StepKeeps<D>(cfg: Config, w: World<D>, s: Step<D>, i: nat)
    requires Enabled(cfg, w, s) && i < |w.calls|
    ensures i < |After(cfg, w, s).calls| && Keeps(w.calls[i].phase, After(cfg, w, s).calls[i].phase)
  {
    if After(cfg, w, s).calls[i] != w.calls[i] {
      OnlyActor(cfg, w, s, i);
    }
  }

  lemma NextKeeps<D(!new)>(cfg: Config, w: World<D>, w': World<D>, i: nat)
    requires Next(cfg, w, w') && i < |w.calls|
    ensures i < |w'.calls| && Keeps(w.calls[i].phase, w'.calls[i].phase)
  {
    var s :| Enabled(cfg, w, s) && w' == After(cfg, w, s);
    StepKeeps(cfg, w, s, i);
  }

  lemma KeepsOn<D>(p: Phase<D>, p': Phase<D>, p'': Phase<D>)
    requires Keeps(p, p') && Keeps(p', p'')
    ensures Keeps(p, p'')
  {
  }

  lemma {:induction false} RunKeeps<D(!new)>(cfg: Config, trace: seq<World<D>>, t: nat, k: nat, i: nat)
    requires Run(cfg, trace) && t <= k < |trace| && i < |trace[t].calls|
    ensures i < |trace[k].calls| && Keeps(trace[t].calls[i].phase, trace[k].calls[i].phase)
  {
    if t < k {
      RunKeeps(cfg, trace, t, k - 1, i);
      assert Next(cfg, trace[k - 1], trace[k - 1 + 1]);
      NextKeeps(cfg, trace[k - 1], trace[k], i);
      KeepsOn(trace[t].calls[i].phase, trace[k - 1].calls[i].phase, trace[k].calls[i].phase);
    }
  }

  /** What a call has exported it returns, and goes on returning, whether or not the cache file could be written. */
  lemma ExportedIsDelivered<D(!new)>(cfg: Config, trace: seq<World<D>>, t: nat, k: nat, l: nat, i: nat)
    requires Run(cfg, trace) && t <= k <= l < |trace| && i < |trace[t].calls| && trace[t].calls[i].phase.Exported?
    ensures i < |trace[k].calls| && i < |trace[l].calls|
    ensures trace[k].calls[i].phase != trace[t].calls[i].phase ==>
      trace[l].calls[i].phase == Loaded(trace[t].calls[i].phase.data)
  {
    RunKeeps(cfg, trace, t, k, i);
    RunKeeps(cfg, trace, k, l, i);
  }

  // ---------- failed ----------

  ghost function FailuresOf<D(!new)>(steps: seq<Step<D>>, k: nat, i: nat): set<nat>
    requires k <= |steps|
  {
    set t: nat | t < k && steps[t] == ExportFails(i)
  }

  ghost predicate GaveUp<D>(steps: seq<Step<D>>, k: nat, i: nat)
    requires k <= |steps|
  {
    exists t: nat :: t < k && steps[t] == GiveUp(i)
  }

  /** How the phase of a call goes with its failed exports so far and with giving up. */
  ghost predicate Story<D>(max: nat, p: Phase<D>, failures: nat, gaveUp: bool)
  {
    match p
    case Begun => failures == 0 && !gaveUp
    case Keyed(_) => failures == 0 && !gaveUp
    case Exporting(_, attempt) => failures == attempt <= max && !gaveUp
    case Exported(_, _, _) => failures <= max && !gaveUp
    case Loaded(_) => failures <= max && !gaveUp
    case Failed => if gaveUp then failures <= max else failures == max + 1
  }

  lemma StepStory<D>(cfg: Config, w: World<D>, s: Step<D>, i: nat, failures: nat, gaveUp: bool)
    requires Enabled(cfg, w, s) && i < |w.calls| && Story(cfg.maxRetries, w.calls[i].phase, failures, gaveUp)
    ensures i < |After(cfg, w, s).calls|
    ensures Story(cfg.maxRetries, After(cfg, w, s).calls[i].phase,
      failures + (if s == ExportFails(i) then 1 else 0), gaveUp || s == GiveUp(i))
  {
    if After(cfg, w, s).calls[i] != w.calls[i] {
      OnlyActor(cfg, w, s, i);
    }
  }

  /** A call that does not exist yet takes no step. */
  lemma NotYet<D>(cfg: Config, w: World<D>, s: Step<D>, i: nat)
    requires Enabled(cfg, w, s) && |w.calls| <= i
    ensures s != ExportFails(i) && s != GiveUp(i)
    ensures i < |After(cfg, w, s).calls| ==> After(cfg, w, s).calls[i].phase == Begun
  {
  }

  lemma OneMoreFailure<D(!new)>(steps: seq<Step<D>>, k: nat, i: nat)
    requires k < |steps|
    ensures |FailuresOf(steps, k + 1, i)| == |FailuresOf(steps, k, i)| + (if steps[k] == ExportFails(i) then 1 else 0)
    ensures GaveUp(steps, k + 1, i) <==> GaveUp(steps, k, i) || steps[k] == GiveUp(i)
  {
    var before, after := FailuresOf(steps, k, i), FailuresOf(steps, k + 1, i);
    assert after == before + if steps[k] == ExportFails(i) then {k} else {};
  }

  lemma {:induction false} RunStory<D(!new)>(cfg: Config, trace: seq<World<D>>, steps: seq<Step<D>>, k: nat, i: nat)
    requires Labelled(cfg, trace, steps) && k <= |steps|
    ensures if i < |trace[k].calls|
      then Story(cfg.maxRetries, trace[k].calls[i].phase, |FailuresOf(steps, k, i)|, GaveUp(steps, k, i))
      else FailuresOf(steps, k, i) == {} && !GaveUp(steps, k, i)
  {
    if k > 0 {
      RunStory(cfg, trace, steps, k - 1, i);
      OneMoreFailure(steps, k - 1, i);
      assert Taken(cfg, trace[k - 1], steps[k - 1], trace[k - 1 + 1]);
      if i < |trace[k - 1].calls| {
        StepStory(cfg, trace[k - 1], steps[k - 1], i, |FailuresOf(steps, k - 1, i)|, GaveUp(steps, k - 1, i));
      } else {
        NotYet(cfg, trace[k - 1], steps[k - 1], i);
      }
    }
  }

  /** A call fails exactly when it gives up, or when one export more has failed than may be retried. */
  lemma FailedIff<D(!new)>(cfg: Config, trace: seq<World<D>>, steps: seq<Step<D>>, k: nat, i: nat)
    requires Labelled(cfg, trace, steps) && k <= |steps| && i < |trace[k].calls|
    ensures trace[k].calls[i].phase.Failed? <==>
      (exists t: nat :: t < k && steps[t] == GiveUp(i))
      || |set t: nat | t < k && steps[t] == ExportFails(i)| == cfg.maxRetries + 1
    ensures |set t: nat | t < k && steps[t] == ExportFails(i)| <= cfg.maxRetries + 1
  {
    RunStory(cfg, trace, steps, k, i);
    assert FailuresOf(steps, k, i) == set t: nat | t < k && steps[t] == ExportFails(i);
  }

  // ---------- every call can return ----------

  lemma Extend<D(!new)>(cfg: Config, trace: seq<World<D>>, s: Step<D>) returns (longer: seq<World<D>>)
    requires Run(cfg, trace) && Enabled(cfg, trace[|trace| - 1], s)
    ensures Run(cfg, longer) && trace <= longer && |longer| == |trace| + 1
    ensures longer[|longer| - 1] == After(cfg, trace[|trace| - 1], s)
  {
    var w := trace[|trace| - 1];
    longer := trace + [After(cfg, w, s)];
    assert Next(cfg, w, After(cfg, w, s));
    forall t | 0 <= t < |longer| - 1 ensures Next(cfg, longer[t], longer[t + 1]) {
      assert t < |trace| - 1 ==> Next(cfg, trace[t], trace[t + 1]);
    }
  }

  /** How far a call is from its end. */
  ghost function Distance<D>(p: Phase<D>): nat
  {
    match p
    case Begun => 4
    case Keyed(_) => 3
    case Exporting(_, _) => 2
    case Exported(_, _, _) => 1
    case Loaded(_) => 0
    case Failed => 0
  }

  /** The call's own next step towards its end. */
  ghost function Forward<D>(p: Phase<D>, i: nat): Step<D>
  {
    match p
    case Begun => ReadKey(i)
    case Keyed(_) => Probe(i)
    case Exporting(_, _) => Export(i)
    case _ => SkipWrite(i)
  }

  lemma StepForward<D>(cfg: Config, w: World<D>, i: nat)
    requires InPhase(w, i) && !Ended(w.calls[i].phase)
    ensures var s := Forward(w.calls[i].phase, i);
      && Enabled(cfg, w, s) && i < |After(cfg, w, s).calls| && !After(cfg, w, s).calls[i].phase.Failed?
      && Distance(After(cfg, w, s).calls[i].phase) < Distance(w.calls[i].phase)
  {
  }

  /** Every run can be carried on until a call that has not failed has returned issues. */
  lemma {:induction false} CanLoad<D(!new)>(cfg: Config, trace: seq<World<D>>, i: nat) returns (longer: seq<World<D>>)
    requires Run(cfg, trace) && i < |trace[|trace| - 1].calls| && !trace[|trace| - 1].calls[i].phase.Failed?
    ensures Run(cfg, longer) && trace <= longer
    ensures i < |longer[|longer| - 1].calls| && longer[|longer| - 1].calls[i].phase.Loaded?
    decreases Distance(trace[|trace| - 1].calls[i].phase)
  {
    var w := trace[|trace| - 1];
    if w.calls[i].phase.Loaded? {
      longer := trace;
    } else {
      RunInv(cfg, trace, |trace| - 1);
      assert CallOk(trace[0], w, w.calls[i]);
      StepForward(cfg, w, i);
      var next := Extend(cfg, trace, Forward(w.calls[i].phase, i));
      longer := CanLoad(cfg, next, i);
    }
  }

  // ---------- one call by itself ----------

  /** The exports of a database that stays as it is. */
  ghost predicate Exports<D>(attempts: seq<C.Attempt<D>>, data: D)
  {
    forall k | 0 <= k < |attempts| && attempts[k].Exported? :: attempts[k].issues == data
  }

  ghost function StepFor<D>(attempt: C.Attempt<D>, i: nat): Step<D>
  {
    match attempt
    case Exported(_) => Export(i)
    case Fails => ExportFails(i)
    case _ => GiveUp(i)
  }

  lemma StepAttempt<D>(cfg: Config, w: World<D>, i: nat, attempt: C.Attempt<D>)
    requires InPhase(w, i) && w.calls[i].phase.Exporting?
    requires attempt.Exported? ==> attempt.issues == Current(w, w.calls[i].db).data
    ensures var s := StepFor(attempt, i);
      && Enabled(cfg, w, s) && After(cfg, w, s).states == w.states && i < |After(cfg, w, s).calls|
      && After(cfg, w, s).calls[i].db == w.calls[i].db
      && var n, p := w.calls[i].phase.attempt, After(cfg, w, s).calls[i].phase;
         match attempt
         case Exported(issues) => p.Exported? && p.data == issues
         case Fails => if n < cfg.maxRetries then p.Exporting? && p.attempt == n + 1 else p.Failed?
         case _ => p.Failed?
  {
  }

  /** Left alone behind a miss, a call of the machine ends as the loop over the exports ends. */
  lemma {:induction false} LikeTheLoop<D(!new)>(cfg: Config, trace: seq<World<D>>, i: nat, attempts: seq<C.Attempt<D>>)
      returns (longer: seq<World<D>>)
    requires Run(cfg, trace) && InPhase(trace[|trace| - 1], i) && |attempts| > cfg.maxRetries
    requires Exports(attempts, Current(trace[|trace| - 1], trace[|trace| - 1].calls[i].db).data)
    requires var p := trace[|trace| - 1].calls[i].phase;
      p.Exporting? && p.attempt <= cfg.maxRetries && forall j | 0 <= j < p.attempt :: attempts[j].Fails?
    ensures Run(cfg, longer) && trace <= longer && i < |longer[|longer| - 1].calls|
    ensures var k := C.Decisive(attempts, cfg.maxRetries + 1);
      longer[|longer| - 1].calls[i].phase ==
        if k <= cfg.maxRetries && attempts[k].Exported? then Loaded(attempts[k].issues) else Failed
    decreases cfg.maxRetries - trace[|trace| - 1].calls[i].phase.attempt
  {
    var w := trace[|trace| - 1];
    var n := w.calls[i].phase.attempt;
    StepAttempt(cfg, w, i, attempts[n]);
    var next := Extend(cfg, trace, StepFor(attempts[n], i));
    if attempts[n].Exported? {
      longer := Extend(cfg, next, SkipWrite(i));
    } else if attempts[n].Fails? && n < cfg.maxRetries {
      longer := LikeTheLoop(cfg, next, i, attempts);
    } else {
      longer := next;
    }
  }

  // ---------- an unchanged database is served from its file ----------

  /** The step replaces or removes the cache file of this path. */
  ghost predicate Disturbs<D>(w: World<D>, s: Step<D>, path: string)
  {
    && (s.Rename? || s.Remove?) && s.i < |w.calls| && w.calls[s.i].phase.Exported? && w.calls[s.i].phase.key.Some?
    && CachePath(w.calls[s.i].phase.key.value.db) == path
  }

  ghost predicate Lies<D>(w: World<D>, key: Key, data: D)
  {
    var path := CachePath(key.db);
    path in w.files && w.files[path].key == key && w.files[path].data == data
  }

  lemma StepLeaves<D>(cfg: Config, w: World<D>, s: Step<D>, key: Key, data: D)
    requires Enabled(cfg, w, s) && Lies(w, key, data) && !Disturbs(w, s, CachePath(key.db))
    ensures Lies(After(cfg, w, s), key, data)
  {
  }

  /** The file is left where it is by this step. */
  ghost predicate Leaves<D>(w: World<D>, w': World<D>, key: Key, data: D)
  {
    Lies(w, key, data) ==> Lies(w', key, data)
  }

  lemma {:induction false} StillLies<D>(trace: seq<World<D>>, a: nat, b: nat, key: Key, data: D)
    requires a <= b < |trace| && Lies(trace[a], key, data)
    requires forall t | a <= t < b :: Leaves(trace[t], trace[t + 1], key, data)
    ensures Lies(trace[b], key, data)
  {
    if a < b {
      StillLies(trace, a, b - 1, key, data);
      assert Leaves(trace[b - 1], trace[b - 1 + 1], key, data);
    }
  }

  lemma AllLeave<D>(cfg: Config, trace: seq<World<D>>, steps: seq<Step<D>>, a: nat, b: nat, key: Key, data: D)
    requires Labelled(cfg, trace, steps) && a <= b <= |steps|
    requires forall t | a <= t < b :: !Disturbs(trace[t], steps[t], CachePath(key.db))
    ensures forall t | a <= t < b :: Leaves(trace[t], trace[t + 1], key, data)
  {
    forall t | a <= t < b ensures Leaves(trace[t], trace[t + 1], key, data) {
      assert Taken(cfg, trace[t], steps[t], trace[t + 1]) && !Disturbs(trace[t], steps[t], CachePath(key.db));
      if Lies(trace[t], key, data) {
        StepLeaves(cfg, trace[t], steps[t], key, data);
      }
    }
  }

  lemma Put<D>(cfg: Config, w: World<D>, i: nat)
    requires Enabled(cfg, w, Rename(i))
    ensures Lies(After(cfg, w, Rename(i)), w.calls[i].phase.key.value, w.calls[i].phase.data)
  {
  }

  lemma Found<D>(cfg: Config, w: World<D>, j: nat, key: Key, data: D)
    requires Enabled(cfg, w, Probe(j)) && w.calls[j].phase == Keyed(Some(key)) && Lies(w, key, data)
    ensures After(cfg, w, Probe(j)).calls[j].phase == Loaded(data)
  {
  }

  /**
   A call that has read the key under which another call has put its file in place, the file having been left alone
   since, returns what the other call returned, without an export.
   */
  lemma UnchangedIsServed<D(!new)>(cfg: Config, trace: seq<World<D>>, steps: seq<Step<D>>, a: nat, i: nat, b: nat,
                                   j: nat)
    requires Labelled(cfg, trace, steps) && a < b < |steps| && steps[a] == Rename(i) && steps[b] == Probe(j)
    requires i < |trace[a].calls| && trace[a].calls[i].phase.Exported? && trace[a].calls[i].phase.key.Some?
    requires j < |trace[b].calls| && trace[b].calls[j].phase == Keyed(trace[a].calls[i].phase.key)
    requires forall t | a < t < b :: !Disturbs(trace[t], steps[t], CachePath(trace[a].calls[i].phase.key.value.db))
    ensures j < |trace[b + 1].calls| && trace[b + 1].calls[j].phase == Loaded(trace[a].calls[i].phase.data)
    ensures i < |trace[a + 1].calls| && trace[a + 1].calls[i].phase == Loaded(trace[a].calls[i].phase.data)
  {
    var key, data := trace[a].calls[i].phase.key.value, trace[a].calls[i].phase.data;
    assert Taken(cfg, trace[a], steps[a], trace[a + 1]) && Taken(cfg, trace[b], steps[b], trace[b + 1]);
    Put(cfg, trace[a], i);
    AllLeave(cfg, trace, steps, a + 1, b, key, data);
    StillLies(trace, a + 1, b, key, data);
    Found(cfg, trace[b], j, key, data);
  }

  /** The key a call reads is the manifest that is current at that moment. */
  lemma KeyIsCurrent<D>(cfg: Config, trace: seq<World<D>>, steps: seq<Step<D>>, t: nat, i: nat)
    requires Labelled(cfg, trace, steps) && t < |steps| && steps[t] == ReadKey(i) && i < |trace[t].calls|
    ensures var db := trace[t].calls[i].db;
      && db in trace[t].states && trace[t].states[db] != [] && i < |trace[t + 1].calls|
      && var now := trace[t].states[db][|trace[t].states[db]| - 1];
         trace[t + 1].calls[i].phase ==
           Keyed(if now.manifest.Some? then Some(Key(db, now.manifest.value)) else None)
  {
    assert Taken(cfg, trace[t], steps[t], trace[t + 1]);
  }
}
