/**
 What a difference between snapshots says in terms of the fields themselves, pkg/analysis/diff.go: dependencies are
 compared by strings that glue target and type together with a colon, and this module says when that loses nothing.
 */
module DiffFields {
  import opened Issues
  import opened Diff
  import opened DiffCounts
  import CacheStream

  type Dep = CacheStream.Dep

  /** Target and type of the dependencies that have a target. */
  ghost function DepPairs(deps: seq<Option<Dep>>): set<(string, string)>
  {
    set i | 0 <= i < |deps| && deps[i].Some? && deps[i].value.dependsOn != "" ::
      (deps[i].value.dependsOn, deps[i].value.kind)
  }

  // ---------- glued keys ----------

  function Glue(p: (string, string)): string
  {
    p.0 + ":" + p.1
  }

  /** The target of q is that of p, a colon and some text; the type of p begins with that text. */
  ghost predicate Overlaps(p: (string, string), q: (string, string))
  {
    exists s :: OverlapsBy(p, q, s)
  }

  ghost predicate OverlapsBy(p: (string, string), q: (string, string), s: string)
  {
    q.0 == p.0 + ":" + s && p.1 == s + ":" + q.1
  }

  lemma GlueLonger(p: (string, string), q: (string, string))
    requires Glue(p) == Glue(q) && |p.0| < |q.0|
    ensures Overlaps(p, q)
  {
    var w, n, m := Glue(p), |p.0|, |q.0|;
    assert w == p.0 + ":" + p.1 == q.0 + ":" + q.1;
    var s := w[n + 1..m];
    assert w[..m] == q.0 && w[..n] == p.0 && w[n] == ':' && w[m] == ':';
    assert w[..m] == w[..n] + [w[n]] + w[n + 1..m];
    assert w[n + 1..] == p.1 && w[m + 1..] == q.1;
    assert w[n + 1..] == w[n + 1..m] + [w[m]] + w[m + 1..];
    assert OverlapsBy(p, q, s);
  }

  lemma OverlapsGlue(p: (string, string), q: (string, string))
    requires Overlaps(p, q)
    ensures Glue(p) == Glue(q) && p != q
  {
    var s :| OverlapsBy(p, q, s);
    assert p.0 + ":" + (s + ":" + q.1) == (p.0 + ":" + s) + ":" + q.1;
    assert |q.0| > |p.0|;
  }

  /** Two pairs have one key exactly when they are equal or one overlaps the other. */
  lemma GlueIff(p: (string, string), q: (string, string))
    ensures Glue(p) == Glue(q) <==> p == q || Overlaps(p, q) || Overlaps(q, p)
  {
    if Glue(p) == Glue(q) {
      if |p.0| < |q.0| {
        GlueLonger(p, q);
      } else if |q.0| < |p.0| {
        GlueLonger(q, p);
      } else {
        assert Glue(p)[..|p.0|] == p.0 && Glue(q)[..|q.0|] == q.0;
        assert Glue(p)[|p.0| + 1..] == p.1 && Glue(q)[|q.0| + 1..] == q.1;
      }
    }
    if Overlaps(p, q) {
      OverlapsGlue(p, q);
    }
    if Overlaps(q, p) {
      OverlapsGlue(q, p);
    }
  }

  lemma KeysAreGlued(deps: seq<Option<Dep>>)
    ensures forall key :: key in DepKeys(deps) <==> exists p | p in DepPairs(deps) :: Glue(p) == key
  {
    forall key ensures key in DepKeys(deps) <==> exists p | p in DepPairs(deps) :: Glue(p) == key {
      if key in DepKeys(deps) {
        var i :| 0 <= i < |deps| && deps[i].Some? && deps[i].value.dependsOn != ""
          && deps[i].value.dependsOn + ":" + deps[i].value.kind == key;
        var p := (deps[i].value.dependsOn, deps[i].value.kind);
        assert p in DepPairs(deps) && Glue(p) == key;
      }
    }
  }

  // ---------- when the keys tell the dependencies apart ----------

  /** No pair overlaps another. */
  ghost predicate Apart(x: iset<(string, string)>)
  {
    forall p, q | p in x && q in x :: !Overlaps(p, q)
  }

  ghost predicate DrawnDeps(x: iset<(string, string)>, deps: seq<Option<Dep>>)
  {
    forall p | p in DepPairs(deps) :: p in x
  }

  ghost predicate Told(x: iset<(string, string)>)
  {
    forall a, b | DrawnDeps(x, a) && DrawnDeps(x, b) :: DepKeys(a) == DepKeys(b) <==> DepPairs(a) == DepPairs(b)
  }

  lemma PairsWithin(x: iset<(string, string)>, a: seq<Option<Dep>>, b: seq<Option<Dep>>, p: (string, string))
    requires Apart(x) && DrawnDeps(x, a) && DrawnDeps(x, b) && DepKeys(a) == DepKeys(b) && p in DepPairs(a)
    ensures p in DepPairs(b)
  {
    KeysAreGlued(a);
    KeysAreGlued(b);
    assert Glue(p) in DepKeys(a);
    var q :| q in DepPairs(b) && Glue(q) == Glue(p);
    GlueIff(p, q);
  }

  lemma ApartTold(x: iset<(string, string)>, a: seq<Option<Dep>>, b: seq<Option<Dep>>)
    requires Apart(x) && DrawnDeps(x, a) && DrawnDeps(x, b)
    ensures DepKeys(a) == DepKeys(b) <==> DepPairs(a) == DepPairs(b)
  {
    if DepKeys(a) == DepKeys(b) {
      forall p ensures p in DepPairs(a) <==> p in DepPairs(b) {
        if p in DepPairs(a) {
          PairsWithin(x, a, b, p);
        }
        if p in DepPairs(b) {
          PairsWithin(x, b, a, p);
        }
      }
    }
    if DepPairs(a) == DepPairs(b) {
      KeysAreGlued(a);
      KeysAreGlued(b);
      assert forall key :: key in DepKeys(a) <==> key in DepKeys(b);
    }
  }

  function Lone(p: (string, string)): seq<Option<Dep>>
  {
    [Some(CacheStream.Dep(p.0, p.1, "", ""))]
  }

  lemma LonePairs(p: (string, string))
    requires p.0 != ""
    ensures DepPairs(Lone(p)) == {p} && DepKeys(Lone(p)) == {Glue(p)}
  {
    assert Lone(p)[0].value.dependsOn == p.0 && Lone(p)[0].value.kind == p.1;
    KeysAreGlued(Lone(p));
  }

  /** Comparing the glued strings is comparing targets and types exactly when no pair overlaps another. */
  lemma ToldIff(x: iset<(string, string)>)
    requires forall p | p in x :: p.0 != ""
    ensures Told(x) <==> Apart(x)
  {
    if Apart(x) {
      forall a, b | DrawnDeps(x, a) && DrawnDeps(x, b)
        ensures DepKeys(a) == DepKeys(b) <==> DepPairs(a) == DepPairs(b)
      {
        ApartTold(x, a, b);
      }
    } else {
      var p :| p in x && exists q :: q in x && Overlaps(p, q);
      var q :| q in x && Overlaps(p, q);
      OverlapsGlue(p, q);
      LonePairs(p);
      LonePairs(q);
      var a, b := Lone(p), Lone(q);
      assert DrawnDeps(x, a) && DrawnDeps(x, b) && DepKeys(a) == DepKeys(b) && DepPairs(a) != DepPairs(b);
    }
  }

  /** Types without a colon are enough, and so are targets without one. */
  lemma NoColons(x: iset<(string, string)>)
    requires (forall p | p in x :: ':' !in p.0) || (forall p | p in x :: ':' !in p.1)
    ensures Apart(x)
  {
    forall p, q | p in x && q in x ensures !Overlaps(p, q) {
      if Overlaps(p, q) {
        Colons(p, q);
      }
    }
  }

  lemma Colons(p: (string, string), q: (string, string))
    requires Overlaps(p, q)
    ensures ':' in q.0 && ':' in p.1
  {
    var s :| OverlapsBy(p, q, s);
    assert q.0[|p.0|] == ':' && p.1[|s|] == ':';
  }

  // ---------- agreement, field by field ----------

  /** Two versions of an issue agree exactly when every compared field is the same. */
  lemma AgreeIff(a: Record, b: Record)
    ensures Agree(a, b) <==>
      && a.fields.title == b.fields.title && a.fields.status == b.fields.status
      && a.fields.priority == b.fields.priority && a.fields.assignee == b.fields.assignee
      && a.fields.issueType == b.fields.issueType && a.fields.description == b.fields.description
      && a.fields.design == b.fields.design && a.fields.acceptance == b.fields.acceptance
      && a.fields.notes == b.fields.notes
      && DepKeys(a.deps) == DepKeys(b.deps) && (forall l :: l in a.labels <==> l in b.labels)
  {
    SameLabels(a.labels, b.labels);
    if Agree(a, b) {
      assert !Differs(a, b, Title) && !Differs(a, b, Status) && !Differs(a, b, Priority) && !Differs(a, b, Assignee);
      assert !Differs(a, b, Type) && !Differs(a, b, Description) && !Differs(a, b, Design);
      assert !Differs(a, b, AcceptanceCriteria) && !Differs(a, b, Notes);
      assert !Differs(a, b, Dependencies) && !Differs(a, b, Labels);
    }
  }

  lemma SameLabels(a: seq<string>, b: seq<string>)
    ensures LabelSet(a) == LabelSet(b) <==> forall l :: l in a <==> l in b
  {
    if LabelSet(a) == LabelSet(b) {
      forall l ensures l in a <==> l in b {
        assert l in LabelSet(a) <==> l in LabelSet(b);
      }
    }
  }

  /** Every compared field is the same, dependencies as pairs. */
  ghost predicate SameFields(a: Record, b: Record)
  {
    && a.fields.title == b.fields.title && a.fields.status == b.fields.status
    && a.fields.priority == b.fields.priority && a.fields.assignee == b.fields.assignee
    && a.fields.issueType == b.fields.issueType && a.fields.description == b.fields.description
    && a.fields.design == b.fields.design && a.fields.acceptance == b.fields.acceptance
    && a.fields.notes == b.fields.notes
    && DepPairs(a.deps) == DepPairs(b.deps) && (forall l :: l in a.labels <==> l in b.labels)
  }

  lemma AgreePairs(x: iset<(string, string)>, a: Record, b: Record)
    requires Apart(x) && DrawnDeps(x, a.deps) && DrawnDeps(x, b.deps)
    ensures Agree(a, b) <==> SameFields(a, b)
  {
    AgreeIff(a, b);
    ApartTold(x, a.deps, b.deps);
  }

  /** All dependencies of a snapshot. */
  ghost predicate DrawnAll(x: iset<(string, string)>, m: Snapshot)
  {
    forall id | id in m :: DrawnDeps(x, m[id].deps)
  }

  /** With dependencies that do not overlap, nothing is counted exactly when all fields of all issues are the same. */
  lemma EmptyIffFields(x: iset<(string, string)>, from: Snapshot, to: Snapshot, d: Changes)
    requires Faithful(from, to, d) && Apart(x) && DrawnAll(x, from) && DrawnAll(x, to)
    ensures |d.added| + |d.closed| + |d.removed| + |d.reopened| + |d.modified| == 0 <==>
      from.Keys == to.Keys && forall id | id in from :: SameFields(from[id], to[id])
  {
    EmptyIff(from, to, d);
    forall id | id in from && id in to ensures Agree(from[id], to[id]) <==> SameFields(from[id], to[id]) {
      AgreePairs(x, from[id], to[id]);
    }
  }

  /** With dependencies that do not overlap, the patched snapshot has all fields of the newer one. */
  lemma PatchFields(x: iset<(string, string)>, from: Snapshot, to: Snapshot, d: Changes, id: string)
    requires Keyed(from) && Keyed(to) && Faithful(from, to, d) && Apart(x) && DrawnAll(x, from) && DrawnAll(x, to)
    ensures id in Patch(from, d) <==> id in to
    ensures id in to ==> SameFields(Patch(from, d)[id], to[id])
  {
    PatchRebuilds(from, to, d, id);
    PatchSteps(from, to, d, id);
    if id in to {
      AgreePairs(x, Patch(from, d)[id], to[id]);
    }
  }

  // ---------- the lists, by the statuses ----------

  /** Which list names an issue, by the statuses before and after. */
  lemma ListsMeaning(from: Snapshot, to: Snapshot, d: Changes, id: string)
    requires Faithful(from, to, d)
    ensures HasId(d.added, id) <==> id in to && id !in from
    ensures HasId(d.removed, id) <==> id in from && id !in to
    ensures HasId(d.closed, id) <==> (id in from && id in to
      && from[id].fields.status !in {"closed", "tombstone"} && to[id].fields.status in {"closed", "tombstone"})
    ensures HasId(d.reopened, id) <==> (id in from && id in to
      && from[id].fields.status in {"closed", "tombstone"} && to[id].fields.status !in {"closed", "tombstone"})
  {
    HoldsId(d.added, to, NewIds(from, to), to.Keys, id);
    HoldsId(d.removed, from, RemovedIds(from, to), from.Keys, id);
    HoldsId(d.closed, to, ClosedIds(from, to), to.Keys, id);
    HoldsId(d.reopened, to, ReopenedIds(from, to), to.Keys, id);
  }

  /** The older version with the status of the newer one. */
  ghost function WithStatus(a: Record, b: Record): Record
  {
    a.(fields := a.fields.(status := b.fields.status))
  }

  lemma StatusAside(a: Record, b: Record, f: Field)
    ensures Differs(WithStatus(a, b), b, f) <==> f != Status && Differs(a, b, f)
  {
  }

  lemma AgreeAside(a: Record, b: Record)
    ensures Agree(WithStatus(a, b), b) <==> forall f | f != Status :: !Differs(a, b, f)
  {
    forall f ensures Differs(WithStatus(a, b), b, f) <==> f != Status && Differs(a, b, f) {
      StatusAside(a, b, f);
    }
  }

  /** The modified list: some field differs, not counting the status of an issue that was closed or reopened. */
  lemma ModifiedMeaning(from: Snapshot, to: Snapshot, d: Changes, id: string)
    requires Faithful(from, to, d) && id in from && id in to
    ensures HasModified(d.modified, id) <==>
      if (from[id].fields.status in {"closed", "tombstone"}) == (to[id].fields.status in {"closed", "tombstone"})
      then !Agree(from[id], to[id])
      else !Agree(from[id].(fields := from[id].fields.(status := to[id].fields.status)), to[id])
  {
    HasModifiedId(d.modified, from, to, ModifiedIds(from, to), to.Keys, id);
    var a, b := from[id], to[id];
    assert Live(a.fields.status) <==> a.fields.status !in {"closed", "tombstone"};
    assert Live(b.fields.status) <==> b.fields.status !in {"closed", "tombstone"};
    AgreeAside(a, b);
    assert WithStatus(a, b) == a.(fields := a.fields.(status := b.fields.status));
  }

  /** The total counts every list once per issue. */
  lemma TotalCounts(from: Snapshot, to: Snapshot, d: Changes)
    requires Faithful(from, to, d) && Keyed(to)
    ensures TotalChanges(d) == |to.Keys - from.Keys| + |from.Keys - to.Keys| + |ClosedIds(from, to)|
      + |ReopenedIds(from, to)| + |ModifiedIds(from, to)|
  {
    CountWhole(d.added, to, NewIds(from, to), Any);
    CountWhole(d.removed, from, RemovedIds(from, to), Any);
    CountWhole(d.closed, to, ClosedIds(from, to), Any);
    CountWhole(d.reopened, to, ReopenedIds(from, to), Any);
    ModifiedHold(d.modified, from, to, ModifiedIds(from, to), to.Keys);
    CountWhole(NewOnes(d.modified), to, ModifiedIds(from, to), Any);
  }

  /** Of several issues with one ID the last one counts. */
  lemma {:induction false} LastWins(issues: seq<Record>, i: nat)
    requires i < |issues| && forall j | i < j < |issues| :: issues[j].fields.id != issues[i].fields.id
    ensures issues[i].fields.id in ById(issues) && ById(issues)[issues[i].fields.id] == issues[i]
  {
    var n := |issues| - 1;
    if i < n {
      LastWins(issues[..n], i);
    }
  }

  lemma {:induction false} OnlyListed(issues: seq<Record>, id: string)
    ensures id in ById(issues) ==> exists i :: 0 <= i < |issues| && issues[i].fields.id == id
  {
    if issues != [] && id in ById(issues) {
      var n := |issues| - 1;
      OnlyListed(issues[..n], id);
      if id != issues[n].fields.id {
        var i :| 0 <= i < n && issues[..n][i].fields.id == id;
        assert issues[i].fields.id == id;
      } else {
        assert issues[n].fields.id == id;
      }
    }
  }
}
