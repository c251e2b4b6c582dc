/**
 The difference between two snapshots, pkg/analysis/diff.go: which issues are new, removed, closed, reopened or
 modified, and that this is enough to get from the one to the other.
 */
module Diff {
  import opened Issues
  import CacheStream
  import Sorting

  type Record = CacheStream.Record
  type Snapshot = map<string, Record>

  /** Issues by ID, the last one winning. */
  function ById(issues: seq<Record>): (m: Snapshot)
    ensures Keyed(m)
  {
    if issues == [] then map[]
    else
      var last := issues[|issues| - 1];
      ById(issues[..|issues| - 1])[last.fields.id := last]
  }

  ghost predicate Keyed(m: Snapshot)
  {
    forall id | id in m :: m[id].fields.id == id
  }

  // ---------- the fields of one issue ----------

  /** Target and type of a dependency, as one string; dependencies without a target do not count. */
  function DepKeys(deps: seq<Option<CacheStream.Dep>>): set<string>
  {
    set i | 0 <= i < |deps| && deps[i].Some? && deps[i].value.dependsOn != "" ::
      deps[i].value.dependsOn + ":" + deps[i].value.kind
  }

  function LabelSet(labels: seq<string>): set<string>
  {
    set l | l in labels
  }

  /** The compared fields, in the order they are looked at. */
  datatype Field = Title | Status | Priority | Assignee | Type | Description | Design | AcceptanceCriteria | Notes
    | Dependencies | Labels

  predicate Differs(a: Record, b: Record, field: Field)
  {
    match field
    case Title => a.fields.title != b.fields.title
    case Status => a.fields.status != b.fields.status
    case Priority => a.fields.priority != b.fields.priority
    case Assignee => a.fields.assignee != b.fields.assignee
    case Type => a.fields.issueType != b.fields.issueType
    case Description => a.fields.description != b.fields.description
    case Design => a.fields.design != b.fields.design
    case AcceptanceCriteria => a.fields.acceptance != b.fields.acceptance
    case Notes => a.fields.notes != b.fields.notes
    case Dependencies => DepKeys(a.deps) != DepKeys(b.deps)
    case Labels => LabelSet(a.labels) != LabelSet(b.labels)
  }

  ghost predicate Agree(a: Record, b: Record)
  {
    forall field :: !Differs(a, b, field)
  }

  /** Where a field stands among the comparisons. */
  function Place(f: Field): nat
  {
    match f
    case Title => 0 case Status => 1 case Priority => 2 case Assignee => 3 case Type => 4
    case Description => 5 case Design => 6 case AcceptanceCriteria => 7 case Notes => 8
    case Dependencies => 9 case Labels => 10
  }

  /** Each field once, in the order of the comparisons, from place lo to below hi. */
  ghost predicate Ordered(changes: seq<Field>, lo: nat, hi: nat)
  {
    && (forall i | 0 <= i < |changes| :: lo <= Place(changes[i]) < hi)
    && forall i, j | 0 <= i < j < |changes| :: Place(changes[i]) < Place(changes[j])
  }

  method Note(changes: seq<Field>, differs: bool, field: Field, ghost lo: nat) returns (more: seq<Field>)
    requires lo <= Place(field) && Ordered(changes, lo, Place(field))
    ensures Ordered(more, lo, Place(field) + 1)
    ensures forall f :: f in more <==> f in changes || (differs && f == field)
  {
    more := changes;
    if differs {
      more := more + [field];
    }
  }

  method ScalarChanges(a: Record, b: Record) returns (changes: seq<Field>)
    ensures Ordered(changes, 0, 5)
    ensures forall f :: f in changes <==> f in {Title, Status, Priority, Assignee, Type} && Differs(a, b, f)
  {
    changes := Note([], a.fields.title != b.fields.title, Title, 0);
    changes := Note(changes, a.fields.status != b.fields.status, Status, 0);
    changes := Note(changes, a.fields.priority != b.fields.priority, Priority, 0);
    changes := Note(changes, a.fields.assignee != b.fields.assignee, Assignee, 0);
    changes := Note(changes, a.fields.issueType != b.fields.issueType, Type, 0);
  }

  method TextChanges(a: Record, b: Record) returns (changes: seq<Field>)
    ensures Ordered(changes, 5, 9)
    ensures forall f :: f in changes <==> f in {Description, Design, AcceptanceCriteria, Notes} && Differs(a, b, f)
  {
    changes := Note([], a.fields.description != b.fields.description, Description, 5);
    changes := Note(changes, a.fields.design != b.fields.design, Design, 5);
    changes := Note(changes, a.fields.acceptance != b.fields.acceptance, AcceptanceCriteria, 5);
    changes := Note(changes, a.fields.notes != b.fields.notes, Notes, 5);
  }

  /** The fields that differ, each once and in order. */
  method DetectChanges(a: Record, b: Record) returns (changes: seq<Field>)
    ensures forall f :: f in changes <==> Differs(a, b, f)
    ensures Title in changes <==> a.fields.title != b.fields.title
    ensures Status in changes <==> a.fields.status != b.fields.status
    ensures Priority in changes <==> a.fields.priority != b.fields.priority
    ensures Assignee in changes <==> a.fields.assignee != b.fields.assignee
    ensures Type in changes <==> a.fields.issueType != b.fields.issueType
    ensures Description in changes <==> a.fields.description != b.fields.description
    ensures Design in changes <==> a.fields.design != b.fields.design
    ensures AcceptanceCriteria in changes <==> a.fields.acceptance != b.fields.acceptance
    ensures Notes in changes <==> a.fields.notes != b.fields.notes
    ensures Dependencies in changes <==> DepKeys(a.deps) != DepKeys(b.deps)
    ensures Labels in changes <==> (set l | l in a.labels) != (set l | l in b.labels)
    ensures Ordered(changes, 0, 11)
  {
    var scalars := ScalarChanges(a, b);
    var texts := TextChanges(a, b);
    changes := Note(scalars + texts, DepKeys(a.deps) != DepKeys(b.deps), Dependencies, 0);
    changes := Note(changes, LabelSet(a.labels) != LabelSet(b.labels), Labels, 0);
    Spelled(a, b, changes);
  }

  lemma Spelled(a: Record, b: Record, changes: seq<Field>)
    requires forall f :: f in changes <==> Differs(a, b, f)
    ensures Title in changes <==> a.fields.title != b.fields.title
    ensures Status in changes <==> a.fields.status != b.fields.status
    ensures Priority in changes <==> a.fields.priority != b.fields.priority
    ensures Assignee in changes <==> a.fields.assignee != b.fields.assignee
    ensures Type in changes <==> a.fields.issueType != b.fields.issueType
    ensures Description in changes <==> a.fields.description != b.fields.description
    ensures Design in changes <==> a.fields.design != b.fields.design
    ensures AcceptanceCriteria in changes <==> a.fields.acceptance != b.fields.acceptance
    ensures Notes in changes <==> a.fields.notes != b.fields.notes
    ensures Dependencies in changes <==> DepKeys(a.deps) != DepKeys(b.deps)
    ensures Labels in changes <==> (set l | l in a.labels) != (set l | l in b.labels)
  {
    assert Labels in changes <==> LabelSet(a.labels) != LabelSet(b.labels);
  }

  method WithoutStatus(changes: seq<Field>) returns (rest: seq<Field>)
    requires Ordered(changes, 0, 11)
    ensures Ordered(rest, 0, 11)
    ensures forall field :: field in rest <==> field in changes && field != Status
  {
    rest := [];
    for i := 0 to |changes|
      invariant Ordered(rest, 0, 11)
      invariant forall j | 0 <= j < |rest| && i < |changes| :: Place(rest[j]) < Place(changes[i])
      invariant forall field :: field in rest <==> field in changes[..i] && field != Status
    {
      assert changes[..i + 1] == changes[..i] + [changes[i]];
      if changes[i] == Status {
        continue;
      }
      rest := rest + [changes[i]];
    }
    assert changes[..|changes|] == changes;
  }

  // ---------- which list an issue belongs to ----------

  predicate Live(status: string)
  {
    !IsClosedLike(status)
  }

  ghost function NewIds(from: Snapshot, to: Snapshot): set<string> { to.Keys - from.Keys }
  ghost function RemovedIds(from: Snapshot, to: Snapshot): set<string> { from.Keys - to.Keys }

  ghost function ClosedIds(from: Snapshot, to: Snapshot): set<string>
  {
    set id | id in from && id in to && Live(from[id].fields.status) && !Live(to[id].fields.status)
  }

  ghost function ReopenedIds(from: Snapshot, to: Snapshot): set<string>
  {
    set id | id in from && id in to && !Live(from[id].fields.status) && Live(to[id].fields.status)
  }

  /** Some field differs; for an issue that was closed or reopened, some field other than the status. */
  ghost function ModifiedIds(from: Snapshot, to: Snapshot): set<string>
  {
    set id | id in from && id in to && exists f ::
      Differs(from[id], to[id], f) && (f != Status || Live(from[id].fields.status) == Live(to[id].fields.status))
  }

  ghost predicate HasId(list: seq<Record>, id: string)
  {
    exists i | 0 <= i < |list| :: list[i].fields.id == id
  }

  /** The list holds the issues of m whose IDs are in ids and in done, each once. */
  ghost predicate Holds(list: seq<Record>, m: Snapshot, ids: set<string>, done: set<string>)
  {
    && (forall i | 0 <= i < |list| ::
        var id := list[i].fields.id;
        id in ids && id in done && id in m && list[i] == m[id])
    && (forall i, j | 0 <= i < j < |list| :: list[i].fields.id != list[j].fields.id)
    && forall id | id in ids && id in done :: HasId(list, id)
  }

  datatype Modified = Modified(id: string, changes: seq<Field>, old_: Record, new_: Record)

  ghost predicate HasModified(list: seq<Modified>, id: string)
  {
    exists i | 0 <= i < |list| :: list[i].id == id
  }

  ghost predicate HoldsModified(list: seq<Modified>, from: Snapshot, to: Snapshot, ids: set<string>, done: set<string>)
  {
    && (forall i | 0 <= i < |list| :: list[i].id in ids && list[i].id in done && Explains(list[i], from, to))
    && (forall i, j | 0 <= i < j < |list| :: list[i].id != list[j].id)
    && forall id | id in ids && id in done :: HasModified(list, id)
  }

  /** Old and new issue, and exactly the fields that differ, in order; not the status when it closed or reopened. */
  ghost predicate Explains(c: Modified, from: Snapshot, to: Snapshot)
  {
    && c.id in from && c.id in to && c.old_ == from[c.id] && c.new_ == to[c.id] && Ordered(c.changes, 0, 11)
    && forall f :: f in c.changes <==>
      Differs(c.old_, c.new_, f) && (f != Status || Live(c.old_.fields.status) == Live(c.new_.fields.status))
  }

  datatype Changes = Changes(
    added: seq<Record>, closed: seq<Record>, removed: seq<Record>, reopened: seq<Record>, modified: seq<Modified>
  )

  /** Every list holds what it should. */
  ghost predicate Faithful(from: Snapshot, to: Snapshot, d: Changes)
  {
    SoFar(from, to, to.Keys, d.(removed := [])) && Holds(d.removed, from, RemovedIds(from, to), from.Keys)
  }

  // ---------- building the lists ----------

  /** The lists after the issues in done have been looked at. */
  ghost predicate SoFar(from: Snapshot, to: Snapshot, done: set<string>, d: Changes)
  {
    && Holds(d.added, to, NewIds(from, to), done) && d.removed == []
    && Holds(d.closed, to, ClosedIds(from, to), done) && Holds(d.reopened, to, ReopenedIds(from, to), done)
    && HoldsModified(d.modified, from, to, ModifiedIds(from, to), done)
  }

  lemma HoldsMore(list: seq<Record>, m: Snapshot, ids: set<string>, done: set<string>, id: string)
    requires Keyed(m) && id in m && id !in done && Holds(list, m, ids, done)
    ensures Holds(if id in ids then list + [m[id]] else list, m, ids, done + {id})
  {
    if id in ids {
      var more := list + [m[id]];
      assert more[|list|].fields.id == id;
      forall x | x in ids && x in done + {id} ensures HasId(more, x) {
        if x != id {
          var i :| 0 <= i < |list| && list[i].fields.id == x;
          assert more[i].fields.id == x;
        }
      }
    }
  }

  lemma HoldsModifiedMore(list: seq<Modified>, from: Snapshot, to: Snapshot, ids: set<string>, done: set<string>,
                          c: Modified)
    requires c.id !in done && c.id in ids && Explains(c, from, to) && HoldsModified(list, from, to, ids, done)
    ensures HoldsModified(list + [c], from, to, ids, done + {c.id})
  {
    var more := list + [c];
    assert more[|list|].id == c.id;
    forall x | x in ids && x in done + {c.id} ensures HasModified(more, x) {
      if x != c.id {
        var i :| 0 <= i < |list| && list[i].id == x;
        assert more[i].id == x;
      }
    }
  }

  lemma HoldsModifiedSame(list: seq<Modified>, from: Snapshot, to: Snapshot, ids: set<string>, done: set<string>,
                          id: string)
    requires id !in ids && HoldsModified(list, from, to, ids, done)
    ensures HoldsModified(list, from, to, ids, done + {id})
  {
  }

  /** What there is to report of an issue in both snapshots; nothing when the list of fields is empty. */
  method ChangesOf(from: Snapshot, to: Snapshot, id: string) returns (c: Modified)
    requires id in from && id in to
    ensures c.id == id && Explains(c, from, to) && (c.changes != [] <==> id in ModifiedIds(from, to))
  {
    var changes := DetectChanges(from[id], to[id]);
    if Live(from[id].fields.status) != Live(to[id].fields.status) {
      changes := WithoutStatus(changes);
    }
    assert changes != [] ==> changes[0] in changes;
    c := Modified(id, changes, from[id], to[id]);
  }

  /** One turn of the loop over the newer snapshot. */
  method Classify(from: Snapshot, to: Snapshot, id: string, ghost done: set<string>, d: Changes) returns (r: Changes)
    requires Keyed(from) && Keyed(to) && id in to && id !in done && SoFar(from, to, done, d)
    ensures SoFar(from, to, done + {id}, r)
  {
    HoldsMore(d.added, to, NewIds(from, to), done, id);
    HoldsMore(d.closed, to, ClosedIds(from, to), done, id);
    HoldsMore(d.reopened, to, ReopenedIds(from, to), done, id);
    r := d;
    if id !in from {
      HoldsModifiedSame(d.modified, from, to, ModifiedIds(from, to), done, id);
      return r.(added := r.added + [to[id]]);
    }
    var c := ChangesOf(from, to, id);
    if Live(from[id].fields.status) && !Live(to[id].fields.status) {
      r := r.(closed := r.closed + [to[id]]);
    } else if !Live(from[id].fields.status) && Live(to[id].fields.status) {
      r := r.(reopened := r.reopened + [to[id]]);
    }
    if |c.changes| > 0 {
      HoldsModifiedMore(d.modified, from, to, ModifiedIds(from, to), done, c);
      r := r.(modified := r.modified + [c]);
    } else {
      HoldsModifiedSame(d.modified, from, to, ModifiedIds(from, to), done, id);
    }
  }

  method RemovedIssues(from: Snapshot, to: Snapshot) returns (removed: seq<Record>)
    requires Keyed(from)
    ensures Holds(removed, from, RemovedIds(from, to), from.Keys)
  {
    removed := [];
    var keys := from.Keys;
    ghost var done: set<string> := {};
    while keys != {}
      invariant keys !! done && keys + done == from.Keys
      invariant Holds(removed, from, RemovedIds(from, to), done)
    {
      var id :| id in keys;
      HoldsMore(removed, from, RemovedIds(from, to), done, id);
      keys, done := keys - {id}, done + {id};
      if id !in to {
        removed := removed + [from[id]];
      }
    }
    assert done == from.Keys;
  }

  function ByModifiedId(): (Modified, Modified) -> bool
  {
    (a: Modified, b: Modified) => Less(a.id, b.id)
  }

  lemma ByModifiedIdOrders()
    ensures Sorting.WeakOrder(ByModifiedId())
  {
    Sorting.ByIdTotal();
    forall a: string, b: string, c: string | !Less(a, b) && !Less(b, c) ensures !Less(a, c) {
      assert Sorting.ById()(a, b) == Less(a, b) && Sorting.ById()(b, c) == Less(b, c)
        && Sorting.ById()(a, c) == Less(a, c);
    }
    forall a: string, b: string ensures !(Less(a, b) && Less(b, a)) {
      assert Sorting.ById()(a, b) == Less(a, b) && Sorting.ById()(b, a) == Less(b, a);
    }
  }

  lemma SortHolds(list: seq<Record>, m: Snapshot, ids: set<string>, done: set<string>)
    requires Holds(list, m, ids, done)
    ensures Holds(Sorting.Sort(CacheStream.ByIssueId(), list), m, ids, done)
  {
    var sorted := Sorting.Sort(CacheStream.ByIssueId(), list);
    Sorting.SortKeeps(CacheStream.ByIssueId(), list);
    Sorting.SortDistinct(CacheStream.ByIssueId(), list);
    forall i | 0 <= i < |sorted|
      ensures var id := sorted[i].fields.id; id in ids && id in done && id in m && sorted[i] == m[id]
    {
      assert sorted[i] in list;
    }
    forall id | id in ids && id in done ensures HasId(sorted, id) {
      assert HasId(list, id);
      var i :| 0 <= i < |list| && list[i].fields.id == id;
      assert list[i] in sorted;
    }
  }

  lemma SortedIds(list: seq<Modified>)
    requires forall i, j | 0 <= i < j < |list| :: list[i].id != list[j].id
    ensures var sorted := Sorting.Sort(ByModifiedId(), list);
      (forall c :: c in sorted <==> c in list) && forall i, j | 0 <= i < j < |sorted| :: sorted[i].id != sorted[j].id
  {
    var sorted := Sorting.Sort(ByModifiedId(), list);
    Sorting.SortKeeps(ByModifiedId(), list);
    Sorting.SortDistinct(ByModifiedId(), list);
    forall i, j | 0 <= i < j < |sorted| ensures sorted[i].id != sorted[j].id {
      assert sorted[i] in list && sorted[j] in list;
      var a :| 0 <= a < |list| && list[a] == sorted[i];
      var b :| 0 <= b < |list| && list[b] == sorted[j];
    }
  }

  lemma SortHoldsModified(list: seq<Modified>, from: Snapshot, to: Snapshot, ids: set<string>, done: set<string>)
    requires HoldsModified(list, from, to, ids, done)
    ensures HoldsModified(Sorting.Sort(ByModifiedId(), list), from, to, ids, done)
  {
    var sorted := Sorting.Sort(ByModifiedId(), list);
    SortedIds(list);
    forall i | 0 <= i < |sorted| ensures sorted[i].id in ids && sorted[i].id in done && Explains(sorted[i], from, to) {
      assert sorted[i] in list;
      var a :| 0 <= a < |list| && list[a] == sorted[i];
      assert Explains(list[a], from, to);
    }
    forall id | id in ids && id in done ensures HasModified(sorted, id) {
      assert HasModified(list, id);
      var i :| 0 <= i < |list| && list[i].id == id;
      assert list[i] in sorted;
    }
  }

  method CompareSnapshots(before: seq<Record>, after: seq<Record>) returns (d: Changes)
    ensures Faithful(ById(before), ById(after), d) && InOrder(d)
  {
    var from, to := ById(before), ById(after);
    d := ClassifyAll(from, to);
    var removed := RemovedIssues(from, to);
    d := SortAll(from, to, d.(removed := removed));
  }

  /** The loop over the newer snapshot. */
  method ClassifyAll(from: Snapshot, to: Snapshot) returns (d: Changes)
    requires Keyed(from) && Keyed(to)
    ensures SoFar(from, to, to.Keys, d)
  {
    d := Changes([], [], [], [], []);
    var keys := to.Keys;
    ghost var done: set<string> := {};
    while keys != {}
      invariant keys !! done && keys + done == to.Keys && SoFar(from, to, done, d)
    {
      var id :| id in keys;
      d := Classify(from, to, id, done, d);
      keys, done := keys - {id}, done + {id};
    }
    assert done == to.Keys;
  }

  ghost predicate InOrder(d: Changes)
  {
    && Sorting.Ascending(CacheStream.ByIssueId(), d.added) && Sorting.Ascending(CacheStream.ByIssueId(), d.closed)
    && Sorting.Ascending(CacheStream.ByIssueId(), d.removed) && Sorting.Ascending(CacheStream.ByIssueId(), d.reopened)
    && Sorting.Ascending(ByModifiedId(), d.modified)
  }

  method SortAll(ghost from: Snapshot, ghost to: Snapshot, d: Changes) returns (r: Changes)
    requires Faithful(from, to, d)
    ensures Faithful(from, to, r) && InOrder(r)
  {
    CacheStream.ByIssueIdOrders();
    Sorting.SortAscends(CacheStream.ByIssueId(), d.added);
    Sorting.SortAscends(CacheStream.ByIssueId(), d.closed);
    Sorting.SortAscends(CacheStream.ByIssueId(), d.removed);
    Sorting.SortAscends(CacheStream.ByIssueId(), d.reopened);
    ByModifiedIdOrders();
    Sorting.SortAscends(ByModifiedId(), d.modified);
    SortHolds(d.added, to, NewIds(from, to), to.Keys);
    SortHolds(d.closed, to, ClosedIds(from, to), to.Keys);
    SortHolds(d.removed, from, RemovedIds(from, to), from.Keys);
    SortHolds(d.reopened, to, ReopenedIds(from, to), to.Keys);
    SortHoldsModified(d.modified, from, to, ModifiedIds(from, to), to.Keys);
    r := Changes(Sorting.Sort(CacheStream.ByIssueId(), d.added), Sorting.Sort(CacheStream.ByIssueId(), d.closed),
      Sorting.Sort(CacheStream.ByIssueId(), d.removed), Sorting.Sort(CacheStream.ByIssueId(), d.reopened),
      Sorting.Sort(ByModifiedId(), d.modified));
  }

  // ---------- the difference as a patch ----------

  lemma {:induction false} ByIdHolds(list: seq<Record>, id: string)
    requires forall i, j | 0 <= i < j < |list| :: list[i].fields.id != list[j].fields.id
    ensures id in ById(list) <==> HasId(list, id)
    ensures forall i | 0 <= i < |list| && list[i].fields.id == id :: id in ById(list) && ById(list)[id] == list[i]
  {
    if list != [] {
      ByIdHolds(list[..|list| - 1], id);
      if HasId(list[..|list| - 1], id) {
        var i :| 0 <= i < |list| - 1 && list[..|list| - 1][i].fields.id == id;
        assert list[i].fields.id == id;
      }
    }
  }

  /** A list that holds some issues of m is, as a map, the part of m it holds. */
  lemma HoldsMap(list: seq<Record>, m: Snapshot, ids: set<string>, done: set<string>, id: string)
    requires Holds(list, m, ids, done)
    ensures id in ById(list) <==> id in ids && id in done
    ensures id in ById(list) ==> id in m && ById(list)[id] == m[id]
  {
    ByIdHolds(list, id);
    if HasId(list, id) {
      var i :| 0 <= i < |list| && list[i].fields.id == id;
    }
  }

  ghost function NewOnes(list: seq<Modified>): (rs: seq<Record>)
    ensures |rs| == |list| && forall i | 0 <= i < |rs| :: rs[i] == list[i].new_
  {
    seq(|list|, i requires 0 <= i < |list| => list[i].new_)
  }

  lemma ModifiedHold(list: seq<Modified>, from: Snapshot, to: Snapshot, ids: set<string>, done: set<string>)
    requires HoldsModified(list, from, to, ids, done) && Keyed(to)
    ensures Holds(NewOnes(list), to, ids, done)
  {
    var rs := NewOnes(list);
    forall i | 0 <= i < |rs| ensures rs[i].fields.id == list[i].id && rs[i] == to[list[i].id] {
      assert Explains(list[i], from, to);
    }
    forall id | id in ids && id in done ensures HasId(rs, id) {
      assert HasModified(list, id);
      var i :| 0 <= i < |list| && list[i].id == id;
      assert rs[i].fields.id == id;
    }
  }

  /** Take out what was removed, put in what was closed, reopened, modified or added. */
  ghost function Patch(from: Snapshot, d: Changes): Snapshot
  {
    (from - ById(d.removed).Keys) + ById(d.closed) + ById(d.reopened) + ById(NewOnes(d.modified)) + ById(d.added)
  }

  /** Applied to the older snapshot, the difference gives the newer one, up to fields that are not compared. */
  lemma PatchRebuilds(from: Snapshot, to: Snapshot, d: Changes, id: string)
    requires Keyed(from) && Keyed(to) && Faithful(from, to, d)
    ensures id in Patch(from, d) <==> id in to
    ensures id in to ==> Agree(Patch(from, d)[id], to[id])
  {
    PatchSteps(from, to, d, id);
    if id in from && id in to && id !in ClosedIds(from, to) + ReopenedIds(from, to) + ModifiedIds(from, to) {
      Unmentioned(from, to, id);
    }
  }

  /** Mentioned issues come from the newer snapshot, the others from the older one. */
  lemma PatchSteps(from: Snapshot, to: Snapshot, d: Changes, id: string)
    requires Keyed(from) && Keyed(to) && Faithful(from, to, d)
    ensures id in Patch(from, d) <==> id in to
    ensures id in to && Patch(from, d)[id] != to[id] ==>
      id in from && id !in ClosedIds(from, to) + ReopenedIds(from, to) + ModifiedIds(from, to)
        && Patch(from, d)[id] == from[id]
  {
    ListsAt(from, to, d, id);
    PatchAt(from, ById(d.removed), ById(d.closed), ById(d.reopened), ById(NewOnes(d.modified)), ById(d.added), to, id);
    PatchIs(from, d);
  }

  /** What the lists say about one ID. */
  ghost predicate Says(from: Snapshot, removed: Snapshot, closed: Snapshot, reopened: Snapshot, modified: Snapshot,
                       added: Snapshot, to: Snapshot, id: string)
  {
    && (id in removed <==> id in from && id !in to)
    && (id in closed <==> id in ClosedIds(from, to)) && (id in closed ==> closed[id] == to[id])
    && (id in reopened <==> id in ReopenedIds(from, to)) && (id in reopened ==> reopened[id] == to[id])
    && (id in modified <==> id in ModifiedIds(from, to)) && (id in modified ==> modified[id] == to[id])
    && (id in added <==> id in to && id !in from) && (id in added ==> added[id] == to[id])
  }

  lemma ListsAt(from: Snapshot, to: Snapshot, d: Changes, id: string)
    requires Keyed(from) && Keyed(to) && Faithful(from, to, d)
    ensures Says(from, ById(d.removed), ById(d.closed), ById(d.reopened), ById(NewOnes(d.modified)), ById(d.added), to,
      id)
  {
    HoldsMap(d.added, to, NewIds(from, to), to.Keys, id);
    HoldsMap(d.closed, to, ClosedIds(from, to), to.Keys, id);
    HoldsMap(d.reopened, to, ReopenedIds(from, to), to.Keys, id);
    HoldsMap(d.removed, from, RemovedIds(from, to), from.Keys, id);
    ModifiedHold(d.modified, from, to, ModifiedIds(from, to), to.Keys);
    HoldsMap(NewOnes(d.modified), to, ModifiedIds(from, to), to.Keys, id);
  }

  ghost function Merged(from: Snapshot, removed: Snapshot, closed: Snapshot, reopened: Snapshot, modified: Snapshot,
                        added: Snapshot): Snapshot
  {
    (from - removed.Keys) + closed + reopened + modified + added
  }

  lemma PatchIs(from: Snapshot, d: Changes)
    ensures Patch(from, d) == Merged(from, ById(d.removed), ById(d.closed), ById(d.reopened),
      ById(NewOnes(d.modified)), ById(d.added))
  {
  }

  lemma PatchAt(from: Snapshot, removed: Snapshot, closed: Snapshot, reopened: Snapshot, modified: Snapshot,
                added: Snapshot, to: Snapshot, id: string)
    requires Says(from, removed, closed, reopened, modified, added, to, id)
    ensures var p := Merged(from, removed, closed, reopened, modified, added);
      && (id in p <==> id in to)
      && (id in p && p[id] != to[id] ==>
            id in from && id !in ClosedIds(from, to) + ReopenedIds(from, to) + ModifiedIds(from, to)
              && p[id] == from[id])
  {
  }

  /** An issue no list mentions is the same on all compared fields. */
  lemma Unmentioned(from: Snapshot, to: Snapshot, id: string)
    requires id in from && id in to
    requires id !in ClosedIds(from, to) && id !in ReopenedIds(from, to) && id !in ModifiedIds(from, to)
    ensures Agree(from[id], to[id])
  {
    assert Live(from[id].fields.status) == Live(to[id].fields.status);
    forall f ensures !Differs(from[id], to[id], f) {
    }
  }

  // ---------- the other way round ----------

  lemma HoldsId(list: seq<Record>, m: Snapshot, ids: set<string>, done: set<string>, id: string)
    requires Holds(list, m, ids, done)
    ensures HasId(list, id) <==> id in ids && id in done
  {
  }

  lemma HasModifiedId(list: seq<Modified>, from: Snapshot, to: Snapshot, ids: set<string>, done: set<string>,
                      id: string)
    requires HoldsModified(list, from, to, ids, done)
    ensures HasModified(list, id) <==> id in ids && id in done
  {
  }

  /** Comparing in the other direction exchanges new and removed, closed and reopened, and modifies the same issues. */
  lemma SwapExchanges(from: Snapshot, to: Snapshot, d: Changes, e: Changes, id: string)
    requires Faithful(from, to, d) && Faithful(to, from, e)
    ensures HasId(d.added, id) <==> HasId(e.removed, id)
    ensures HasId(d.removed, id) <==> HasId(e.added, id)
    ensures HasId(d.closed, id) <==> HasId(e.reopened, id)
    ensures HasId(d.reopened, id) <==> HasId(e.closed, id)
    ensures HasModified(d.modified, id) <==> HasModified(e.modified, id)
  {
    HoldsId(d.added, to, NewIds(from, to), to.Keys, id);
    HoldsId(d.removed, from, RemovedIds(from, to), from.Keys, id);
    HoldsId(d.closed, to, ClosedIds(from, to), to.Keys, id);
    HoldsId(d.reopened, to, ReopenedIds(from, to), to.Keys, id);
    HasModifiedId(d.modified, from, to, ModifiedIds(from, to), to.Keys, id);
    HoldsId(e.added, from, NewIds(to, from), from.Keys, id);
    HoldsId(e.removed, to, RemovedIds(to, from), to.Keys, id);
    HoldsId(e.closed, from, ClosedIds(to, from), from.Keys, id);
    HoldsId(e.reopened, from, ReopenedIds(to, from), from.Keys, id);
    HasModifiedId(e.modified, to, from, ModifiedIds(to, from), from.Keys, id);
    SameModified(from, to, id);
  }

  lemma DiffersBoth(a: Record, b: Record, f: Field)
    ensures Differs(a, b, f) <==> Differs(b, a, f)
  {
  }

  lemma SameModified(from: Snapshot, to: Snapshot, id: string)
    ensures id in ModifiedIds(from, to) <==> id in ModifiedIds(to, from)
  {
    if id in from && id in to {
      forall f ensures Differs(from[id], to[id], f) <==> Differs(to[id], from[id], f) {
        DiffersBoth(from[id], to[id], f);
      }
    }
  }

  // ---------- counts ----------

  function TotalChanges(d: Changes): nat
  {
    |d.added| + |d.closed| + |d.removed| + |d.reopened| + |d.modified|
  }

  /** No change is counted exactly when both snapshots have the same issues and agree on every one. */
  lemma EmptyIff(from: Snapshot, to: Snapshot, d: Changes)
    requires Faithful(from, to, d)
    ensures TotalChanges(d) == 0 <==> from.Keys == to.Keys && forall id | id in from :: Agree(from[id], to[id])
  {
    if TotalChanges(d) == 0 {
      forall id ensures (id in from <==> id in to) && (id in from ==> Agree(from[id], to[id])) {
        assert !HasId(d.added, id) && !HasId(d.removed, id) && !HasId(d.closed, id) && !HasId(d.reopened, id);
        assert !HasModified(d.modified, id);
        if id in from && id in to {
          Unmentioned(from, to, id);
        }
      }
    } else if from.Keys == to.Keys && forall id | id in from :: Agree(from[id], to[id]) {
      NothingToReport(from, to, d);
    }
  }

  lemma NothingToReport(from: Snapshot, to: Snapshot, d: Changes)
    requires Faithful(from, to, d) && from.Keys == to.Keys && forall id | id in from :: Agree(from[id], to[id])
    ensures TotalChanges(d) == 0
  {
    assert NewIds(from, to) == {} && RemovedIds(from, to) == {};
    forall id | id in from ensures Live(from[id].fields.status) == Live(to[id].fields.status) {
      assert !Differs(from[id], to[id], Status);
    }
    assert ClosedIds(from, to) == {} && ReopenedIds(from, to) == {} && ModifiedIds(from, to) == {};
    HoldsNothing(d.added, to, NewIds(from, to), to.Keys);
    HoldsNothing(d.closed, to, ClosedIds(from, to), to.Keys);
    HoldsNothing(d.removed, from, RemovedIds(from, to), from.Keys);
    HoldsNothing(d.reopened, to, ReopenedIds(from, to), to.Keys);
    ModifiedNothing(d.modified, from, to, ModifiedIds(from, to), to.Keys);
  }

  lemma HoldsNothing(list: seq<Record>, m: Snapshot, ids: set<string>, done: set<string>)
    requires Holds(list, m, ids, done) && ids == {}
    ensures |list| == 0
  {
    assert forall id :: !HasId(list, id);
    if list != [] {
      SomeId(list);
    }
  }

  lemma SomeId(list: seq<Record>)
    requires list != []
    ensures exists id :: HasId(list, id)
  {
    assert HasId(list, list[0].fields.id);
  }

  lemma ModifiedNothing(list: seq<Modified>, from: Snapshot, to: Snapshot, ids: set<string>, done: set<string>)
    requires HoldsModified(list, from, to, ids, done) && ids == {}
    ensures |list| == 0
  {
    assert forall id :: !HasModified(list, id);
    if list != [] {
      SomeModified(list);
    }
  }

  lemma SomeModified(list: seq<Modified>)
    requires list != []
    ensures exists id :: HasModified(list, id)
  {
    assert HasModified(list, list[0].id);
  }
}
