/** The counts of a snapshot and how a difference changes them, pkg/analysis/diff.go. */
module DiffCounts {
  import opened Issues
  import opened Counting
  import opened Diff
  import CacheStream

  /** The statuses the counter of open issues knows; deferred, pinned, hooked and review are not among them. */
  predicate CountsOpen(status: string)
  {
    status == "open" || status == "in_progress" || status == "blocked"
  }

  /** Neither open, as the counter sees it, nor closed. */
  predicate Limbo(status: string)
  {
    Live(status) && !CountsOpen(status)
  }

  predicate IsBlocked(status: string)
  {
    status == "blocked"
  }

  ghost function CountIf(issues: seq<Record>, p: string -> bool): nat
  {
    if issues == [] then 0
    else CountIf(issues[..|issues| - 1], p) + if p(issues[|issues| - 1].fields.status) then 1 else 0
  }

  /** The positions with some status. */
  ghost function PlacesWith(issues: seq<Record>, p: string -> bool): set<int>
  {
    set i | 0 <= i < |issues| && p(issues[i].fields.status)
  }

  lemma {:induction false} CountPlaces(issues: seq<Record>, p: string -> bool)
    ensures CountIf(issues, p) == |PlacesWith(issues, p)|
  {
    if issues == [] {
      assert PlacesWith(issues, p) == {};
    } else {
      var n := |issues| - 1;
      CountPlaces(issues[..n], p);
      assert PlacesWith(issues, p) == PlacesWith(issues[..n], p) + if p(issues[n].fields.status) then {n} else {};
    }
  }

  lemma OpenPlaces(issues: seq<Record>)
    ensures CountIf(issues, CountsOpen) ==
      |set i | 0 <= i < |issues| && issues[i].fields.status in {"open", "in_progress", "blocked"}|
  {
    CountPlaces(issues, CountsOpen);
    assert PlacesWith(issues, CountsOpen) ==
      set i | 0 <= i < |issues| && issues[i].fields.status in {"open", "in_progress", "blocked"};
  }

  lemma ClosedPlaces(issues: seq<Record>)
    ensures CountIf(issues, IsClosedLike) ==
      |set i | 0 <= i < |issues| && issues[i].fields.status in {"closed", "tombstone"}|
  {
    CountPlaces(issues, IsClosedLike);
    assert PlacesWith(issues, IsClosedLike) ==
      set i | 0 <= i < |issues| && issues[i].fields.status in {"closed", "tombstone"};
  }

  lemma BlockedPlaces(issues: seq<Record>)
    ensures CountIf(issues, IsBlocked) == |set i | 0 <= i < |issues| && issues[i].fields.status == "blocked"|
  {
    CountPlaces(issues, IsBlocked);
    assert PlacesWith(issues, IsBlocked) == set i | 0 <= i < |issues| && issues[i].fields.status == "blocked";
  }

  datatype Counts = Counts(total: nat, open: nat, closed: nat, blocked: nat)

  method ComputeCounts(issues: seq<Record>) returns (c: Counts)
    ensures c.total == |issues| && c.open == CountIf(issues, CountsOpen) && c.closed == CountIf(issues, IsClosedLike)
    ensures c.open + c.closed + CountIf(issues, Limbo) == c.total
    ensures c.open == |set i | 0 <= i < |issues| && issues[i].fields.status in {"open", "in_progress", "blocked"}|
    ensures c.closed == |set i | 0 <= i < |issues| && issues[i].fields.status in {"closed", "tombstone"}|
    ensures c.blocked == |set i | 0 <= i < |issues| && issues[i].fields.status == "blocked"|
  {
    var open, closed, blocked := 0, 0, 0;
    for i := 0 to |issues|
      invariant open == CountIf(issues[..i], CountsOpen) && closed == CountIf(issues[..i], IsClosedLike)
      invariant blocked == CountIf(issues[..i], IsBlocked)
      invariant open + closed + CountIf(issues[..i], Limbo) == i
    {
      assert issues[..i + 1][..i] == issues[..i];
      var status := issues[i].fields.status;
      if status == "closed" || status == "tombstone" {
        closed := closed + 1;
      } else if status == "blocked" {
        blocked := blocked + 1;
        open := open + 1;
      } else if status == "open" || status == "in_progress" {
        open := open + 1;
      }
    }
    assert issues[..|issues|] == issues;
    OpenPlaces(issues);
    ClosedPlaces(issues);
    BlockedPlaces(issues);
    c := Counts(|issues|, open, closed, blocked);
  }

  ghost function IdsWith(m: Snapshot, p: string -> bool): set<string>
  {
    set id | id in m && p(m[id].fields.status)
  }

  lemma {:induction false} CountIfSet(issues: seq<Record>, p: string -> bool)
    requires CacheStream.UniqueIds(issues)
    ensures CountIf(issues, p) == |IdsWith(ById(issues), p)|
  {
    if issues != [] {
      var n := |issues| - 1;
      CountIfSet(issues[..n], p);
      IdsWithLast(issues, n, p);
    } else {
      assert IdsWith(ById(issues), p) == {};
    }
  }

  lemma IdsWithLast(issues: seq<Record>, n: nat, p: string -> bool)
    requires CacheStream.UniqueIds(issues) && n + 1 == |issues|
    ensures var id := issues[n].fields.id; var before := IdsWith(ById(issues[..n]), p);
      id !in before && IdsWith(ById(issues), p) == before + if p(issues[n].fields.status) then {id} else {}
  {
    var last, m := issues[n], ById(issues[..n]);
    ByIdHolds(issues[..n], last.fields.id);
    assert last.fields.id !in m && ById(issues) == m[last.fields.id := last];
    OneMore(m, last, p);
  }

  lemma OneMore(m: Snapshot, r: Record, p: string -> bool)
    requires r.fields.id !in m
    ensures IdsWith(m[r.fields.id := r], p) == IdsWith(m, p) + if p(r.fields.status) then {r.fields.id} else {}
  {
  }

  /** Of the given IDs, those in m with some status. */
  ghost function Among(m: Snapshot, ids: set<string>, p: string -> bool): set<string>
  {
    set id | id in ids && id in m && p(m[id].fields.status)
  }

  /** The members of a faithful list with some status. */
  lemma CountHeld(list: seq<Record>, m: Snapshot, ids: set<string>, p: string -> bool)
    requires Holds(list, m, ids, m.Keys)
    ensures CountIf(list, p) == |Among(m, ids, p)|
  {
    CountIfSet(list, p);
    forall id ensures (id in ById(list) <==> id in ids && id in m) && (id in ById(list) ==> ById(list)[id] == m[id]) {
      HoldsMap(list, m, ids, m.Keys, id);
    }
    assert IdsWith(ById(list), p) == Among(m, ids, p);
  }

  lemma {:induction false} CountAll(issues: seq<Record>, p: string -> bool)
    requires forall i | 0 <= i < |issues| :: p(issues[i].fields.status)
    ensures CountIf(issues, p) == |issues|
  {
    if issues != [] {
      CountAll(issues[..|issues| - 1], p);
    }
  }

  /** The live issues change by those that come alive and those that stop living. */
  ghost predicate LiveBalance(before: seq<Record>, after: seq<Record>, d: Changes)
  {
    CountIf(after, Live) + |d.closed| + CountIf(d.removed, Live) ==
      CountIf(before, Live) + |d.reopened| + CountIf(d.added, Live)
  }

  /** When every issue of a list has the status, the list is as long as the set of its IDs. */
  lemma CountWhole(list: seq<Record>, m: Snapshot, ids: set<string>, p: string -> bool)
    requires Holds(list, m, ids, m.Keys) && forall id | id in ids :: id in m && p(m[id].fields.status)
    ensures |list| == |ids|
  {
    CountHeld(list, m, ids, p);
    CountAll(list, p);
    assert Among(m, ids, p) == ids;
  }

  lemma LiveChanges(before: seq<Record>, after: seq<Record>, d: Changes)
    requires CacheStream.UniqueIds(before) && CacheStream.UniqueIds(after) && Faithful(ById(before), ById(after), d)
    ensures LiveBalance(before, after, d)
  {
    var from, to := ById(before), ById(after);
    CountIfSet(before, Live);
    CountIfSet(after, Live);
    CountLists(from, to, d);
    Balance(from, to);
  }

  lemma CountLists(from: Snapshot, to: Snapshot, d: Changes)
    requires Faithful(from, to, d)
    ensures CountIf(d.added, Live) == |Among(to, NewIds(from, to), Live)|
    ensures CountIf(d.removed, Live) == |Among(from, RemovedIds(from, to), Live)|
    ensures |d.closed| == |ClosedIds(from, to)| && |d.reopened| == |ReopenedIds(from, to)|
  {
    CountHeld(d.added, to, NewIds(from, to), Live);
    CountHeld(d.removed, from, RemovedIds(from, to), Live);
    CountWhole(d.closed, to, ClosedIds(from, to), IsClosedLike);
    CountWhole(d.reopened, to, ReopenedIds(from, to), Live);
  }

  lemma Balance(from: Snapshot, to: Snapshot)
    ensures |IdsWith(to, Live)| + |ClosedIds(from, to)| + |Among(from, RemovedIds(from, to), Live)| ==
      |IdsWith(from, Live)| + |ReopenedIds(from, to)| + |Among(to, NewIds(from, to), Live)|
  {
    var lt, lf, a, b, c, d := LiveSets(from, to);
    SetBalance(lt, lf, a, b, c, d);
  }

  lemma LiveSets(from: Snapshot, to: Snapshot)
      returns (lt: set<string>, lf: set<string>, a: set<string>, b: set<string>, c: set<string>, d: set<string>)
    ensures lt == IdsWith(to, Live) && lf == IdsWith(from, Live)
    ensures a == ReopenedIds(from, to) && b == Among(to, NewIds(from, to), Live)
    ensures c == ClosedIds(from, to) && d == Among(from, RemovedIds(from, to), Live)
    ensures lt - lf == a + b && a !! b && lf - lt == c + d && c !! d
  {
    lt, lf := IdsWith(to, Live), IdsWith(from, Live);
    a, b := ReopenedIds(from, to), Among(to, NewIds(from, to), Live);
    c, d := ClosedIds(from, to), Among(from, RemovedIds(from, to), Live);
  }

  lemma SetBalance(lt: set<string>, lf: set<string>, a: set<string>, b: set<string>, c: set<string>, d: set<string>)
    requires lt - lf == a + b && a !! b && lf - lt == c + d && c !! d
    ensures |lt| + |c| + |d| == |lf| + |a| + |b|
  {
    CardOverlap(lt, lf, a, b);
    CardOverlap(lf, lt, c, d);
    assert lt * lf == lf * lt;
  }

  lemma CardOverlap(x: set<string>, y: set<string>, a: set<string>, b: set<string>)
    requires x - y == a + b && a !! b
    ensures |x| == |x * y| + |a| + |b|
  {
    CardSplit(x, x * y);
    assert x - x * y == a + b;
  }

  /**
   The open count changes by new, reopened, closed and removed live issues if and only if as many issues are in limbo.
   */
  lemma OpenChangesIff(before: seq<Record>, after: seq<Record>, d: Changes, x: Counts, y: Counts)
    requires CacheStream.UniqueIds(before) && CacheStream.UniqueIds(after) && Faithful(ById(before), ById(after), d)
    requires x.open == CountIf(before, CountsOpen) && y.open == CountIf(after, CountsOpen)
    ensures y.open - x.open == CountIf(d.added, Live) + |d.reopened| - |d.closed| - CountIf(d.removed, Live)
      <==> CountIf(before, Limbo) == CountIf(after, Limbo)
  {
    LiveChanges(before, after, d);
    LiveSplit(before);
    LiveSplit(after);
  }

  ghost function Plain(status: string): Record
  {
    CacheStream.Record(CacheStream.Fields("a", "t", "", "", "", "", "", "", None, status, "task", 0, None, "", "",
      None), [], [], [])
  }

  /** One issue is deferred: every list but the modified one is empty, and yet the open count falls by one. */
  lemma DeferredUnbalances(d: Changes, x: Counts, y: Counts)
    requires var before, after := [Plain("open")], [Plain("deferred")];
      Faithful(ById(before), ById(after), d) && x.open == CountIf(before, CountsOpen)
        && y.open == CountIf(after, CountsOpen)
    ensures d.added == [] && d.closed == [] && d.removed == [] && d.reopened == [] && |d.modified| == 1
    ensures y.open - x.open == -1
  {
    var before, after := [Plain("open")], [Plain("deferred")];
    var from, to := ById(before), ById(after);
    assert before[..0] == [] && after[..0] == [];
    assert from == map["a" := Plain("open")] && to == map["a" := Plain("deferred")];
    assert Differs(from["a"], to["a"], Status);
    HoldsNothing(d.added, to, NewIds(from, to), to.Keys);
    HoldsNothing(d.closed, to, ClosedIds(from, to), to.Keys);
    HoldsNothing(d.removed, from, RemovedIds(from, to), from.Keys);
    HoldsNothing(d.reopened, to, ReopenedIds(from, to), to.Keys);
    assert ModifiedIds(from, to) == {"a"};
    ModifiedHold(d.modified, from, to, ModifiedIds(from, to), to.Keys);
    CountWhole(NewOnes(d.modified), to, ModifiedIds(from, to), Any);
  }

  lemma {:induction false} LiveSplit(issues: seq<Record>)
    ensures CountIf(issues, Live) == CountIf(issues, CountsOpen) + CountIf(issues, Limbo)
  {
    if issues != [] {
      LiveSplit(issues[..|issues| - 1]);
    }
  }

  /** The net change is the change of the total. */
  lemma NetChange(before: seq<Record>, after: seq<Record>, d: Changes)
    requires CacheStream.UniqueIds(before) && CacheStream.UniqueIds(after) && Faithful(ById(before), ById(after), d)
    ensures |after| - |before| == |d.added| - |d.removed|
  {
    var from, to := ById(before), ById(after);
    CountKeys(before);
    CountKeys(after);
    CountWhole(d.added, to, NewIds(from, to), Any);
    CountWhole(d.removed, from, RemovedIds(from, to), Any);
    KeyBalance(from.Keys, to.Keys);
  }

  predicate Any(status: string) { true }

  lemma CountKeys(issues: seq<Record>)
    requires CacheStream.UniqueIds(issues)
    ensures |issues| == |ById(issues).Keys|
  {
    CountIfSet(issues, Any);
    CountAll(issues, Any);
    assert IdsWith(ById(issues), Any) == ById(issues).Keys;
  }

  lemma KeyBalance(a: set<string>, b: set<string>)
    ensures |b| - |a| == |b - a| - |a - b|
  {
    var both := a * b;
    CardSplit(a, both);
    CardSplit(b, both);
    assert a - both == a - b && b - both == b - a;
  }
}
