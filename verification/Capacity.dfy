/**
 The capacity simulation of cmd/bt/robot_forecast.go: which open issues can start, the longest simple chain of
 dependencies from one of them by exhaustive search, and the minutes that follow.
 */
module Capacity {
  import opened Issues
  import opened Sums
  import opened Digraphs

  predicate IsOpenStatus(status: string) {
    status != "closed"
  }

  /** The issues by ID, the last one winning. */
  function IssueMap(issues: seq<Issue>): (m: map<string, Issue>)
    ensures forall id :: id in m <==> exists i | 0 <= i < |issues| :: issues[i].id == id
    ensures forall id | id in m :: m[id] in issues && m[id].id == id
  {
    if issues == [] then map[]
    else
      var last := issues[|issues| - 1];
      IssueMap(issues[..|issues| - 1])[last.id := last]
  }

  ghost predicate DistinctIds(issues: seq<Issue>)
  {
    forall i, j | 0 <= i < j < |issues| :: issues[i].id != issues[j].id
  }

  /** With unique IDs the map holds each issue. */
  lemma MapHolds(issues: seq<Issue>, i: nat)
    requires DistinctIds(issues) && i < |issues|
    ensures issues[i].id in IssueMap(issues) && IssueMap(issues)[issues[i].id] == issues[i]
  {
    var m := IssueMap(issues);
    assert issues[i].id in m;
    var k :| 0 <= k < |issues| && issues[k] == m[issues[i].id];
  }

  /** Any kind of dependency of issue iss on dep. */
  ghost predicate DependsOn(iss: Issue, dep: string)
  {
    exists j | 0 <= j < |iss.deps| :: iss.deps[j].Some? && iss.deps[j].value.target == dep
  }

  ghost predicate Open(issues: seq<Issue>, id: string)
  {
    id in IssueMap(issues) && IsOpenStatus(IssueMap(issues)[id].status)
  }

  /** From what is depended on to the open issue that depends on it. */
  ghost function Unblocks(issues: seq<Issue>): set<(string, string)>
  {
    set u, v | u in IssueMap(issues) && v in IssueMap(issues) && Open(issues, v)
      && DependsOn(IssueMap(issues)[v], u) :: (u, v)
  }

  ghost predicate Actionable(issues: seq<Issue>, id: string)
  {
    Open(issues, id) && forall u | Open(issues, u) :: (u, id) !in Unblocks(issues)
  }

  // ---------- the search for the longest chain ----------

  /** The recursive closure with the variables it shares: visited and longestChain. */
  class Chains {
    const blocks: map<string, seq<string>>
    var visited: set<string>
    var longest: seq<string>
    ghost const universe: set<string>

    constructor (blocks: map<string, seq<string>>, ghost universe: set<string>)
      ensures this.blocks == blocks && this.universe == universe && visited == {} && longest == []
    {
      this.blocks := blocks;
      this.universe := universe;
      visited := {};
      longest := [];
    }

    ghost predicate Simple(p: seq<string>)
    {
      Linked(blocks, p) && Distinct(p)
    }

    /** No simple chain that begins with p and goes on to one of the given nodes is longer than the bound. */
    ghost predicate Bounded(p: seq<string>, next: seq<string>, bound: nat)
    {
      forall q | p <= q && Simple(q) && (|q| == |p| || q[|p|] in next) :: |q| <= bound
    }

    /** The chain on record was there before, or goes on from p and is simple. */
    ghost predicate Recorded(p: seq<string>, before: seq<string>)
      reads this
    {
      && |before| <= |longest|
      && (longest == before || (p <= longest && Simple(longest)))
    }

    lemma Repeats(p: seq<string>, id: string)
      requires id in p
      ensures Bounded(p, [id], |p|)
    {
      forall q | p <= q && Simple(q) && (|q| == |p| || q[|p|] in [id]) ensures |q| <= |p| {
        var i :| 0 <= i < |p| && p[i] == id;
        assert q[i] == p[i];
      }
    }

    lemma Entered(p: seq<string>, id: string, bound: nat)
      requires |p| < bound && Bounded(p + [id], At(blocks, id), bound)
      ensures Bounded(p, [id], bound)
    {
      forall q | p <= q && Simple(q) && (|q| == |p| || q[|p|] in [id]) ensures |q| <= bound {
        if |q| > |p| {
          assert p + [id] <= q;
          assert |q| > |p| + 1 ==> q[|p| + 1] in At(blocks, q[|p|]);
        }
      }
    }

    lemma BoundedSnoc(p: seq<string>, next: seq<string>, id: string, bound: nat, longer: nat)
      requires Bounded(p, next, bound) && Bounded(p, [id], longer) && bound <= longer
      ensures Bounded(p, next + [id], longer)
    {
      forall q | p <= q && Simple(q) && (|q| == |p| || q[|p|] in next + [id]) ensures |q| <= longer {
        assert |q| == |p| || q[|p|] in next || q[|p|] in [id];
      }
    }

    /** All simple chains that go on from path over id are met. */
    method Dfs(id: string, path: seq<string>)
      requires (forall u | u in path :: u in visited) && (forall u | u in visited :: u in path) && visited <= universe
      requires Simple(path) && id in universe && (path != [] ==> id in At(blocks, path[|path| - 1]))
      requires forall u, v | v in At(blocks, u) :: v in universe
      requires |path| <= |longest|
      modifies this`visited, this`longest
      ensures visited == old(visited)
      ensures Recorded(path + [id], old(longest))
      ensures Bounded(path, [id], |longest|)
      decreases universe - visited, 1
    {
      if id in visited {
        Repeats(path, id);
        return;
      }
      visited := visited + {id};
      var here := path + [id];
      if |here| > |longest| {
        longest := here;
      }
      Further(id, here, old(longest));
      Entered(path, id, |longest|);
      visited := visited - {id};
    }

    /** The outer loop: a search from each start. */
    method FromAll(starts: seq<string>)
      requires visited == {} && longest == [] && (forall u | u in starts :: u in universe)
      requires forall u, v | v in At(blocks, u) :: v in universe
      modifies this`visited, this`longest
      ensures Bounded([], starts, |longest|)
      ensures longest == [] || (Simple(longest) && longest[0] in starts)
    {
      for i := 0 to |starts|
        invariant visited == {} && Bounded([], starts[..i], |longest|)
        invariant longest == [] || (Simple(longest) && longest[0] in starts)
      {
        assert starts[i] in starts;
        ghost var bound := |longest|;
        Dfs(starts[i], []);
        assert starts[..i + 1] == starts[..i] + [starts[i]];
        BoundedSnoc([], starts[..i], starts[i], bound, |longest|);
      }
      assert starts[..|starts|] == starts;
    }

    /** The loop over what id unblocks. */
    method Further(id: string, path: seq<string>, ghost before: seq<string>)
      requires (forall u | u in path :: u in visited) && (forall u | u in visited :: u in path) && visited <= universe
      requires Simple(path) && path != [] && path[|path| - 1] == id && |path| <= |longest|
      requires forall u, v | v in At(blocks, u) :: v in universe
      requires Recorded(path, before)
      modifies this`visited, this`longest
      ensures visited == old(visited) && |longest| >= |path|
      ensures Recorded(path, before)
      ensures Bounded(path, At(blocks, id), |longest|)
      decreases universe - visited, |At(blocks, id)| + 2
    {
      var next := At(blocks, id);
      for i := 0 to |next|
        invariant visited == old(visited) && |longest| >= |path|
        invariant Recorded(path, before)
        invariant Bounded(path, next[..i], |longest|)
      {
        ghost var bound := |longest|;
        Dfs(next[i], path);
        assert next[..i + 1] == next[..i] + [next[i]];
        BoundedSnoc(path, next[..i], next[i], bound, |longest|);
      }
      assert next[..|next|] == next;
    }
  }

  // ---------- the graph ----------

  method OpenIssues(issues: seq<Issue>) returns (opens: seq<Issue>)
    requires DistinctIds(issues)
    ensures DistinctIds(opens) && forall iss :: iss in opens <==> iss in issues && IsOpenStatus(iss.status)
  {
    opens := [];
    for i := 0 to |issues|
      invariant forall iss :: iss in opens <==> iss in issues[..i] && IsOpenStatus(iss.status)
      invariant DistinctIds(opens)
    {
      assert issues[..i + 1] == issues[..i] + [issues[i]];
      if IsOpenStatus(issues[i].status) {
        opens := opens + [issues[i]];
      }
    }
    assert issues[..|issues|] == issues;
  }

  /** Dependency l of open issue k is on an issue of the map. */
  ghost predicate Known(m: map<string, Issue>, opens: seq<Issue>, k: nat, l: nat)
  {
    k < |opens| && l < |opens[k].deps| && opens[k].deps[l].Some? && opens[k].deps[l].value.target in m
  }

  /** What the loops have covered: all open issues before i, and of issue i the dependencies before j. */
  ghost function Covered(m: map<string, Issue>, opens: seq<Issue>, i: nat, j: nat): set<(string, string)>
  {
    set k, l | 0 <= k < |opens| && 0 <= l < |opens[k].deps| && Known(m, opens, k, l) && (k < i || (k == i && l < j)) ::
      (opens[k].deps[l].value.target, opens[k].id)
  }

  lemma CoveredMore(m: map<string, Issue>, opens: seq<Issue>, i: nat, j: nat)
    requires i < |opens| && j < |opens[i].deps|
    ensures Known(m, opens, i, j) ==>
      Covered(m, opens, i, j + 1) == Covered(m, opens, i, j) + {(opens[i].deps[j].value.target, opens[i].id)}
    ensures !Known(m, opens, i, j) ==> Covered(m, opens, i, j + 1) == Covered(m, opens, i, j)
  {
  }

  lemma CoveredNext(m: map<string, Issue>, opens: seq<Issue>, i: nat)
    requires i < |opens|
    ensures Covered(m, opens, i + 1, 0) == Covered(m, opens, i, |opens[i].deps|)
  {
  }

  lemma CoveredAll(issues: seq<Issue>, opens: seq<Issue>)
    requires DistinctIds(issues) && forall iss :: iss in opens <==> iss in issues && IsOpenStatus(iss.status)
    ensures Covered(IssueMap(issues), opens, |opens|, 0) == Unblocks(issues)
  {
    var m := IssueMap(issues);
    forall u, v | (u, v) in Covered(m, opens, |opens|, 0) ensures (u, v) in Unblocks(issues) {
      var k, l :| 0 <= k < |opens| && 0 <= l < |opens[k].deps| && Known(m, opens, k, l) &&
        opens[k].deps[l].value.target == u && opens[k].id == v;
      assert opens[k] in opens;
      var i :| 0 <= i < |issues| && issues[i] == opens[k];
      MapHolds(issues, i);
    }
    forall u, v | (u, v) in Unblocks(issues) ensures (u, v) in Covered(m, opens, |opens|, 0) {
      var iss := m[v];
      assert iss in opens;
      var k :| 0 <= k < |opens| && opens[k] == iss;
      var l :| 0 <= l < |iss.deps| && iss.deps[l].Some? && iss.deps[l].value.target == u;
      assert Known(m, opens, k, l);
    }
  }

  /** Both ways round: what blocks an issue, and what an issue blocks. */
  method BuildBlocks(m: map<string, Issue>, opens: seq<Issue>)
      returns (blockedBy: map<string, seq<string>>, blocks: map<string, seq<string>>)
    ensures ListsOf(blocks, Covered(m, opens, |opens|, 0))
    ensures ListsOf(blockedBy, Flip(Covered(m, opens, |opens|, 0)))
  {
    blockedBy, blocks := map[], map[];
    assert Covered(m, opens, 0, 0) == {};
    for i := 0 to |opens|
      invariant ListsOf(blocks, Covered(m, opens, i, 0)) && ListsOf(blockedBy, Flip(Covered(m, opens, i, 0)))
    {
      for j := 0 to |opens[i].deps|
        invariant ListsOf(blocks, Covered(m, opens, i, j)) && ListsOf(blockedBy, Flip(Covered(m, opens, i, j)))
      {
        CoveredMore(m, opens, i, j);
        var dep := opens[i].deps[j];
        if dep.None? || dep.value.target !in m {
          continue;
        }
        var depId := dep.value.target;
        AppendedLists(blocks, Covered(m, opens, i, j), depId, opens[i].id);
        AppendedLists(blockedBy, Flip(Covered(m, opens, i, j)), opens[i].id, depId);
        FlipMore(Covered(m, opens, i, j), depId, opens[i].id);
        blockedBy := Appended(blockedBy, opens[i].id, depId);
        blocks := Appended(blocks, depId, opens[i].id);
      }
      CoveredNext(m, opens, i);
    }
  }

  lemma FlipMore(arcs: set<(string, string)>, u: string, v: string)
    ensures Flip(arcs + {(u, v)}) == Flip(arcs) + {(v, u)}
  {
    forall a ensures a in Flip(arcs + {(u, v)}) <==> a in Flip(arcs) + {(v, u)} {
      if a in Flip(arcs) {
        assert (a.1, a.0) in arcs;
      }
      if a == (v, u) {
        assert (u, v) in arcs + {(u, v)};
      }
    }
  }

  ghost predicate Among(opens: seq<Issue>, i: nat, id: string)
  {
    exists k | 0 <= k < i && k < |opens| :: opens[k].id == id
  }

  lemma AmongNext(opens: seq<Issue>, i: nat)
    requires i < |opens|
    ensures forall id :: Among(opens, i + 1, id) <==> Among(opens, i, id) || id == opens[i].id
  {
    forall id ensures Among(opens, i + 1, id) <==> Among(opens, i, id) || id == opens[i].id {
      if id == opens[i].id {
        assert Among(opens, i + 1, id);
      }
    }
  }

  lemma NotAmong(opens: seq<Issue>, i: nat)
    requires DistinctIds(opens) && i < |opens|
    ensures !Among(opens, i, opens[i].id)
  {
  }

  method ActionableIssues(issues: seq<Issue>, opens: seq<Issue>, blockedBy: map<string, seq<string>>)
      returns (actionable: seq<string>)
    requires DistinctIds(issues) && forall iss :: iss in opens <==> iss in issues && IsOpenStatus(iss.status)
    requires DistinctIds(opens) && ListsOf(blockedBy, Flip(Unblocks(issues)))
    ensures Distinct(actionable) && forall id :: id in actionable <==> Actionable(issues, id)
  {
    var m := IssueMap(issues);
    actionable := [];
    for i := 0 to |opens|
      invariant Distinct(actionable)
      invariant forall id :: id in actionable <==> Actionable(issues, id) && Among(opens, i, id)
    {
      OpenIssue(issues, opens, i);
      AmongNext(opens, i);
      NotAmong(opens, i);
      var hasOpenBlocker := HasOpenBlocker(issues, opens[i].id, blockedBy);
      if !hasOpenBlocker {
        actionable := actionable + [opens[i].id];
      }
    }
    forall id | Actionable(issues, id) ensures Among(opens, |opens|, id) {
      assert m[id] in opens;
    }
  }

  lemma OpenIssue(issues: seq<Issue>, opens: seq<Issue>, i: nat)
    requires DistinctIds(issues) && forall iss :: iss in opens <==> iss in issues && IsOpenStatus(iss.status)
    requires i < |opens|
    ensures Open(issues, opens[i].id)
  {
    assert opens[i] in opens;
    var k :| 0 <= k < |issues| && issues[k] == opens[i];
    MapHolds(issues, k);
  }

  method HasOpenBlocker(issues: seq<Issue>, id: string, blockedBy: map<string, seq<string>>) returns (blocked: bool)
    requires ListsOf(blockedBy, Flip(Unblocks(issues)))
    ensures blocked <==> exists u | (u, id) in Unblocks(issues) :: Open(issues, u)
  {
    var m := IssueMap(issues);
    var list := At(blockedBy, id);
    forall u ensures u in list <==> (u, id) in Unblocks(issues) {
      InList(blockedBy, Flip(Unblocks(issues)), id, u);
      FlipTwice(Unblocks(issues));
    }
    for i := 0 to |list|
      invariant forall j | 0 <= j < i :: !Open(issues, list[j])
    {
      if list[i] in m && IsOpenStatus(m[list[i]].status) {
        assert list[i] in list;
        return true;
      }
    }
    return false;
  }

  // ---------- the graph in terms of the issues ----------

  /** v is an open issue of the list, and one of its dependencies points to u. */
  ghost predicate WaitsFor(issues: seq<Issue>, v: string, u: string)
  {
    exists k, l | 0 <= k < |issues| && 0 <= l < |issues[k].deps| ::
      && issues[k].id == v && issues[k].status != "closed"
      && issues[k].deps[l].Some? && issues[k].deps[l].value.target == u
  }

  ghost predicate HasIssue(issues: seq<Issue>, id: string)
  {
    exists k | 0 <= k < |issues| :: issues[k].id == id
  }

  ghost predicate HasOpen(issues: seq<Issue>, id: string)
  {
    exists k | 0 <= k < |issues| :: issues[k].id == id && issues[k].status != "closed"
  }

  lemma OpenMeaning(issues: seq<Issue>, id: string)
    requires DistinctIds(issues)
    ensures Open(issues, id) <==> HasOpen(issues, id)
  {
    if Open(issues, id) {
      var iss := IssueMap(issues)[id];
      var k :| 0 <= k < |issues| && issues[k] == iss;
    }
    if k :| 0 <= k < |issues| && issues[k].id == id && issues[k].status != "closed" {
      MapHolds(issues, k);
    }
  }

  /** What unblocks what, read off the issues. */
  lemma UnblocksMeaning(issues: seq<Issue>, u: string, v: string)
    requires DistinctIds(issues)
    ensures (u, v) in Unblocks(issues) <==> HasIssue(issues, u) && WaitsFor(issues, v, u)
  {
    if (u, v) in Unblocks(issues) {
      var iss := IssueMap(issues)[v];
      var k :| 0 <= k < |issues| && issues[k] == iss;
      var l :| 0 <= l < |iss.deps| && iss.deps[l].Some? && iss.deps[l].value.target == u;
      assert issues[k].deps[l].value.target == u;
    }
    if HasIssue(issues, u) && WaitsFor(issues, v, u) {
      var k, l :| 0 <= k < |issues| && 0 <= l < |issues[k].deps| && issues[k].id == v && issues[k].status != "closed"
        && issues[k].deps[l].Some? && issues[k].deps[l].value.target == u;
      MapHolds(issues, k);
      assert DependsOn(issues[k], u);
    }
  }

  /** An issue can start: it is open and waits for no open issue. */
  lemma ActionableMeaning(issues: seq<Issue>, id: string)
    requires DistinctIds(issues)
    ensures Actionable(issues, id) <==> HasOpen(issues, id) && forall u | HasOpen(issues, u) :: !WaitsFor(issues, id, u)
  {
    OpenMeaning(issues, id);
    forall u ensures Open(issues, u) <==> HasOpen(issues, u) {
      OpenMeaning(issues, u);
    }
    forall u | HasOpen(issues, u) ensures (u, id) in Unblocks(issues) <==> WaitsFor(issues, id, u) {
      UnblocksMeaning(issues, u, id);
    }
  }

  // ---------- the longest chain ----------

  /** A chain of issues, each depending on the one before, none twice, that can start now. */
  ghost predicate SimpleChain(issues: seq<Issue>, p: seq<string>)
  {
    Trail(Unblocks(issues), p) && Distinct(p) && Actionable(issues, p[0])
  }

  ghost predicate IsLongest(issues: seq<Issue>, chain: seq<string>)
  {
    && (chain == [] || SimpleChain(issues, chain))
    && forall p | SimpleChain(issues, p) :: |p| <= |chain|
  }

  method LongestChain(issues: seq<Issue>, actionable: seq<string>, blocks: map<string, seq<string>>)
      returns (chain: seq<string>)
    requires ListsOf(blocks, Unblocks(issues)) && forall id :: id in actionable <==> Actionable(issues, id)
    ensures IsLongest(issues, chain)
  {
    var search := new Chains(blocks, IssueMap(issues).Keys);
    forall u, v | v in At(blocks, u) ensures v in IssueMap(issues) {
      InList(blocks, Unblocks(issues), u, v);
    }
    search.FromAll(actionable);
    chain := search.longest;
    LongestFound(issues, actionable, search, chain);
  }

  lemma LongestFound(issues: seq<Issue>, actionable: seq<string>, search: Chains, chain: seq<string>)
    requires ListsOf(search.blocks, Unblocks(issues)) && forall id :: id in actionable <==> Actionable(issues, id)
    requires search.Bounded([], actionable, |chain|)
    requires chain == [] || (search.Simple(chain) && chain[0] in actionable)
    ensures IsLongest(issues, chain)
  {
    if chain != [] {
      forall i | 0 <= i < |chain| - 1 ensures (chain[i], chain[i + 1]) in Unblocks(issues) {
        InList(search.blocks, Unblocks(issues), chain[i], chain[i + 1]);
      }
    }
    forall p | SimpleChain(issues, p) ensures |p| <= |chain| {
      forall i | 0 <= i < |p| - 1 ensures p[i + 1] in At(search.blocks, p[i]) {
        InList(search.blocks, Unblocks(issues), p[i], p[i + 1]);
      }
      assert [] <= p && search.Simple(p);
    }
  }

  /** Every issue of a chain is open. */
  lemma ChainOpen(issues: seq<Issue>, p: seq<string>)
    requires SimpleChain(issues, p)
    ensures forall i | 0 <= i < |p| :: Open(issues, p[i])
  {
    forall i | 0 <= i < |p| ensures Open(issues, p[i]) {
      if i > 0 {
        assert (p[i - 1], p[i - 1 + 1]) in Unblocks(issues);
      }
    }
  }

  // ---------- minutes ----------

  ghost function Minutes(cost: string -> nat, ids: seq<string>): nat
  {
    if ids == [] then 0 else cost(ids[0]) + Minutes(cost, ids[1..])
  }

  lemma {:induction false} MinutesSnoc(cost: string -> nat, ids: seq<string>, id: string)
    ensures Minutes(cost, ids + [id]) == Minutes(cost, ids) + cost(id)
  {
    if ids == [] {
      assert [] + [id] == [id] && [id][1..] == [];
    } else {
      MinutesSnoc(cost, ids[1..], id);
      assert (ids + [id])[1..] == ids[1..] + [id];
    }
  }

  lemma {:induction false} MinutesWithout(cost: string -> nat, ids: seq<string>, k: nat)
    requires k < |ids|
    ensures Minutes(cost, ids) == Minutes(cost, ids[..k] + ids[k + 1..]) + cost(ids[k])
  {
    if k == 0 {
      assert ids[..0] + ids[1..] == ids[1..];
    } else {
      MinutesWithout(cost, ids[1..], k - 1);
      assert (ids[..k] + ids[k + 1..])[1..] == ids[1..][..k - 1] + ids[1..][k..];
    }
  }

  /** Minutes add up. */
  lemma {:induction false} MinutesAdd(cost: string -> nat, a: seq<string>, b: seq<string>)
    ensures Minutes(cost, a + b) == Minutes(cost, a) + Minutes(cost, b)
  {
    if b == [] {
      assert a + b == a;
    } else {
      var n := |b| - 1;
      MinutesAdd(cost, a, b[..n]);
      MinutesSnoc(cost, a + b[..n], b[n]);
      MinutesSnoc(cost, b[..n], b[n]);
      assert a + b == (a + b[..n]) + [b[n]] && b == b[..n] + [b[n]];
    }
  }

  lemma MinutesOne(cost: string -> nat, id: string)
    ensures Minutes(cost, [id]) == cost(id)
  {
    assert [id][1..] == [];
  }

  /** Distinct IDs out of a list take no more than the whole list. */
  lemma {:induction false} MinutesPart(cost: string -> nat, part: seq<string>, all: seq<string>)
    requires Distinct(part) && forall id | id in part :: id in all
    ensures Minutes(cost, part) <= Minutes(cost, all)
  {
    if part != [] {
      var id := part[0];
      assert id in part && id in all;
      var k :| 0 <= k < |all| && all[k] == id;
      MinutesWithout(cost, all, k);
      var rest := all[..k] + all[k + 1..];
      forall x | x in part[1..] ensures x in rest {
        assert x in part && x in all;
        var i :| 0 <= i < |all| && all[i] == x;
        assert i < k ==> rest[i] == x;
        assert i > k ==> rest[i - 1] == x;
      }
      MinutesPart(cost, part[1..], rest);
    }
  }

  method TotalMinutes(cost: string -> nat, ids: seq<string>) returns (total: nat)
    ensures total == Minutes(cost, ids)
  {
    total := 0;
    for i := 0 to |ids|
      invariant total == Minutes(cost, ids[..i])
    {
      MinutesSnoc(cost, ids[..i], ids[i]);
      assert ids[..i + 1] == ids[..i] + [ids[i]];
      total := total + cost(ids[i]);
    }
    assert ids[..|ids|] == ids;
  }

  function Effective(total: nat, serial: nat, agents: nat): nat
    requires serial <= total && agents > 0
  {
    serial + (total - serial) / agents
  }

  /** Between the chain and all the work; all the work for one agent; more agents never take longer. */
  lemma EffectiveBounds(total: nat, serial: nat, a: nat, b: nat)
    requires serial <= total && 0 < a <= b
    ensures serial <= Effective(total, serial, b) <= Effective(total, serial, a) <= total
    ensures Effective(total, serial, 1) == total
    ensures a > total - serial ==> Effective(total, serial, a) == serial
  {
    DivideMore(total - serial, a, b);
    DivideMore(total - serial, 1, a);
  }

  lemma DivideMore(x: nat, a: nat, b: nat)
    requires 0 < a <= b
    ensures 0 <= x / b <= x / a
    ensures a > x ==> x / a == 0
  {
    Quotient(x, a);
    Quotient(x, b);
    QuotientsFall(x, a, b, x / a, x / b);
    if a > x && x / a > 0 {
      TimesGrows(a, 1, x / a);
    }
  }

  lemma Quotient(x: nat, a: nat)
    requires a > 0
    ensures x / a >= 0 && a * (x / a) <= x < a * (x / a + 1)
  {
    var q, r := x / a, x % a;
    assert x == a * q + r && 0 <= r < a;
    OneMoreTimes(a, q);
  }

  lemma OneMoreTimes(a: nat, q: int)
    ensures a * (q + 1) == a * q + a
  {
  }

  lemma TimesGrows(a: nat, p: nat, q: nat)
    requires p <= q
    ensures a * p <= a * q && p * a <= q * a
  {
  }

  lemma QuotientsFall(x: nat, a: nat, b: nat, p: nat, q: nat)
    requires 0 < a <= b && x < a * (p + 1) && b * q <= x
    ensures q <= p
  {
    if q > p {
      TimesGrows(a, p + 1, q);
      TimesGrows(q, a, b);
    }
  }

  // ---------- the whole function ----------

  datatype Report = Report(agents: nat, total: nat, serial: nat, parallel: nat, effective: nat,
                           criticalPath: seq<string>, actionable: seq<string>)

  function Ids(issues: seq<Issue>): (ids: seq<string>)
    ensures |ids| == |issues| && forall i | 0 <= i < |issues| :: ids[i] == issues[i].id
  {
    seq(|issues|, i requires 0 <= i < |issues| => issues[i].id)
  }

  method CriticalChain(issues: seq<Issue>, opens: seq<Issue>) returns (chain: seq<string>, actionable: seq<string>)
    requires DistinctIds(issues) && forall iss :: iss in opens <==> iss in issues && IsOpenStatus(iss.status)
    requires DistinctIds(opens)
    ensures IsLongest(issues, chain)
    ensures Distinct(actionable) && forall id :: id in actionable <==> Actionable(issues, id)
  {
    var blockedBy, blocks := BuildBlocks(IssueMap(issues), opens);
    CoveredAll(issues, opens);
    actionable := ActionableIssues(issues, opens, blockedBy);
    chain := LongestChain(issues, actionable, blocks);
  }

  method EffectiveMinutes(total: nat, serial: nat, agents: nat) returns (effective: nat)
    requires serial <= total && agents > 0
    ensures effective == Effective(total, serial, agents)
    ensures serial <= effective <= total && (agents == 1 ==> effective == total)
  {
    EffectiveBounds(total, serial, agents, agents);
    var parallel := total - serial;
    effective := serial + parallel / agents;
  }

  lemma Rounded(r: Report, total: nat, serial: nat, effective: nat)
    requires serial <= effective && serial <= total && r.effective == effective && r.serial == serial
    requires r.parallel == total - serial
    requires r.agents * (effective - serial) <= total - serial < r.agents * (effective - serial + 1)
    ensures r.agents * (r.effective - r.serial) <= r.parallel < r.agents * (r.effective - r.serial + 1)
  {
  }

  lemma DividedReport(r: Report, total: nat, serial: nat)
    requires serial <= total && r.agents > 0 && r.serial == serial && r.parallel == total - serial
    requires r.effective == Effective(total, serial, r.agents)
    ensures r.agents * (r.effective - r.serial) <= r.parallel < r.agents * (r.effective - r.serial + 1)
  {
    EffectiveBounds(total, serial, r.agents, r.agents);
    Quotient(total - serial, r.agents);
    Rounded(r, total, serial, r.effective);
  }

  /** cost stands for the minutes the estimator gives an issue. */
  method RunCapacity(issues: seq<Issue>, cost: string -> nat, capacityAgents: int)
      returns (r: Report, ghost opens: seq<Issue>)
    requires DistinctIds(issues)
    ensures DistinctIds(opens) && forall iss :: iss in opens <==> iss in issues && iss.status != "closed"
    ensures IsLongest(issues, r.criticalPath)
    ensures Distinct(r.actionable) && forall id :: id in r.actionable <==> Actionable(issues, id)
    ensures r.agents == if capacityAgents <= 0 then 1 else capacityAgents
    ensures r.total == Minutes(cost, Ids(opens)) && r.serial == Minutes(cost, r.criticalPath)
    ensures r.serial <= r.effective <= r.total && (r.agents == 1 ==> r.effective == r.total)
    ensures r.serial + r.parallel == r.total && r.effective == Effective(r.total, r.serial, r.agents)
    ensures r.agents * (r.effective - r.serial) <= r.parallel < r.agents * (r.effective - r.serial + 1)
  {
    var open := OpenIssues(issues);
    opens := open;
    var agents := if capacityAgents <= 0 then 1 else capacityAgents;
    var total := TotalMinutes(cost, Ids(open));
    var chain, actionable := CriticalChain(issues, open);
    var serial := TotalMinutes(cost, chain);
    ChainWithinOpen(issues, open, cost, chain);
    var effective := EffectiveMinutes(total, serial, agents);
    r := Report(agents, total, serial, total - serial, effective, chain, actionable);
    DividedReport(r, total, serial);
  }

  lemma ChainWithinOpen(issues: seq<Issue>, opens: seq<Issue>, cost: string -> nat, chain: seq<string>)
    requires DistinctIds(issues) && forall iss :: iss in opens <==> iss in issues && IsOpenStatus(iss.status)
    requires chain == [] || SimpleChain(issues, chain)
    ensures Minutes(cost, chain) <= Minutes(cost, Ids(opens))
  {
    if chain != [] {
      ChainOpen(issues, chain);
      forall id | id in chain ensures id in Ids(opens) {
        var k :| 0 <= k < |chain| && chain[k] == id;
        var iss := IssueMap(issues)[id];
        assert iss in opens;
        var i :| 0 <= i < |opens| && opens[i] == iss;
        assert Ids(opens)[i] == id;
      }
      MinutesPart(cost, chain, Ids(opens));
    }
  }
}
