/**
 The guard in front of a new dependency, pkg/analysis/cycle_warnings.go: a recursive depth-first search from the
 new target towards the new source, and the theorem about any run of approved additions.
 */
module CycleGuard {
  import opened Issues
  import opened Digraphs
  import opened Sums
  import Sorting

  /** The blocking dependencies as arcs from an issue to what it depends on. */
  ghost function Blocking(issues: seq<Issue>): (arcs: set<(string, string)>)
    ensures forall u, v :: (u, v) in arcs <==> DependsOn(issues, u, v)
  {
    set i, j | 0 <= i < |issues| && 0 <= j < |issues[i].deps| && IsBlocking(issues[i].deps[j]) ::
      (issues[i].id, issues[i].deps[j].value.target)
  }

  ghost predicate DependsOn(issues: seq<Issue>, u: string, v: string)
  {
    exists i, j | 0 <= i < |issues| && 0 <= j < |issues[i].deps| && IsBlocking(issues[i].deps[j]) ::
      issues[i].id == u && issues[i].deps[j].value.target == v
  }

  ghost predicate LinksTo(issue: Issue, v: string)
  {
    Some(Dependency(v, "blocks")) in issue.deps || Some(Dependency(v, "")) in issue.deps
  }

  /** The arcs on the records: a dependency blocks when its type says so or is missing. */
  lemma BlockingMeaning(issues: seq<Issue>, u: string, v: string)
    ensures (u, v) in Blocking(issues) <==> exists issue :: issue in issues && issue.id == u && LinksTo(issue, v)
  {
    if DependsOn(issues, u, v) {
      var i, j :| 0 <= i < |issues| && 0 <= j < |issues[i].deps| && IsBlocking(issues[i].deps[j]) &&
        issues[i].id == u && issues[i].deps[j].value.target == v;
      assert issues[i].deps[j] == Some(Dependency(v, issues[i].deps[j].value.kind));
      assert issues[i] in issues && LinksTo(issues[i], v);
    }
    if issue :| issue in issues && issue.id == u && LinksTo(issue, v) {
      var i :| 0 <= i < |issues| && issues[i] == issue;
      var j :| 0 <= j < |issue.deps| && issue.deps[j] in {Some(Dependency(v, "blocks")), Some(Dependency(v, ""))};
      assert IsBlocking(issues[i].deps[j]);
    }
  }

  // ---------- adjacency lists ----------

  type Lists = map<string, seq<string>>

  /** What the build loop has covered: all issues before i, and of issue i the dependencies before j. */
  ghost function Covered(issues: seq<Issue>, i: nat, j: nat): set<(string, string)>
  {
    set k, l | 0 <= k < |issues| && 0 <= l < |issues[k].deps| && IsBlocking(issues[k].deps[l])
      && (k < i || (k == i && l < j)) ::
      (issues[k].id, issues[k].deps[l].value.target)
  }

  lemma CoveredNext(issues: seq<Issue>, i: nat, j: nat)
    requires i < |issues| && j < |issues[i].deps|
    ensures var dep := issues[i].deps[j];
      Covered(issues, i, j + 1) ==
      Covered(issues, i, j) + if IsBlocking(dep) then {(issues[i].id, dep.value.target)} else {}
  {
  }

  lemma CoveredIssue(issues: seq<Issue>, i: nat)
    requires i < |issues|
    ensures Covered(issues, i + 1, 0) == Covered(issues, i, |issues[i].deps|)
  {
  }

  method BuildLists(issues: seq<Issue>) returns (adj: Lists)
    ensures ListsOf(adj, Blocking(issues))
  {
    adj := map[];
    assert Covered(issues, 0, 0) == {};
    for i := 0 to |issues|
      invariant ListsOf(adj, Covered(issues, i, 0))
    {
      for j := 0 to |issues[i].deps|
        invariant ListsOf(adj, Covered(issues, i, j))
      {
        var dep := issues[i].deps[j];
        CoveredNext(issues, i, j);
        if !IsBlocking(dep) {
          continue;
        }
        adj := Appended(adj, issues[i].id, dep.value.target);
      }
      CoveredIssue(issues, i);
    }
    assert Covered(issues, |issues|, 0) == Blocking(issues);
  }

  /** Sorting every list changes no arc. */
  method SortLists(adj: Lists) returns (sorted: Lists)
    ensures sorted.Keys == adj.Keys
    ensures forall u | u in adj ::
      Sorting.Ascending(Sorting.ById(), sorted[u]) && multiset(sorted[u]) == multiset(adj[u])
    ensures forall u, v :: v in At(sorted, u) <==> v in At(adj, u)
  {
    sorted := adj;
    var keys := adj.Keys;
    while keys != {}
      invariant keys <= adj.Keys && sorted.Keys == adj.Keys
      invariant forall u | u in keys :: sorted[u] == adj[u]
      invariant forall u | u in adj.Keys - keys :: sorted[u] == Sorting.Sort(Sorting.ById(), adj[u])
    {
      var k :| k in keys;
      sorted := sorted[k := Sorting.Sort(Sorting.ById(), sorted[k])];
      keys := keys - {k};
    }
    Sorting.ByIdTotal();
    forall u | u in adj
      ensures Sorting.Ascending(Sorting.ById(), sorted[u]) && multiset(sorted[u]) == multiset(adj[u])
      ensures forall v :: v in sorted[u] <==> v in adj[u]
    {
      Sorting.SortKeeps(Sorting.ById(), adj[u]);
      Sorting.SortAscends(Sorting.ById(), adj[u]);
    }
  }

  // ---------- the search ----------

  /** The recursive closure with the variables it shares: visited, path, and the lists it walks. */
  class Search {
    const adj: Lists
    const goal: string
    var visited: set<string>
    var path: seq<string>
    /** Every node the search can meet. */
    ghost const universe: set<string>

    ghost predicate Valid()
      reads this
    {
      Inv(visited, path)
    }

    ghost predicate Inv(seen: set<string>, p: seq<string>)
    {
      && (forall u, v | v in At(adj, u) :: v in universe)
      && seen <= universe && goal !in seen
      && (forall u | u in p :: u in seen)
      && Distinct(p) && Linked(adj, p)
      && Done(seen, p)
    }

    lemma Enter(seen: set<string>, p: seq<string>, node: string)
      requires Inv(seen, p) && node in universe && node !in seen && node != goal
      requires p != [] ==> node in At(adj, p[|p| - 1])
      ensures Inv(seen + {node}, p + [node])
    {
    }

    lemma Leave(seen: set<string>, p: seq<string>, node: string)
      requires Inv(seen, p + [node]) && forall v | v in At(adj, node) :: v in seen
      ensures Inv(seen, p)
    {
      var q := p + [node];
      assert forall i | 0 <= i < |p| :: q[i] == p[i];
    }

    lemma Arrive(seen: set<string>, p: seq<string>)
      requires Inv(seen, p) && (p != [] ==> goal in At(adj, p[|p| - 1]))
      ensures Distinct(p + [goal]) && Linked(adj, p + [goal])
    {
    }

    /** A visited node that is no longer on the path has had all its neighbours visited. */
    ghost predicate Done(seen: set<string>, p: seq<string>)
    {
      forall u, v | u in seen && u !in p && v in At(adj, u) :: v in seen
    }

    /** The path on success: what it was, then on from node to the goal. */
    ghost predicate Found(before: seq<string>, node: string)
      reads this
    {
      && |before| < |path| && path[..|before|] == before && path[|before|] == node && path[|path| - 1] == goal
      && Distinct(path) && Linked(adj, path)
    }

    constructor (adj: Lists, goal: string, ghost start: string)
      ensures Valid() && visited == {} && path == [] && this.adj == adj && this.goal == goal && start in universe
    {
      this.adj := adj;
      this.goal := goal;
      visited := {};
      path := [];
      universe := {start} + set u, v | u in adj && v in adj[u] :: v;
    }

    method Dfs(node: string) returns (found: bool)
      requires Valid() && node in universe && (path != [] ==> node in At(adj, path[|path| - 1]))
      modifies this`visited, this`path
      ensures old(visited) <= visited
      ensures !found ==> Valid() && path == old(path) && node in visited
      ensures found ==> Found(old(path), node)
      decreases universe - visited, 1
    {
      ghost var before := path;
      if node == goal {
        Arrive(visited, path);
        path := path + [node];
        return true;
      }
      if node in visited {
        return false;
      }
      Enter(visited, path, node);
      visited := visited + {node};
      path := path + [node];
      assert path[..|path| - 1] == before;
      found := Neighbours(node);
      if found {
        return true;
      }
      Leave(visited, before, node);
      path := path[..|path| - 1];
      return false;
    }

    /** The loop over the neighbours of the node on top of the path. */
    method Neighbours(node: string) returns (found: bool)
      requires Valid() && path != [] && path[|path| - 1] == node
      modifies this`visited, this`path
      ensures old(visited) <= visited
      ensures !found ==> Valid() && path == old(path) && forall v | v in At(adj, node) :: v in visited
      ensures found ==> Found(old(path[..|path| - 1]), node)
      decreases universe - visited, |At(adj, node)| + 2
    {
      var next := At(adj, node);
      for i := 0 to |next|
        invariant Valid() && path == old(path) && old(visited) <= visited
        invariant forall j | 0 <= j < i :: next[j] in visited
      {
        found := Dfs(next[i]);
        if found {
          return true;
        }
      }
      return false;
    }
  }

  // ---------- the guard ----------

  /** The reported path: the proposed arc, then old arcs from its head back to its tail, no node twice on the way. */
  ghost predicate NewCycle(issues: seq<Issue>, from: string, to: string, path: seq<string>)
  {
    |path| >= 2 && path[0] == from && TrailFromTo(Blocking(issues), path[1..], to, from) && Distinct(path[1..])
  }

  /** The blocking dependencies and the proposed one, each list in ascending order. */
  method ProposedLists(issues: seq<Issue>, from: string, to: string) returns (adj: Lists)
    ensures ListsOf(adj, Blocking(issues) + {(from, to)})
    ensures forall u | u in adj :: Sorting.Ascending(Sorting.ById(), adj[u])
  {
    var built := BuildLists(issues);
    var proposed := Appended(built, from, to);
    AppendedLists(built, Blocking(issues), from, to);
    adj := SortLists(proposed);
  }

  method WouldCreateCycle(issues: seq<Issue>, from: string, to: string) returns (cycle: bool, path: seq<string>)
    ensures cycle <==> Reaches(Blocking(issues), to, from)
    ensures if cycle then NewCycle(issues, from, to, path) else path == []
  {
    var adj := ProposedLists(issues, from, to);
    var search := new Search(adj, from, to);
    cycle := search.Dfs(to);
    if cycle {
      FoundIsCycle(adj, issues, from, to, search.path);
      path := [from] + search.path;
      assert path[1..] == search.path;
    } else {
      NotFound(adj, Blocking(issues), from, to, search.visited);
      path := [];
    }
  }

  lemma FoundIsCycle(adj: Lists, issues: seq<Issue>, from: string, to: string, p: seq<string>)
    requires ListsOf(adj, Blocking(issues) + {(from, to)})
    requires p != [] && p[0] == to && p[|p| - 1] == from && Distinct(p)
    requires forall i | 0 <= i < |p| - 1 :: p[i + 1] in At(adj, p[i])
    ensures TrailFromTo(Blocking(issues), p, to, from) && Reaches(Blocking(issues), to, from)
  {
    forall i | 0 <= i < |p| - 1 ensures (p[i], p[i + 1]) in Blocking(issues) {
      assert p[i + 1] in At(adj, p[i]);
      assert p[i] != p[|p| - 1];
    }
  }

  /** A visited set that is closed, holds the head and misses the tail proves there is no way. */
  lemma NotFound(adj: Lists, arcs: set<(string, string)>, from: string, to: string, seen: set<string>)
    requires ListsOf(adj, arcs + {(from, to)})
    requires to in seen && from !in seen
    requires forall u, v | u in seen && v in At(adj, u) :: v in seen
    ensures !Reaches(arcs, to, from)
  {
    forall p ensures !TrailFromTo(arcs, p, to, from) {
      if TrailFromTo(arcs, p, to, from) {
        forall u, v | u in seen && (u, v) in arcs ensures v in seen {
          assert v in At(adj, u);
        }
        StaysInside(arcs, seen, p);
      }
    }
  }

  /** The answer CheckDependencyAddition must give. */
  ghost predicate Approved(issues: seq<Issue>, from: string, to: string)
  {
    !Reaches(Blocking(issues), to, from)
  }

  function FormatCyclePath(cycle: seq<string>): string
  {
    if cycle == [] then "" else if |cycle| == 1 then cycle[0] else cycle[0] + " \U{2192} " + FormatCyclePath(cycle[1..])
  }

  /** Paths are written from left to right, with an arrow between any two entries. */
  lemma {:induction false} FormatSplits(a: seq<string>, b: seq<string>)
    requires a != [] && b != []
    ensures FormatCyclePath(a + b) == FormatCyclePath(a) + " \U{2192} " + FormatCyclePath(b)
    ensures |a| == 1 ==> FormatCyclePath(a) == a[0]
  {
    assert (a + b)[1..] == a[1..] + b;
    if |a| > 1 {
      FormatSplits(a[1..], b);
    } else {
      assert a[1..] + b == b;
    }
  }

  function Warning(from: string, to: string, path: seq<string>): string
  {
    "Adding dependency " + from + " \U{2192} " + to + " would create cycle: " + FormatCyclePath(path)
  }

  method CheckDependencyAddition(issues: seq<Issue>, from: string, to: string)
      returns (ok: bool, path: seq<string>, warning: string)
    ensures ok <==> Approved(issues, from, to)
    ensures ok ==> path == [] && warning == ""
    ensures !ok ==> NewCycle(issues, from, to, path)
    ensures !ok ==>
      warning == "Adding dependency " + from + " \U{2192} " + to + " would create cycle: " + FormatCyclePath(path)
  {
    var cycle, cyclePath := WouldCreateCycle(issues, from, to);
    if cycle {
      return false, cyclePath, Warning(from, to, cyclePath);
    }
    return true, [], "";
  }

  // ---------- runs of additions ----------

  /** Issue k with one more dependency. */
  ghost function Added(issues: seq<Issue>, k: nat, dep: Dependency): seq<Issue>
    requires k < |issues|
  {
    issues[k := issues[k].(deps := issues[k].deps + [Some(dep)])]
  }

  lemma AddedArcs(issues: seq<Issue>, k: nat, dep: Dependency)
    requires k < |issues|
    ensures Blocking(Added(issues, k, dep)) ==
      Blocking(issues) + (if IsBlocking(Some(dep)) then {(issues[k].id, dep.target)} else {})
  {
    var next := Added(issues, k, dep);
    var deps := next[k].deps;
    assert deps[|deps| - 1] == Some(dep);
    forall u, v | DependsOn(issues, u, v) ensures DependsOn(next, u, v) {
      var i, j :| 0 <= i < |issues| && 0 <= j < |issues[i].deps| && IsBlocking(issues[i].deps[j]) &&
        issues[i].id == u && issues[i].deps[j].value.target == v;
      assert next[i].deps[j] == issues[i].deps[j];
    }
    forall u, v | DependsOn(next, u, v)
      ensures DependsOn(issues, u, v) || (IsBlocking(Some(dep)) && u == issues[k].id && v == dep.target)
    {
      var i, j :| 0 <= i < |next| && 0 <= j < |next[i].deps| && IsBlocking(next[i].deps[j]) &&
        next[i].id == u && next[i].deps[j].value.target == v;
      if j < |issues[i].deps| {
        assert next[i].deps[j] == issues[i].deps[j];
      }
    }
  }

  /** An approved addition, an addition that does not block, or any change that takes blocking dependencies away. */
  ghost predicate Step(cur: seq<Issue>, next: seq<Issue>)
  {
    || Blocking(next) <= Blocking(cur)
    || exists k: nat, dep | k < |cur| && next == Added(cur, k, dep) ::
      IsBlocking(Some(dep)) ==> Approved(cur, cur[k].id, dep.target)
  }

  ghost predicate IsRun(run: seq<seq<Issue>>)
  {
    |run| > 0 && forall i | 0 <= i < |run| - 1 :: Step(run[i], run[i + 1])
  }

  /** From an acyclic start, the guard keeps every state of every run acyclic. */
  lemma {:induction false} StaysAcyclic(run: seq<seq<Issue>>)
    requires IsRun(run) && Acyclic(Blocking(run[0]))
    ensures forall i | 0 <= i < |run| :: Acyclic(Blocking(run[i]))
  {
    if |run| > 1 {
      var before := run[..|run| - 1];
      StaysAcyclic(before);
      StepAcyclic(before[|before| - 1], run[|run| - 1]) by {
        assert Step(run[|run| - 2], run[|run| - 2 + 1]);
      }
    }
  }

  lemma StepAcyclic(cur: seq<Issue>, next: seq<Issue>)
    requires Acyclic(Blocking(cur)) && Step(cur, next)
    ensures Acyclic(Blocking(next))
  {
    if Blocking(next) <= Blocking(cur) {
      FewerArcs(Blocking(next), Blocking(cur));
    } else {
      var k: nat, dep :| k < |cur| && next == Added(cur, k, dep)
        && (IsBlocking(Some(dep)) ==> Approved(cur, cur[k].id, dep.target));
      AddedArcs(cur, k, dep);
      if IsBlocking(Some(dep)) {
        NewArcCycle(Blocking(cur), cur[k].id, dep.target);
      }
    }
  }

  /** And it refuses nothing it could have allowed. */
  lemma RefusesOnlyCycles(issues: seq<Issue>, k: nat, dep: Dependency)
    requires k < |issues| && IsBlocking(Some(dep)) && Acyclic(Blocking(issues))
    ensures Acyclic(Blocking(Added(issues, k, dep))) <==> Approved(issues, issues[k].id, dep.target)
  {
    AddedArcs(issues, k, dep);
    NewArcCycle(Blocking(issues), issues[k].id, dep.target);
  }
}
