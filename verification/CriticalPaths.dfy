/**
 The k longest critical paths, pkg/analysis/advanced_insights.go: the graph of blocking dependencies between open
 issues, its topological order, the longest chains, and the selection with one path for each source.
 */
module CriticalPaths {
  import opened Issues
  import opened Sums
  import opened Digraphs
  import opened Kahn
  import opened LongestPath
  import Sorting

  // ---------- the graph ----------

  function Deps(m: map<string, Issue>, id: string): seq<Option<Dependency>>
  {
    if id in m then m[id].deps else []
  }

  /** One of the first j dependencies of b is a blocking one on a. */
  ghost predicate BlockedBy(m: map<string, Issue>, a: string, b: string, j: nat)
  {
    exists i | 0 <= i < j && i < |Deps(m, b)| :: IsBlocks(Deps(m, b)[i]) && Deps(m, b)[i].value.target == a
  }

  /** Blocking dependencies between open issues, from the blocker to the blocked. */
  ghost function OpenBlocks(m: map<string, Issue>): set<(string, string)>
  {
    set a, b | a in m && b in m && IsOpen(m, a) && IsOpen(m, b) && BlockedBy(m, a, b, |Deps(m, b)|) :: (a, b)
  }

  /** The open issues in the order of their IDs. */
  ghost predicate Nodes(m: map<string, Issue>, ids: seq<string>)
  {
    && Distinct(ids) && Sorting.Ascending(Sorting.ById(), ids)
    && forall id :: id in ids <==> IsOpen(m, id)
  }

  method OpenNodes(m: map<string, Issue>) returns (ids: seq<string>)
    ensures Nodes(m, ids)
  {
    ids := [];
    var keys := m.Keys;
    while keys != {}
      invariant keys <= m.Keys && Distinct(ids)
      invariant forall id :: id in ids <==> id !in keys && IsOpen(m, id)
    {
      var id :| id in keys;
      keys := keys - {id};
      if !IsClosedLike(m[id].status) {
        ids := ids + [id];
      }
    }
    Sorting.SortDistinct(Sorting.ById(), ids);
    Sorting.SortKeeps(Sorting.ById(), ids);
    Sorting.ByIdTotal();
    Sorting.SortAscends(Sorting.ById(), ids);
    ids := Sorting.Sort(Sorting.ById(), ids);
  }

  method IndexOf(ids: seq<string>) returns (index: map<string, int>)
    requires Distinct(ids)
    ensures Index(ids, index)
  {
    index := map[];
    for i := 0 to |ids|
      invariant Index(ids[..i], index)
    {
      index := index[ids[i] := i];
      assert ids[..i + 1] == ids[..i] + [ids[i]];
    }
    assert ids[..|ids|] == ids;
  }

  /** The lists after all issues before v and the first j dependencies of issue v. */
  ghost predicate Built(m: map<string, Issue>, ids: seq<string>, adj: Lists, v: int, j: nat)
    requires Nodes(m, ids)
  {
    && |adj| == |ids| && InRange(adj)
    && forall a, b | 0 <= a < |ids| && 0 <= b < |ids| ::
      b in adj[a] <==> (if b < v then BlockedBy(m, ids[a], ids[b], |Deps(m, ids[b])|)
        else b == v && BlockedBy(m, ids[a], ids[b], j))
  }

  lemma BuiltMore(m: map<string, Issue>, ids: seq<string>, adj: Lists, v: int, j: nat, from: int)
    requires Nodes(m, ids) && 0 <= v < |ids| && Built(m, ids, adj, v, j) && j < |Deps(m, ids[v])| && 0 <= from < |ids|
    requires IsBlocks(Deps(m, ids[v])[j]) && Deps(m, ids[v])[j].value.target == ids[from]
    ensures Built(m, ids, adj[from := adj[from] + [v]], v, j + 1)
  {
    var more := adj[from := adj[from] + [v]];
    forall a, b | 0 <= a < |ids| && 0 <= b < |ids| ensures b in more[a] <==>
      (if b < v then BlockedBy(m, ids[a], ids[b], |Deps(m, ids[b])|) else b == v && BlockedBy(m, ids[a], ids[b], j + 1))
    {
      assert b in more[a] <==> b in adj[a] || (a == from && b == v);
      var here, all := BlockedBy(m, ids[a], ids[b], j), BlockedBy(m, ids[a], ids[b], |Deps(m, ids[b])|);
      assert b in adj[a] <==> (if b < v then all else b == v && here);
      if b == v {
        assert BlockedBy(m, ids[a], ids[v], j + 1) <==> here || ids[a] == ids[from];
        assert ids[a] == ids[from] <==> a == from;
      }
    }
  }

  lemma BuiltSkip(m: map<string, Issue>, ids: seq<string>, adj: Lists, v: int, j: nat)
    requires Nodes(m, ids) && 0 <= v < |ids| && Built(m, ids, adj, v, j) && j < |Deps(m, ids[v])|
    requires IsBlocks(Deps(m, ids[v])[j]) ==> Deps(m, ids[v])[j].value.target !in ids
    ensures Built(m, ids, adj, v, j + 1)
  {
    forall a | 0 <= a < |ids| ensures BlockedBy(m, ids[a], ids[v], j + 1) <==> BlockedBy(m, ids[a], ids[v], j) {
    }
  }

  lemma BuiltNext(m: map<string, Issue>, ids: seq<string>, adj: Lists, v: int)
    requires Nodes(m, ids) && 0 <= v < |ids| && Built(m, ids, adj, v, |Deps(m, ids[v])|)
    ensures Built(m, ids, adj, v + 1, 0)
  {
    forall a, b | 0 <= a < |ids| && 0 <= b < |ids| ensures
      b in adj[a] <==> (if b < v + 1 then BlockedBy(m, ids[a], ids[b], |Deps(m, ids[b])|)
        else b == v + 1 && BlockedBy(m, ids[a], ids[b], 0))
    {
      var here, all := BlockedBy(m, ids[a], ids[b], |Deps(m, ids[v])|), BlockedBy(m, ids[a], ids[b], |Deps(m, ids[b])|);
      assert b in adj[a] <==> (if b < v then all else b == v && here);
    }
  }

  lemma {:induction false} PendingAppend(adj: Lists, from: int, v: int, x: int, n: nat)
    requires n <= |adj| && 0 <= from < |adj|
    ensures Pending(adj[from := adj[from] + [v]], [], x, n) == Pending(adj, [], x, n) + if x == v && from < n then 1
      else 0
  {
    if n > 0 {
      PendingAppend(adj, from, v, x, n - 1);
    }
  }

  lemma CountsAppend(adj: Lists, inDegree: seq<int>, from: int, v: int)
    requires Counts(adj, [], inDegree, multiset{}) && 0 <= from < |adj| && 0 <= v < |adj|
    ensures Counts(adj[from := adj[from] + [v]], [], inDegree[v := inDegree[v] + 1], multiset{})
  {
    forall x | 0 <= x < |adj| {
      PendingAppend(adj, from, v, x, |adj|);
    }
  }

  /** adj[a] lists what issue a blocks, once per dependency; inDegree counts the dependencies of each issue. */
  method BuildGraph(m: map<string, Issue>, ids: seq<string>) returns (adj: Lists, inDegree: seq<int>)
    requires Nodes(m, ids)
    ensures Built(m, ids, adj, |ids|, 0) && Counts(adj, [], inDegree, multiset{})
  {
    var index := IndexOf(ids);
    adj, inDegree := seq(|ids|, _ => []), seq(|ids|, _ => 0);
    forall v ensures Pending(adj, [], v, |adj|) == 0 {
      PendingZero(adj, [], v, |adj|);
    }
    for v := 0 to |ids|
      invariant Built(m, ids, adj, v, 0) && Counts(adj, [], inDegree, multiset{})
    {
      var deps := Deps(m, ids[v]);
      for j := 0 to |deps|
        invariant Built(m, ids, adj, v, j) && Counts(adj, [], inDegree, multiset{})
      {
        var dep := deps[j];
        if !IsBlocks(dep) || dep.value.target !in index {
          BuiltSkip(m, ids, adj, v, j);
          continue;
        }
        var from := index[dep.value.target];
        BuiltMore(m, ids, adj, v, j, from);
        CountsAppend(adj, inDegree, from, v);
        adj := adj[from := adj[from] + [v]];
        inDegree := inDegree[v := inDegree[v] + 1];
      }
      BuiltNext(m, ids, adj, v);
    }
  }

  lemma {:induction false} PendingSame(adj: Lists, sorted: Lists, x: int, n: nat)
    requires |sorted| == |adj| && n <= |adj| && forall u | 0 <= u < |adj| :: multiset(sorted[u]) == multiset(adj[u])
    ensures Pending(sorted, [], x, n) == Pending(adj, [], x, n)
  {
    if n > 0 {
      PendingSame(adj, sorted, x, n - 1);
    }
  }

  /** Sorting the lists leaves the graph and its counts alone. */
  method SortLists(m: map<string, Issue>, ids: seq<string>, adj: Lists, ghost inDegree: seq<int>)
      returns (sorted: Lists)
    requires Nodes(m, ids) && Built(m, ids, adj, |ids|, 0) && Counts(adj, [], inDegree, multiset{})
    ensures Built(m, ids, sorted, |ids|, 0) && Counts(sorted, [], inDegree, multiset{})
    ensures forall u | 0 <= u < |sorted| :: Sorting.Ascending(Sorting.ByNumber(), sorted[u])
  {
    sorted := adj;
    for i := 0 to |adj|
      invariant |sorted| == |adj| && forall u | i <= u < |adj| :: sorted[u] == adj[u]
      invariant forall u | 0 <= u < i :: sorted[u] == Sorting.Sort(Sorting.ByNumber(), adj[u])
    {
      sorted := sorted[i := Sorting.Sort(Sorting.ByNumber(), sorted[i])];
    }
    forall u | 0 <= u < |adj|
      ensures Sorting.Ascending(Sorting.ByNumber(), sorted[u]) && multiset(sorted[u]) == multiset(adj[u])
      ensures forall v :: v in sorted[u] <==> v in adj[u]
    {
      Sorting.SortKeeps(Sorting.ByNumber(), adj[u]);
      Sorting.SortAscends(Sorting.ByNumber(), adj[u]);
    }
    forall x {
      PendingSame(adj, sorted, x, |adj|);
    }
  }

  // ---------- endpoints ----------

  datatype End = End(idx: int, length: int, id: string)

  /** Longer chains first, smaller IDs first among equals. */
  function Before(): (End, End) -> bool
  {
    (a: End, b: End) => a.length > b.length || (a.length == b.length && Less(a.id, b.id))
  }

  lemma BeforeOrders()
    ensures Sorting.WeakOrder(Before())
  {
    Sorting.ByIdTotal();
    forall a: End, b: End, c: End | !Before()(a, b) && !Before()(b, c) ensures !Before()(a, c) {
      assert Sorting.ById()(a.id, b.id) == Less(a.id, b.id);
      assert Sorting.ById()(b.id, c.id) == Less(b.id, c.id);
      assert Sorting.ById()(a.id, c.id) == Less(a.id, c.id);
    }
    forall a: End, b: End ensures !(Before()(a, b) && Before()(b, a)) {
      assert Sorting.ById()(a.id, b.id) == Less(a.id, b.id);
      assert Sorting.ById()(b.id, a.id) == Less(b.id, a.id);
    }
  }

  ghost predicate HasEnd(ends: seq<End>, v: int)
  {
    exists i | 0 <= i < |ends| :: ends[i].idx == v
  }

  /** Every node once, by falling length. */
  ghost predicate Ranked(dist: seq<int>, ends: seq<End>)
  {
    && (forall e | e in ends :: 0 <= e.idx < |dist| && e.length == dist[e.idx])
    && (forall v | 0 <= v < |dist| :: HasEnd(ends, v))
    && (forall i, j | 0 <= i < j < |ends| :: ends[i].length >= ends[j].length)
    && forall i, j | 0 <= i < j < |ends| :: ends[i].idx != ends[j].idx
  }

  method RankEnds(ids: seq<string>, dist: seq<int>) returns (ends: seq<End>)
    requires |ids| == |dist| && Distinct(ids)
    ensures Ranked(dist, ends)
    ensures forall i, j | 0 <= i < j < |ends| ::
      && 0 <= ends[i].idx < |ids| && 0 <= ends[j].idx < |ids|
      && (ends[i].length > ends[j].length
        || (ends[i].length == ends[j].length && Less(ids[ends[i].idx], ids[ends[j].idx])))
  {
    ends := [];
    for i := 0 to |ids|
      invariant |ends| == i && forall j | 0 <= j < i :: ends[j] == End(j, dist[j], ids[j])
    {
      ends := ends + [End(i, dist[i], ids[i])];
    }
    var all := ends;
    BeforeOrders();
    Sorting.SortKeeps(Before(), all);
    Sorting.SortAscends(Before(), all);
    ends := Sorting.Sort(Before(), all);
    forall v | 0 <= v < |dist| ensures HasEnd(ends, v) {
      assert all[v] in ends;
    }
    Sorting.SortDistinct(Before(), all);
    forall i, j | 0 <= i < j < |ends|
      ensures 0 <= ends[i].idx < |ids| && 0 <= ends[j].idx < |ids| && ends[i].idx != ends[j].idx
      ensures ends[i].length > ends[j].length
        || (ends[i].length == ends[j].length && Less(ids[ends[i].idx], ids[ends[j].idx]))
    {
      assert !Before()(ends[j], ends[i]);
      assert ends[i] in all && ends[j] in all;
      LessTotal(ends[i].id, ends[j].id);
    }
  }

  // ---------- selection ----------

  datatype CriticalPath = CriticalPath(rank: int, length: int, ids: seq<string>, truncated: bool)

  /** The tables of one run. */
  datatype Tables = Tables(adj: Lists, order: seq<int>, dist: seq<int>, pred: seq<int>)

  ghost predicate Right(t: Tables)
  {
    Levels(t.adj, t.order, t.dist, t.pred)
  }

  /** The chain to v; nothing when v is not a node. */
  ghost function Chain(t: Tables, v: int): (p: seq<int>)
    ensures forall i | 0 <= i < |p| :: 0 <= p[i] < |t.adj|
  {
    if Right(t) && 0 <= v < |t.adj| then
      var p := ChainTo(t.adj, t.order, t.dist, t.pred, v);
      p
    else []
  }

  ghost function Source(t: Tables, v: int): int
  {
    if Chain(t, v) == [] then -1 else Chain(t, v)[0]
  }

  function Dist(t: Tables, v: int): int
  {
    if 0 <= v < |t.dist| then t.dist[v] else 0
  }

  /** Some pick starts where the chain to v starts and is at least as long. */
  ghost predicate Served(t: Tables, picks: seq<int>, v: int)
  {
    exists i | 0 <= i < |picks| :: Source(t, picks[i]) == Source(t, v) && Dist(t, picks[i]) >= Dist(t, v)
  }

  /** Endpoints by falling length, each chain with a source of its own. */
  ghost predicate Chosen(t: Tables, picks: seq<int>)
  {
    && (forall i | 0 <= i < |picks| :: 0 <= picks[i] < |t.adj| && Dist(t, picks[i]) > 0)
    && (forall i, j | 0 <= i < j < |picks| :: Dist(t, picks[i]) >= Dist(t, picks[j]))
    && forall i, j | 0 <= i < j < |picks| :: Source(t, picks[i]) != Source(t, picks[j])
  }

  /** At most k, and no better choice: what is left out is served by a pick, or shorter than k picks. */
  ghost predicate Best(t: Tables, picks: seq<int>, k: int)
  {
    && Chosen(t, picks) && |picks| <= k
    && forall v | 0 <= v < |t.adj| && Dist(t, v) > 0 ::
      Served(t, picks, v) || (|picks| == k && forall i | 0 <= i < |picks| :: Dist(t, picks[i]) >= Dist(t, v))
  }

  ghost predicate SoFar(t: Tables, ends: seq<End>, i: nat, picks: seq<int>)
  {
    && i <= |ends| && Chosen(t, picks)
    && (forall e, j | 0 <= e < |picks| && i <= j < |ends| :: Dist(t, picks[e]) >= ends[j].length)
    && forall j | 0 <= j < i && ends[j].length > 0 :: Served(t, picks, ends[j].idx)
  }

  lemma RankedAt(dist: seq<int>, ends: seq<End>, i: nat)
    requires Ranked(dist, ends) && i < |ends|
    ensures 0 <= ends[i].idx < |dist| && ends[i].length == dist[ends[i].idx]
    ensures forall j | i <= j < |ends| :: ends[i].length >= ends[j].length
  {
    assert ends[i] in ends;
  }

  /** v comes before w: its chain is longer, or as long and its ID smaller. */
  ghost predicate Ahead(t: Tables, ids: seq<string>, v: int, w: int)
  {
    && 0 <= v < |ids| && 0 <= w < |ids|
    && (Dist(t, v) > Dist(t, w) || (Dist(t, v) == Dist(t, w) && Less(ids[v], ids[w])))
  }

  /** The end of a chain that comes before the end of every other chain from its source. */
  ghost predicate Foremost(t: Tables, ids: seq<string>, v: int)
  {
    && 0 <= v < |t.adj| && Dist(t, v) > 0
    && forall w | 0 <= w < |t.adj| && Dist(t, w) > 0 && w != v && Source(t, w) == Source(t, v) :: Ahead(t, ids, v, w)
  }

  ghost predicate InLine(t: Tables, ids: seq<string>, vs: seq<int>)
  {
    forall e, f | 0 <= e < f < |vs| :: Ahead(t, ids, vs[e], vs[f])
  }

  ghost predicate AllAhead(t: Tables, ids: seq<string>, vs: seq<int>, w: int)
  {
    forall e | 0 <= e < |vs| :: Ahead(t, ids, vs[e], w)
  }

  ghost predicate AllForemost(t: Tables, ids: seq<string>, vs: seq<int>)
  {
    forall e | 0 <= e < |vs| :: Foremost(t, ids, vs[e])
  }

  /** Exactly the first k foremost ends, in their order. */
  ghost predicate FirstOnes(t: Tables, ids: seq<string>, picks: seq<int>, k: nat)
  {
    && AllForemost(t, ids, picks) && InLine(t, ids, picks) && |picks| <= k
    && forall v | Foremost(t, ids, v) :: v in picks || (|picks| == k && AllAhead(t, ids, picks, v))
  }

  ghost predicate Lined(t: Tables, ids: seq<string>, ends: seq<End>)
  {
    forall i, j | 0 <= i < j < |ends| :: Ahead(t, ids, ends[i].idx, ends[j].idx)
  }

  /** The same for the first i endpoints. */
  ghost predicate FirstSoFar(t: Tables, ids: seq<string>, ends: seq<End>, i: nat, picks: seq<int>)
  {
    && i <= |ends| && AllForemost(t, ids, picks) && InLine(t, ids, picks)
    && (forall j | i <= j < |ends| :: AllAhead(t, ids, picks, ends[j].idx))
    && forall j | 0 <= j < i && Foremost(t, ids, ends[j].idx) :: ends[j].idx in picks
  }

  lemma NotBothAhead(t: Tables, ids: seq<string>, v: int, w: int)
    requires Ahead(t, ids, v, w)
    ensures !Ahead(t, ids, w, v)
  {
    if Dist(t, v) == Dist(t, w) && Less(ids[w], ids[v]) {
      LessTransitive(ids[v], ids[w], ids[v]);
      LessIrreflexive(ids[v]);
    }
  }

  lemma SkipFirst(t: Tables, ids: seq<string>, ends: seq<End>, i: nat, picks: seq<int>)
    requires FirstSoFar(t, ids, ends, i, picks) && i < |ends| && Dist(t, ends[i].idx) == ends[i].length
    requires ends[i].length == 0 || HasSource(t, picks, Source(t, ends[i].idx))
    ensures FirstSoFar(t, ids, ends, i + 1, picks)
  {
    var v := ends[i].idx;
    if Foremost(t, ids, v) {
      var e :| 0 <= e < |picks| && Source(t, picks[e]) == Source(t, v);
      assert AllAhead(t, ids, picks, v);
      NotBothAhead(t, ids, picks[e], v);
    }
  }

  lemma NotEarlier(t: Tables, ends: seq<End>, i: nat, picks: seq<int>, s: int, j: nat)
    requires SoFar(t, ends, i, picks) && j < |ends| && ends[j].length > 0 && Source(t, ends[j].idx) == s
    requires forall e | 0 <= e < |picks| :: Source(t, picks[e]) != s
    ensures i <= j
  {
  }

  /** No end before it has its source, so all others come after it. */
  lemma NewIsForemost(t: Tables, ids: seq<string>, ends: seq<End>, i: nat, picks: seq<int>)
    requires Right(t) && Ranked(t.dist, ends) && Lined(t, ids, ends) && SoFar(t, ends, i, picks) && i < |ends|
    requires ends[i].length > 0 && forall e | 0 <= e < |picks| :: Source(t, picks[e]) != Source(t, ends[i].idx)
    ensures Foremost(t, ids, ends[i].idx)
  {
    var v := ends[i].idx;
    RankedAt(t.dist, ends, i);
    forall w | 0 <= w < |t.adj| && Dist(t, w) > 0 && w != v && Source(t, w) == Source(t, v)
      ensures Ahead(t, ids, v, w)
    {
      assert HasEnd(ends, w);
      var j :| 0 <= j < |ends| && ends[j].idx == w;
      RankedAt(t.dist, ends, j);
      NotEarlier(t, ends, i, picks, Source(t, v), j);
    }
  }

  lemma OneMoreInLine(t: Tables, ids: seq<string>, vs: seq<int>, v: int)
    requires InLine(t, ids, vs) && AllAhead(t, ids, vs, v)
    ensures InLine(t, ids, vs + [v])
  {
  }

  lemma OneMoreAhead(t: Tables, ids: seq<string>, vs: seq<int>, v: int, w: int)
    requires AllAhead(t, ids, vs, w) && Ahead(t, ids, v, w)
    ensures AllAhead(t, ids, vs + [v], w)
  {
  }

  lemma OneMoreForemost(t: Tables, ids: seq<string>, vs: seq<int>, v: int)
    requires AllForemost(t, ids, vs) && Foremost(t, ids, v)
    ensures AllForemost(t, ids, vs + [v])
  {
  }

  lemma TakeFirst(t: Tables, ids: seq<string>, ends: seq<End>, i: nat, picks: seq<int>)
    requires FirstSoFar(t, ids, ends, i, picks) && i < |ends| && Lined(t, ids, ends) && Foremost(t, ids, ends[i].idx)
    ensures FirstSoFar(t, ids, ends, i + 1, picks + [ends[i].idx])
  {
    var v := ends[i].idx;
    OneMoreForemost(t, ids, picks, v);
    OneMoreInLine(t, ids, picks, v);
    forall j | i + 1 <= j < |ends| ensures AllAhead(t, ids, picks + [v], ends[j].idx) {
      OneMoreAhead(t, ids, picks, v, ends[j].idx);
    }
  }

  lemma AllFirst(t: Tables, ids: seq<string>, ends: seq<End>, i: nat, picks: seq<int>, k: nat)
    requires Right(t) && Ranked(t.dist, ends) && FirstSoFar(t, ids, ends, i, picks)
    requires |picks| <= k && (i == |ends| || |picks| == k)
    ensures FirstOnes(t, ids, picks, k)
  {
    forall v | Foremost(t, ids, v) ensures v in picks || (|picks| == k && AllAhead(t, ids, picks, v)) {
      assert HasEnd(ends, v);
      var j :| 0 <= j < |ends| && ends[j].idx == v;
    }
  }

  lemma SkipServed(t: Tables, ends: seq<End>, i: nat, picks: seq<int>)
    requires SoFar(t, ends, i, picks) && i < |ends|
    requires ends[i].length > 0 ==> Served(t, picks, ends[i].idx)
    ensures SoFar(t, ends, i + 1, picks)
  {
  }

  lemma Take(t: Tables, ends: seq<End>, i: nat, picks: seq<int>)
    requires SoFar(t, ends, i, picks) && i < |ends| && ends[i].length > 0
    requires Right(t) && Ranked(t.dist, ends)
    requires forall e | 0 <= e < |picks| :: Source(t, picks[e]) != Source(t, ends[i].idx)
    ensures SoFar(t, ends, i + 1, picks + [ends[i].idx])
  {
    RankedAt(t.dist, ends, i);
    var v := ends[i].idx;
    var more := picks + [v];
    assert Dist(t, v) == ends[i].length;
    TakeChosen(t, picks, v);
    forall j | 0 <= j < i + 1 && ends[j].length > 0 ensures Served(t, more, ends[j].idx) {
      if j < i {
        ServedMore(t, picks, v, ends[j].idx);
      } else {
        ServedLast(t, picks, v);
      }
    }
    forall e, j | 0 <= e < |more| && i + 1 <= j < |ends| ensures Dist(t, more[e]) >= ends[j].length {
      assert more[e] == if e < |picks| then picks[e] else v;
    }
  }

  lemma ServedLast(t: Tables, picks: seq<int>, v: int)
    ensures Served(t, picks + [v], v)
  {
    assert (picks + [v])[|picks|] == v;
  }

  lemma TakeChosen(t: Tables, picks: seq<int>, v: int)
    requires Chosen(t, picks) && 0 <= v < |t.adj| && Dist(t, v) > 0
    requires forall e | 0 <= e < |picks| :: Dist(t, picks[e]) >= Dist(t, v) && Source(t, picks[e]) != Source(t, v)
    ensures Chosen(t, picks + [v])
  {
    var more := picks + [v];
    assert forall i | 0 <= i < |more| :: more[i] == if i < |picks| then picks[i] else v;
    forall i, j | 0 <= i < j < |more|
      ensures Dist(t, more[i]) >= Dist(t, more[j]) && Source(t, more[i]) != Source(t, more[j])
    {
      assert more[i] == picks[i];
      if j < |picks| {
        assert more[j] == picks[j];
      } else {
        assert more[j] == v;
      }
    }
  }

  lemma ServedMore(t: Tables, picks: seq<int>, e: int, v: int)
    requires Served(t, picks, v)
    ensures Served(t, picks + [e], v)
  {
    var i :| 0 <= i < |picks| && Source(t, picks[i]) == Source(t, v) && Dist(t, picks[i]) >= Dist(t, v);
    assert (picks + [e])[i] == picks[i];
  }

  lemma AllSeen(t: Tables, ends: seq<End>, i: nat, picks: seq<int>, k: int)
    requires SoFar(t, ends, i, picks) && |picks| <= k && (i == |ends| || |picks| == k)
    requires Right(t) && Ranked(t.dist, ends)
    ensures Best(t, picks, k)
  {
    forall v | 0 <= v < |t.adj| && Dist(t, v) > 0
      ensures Served(t, picks, v) || (|picks| == k && forall i | 0 <= i < |picks| :: Dist(t, picks[i]) >= Dist(t, v))
    {
      assert HasEnd(ends, v);
      var j :| 0 <= j < |ends| && ends[j].idx == v;
      RankedAt(t.dist, ends, j);
    }
  }

  function Names(ids: seq<string>, path: seq<int>): seq<string>
    requires forall i | 0 <= i < |path| :: 0 <= path[i] < |ids|
  {
    seq(|path|, i requires 0 <= i < |path| => ids[path[i]])
  }

  /** A chain as it is reported: cut after cap nodes. */
  function Report(ids: seq<string>, path: seq<int>, cap: nat, rank: int): CriticalPath
    requires forall i | 0 <= i < |path| :: 0 <= path[i] < |ids|
  {
    var kept := if |path| > cap then path[..cap] else path;
    CriticalPath(rank, |kept|, Names(ids, kept), |path| > cap)
  }

  ghost predicate Reported(t: Tables, ids: seq<string>, picks: seq<int>, cap: nat, paths: seq<CriticalPath>)
    requires |ids| == |t.adj|
  {
    |paths| == |picks| && forall j | 0 <= j < |paths| :: paths[j] == Report(ids, Chain(t, picks[j]), cap, j + 1)
  }

  ghost predicate HasSource(t: Tables, picks: seq<int>, s: int)
  {
    exists e | 0 <= e < |picks| :: Source(t, picks[e]) == s
  }

  ghost predicate Used(t: Tables, picks: seq<int>, used: set<int>)
  {
    forall s :: s in used <==> HasSource(t, picks, s)
  }

  lemma UsedMore(t: Tables, picks: seq<int>, e: int, used: set<int>)
    requires Used(t, picks, used)
    ensures Used(t, picks + [e], used + {Source(t, e)})
  {
    var more := picks + [e];
    assert more[|picks|] == e;
    forall s ensures HasSource(t, more, s) <==> HasSource(t, picks, s) || s == Source(t, e) {
      if i :| 0 <= i < |picks| && Source(t, picks[i]) == s {
        assert more[i] == picks[i];
      }
    }
  }

  /** A source met before: the earlier pick is at least as long. */
  lemma UsedServed(t: Tables, ends: seq<End>, i: nat, picks: seq<int>, used: set<int>)
    requires Right(t) && Ranked(t.dist, ends) && SoFar(t, ends, i, picks) && i < |ends| && Used(t, picks, used)
    requires Source(t, ends[i].idx) in used
    ensures Served(t, picks, ends[i].idx)
  {
    RankedAt(t.dist, ends, i);
    assert HasSource(t, picks, Source(t, ends[i].idx));
  }

  lemma UnusedNew(t: Tables, picks: seq<int>, used: set<int>, s: int)
    requires Used(t, picks, used) && s !in used
    ensures forall e | 0 <= e < |picks| :: Source(t, picks[e]) != s
  {
    assert !HasSource(t, picks, s);
  }

  lemma ReportedMore(t: Tables, ids: seq<string>, picks: seq<int>, e: int, cap: nat, paths: seq<CriticalPath>)
    requires |ids| == |t.adj| && Reported(t, ids, picks, cap, paths)
    ensures Reported(t, ids, picks + [e], cap, paths + [Report(ids, Chain(t, e), cap, |paths| + 1)])
  {
  }

  /** Ranks count from one, and lengths are those of the lists, up to the cap. */
  ghost predicate Numbered(paths: seq<CriticalPath>, cap: nat)
  {
    forall j | 0 <= j < |paths| :: paths[j].rank == j + 1 && paths[j].length == |paths[j].ids| <= cap
  }

  lemma NumberedMore(paths: seq<CriticalPath>, cap: nat, p: CriticalPath)
    requires Numbered(paths, cap) && p.rank == |paths| + 1 && p.length == |p.ids| <= cap
    ensures Numbered(paths + [p], cap)
  {
  }

  /** What the selection knows after i endpoints. */
  ghost predicate Selecting(t: Tables, ids: seq<string>, ends: seq<End>, i: nat, cap: nat,
                            picks: seq<int>, used: set<int>, paths: seq<CriticalPath>)
    requires |ids| == |t.adj|
  {
    && SoFar(t, ends, i, picks) && FirstSoFar(t, ids, ends, i, picks) && Used(t, picks, used)
    && Reported(t, ids, picks, cap, paths) && Numbered(paths, cap)
  }

  /** A single node is no chain, and a source met before has been served. */
  lemma SelectSkips(t: Tables, ids: seq<string>, ends: seq<End>, i: nat, cap: nat,
                    picks: seq<int>, used: set<int>, paths: seq<CriticalPath>)
    requires Right(t) && |ids| == |t.adj| && Ranked(t.dist, ends) && i < |ends|
    requires Selecting(t, ids, ends, i, cap, picks, used, paths)
    requires ends[i].length == 0 || Source(t, ends[i].idx) in used
    ensures Selecting(t, ids, ends, i + 1, cap, picks, used, paths)
  {
    RankedAt(t.dist, ends, i);
    if ends[i].length > 0 {
      UsedServed(t, ends, i, picks, used);
      assert HasSource(t, picks, Source(t, ends[i].idx));
    }
    SkipServed(t, ends, i, picks);
    SkipFirst(t, ids, ends, i, picks);
  }

  /** A source not met before: the endpoint is picked. */
  lemma SelectTakes(t: Tables, ids: seq<string>, ends: seq<End>, i: nat, cap: nat,
                    picks: seq<int>, used: set<int>, paths: seq<CriticalPath>, v: int, path: seq<int>, source: int)
    requires Right(t) && |ids| == |t.adj| && Ranked(t.dist, ends) && i < |ends| && ends[i].length > 0
    requires Selecting(t, ids, ends, i, cap, picks, used, paths)
    requires v == ends[i].idx && path == Chain(t, v) && source == Source(t, v) && source !in used && Lined(t, ids, ends)
    ensures Selecting(t, ids, ends, i + 1, cap, picks + [v], used + {source},
      paths + [Report(ids, path, cap, |paths| + 1)])
  {
    UnusedNew(t, picks, used, Source(t, v));
    NewIsForemost(t, ids, ends, i, picks);
    TakeFirst(t, ids, ends, i, picks);
    Take(t, ends, i, picks);
    UsedMore(t, picks, v, used);
    ReportedMore(t, ids, picks, v, cap, paths);
    NumberedMore(paths, cap, Report(ids, path, cap, |paths| + 1));
  }

  method ChainOf(t: Tables, v: int) returns (path: seq<int>)
    requires Right(t) && 0 <= v < |t.adj|
    ensures path == Chain(t, v) && path != [] && path[0] == Source(t, v)
  {
    path := Rebuild(t.adj, t.order, t.dist, t.pred, v);
  }

  lemma AllSelected(t: Tables, ids: seq<string>, ends: seq<End>, i: nat, k: nat, cap: nat,
                    picks: seq<int>, used: set<int>, paths: seq<CriticalPath>)
    requires Right(t) && |ids| == |t.adj| && Ranked(t.dist, ends)
    requires Selecting(t, ids, ends, i, cap, picks, used, paths)
    requires |paths| <= k && (i == |ends| || |paths| == k)
    ensures Best(t, picks, k) && FirstOnes(t, ids, picks, k)
    ensures Reported(t, ids, picks, cap, paths) && Numbered(paths, cap)
  {
    AllSeen(t, ends, i, picks, k);
    AllFirst(t, ids, ends, i, picks, k);
  }

  /** One endpoint: nothing for a single node or a source met before, otherwise its chain is reported. */
  method ConsiderEnd(ids: seq<string>, t: Tables, ghost ends: seq<End>, ghost i: nat, pe: End, cap: nat,
                     used: set<int>, paths: seq<CriticalPath>, ghost picks: seq<int>)
      returns (used': set<int>, paths': seq<CriticalPath>, ghost picks': seq<int>)
    requires Right(t) && |ids| == |t.adj| && Ranked(t.dist, ends) && i < |ends| && pe == ends[i]
    requires Lined(t, ids, ends) && Selecting(t, ids, ends, i, cap, picks, used, paths)
    ensures Selecting(t, ids, ends, i + 1, cap, picks', used', paths') && |paths'| <= |paths| + 1
  {
    used', paths', picks' := used, paths, picks;
    RankedAt(t.dist, ends, i);
    if pe.length == 0 {
      SelectSkips(t, ids, ends, i, cap, picks, used, paths);
      return;
    }
    var path := ChainOf(t, pe.idx);
    var source := path[0];
    if source in used {
      SelectSkips(t, ids, ends, i, cap, picks, used, paths);
      return;
    }
    SelectTakes(t, ids, ends, i, cap, picks, used, paths, pe.idx, path, source);
    used' := used + {source};
    paths' := paths + [Report(ids, path, cap, |paths| + 1)];
    picks' := picks + [pe.idx];
  }

  method SelectPaths(ids: seq<string>, t: Tables, ends: seq<End>, k: nat, cap: nat)
      returns (paths: seq<CriticalPath>, ghost picks: seq<int>)
    requires Right(t) && |ids| == |t.adj| && Ranked(t.dist, ends) && Lined(t, ids, ends)
    ensures Best(t, picks, k) && FirstOnes(t, ids, picks, k) && Reported(t, ids, picks, cap, paths)
    ensures |paths| <= k && Numbered(paths, cap)
  {
    paths, picks := [], [];
    var used: set<int> := {};
    var i := 0;
    while i < |ends| && |paths| < k
      invariant i <= |ends| && |paths| <= k && Selecting(t, ids, ends, i, cap, picks, used, paths)
    {
      used, paths, picks := ConsiderEnd(ids, t, ends, i, ends[i], cap, used, paths, picks);
      i := i + 1;
    }
    AllSelected(t, ids, ends, i, k, cap, picks, used, paths);
  }

  ghost function Long(t: Tables): set<int>
  {
    set v | 0 <= v < |t.dist| && Dist(t, v) > 0
  }

  ghost predicate HasLong(ends: seq<End>, i: nat, v: int)
  {
    exists j | 0 <= j < i && j < |ends| :: ends[j].idx == v && ends[j].length > 0
  }

  /** The endpoints with a chain among the first i. */
  ghost function LongEnds(ends: seq<End>, i: nat): (vs: set<int>)
    requires i <= |ends|
    ensures forall v :: v in vs <==> HasLong(ends, i, v)
  {
    if i == 0 then {}
    else
      var vs := LongEnds(ends, i - 1) + if ends[i - 1].length > 0 then {ends[i - 1].idx} else {};
      assert forall v :: HasLong(ends, i, v) <==>
        HasLong(ends, i - 1, v) || (ends[i - 1].idx == v && ends[i - 1].length > 0);
      vs
  }

  lemma LongEndsAll(t: Tables, ends: seq<End>)
    requires Ranked(t.dist, ends)
    ensures LongEnds(ends, |ends|) == Long(t)
  {
    forall j | 0 <= j < |ends| ensures 0 <= ends[j].idx < |t.dist| && ends[j].length == t.dist[ends[j].idx] {
      RankedAt(t.dist, ends, j);
    }
    forall v ensures HasLong(ends, |ends|, v) <==> v in Long(t) {
      assert 0 <= v < |t.dist| ==> HasEnd(ends, v);
    }
  }

  lemma LongEndsNext(dist: seq<int>, ends: seq<End>, i: nat)
    requires Ranked(dist, ends) && i < |ends|
    ensures |LongEnds(ends, i + 1)| == |LongEnds(ends, i)| + if ends[i].length > 0 then 1 else 0
  {
    assert !HasLong(ends, i, ends[i].idx);
  }

  method CountLong(ghost t: Tables, ends: seq<End>) returns (total: nat)
    requires Ranked(t.dist, ends)
    ensures total == |Long(t)|
  {
    total := 0;
    for i := 0 to |ends|
      invariant total == |LongEnds(ends, i)|
    {
      LongEndsNext(t.dist, ends, i);
      if ends[i].length > 0 {
        total := total + 1;
      }
    }
    LongEndsAll(t, ends);
  }

  // ---------- the graph behind the paths ----------

  /** The graph, its order and its levels belong to the issues. */
  ghost predicate Describes(m: map<string, Issue>, ids: seq<string>, t: Tables)
  {
    && Nodes(m, ids) && Built(m, ids, t.adj, |ids|, 0)
    && Linear(t.adj, Unfed(t.adj), t.order)
    && Smallest(t.adj, t.order) && Right(t)
  }

  datatype KPathsResult = KPathsResult(count: nat, capped: bool, limited: nat, paths: seq<CriticalPath>)

  function OrDefault(x: int, default: nat): nat
    requires default > 0
  {
    if x <= 0 then default else x
  }

  method Tabulate(m: map<string, Issue>, ids: seq<string>) returns (t: Tables)
    requires Nodes(m, ids)
    ensures Describes(m, ids, t)
  {
    var adj, inDegree := BuildGraph(m, ids);
    adj := SortLists(m, ids, adj, inDegree);
    var order := TopoOrder(adj, inDegree);
    LinearGrown(adj, order);
    var dist, pred := LongestLevels(adj, order);
    t := Tables(adj, order, dist, pred);
  }

  // ---------- what the paths are ----------

  lemma ArcsMatch(m: map<string, Issue>, ids: seq<string>, t: Tables, u: int, v: int)
    requires Describes(m, ids, t) && 0 <= u < |ids| && 0 <= v < |ids|
    ensures (u, v) in Arcs(t.adj) <==> (ids[u], ids[v]) in OpenBlocks(m)
  {
    assert ids[u] in ids && ids[v] in ids;
    assert v in t.adj[u] <==> BlockedBy(m, ids[u], ids[v], |Deps(m, ids[v])|);
  }

  /** A chain of nodes is a chain of open issues. */
  lemma ChainIsTrail(m: map<string, Issue>, ids: seq<string>, t: Tables, p: seq<int>)
    requires Describes(m, ids, t) && Trail(Arcs(t.adj), p) && forall i | 0 <= i < |p| :: 0 <= p[i] < |ids|
    ensures Trail(OpenBlocks(m), Names(ids, p))
  {
    var names := Names(ids, p);
    forall j | 0 <= j < |names| - 1 ensures (names[j], names[j + 1]) in OpenBlocks(m) {
      assert (p[j], p[j + 1]) in Arcs(t.adj);
      ArcsMatch(m, ids, t, p[j], p[j + 1]);
    }
  }

  /** Nodes at different levels have different names. */
  lemma LevelsDiffer(ids: seq<string>, dist: seq<int>, p: seq<int>)
    requires Distinct(ids) && |dist| == |ids| && forall i | 0 <= i < |p| :: 0 <= p[i] < |ids| && dist[p[i]] == i
    ensures Distinct(Names(ids, p))
  {
    forall a, b | 0 <= a < b < |p| ensures Names(ids, p)[a] != Names(ids, p)[b] {
      assert dist[p[a]] == a && dist[p[b]] == b;
    }
  }

  /** A pick is a real chain: blocking dependencies between open issues, no issue twice, dist + 1 of them. */
  lemma PicksAreChains(m: map<string, Issue>, ids: seq<string>, t: Tables, picks: seq<int>, k: nat, i: nat)
    requires Describes(m, ids, t) && Best(t, picks, k) && i < |picks|
    ensures var names := Names(ids, Chain(t, picks[i]));
      Trail(OpenBlocks(m), names) && Distinct(names) && |names| == Dist(t, picks[i]) + 1
        && names[|names| - 1] == ids[picks[i]]
  {
    var p := Chain(t, picks[i]);
    ChainIsTrail(m, ids, t, p);
    LevelsDiffer(ids, t.dist, p);
  }

  lemma NextIndex(m: map<string, Issue>, ids: seq<string>, t: Tables, u: int, b: string) returns (v: int)
    requires Describes(m, ids, t) && 0 <= u < |ids| && (ids[u], b) in OpenBlocks(m)
    ensures 0 <= v < |ids| && ids[v] == b && (u, v) in Arcs(t.adj)
  {
    assert b in ids;
    v :| 0 <= v < |ids| && ids[v] == b;
    ArcsMatch(m, ids, t, u, v);
  }

  ghost predicate Translates(ids: seq<string>, p: seq<string>, q: seq<int>)
  {
    |q| == |p| && forall i | 0 <= i < |q| :: 0 <= q[i] < |ids| && ids[q[i]] == p[i]
  }

  lemma OneMoreIndex(arcs: set<(int, int)>, ids: seq<string>, p: seq<string>, q: seq<int>, n: nat, v: int)
    requires 1 < n <= |p| && Trail(arcs, q) && Translates(ids, p[..n - 1], q)
    requires (q[n - 2], v) in arcs && 0 <= v < |ids| && ids[v] == p[n - 1]
    ensures Trail(arcs, q + [v]) && Translates(ids, p[..n], q + [v])
  {
    var r := q + [v];
    forall i | 0 <= i < |r| - 1 ensures (r[i], r[i + 1]) in arcs {
      assert i < |q| - 1 ==> (q[i], q[i + 1]) in arcs;
    }
    forall i | 0 <= i < |r| ensures 0 <= r[i] < |ids| && ids[r[i]] == p[..n][i] {
      assert i < |q| ==> ids[q[i]] == p[..n - 1][i];
    }
  }

  /** The nodes of a trail of open issues. */
  lemma {:induction false} Indices(m: map<string, Issue>, ids: seq<string>, t: Tables, p: seq<string>, n: nat)
      returns (q: seq<int>)
    requires Describes(m, ids, t) && Trail(OpenBlocks(m), p) && p[0] in ids && 0 < n <= |p|
    ensures Trail(Arcs(t.adj), q) && Translates(ids, p[..n], q)
  {
    if n == 1 {
      var u :| 0 <= u < |ids| && ids[u] == p[0];
      q := [u];
    } else {
      q := Indices(m, ids, t, p, n - 1);
      assert (p[n - 2], p[n - 2 + 1]) in OpenBlocks(m);
      var v := NextIndex(m, ids, t, q[n - 2], p[n - 1]);
      OneMoreIndex(Arcs(t.adj), ids, p, q, n, v);
      q := q + [v];
    }
  }

  lemma TrailInRange(adj: Lists, q: seq<int>)
    requires InRange(adj) && Trail(Arcs(adj), q) && |q| > 1
    ensures forall i | 0 <= i < |q| :: 0 <= q[i] < |adj|
  {
    forall i | 0 <= i < |q| ensures 0 <= q[i] < |adj| {
      if i < |q| - 1 {
        assert (q[i], q[i + 1]) in Arcs(adj);
      } else {
        assert (q[i - 1], q[i - 1 + 1]) in Arcs(adj);
      }
    }
  }

  lemma AcyclicNodes(m: map<string, Issue>, ids: seq<string>, t: Tables)
    requires Describes(m, ids, t) && Acyclic(OpenBlocks(m))
    ensures Acyclic(Arcs(t.adj))
  {
    forall q ensures !Closed(Arcs(t.adj), q) {
      if Closed(Arcs(t.adj), q) {
        TrailInRange(t.adj, q);
        ChainIsTrail(m, ids, t, q);
        assert Closed(OpenBlocks(m), Names(ids, q));
      }
    }
  }

  /** Without cycles the first path attains the maximum over all chains of open issues. */
  lemma FirstIsLongest(m: map<string, Issue>, ids: seq<string>, t: Tables, picks: seq<int>, k: nat, p: seq<string>)
    requires Describes(m, ids, t) && Best(t, picks, k) && k > 0 && Acyclic(OpenBlocks(m))
    requires Trail(OpenBlocks(m), p) && |p| > 1
    ensures picks != [] && |p| <= |Chain(t, picks[0])|
  {
    assert (p[0], p[0 + 1]) in OpenBlocks(m);
    var q := Indices(m, ids, t, p, |p|);
    AcyclicNodes(m, ids, t);
    AllIffAcyclic(t.adj);
    forall i | 0 <= i < |q| ensures q[i] in t.order {
    }
    NoneLonger(t.adj, t.order, t.dist, t.pred, q);
    var v := q[|q| - 1];
    assert Dist(t, v) > 0;
    if Served(t, picks, v) {
      var i :| 0 <= i < |picks| && Source(t, picks[i]) == Source(t, v) && Dist(t, picks[i]) >= Dist(t, v);
    }
  }

  /** One reported path as a caller sees it: blocking dependencies between open issues, none met twice, cut at cap. */
  ghost predicate RealPath(m: map<string, Issue>, p: CriticalPath, cap: nat)
  {
    && Trail(OpenBlocks(m), p.ids) && Distinct(p.ids) && p.length == |p.ids| <= cap
    && if p.truncated then p.length == cap else p.length > 1
  }

  /** At most k real paths, ranked from 1 by falling length, no two with the same first issue. */
  ghost predicate RealPaths(m: map<string, Issue>, paths: seq<CriticalPath>, k: nat, cap: nat)
  {
    && |paths| <= k
    && (forall i | 0 <= i < |paths| :: RealPath(m, paths[i], cap) && paths[i].rank == i + 1)
    && forall i, j | 0 <= i < j < |paths| :: paths[i].length >= paths[j].length && paths[i].ids[0] != paths[j].ids[0]
  }

  /** No chain of open issues is longer than the first path, unless that one was cut. */
  ghost predicate FirstAttains(m: map<string, Issue>, paths: seq<CriticalPath>)
  {
    forall p | Trail(OpenBlocks(m), p) && |p| > 1 :: paths != [] && (paths[0].truncated || |p| <= paths[0].length)
  }

  /** p starts at the source of v, with the nodes of the chain to v up to the cap. */
  ghost predicate Shows(ids: seq<string>, t: Tables, v: int, p: CriticalPath, cap: nat)
  {
    && 0 <= Source(t, v) < |ids| && p.ids != [] && p.ids[0] == ids[Source(t, v)]
    && p.length == if Dist(t, v) + 1 > cap then cap else Dist(t, v) + 1
  }

  lemma ReportCuts(ids: seq<string>, path: seq<int>, cap: nat, rank: int)
    requires forall i | 0 <= i < |path| :: 0 <= path[i] < |ids|
    ensures var r := Report(ids, path, cap, rank);
      r.ids == Names(ids, path)[..r.length] && r.length == (if |path| > cap then cap else |path|)
        && r.truncated == (|path| > cap)
  {
  }

  lemma PrefixReal(m: map<string, Issue>, p: seq<string>, n: nat)
    requires Trail(OpenBlocks(m), p) && Distinct(p) && 0 < n <= |p|
    ensures Trail(OpenBlocks(m), p[..n]) && Distinct(p[..n])
  {
    var q := p[..n];
    forall j | 0 <= j < |q| - 1 ensures (q[j], q[j + 1]) in OpenBlocks(m) {
      assert (p[j], p[j + 1]) in OpenBlocks(m);
    }
  }

  lemma ReportedIsReal(m: map<string, Issue>, ids: seq<string>, t: Tables, picks: seq<int>, k: nat, cap: nat,
                       paths: seq<CriticalPath>, i: nat)
    requires Describes(m, ids, t) && Best(t, picks, k) && Reported(t, ids, picks, cap, paths) && i < |paths| && cap > 0
    ensures RealPath(m, paths[i], cap) && paths[i].rank == i + 1 && Shows(ids, t, picks[i], paths[i], cap)
  {
    PicksAreChains(m, ids, t, picks, k, i);
    var chain := Chain(t, picks[i]);
    ReportCuts(ids, chain, cap, i + 1);
    PrefixReal(m, Names(ids, chain), |paths[i].ids|);
  }

  lemma ShownDiffer(ids: seq<string>, t: Tables, picks: seq<int>, cap: nat, p: CriticalPath, q: CriticalPath, i: nat,
                    j: nat)
    requires Distinct(ids) && Chosen(t, picks) && i < j < |picks|
    requires Shows(ids, t, picks[i], p, cap) && Shows(ids, t, picks[j], q, cap)
    ensures p.length >= q.length && p.ids[0] != q.ids[0]
  {
    assert Source(t, picks[i]) != Source(t, picks[j]);
  }

  lemma AllShown(m: map<string, Issue>, ids: seq<string>, t: Tables, picks: seq<int>, k: nat, cap: nat,
                 paths: seq<CriticalPath>)
    requires Distinct(ids) && Chosen(t, picks) && |paths| == |picks| <= k
    requires forall i | 0 <= i < |paths| ::
      RealPath(m, paths[i], cap) && paths[i].rank == i + 1 && Shows(ids, t, picks[i], paths[i], cap)
    ensures RealPaths(m, paths, k, cap)
  {
    forall i, j | 0 <= i < j < |paths|
      ensures paths[i].length >= paths[j].length && paths[i].ids[0] != paths[j].ids[0]
    {
      ShownDiffer(ids, t, picks, cap, paths[i], paths[j], i, j);
    }
  }

  lemma ReportedAreReal(m: map<string, Issue>, ids: seq<string>, t: Tables, picks: seq<int>, k: nat, cap: nat,
                        paths: seq<CriticalPath>)
    requires Describes(m, ids, t) && Best(t, picks, k) && Reported(t, ids, picks, cap, paths) && cap > 0
    ensures RealPaths(m, paths, k, cap)
  {
    forall i | 0 <= i < |paths|
      ensures RealPath(m, paths[i], cap) && paths[i].rank == i + 1 && Shows(ids, t, picks[i], paths[i], cap)
    {
      ReportedIsReal(m, ids, t, picks, k, cap, paths, i);
    }
    AllShown(m, ids, t, picks, k, cap, paths);
  }

  lemma ReportedAttains(m: map<string, Issue>, ids: seq<string>, t: Tables, picks: seq<int>, k: nat, cap: nat,
                        paths: seq<CriticalPath>)
    requires Describes(m, ids, t) && Best(t, picks, k) && Reported(t, ids, picks, cap, paths) && k > 0
    requires Acyclic(OpenBlocks(m))
    ensures FirstAttains(m, paths)
  {
    forall p | Trail(OpenBlocks(m), p) && |p| > 1
      ensures paths != [] && (paths[0].truncated || |p| <= paths[0].length)
    {
      FirstIsLongest(m, ids, t, picks, k, p);
      assert paths[0] == Report(ids, Chain(t, picks[0]), cap, 1);
    }
  }

  // ---------- what it is all about, in terms of the issues ----------

  /** An arc of the graph: two open issues, the second with a blocking dependency on the first. */
  lemma OpenBlocksMeaning(m: map<string, Issue>, a: string, b: string)
    ensures (a, b) in OpenBlocks(m) <==>
      (a in m && m[a].status !in {"closed", "tombstone"} && b in m && m[b].status !in {"closed", "tombstone"}
      && Some(Dependency(a, "blocks")) in m[b].deps)
  {
    if (a, b) in OpenBlocks(m) {
      var i :| 0 <= i < |Deps(m, b)| && IsBlocks(Deps(m, b)[i]) && Deps(m, b)[i].value.target == a;
      assert m[b].deps[i] == Some(Dependency(a, "blocks"));
    }
    if a in m && b in m && Some(Dependency(a, "blocks")) in m[b].deps {
      var i :| 0 <= i < |m[b].deps| && m[b].deps[i] == Some(Dependency(a, "blocks"));
      assert BlockedBy(m, a, b, |Deps(m, b)|);
    }
  }

  /** The ends counted are the nodes with an arc from a listed node. */
  lemma LongMeaning(t: Tables, v: int)
    requires Right(t)
    ensures v in Long(t) <==> 0 <= v < |t.adj| && exists u :: u in t.order && (u, v) in Arcs(t.adj)
  {
    if 0 <= v < |t.adj| {
      assert Level(t.adj, t.order, t.dist, t.pred, v);
      if t.dist[v] > 0 {
        assert t.pred[v] in t.order && (t.pred[v], v) in Arcs(t.adj);
      }
      forall u | u in t.order && (u, v) in Arcs(t.adj) ensures t.dist[v] > 0 {
        assert Level(t.adj, t.order, t.dist, t.pred, u);
      }
    }
  }

  // ---------- the whole function ----------

  method GenerateKPaths(m: map<string, Issue>, k: int, pathLengthCap: int)
      returns (result: KPathsResult, ghost ids: seq<string>, ghost t: Tables, ghost picks: seq<int>)
    ensures var most, cap := if k <= 0 then 5 else k, if pathLengthCap <= 0 then 50 else pathLengthCap;
      && Describes(m, ids, t) && Best(t, picks, most) && FirstOnes(t, ids, picks, most)
      && Reported(t, ids, picks, cap, result.paths) && RealPaths(m, result.paths, most, cap)
      && (result.capped <==> |picks| == most && |Long(t)| > most)
    ensures Acyclic(OpenBlocks(m)) ==> FirstAttains(m, result.paths)
    ensures result.count == |result.paths| == |picks| && result.limited == |Long(t)|
  {
    var most, cap := OrDefault(k, 5), OrDefault(pathLengthCap, 50);
    var nodes := OpenNodes(m);
    var tables := Tabulate(m, nodes);
    ids, t := nodes, tables;
    if |nodes| == 0 {
      picks := [];
      assert Long(t) == {};
      if Acyclic(OpenBlocks(m)) {
        ReportedAttains(m, nodes, tables, picks, most, cap, []);
      }
      return KPathsResult(0, false, 0, []), ids, t, picks;
    }
    var ends := RankEnds(nodes, tables.dist);
    var paths;
    paths, picks := SelectPaths(nodes, tables, ends, most, cap);
    var total := CountLong(t, ends);
    ReportedAreReal(m, nodes, tables, picks, most, cap, paths);
    if Acyclic(OpenBlocks(m)) {
      ReportedAttains(m, nodes, tables, picks, most, cap, paths);
    }
    result := KPathsResult(|paths|, |paths| >= most && total > most, total, paths);
  }
}
