/**
 The greedy edge cover of pkg/analysis/advanced_insights.go (generateCoverageSet): repeatedly take the
 node with the most uncovered blocking edges, the smallest ID on ties.
 */
module Coverage {
  import opened Issues
  import opened Sums
  import opened Counting

  datatype Edge = Edge(from: string, to: string)

  datatype Item = Item(id: string, added: nat, degree: nat, seqNo: nat)

  /** The blocking edges between open issues, in the order in which the issue map is walked. */
  function EdgesFrom(m: map<string, Issue>, id: string, deps: seq<Option<Dependency>>): (edges: seq<Edge>)
  {
    if deps == [] then []
    else
      var rest := EdgesFrom(m, id, deps[1..]);
      if IsBlocks(deps[0]) && IsOpen(m, deps[0].value.target) then [Edge(id, deps[0].value.target)] + rest else rest
  }

  function AllEdges(m: map<string, Issue>, order: seq<string>): seq<Edge>
  {
    if order == [] then []
    else (if IsOpen(m, order[0]) then EdgesFrom(m, order[0], m[order[0]].deps) else []) + AllEdges(m, order[1..])
  }

  /** The dependencies of one open issue. */
  method AppendEdges(m: map<string, Issue>, id: string, edges: seq<Edge>) returns (out: seq<Edge>)
    requires id in m
    ensures out == edges + EdgesFrom(m, id, m[id].deps)
  {
    out := edges;
    var deps := m[id].deps;
    for j := 0 to |deps|
      invariant out + EdgesFrom(m, id, deps[j..]) == edges + EdgesFrom(m, id, deps)
    {
      assert deps[j..][1..] == deps[j + 1..];
      if deps[j].None? || deps[j].value.kind != "blocks" {
        continue;
      }
      var target := deps[j].value.target;
      if target in m && !IsClosedLike(m[target].status) {
        out := out + [Edge(id, target)];
      }
    }
  }

  method BuildEdges(m: map<string, Issue>, order: seq<string>) returns (edges: seq<Edge>)
    requires forall id | id in order :: id in m
    ensures edges == AllEdges(m, order)
    ensures Distinct(order) ==> forall a, b | a in m && b in m ::
      multiset(edges)[Edge(a, b)] ==
      if a in order && m[a].status !in {"closed", "tombstone"} && m[b].status !in {"closed", "tombstone"}
      then multiset(m[a].deps)[Some(Dependency(b, "blocks"))] else 0
  {
    edges := RecordEdges(m, order);
    if Distinct(order) {
      CountedOnce(m, order);
    }
  }

  lemma EdgesOnward(m: map<string, Issue>, order: seq<string>, i: nat)
    requires i < |order|
    ensures AllEdges(m, order[i..]) ==
      (if IsOpen(m, order[i]) then EdgesFrom(m, order[i], m[order[i]].deps) else []) + AllEdges(m, order[i + 1..])
  {
    assert order[i..][1..] == order[i + 1..];
  }

  method RecordEdges(m: map<string, Issue>, order: seq<string>) returns (edges: seq<Edge>)
    requires forall id | id in order :: id in m
    ensures edges == AllEdges(m, order)
  {
    edges := [];
    for i := 0 to |order|
      invariant edges + AllEdges(m, order[i..]) == AllEdges(m, order)
    {
      EdgesOnward(m, order, i);
      assert order[i] in order;
      if !IsClosedLike(m[order[i]].status) {
        Regroup(edges, EdgesFrom(m, order[i], m[order[i]].deps), AllEdges(m, order[i + 1..]));
        edges := AppendEdges(m, order[i], edges);
      } else {
        assert [] + AllEdges(m, order[i + 1..]) == AllEdges(m, order[i + 1..]);
      }
    }
    assert order[|order|..] == [];
  }

  lemma Regroup(a: seq<Edge>, b: seq<Edge>, c: seq<Edge>)
    ensures a + (b + c) == (a + b) + c
  {
  }

  /** An open issue with a blocking dependency on an open issue: that is what an edge records. */
  ghost predicate IsEdge(m: map<string, Issue>, e: Edge)
  {
    IsOpen(m, e.from) && IsOpen(m, e.to) && Some(Dependency(e.to, "blocks")) in m[e.from].deps
  }

  lemma {:induction false} EdgesFromMeaning(m: map<string, Issue>, id: string, deps: seq<Option<Dependency>>, e: Edge)
    ensures e in EdgesFrom(m, id, deps) <==>
      e.from == id && IsOpen(m, e.to) && Some(Dependency(e.to, "blocks")) in deps
  {
    if deps != [] {
      EdgesFromMeaning(m, id, deps[1..], e);
      assert deps == [deps[0]] + deps[1..];
    }
  }

  lemma {:induction false} AllEdgesMeaning(m: map<string, Issue>, order: seq<string>, e: Edge)
    ensures e in AllEdges(m, order) <==> e.from in order && IsEdge(m, e)
  {
    if order != [] {
      AllEdgesMeaning(m, order[1..], e);
      assert order == [order[0]] + order[1..];
      if IsOpen(m, order[0]) {
        EdgesFromMeaning(m, order[0], m[order[0]].deps, e);
      }
    }
  }

  lemma {:induction false} EdgesFromCount(m: map<string, Issue>, id: string, deps: seq<Option<Dependency>>, a: string,
                                          b: string)
    ensures multiset(EdgesFrom(m, id, deps))[Edge(a, b)] ==
      if a == id && IsOpen(m, b) then multiset(deps)[Some(Dependency(b, "blocks"))] else 0
  {
    if deps != [] {
      EdgesFromCount(m, id, deps[1..], a, b);
      assert deps == [deps[0]] + deps[1..];
      assert deps[0] == Some(Dependency(b, "blocks")) <==> IsBlocks(deps[0]) && deps[0].value.target == b;
    }
  }

  lemma EdgesSplit(m: map<string, Issue>, order: seq<string>, e: Edge)
    requires order != []
    ensures multiset(AllEdges(m, order))[e] == multiset(AllEdges(m, order[1..]))[e]
      + if IsOpen(m, order[0]) then multiset(EdgesFrom(m, order[0], m[order[0]].deps))[e] else 0
  {
  }

  /** Every dependency is recorded once: the edge from a to b occurs as often as a depends on b. */
  lemma {:induction false} AllEdgesCount(m: map<string, Issue>, order: seq<string>, a: string, b: string)
    requires Distinct(order) && (forall id | id in order :: id in m) && a in m && b in m
    ensures multiset(AllEdges(m, order))[Edge(a, b)] ==
      if a in order && m[a].status !in {"closed", "tombstone"} && m[b].status !in {"closed", "tombstone"}
      then multiset(m[a].deps)[Some(Dependency(b, "blocks"))] else 0
  {
    if order != [] {
      AllEdgesCount(m, order[1..], a, b);
      assert a in order <==> a == order[0] || a in order[1..];
      assert order[0] !in order[1..];
      EdgesSplit(m, order, Edge(a, b));
      EdgesFromCount(m, order[0], m[order[0]].deps, a, b);
    }
  }

  lemma CountedOnce(m: map<string, Issue>, order: seq<string>)
    requires Distinct(order) && forall id | id in order :: id in m
    ensures forall a, b | a in m && b in m ::
      multiset(AllEdges(m, order))[Edge(a, b)] ==
      if a in order && m[a].status !in {"closed", "tombstone"} && m[b].status !in {"closed", "tombstone"}
      then multiset(m[a].deps)[Some(Dependency(b, "blocks"))] else 0
  {
    forall a, b | a in m && b in m
      ensures multiset(AllEdges(m, order))[Edge(a, b)] ==
        if a in order && m[a].status !in {"closed", "tombstone"} && m[b].status !in {"closed", "tombstone"}
        then multiset(m[a].deps)[Some(Dependency(b, "blocks"))] else 0
    {
      AllEdgesCount(m, order, a, b);
    }
  }

  ghost predicate Touches(e: Edge, id: string) { e.from == id || e.to == id }

  ghost function Leaving(edges: seq<Edge>, u: set<nat>, id: string): set<nat>
  {
    set i | i in u && i < |edges| && edges[i].from == id
  }

  ghost function Entering(edges: seq<Edge>, u: set<nat>, id: string): set<nat>
  {
    set i | i in u && i < |edges| && edges[i].to == id
  }

  ghost function Incident(edges: seq<Edge>, u: set<nat>, id: string): set<nat>
  {
    set i | i in u && i < |edges| && Touches(edges[i], id)
  }

  /** The degree the code computes: both ends of an edge count, so a self-edge counts twice. */
  ghost function Degree(edges: seq<Edge>, u: set<nat>, id: string): nat
  {
    |Leaving(edges, u, id)| + |Entering(edges, u, id)|
  }

  /** The edges that none of the nodes touches. */
  ghost function Uncovered(edges: seq<Edge>, picks: seq<string>): set<nat>
  {
    set i: nat | i < |edges| && edges[i].from !in picks && edges[i].to !in picks
  }

  ghost function Picks(items: seq<Item>): seq<string>
  {
    seq(|items|, i requires 0 <= i < |items| => items[i].id)
  }

  /** id has the largest degree, and the smallest ID among those that have it. */
  ghost predicate IsBest(edges: seq<Edge>, u: set<nat>, id: string)
  {
    Degree(edges, u, id) > 0 &&
    forall other :: Degree(edges, u, other) <= Degree(edges, u, id)
      && (Degree(edges, u, other) == Degree(edges, u, id) && other != id ==> Less(id, other))
  }

  /** Item t is the greedy choice after the first t items. */
  ghost predicate IsItem(edges: seq<Edge>, items: seq<Item>, t: nat)
    requires t < |items|
  {
    var u := Uncovered(edges, Picks(items[..t]));
    && IsBest(edges, u, items[t].id)
    && items[t].degree == Degree(edges, u, items[t].id)
    && items[t].added == |Incident(edges, u, items[t].id)|
    && items[t].seqNo == t + 1
  }

  ghost predicate IsGreedy(edges: seq<Edge>, items: seq<Item>)
  {
    forall t | 0 <= t < |items| :: IsItem(edges, items, t)
  }

  // ---------- the loops ----------

  ghost predicate Submap(edges: seq<Edge>, uncovered: map<nat, Edge>, u: set<nat>)
  {
    uncovered.Keys == u && forall i | i in u :: i < |edges| && uncovered[i] == edges[i]
  }

  /** deg holds exactly the nonzero degrees. */
  ghost predicate Counts(edges: seq<Edge>, u: set<nat>, deg: map<string, nat>)
  {
    forall id :: (id in deg <==> Degree(edges, u, id) > 0) && (id in deg ==> deg[id] == Degree(edges, u, id))
  }

  function Bump(deg: map<string, nat>, id: string): map<string, nat>
  {
    deg[id := if id in deg then deg[id] + 1 else 1]
  }

  method CountDegrees(ghost edges: seq<Edge>, uncovered: map<nat, Edge>) returns (deg: map<string, nat>)
    requires Submap(edges, uncovered, uncovered.Keys)
    ensures Counts(edges, uncovered.Keys, deg)
  {
    deg := map[];
    var todo := uncovered.Keys;
    ghost var done: set<nat> := {};
    while todo != {}
      invariant done == uncovered.Keys - todo && todo <= uncovered.Keys
      invariant Counts(edges, done, deg)
      decreases todo
    {
      var i :| i in todo;
      var e := uncovered[i];
      CountsGrow(edges, done, deg, i);
      deg := Bump(Bump(deg, e.from), e.to);
      todo, done := todo - {i}, done + {i};
    }
    assert done == uncovered.Keys;
  }

  /** One more edge raises the degree of each of its ends by one. */
  lemma DegreeGrows(edges: seq<Edge>, u: set<nat>, i: nat, id: string)
    requires i < |edges| && i !in u
    ensures Degree(edges, u + {i}, id)
         == Degree(edges, u, id) + (if edges[i].from == id then 1 else 0) + (if edges[i].to == id then 1 else 0)
  {
    LeavingGrows(edges, u, i, id);
    EnteringGrows(edges, u, i, id);
  }

  lemma LeavingGrows(edges: seq<Edge>, u: set<nat>, i: nat, id: string)
    requires i < |edges| && i !in u
    ensures |Leaving(edges, u + {i}, id)| == |Leaving(edges, u, id)| + (if edges[i].from == id then 1 else 0)
  {
    if edges[i].from == id {
      assert Leaving(edges, u + {i}, id) == Leaving(edges, u, id) + {i};
    } else {
      assert Leaving(edges, u + {i}, id) == Leaving(edges, u, id);
    }
  }

  lemma EnteringGrows(edges: seq<Edge>, u: set<nat>, i: nat, id: string)
    requires i < |edges| && i !in u
    ensures |Entering(edges, u + {i}, id)| == |Entering(edges, u, id)| + (if edges[i].to == id then 1 else 0)
  {
    if edges[i].to == id {
      assert Entering(edges, u + {i}, id) == Entering(edges, u, id) + {i};
    } else {
      assert Entering(edges, u + {i}, id) == Entering(edges, u, id);
    }
  }

  lemma CountsGrow(edges: seq<Edge>, u: set<nat>, deg: map<string, nat>, i: nat)
    requires i < |edges| && i !in u && Counts(edges, u, deg)
    ensures Counts(edges, u + {i}, Bump(Bump(deg, edges[i].from), edges[i].to))
  {
    forall id {
      DegreeGrows(edges, u, i, id);
    }
  }

  method PickBest(deg: map<string, nat>) returns (best: string, bestDeg: int)
    requires deg != map[] && "" !in deg
    ensures best in deg && bestDeg == deg[best]
    ensures forall id | id in deg :: deg[id] <= deg[best] && (deg[id] == deg[best] && id != best ==> Less(best, id))
  {
    best, bestDeg := "", -1;
    var todo := deg.Keys;
    while todo != {}
      invariant todo <= deg.Keys
      invariant if best == "" then bestDeg == -1 && todo == deg.Keys
        else best in deg && best !in todo && bestDeg == deg[best]
      invariant best != "" ==> forall id | id in deg && id !in todo ::
        deg[id] <= bestDeg && (deg[id] == bestDeg && id != best ==> Less(best, id))
      decreases todo
    {
      var id :| id in todo;
      var d := deg[id];
      if best != "" {
        BestSoFar(deg, todo, best, id);
      }
      if d > bestDeg || (d == bestDeg && (best == "" || Less(id, best))) {
        best, bestDeg := id, d;
      }
      todo := todo - {id};
    }
    assert deg.Keys != {};
  }

  /** If id beats the best of those seen, it beats them all; if not, the best still stands. */
  lemma BestSoFar(deg: map<string, nat>, todo: set<string>, best: string, id: string)
    requires best in deg && id in deg && best !in todo && id in todo
    requires forall x | x in deg && x !in todo ::
      deg[x] <= deg[best] && (deg[x] == deg[best] && x != best ==> Less(best, x))
    ensures Less(id, best) ==> forall x | x in deg && x !in todo && deg[x] == deg[best] :: Less(id, x)
    ensures !Less(id, best) ==> Less(best, id)
  {
    LessTotal(id, best);
    if Less(id, best) {
      forall x | x in deg && x !in todo && deg[x] == deg[best] && x != best {
        LessTransitive(id, best, x);
      }
    }
  }

  method RemoveIncident(uncovered: map<nat, Edge>, best: string) returns (rest: map<nat, Edge>, added: nat)
    ensures rest == map i | i in uncovered && !Touches(uncovered[i], best) :: uncovered[i]
    ensures added == |uncovered.Keys| - |rest.Keys|
  {
    rest, added := uncovered, 0;
    var todo := uncovered.Keys;
    while todo != {}
      invariant todo <= uncovered.Keys
      invariant rest == map i | i in uncovered && (i in todo || !Touches(uncovered[i], best)) :: uncovered[i]
      invariant added + |rest.Keys| == |uncovered.Keys|
      decreases todo
    {
      var i :| i in todo;
      var e := uncovered[i];
      if e.from == best || e.to == best {
        assert i in rest;
        assert (rest - {i}).Keys == rest.Keys - {i};
        rest, added := rest - {i}, added + 1;
      }
      todo := todo - {i};
    }
  }

  /** The whole selection. The result is determined: every item is the greedy choice. */
  method GreedyCover(edges: seq<Edge>, limit: nat) returns (items: seq<Item>, edgesCovered: nat, capped: bool)
    requires forall i | 0 <= i < |edges| :: edges[i].from != "" && edges[i].to != ""
    ensures IsGreedy(edges, items) && |items| <= limit
    ensures edgesCovered == |edges| - |Uncovered(edges, Picks(items))|
    ensures capped <==> Uncovered(edges, Picks(items)) != {}
    ensures capped ==> |items| == limit
  {
    var uncovered: map<nat, Edge> := map[];
    for i := 0 to |edges|
      invariant Submap(edges, uncovered, set j: nat | j < i && edges[j] == edges[j])
    {
      uncovered := uncovered[i := edges[i]];
    }
    items, edgesCovered := [], 0;
    AllUncovered(edges);
    while uncovered != map[] && |items| < limit
      invariant Submap(edges, uncovered, Uncovered(edges, Picks(items)))
      invariant IsGreedy(edges, items) && |items| <= limit
      invariant edgesCovered == |edges| - |Uncovered(edges, Picks(items))|
      decreases limit - |items|
    {
      var deg := CountDegrees(edges, uncovered);
      SomeDegree(edges, uncovered.Keys, deg);
      var best, bestDeg := PickBest(deg);
      var rest, added := RemoveIncident(uncovered, best);
      ghost var before := items;
      items := items + [Item(best, added, bestDeg, |items| + 1)];
      Picked(edges, before, items, uncovered, rest, deg);
      uncovered, edgesCovered := rest, edgesCovered + added;
    }
    capped := uncovered != map[];
    assert uncovered == map[] <==> uncovered.Keys == {};
  }

  /** No node picked before touches edge i. */
  ghost predicate Free(edges: seq<Edge>, items: seq<Item>, t: nat, i: nat)
    requires i < |edges| && t <= |items|
  {
    forall s | 0 <= s < t :: edges[i].from != items[s].id && edges[i].to != items[s].id
  }

  lemma FreeIs(edges: seq<Edge>, items: seq<Item>, t: nat, i: nat)
    requires i < |edges| && t <= |items|
    ensures Free(edges, items, t, i) <==> i in Uncovered(edges, Picks(items[..t]))
  {
    var ps := Picks(items[..t]);
    assert forall s | 0 <= s < t :: ps[s] == items[s].id;
  }

  /** What an item says, counted over the edges that no earlier pick touches. */
  lemma ItemMeaning(edges: seq<Edge>, items: seq<Item>, t: nat)
    requires IsGreedy(edges, items) && t < |items|
    ensures items[t].seqNo == t + 1
    ensures items[t].degree == |set i: nat | i < |edges| && Free(edges, items, t, i) && edges[i].from == items[t].id|
      + |set i: nat | i < |edges| && Free(edges, items, t, i) && edges[i].to == items[t].id|
    ensures items[t].added == |set i: nat | i < |edges| && Free(edges, items, t, i)
      && (edges[i].from == items[t].id || edges[i].to == items[t].id)|
  {
    assert IsItem(edges, items, t);
    var u, id := Uncovered(edges, Picks(items[..t])), items[t].id;
    forall i: nat | i < |edges| ensures Free(edges, items, t, i) <==> i in u {
      FreeIs(edges, items, t, i);
    }
    assert Leaving(edges, u, id) == set i: nat | i < |edges| && Free(edges, items, t, i) && edges[i].from == id;
    assert Entering(edges, u, id) == set i: nat | i < |edges| && Free(edges, items, t, i) && edges[i].to == id;
    assert Incident(edges, u, id) ==
      set i: nat | i < |edges| && Free(edges, items, t, i) && (edges[i].from == id || edges[i].to == id);
  }

  /** No other node touches more of those edges, counting self-edges twice, and none with a smaller ID as many. */
  lemma PickMeaning(edges: seq<Edge>, items: seq<Item>, t: nat, other: string)
    requires IsGreedy(edges, items) && t < |items|
    ensures var degree := |set i: nat | i < |edges| && Free(edges, items, t, i) && edges[i].from == other|
        + |set i: nat | i < |edges| && Free(edges, items, t, i) && edges[i].to == other|;
      && items[t].degree > 0 && degree <= items[t].degree
      && (degree == items[t].degree && other != items[t].id ==> Less(items[t].id, other))
  {
    assert IsItem(edges, items, t);
    var u := Uncovered(edges, Picks(items[..t]));
    forall i: nat | i < |edges| ensures Free(edges, items, t, i) <==> i in u {
      FreeIs(edges, items, t, i);
    }
    assert Leaving(edges, u, other) == set i: nat | i < |edges| && Free(edges, items, t, i) && edges[i].from == other;
    assert Entering(edges, u, other) == set i: nat | i < |edges| && Free(edges, items, t, i) && edges[i].to == other;
    assert Degree(edges, u, other) <= Degree(edges, u, items[t].id);
  }

  datatype CoverageSet = CoverageSet(
    count: nat, capped: bool, limited: nat, items: seq<Item>, edgesCovered: nat, totalEdges: nat, ratio: real)

  function OrFive(limit: int): nat
  {
    if limit <= 0 then 5 else limit
  }

  lemma EdgesNamed(m: map<string, Issue>, order: seq<string>)
    requires Indexed(m)
    ensures forall e | e in AllEdges(m, order) :: e.from in m && e.to in m && e.from != "" && e.to != ""
  {
    forall e | e in AllEdges(m, order) ensures e.from in m && e.to in m && e.from != "" && e.to != "" {
      AllEdgesMeaning(m, order, e);
    }
  }

  lemma Ratio(c: nat, n: nat)
    requires n > 0
    ensures (c as real / n as real) * n as real == c as real
  {
  }

  /** The result made from the edges. */
  method CoverEdges(edges: seq<Edge>, max: nat) returns (r: CoverageSet)
    requires forall e | e in edges :: e.from != "" && e.to != ""
    ensures IsGreedy(edges, r.items) && r.count == |r.items| <= max
    ensures r.totalEdges == |edges|
    ensures r.edgesCovered == |edges| - |set i: nat | i < |edges| && Free(edges, r.items, |r.items|, i)|
    ensures r.capped <==> r.edgesCovered < r.totalEdges
    ensures r.capped ==> r.count == max && r.limited == |edges|
    ensures if r.totalEdges == 0 then r.ratio == 1.0 else r.ratio * r.totalEdges as real == r.edgesCovered as real
  {
    if |edges| == 0 {
      CoveredMeaning(edges, []);
      return CoverageSet(0, false, 0, [], 0, 0, 1.0);
    }
    forall i | 0 <= i < |edges| ensures edges[i].from != "" && edges[i].to != "" {
      assert edges[i] in edges;
    }
    var items, covered, capped := GreedyCover(edges, max);
    CoveredMeaning(edges, items);
    Ratio(covered, |edges|);
    r := CoverageSet(|items|, capped, |edges|, items, covered, |edges|, covered as real / |edges| as real);
  }

  /** The whole function; order is the order in which the map happens to be walked. */
  method GenerateCoverageSet(m: map<string, Issue>, order: seq<string>, limit: int)
      returns (r: CoverageSet, ghost edges: seq<Edge>)
    requires Indexed(m) && Distinct(order) && forall id :: id in order <==> id in m
    ensures forall a, b | a in m && b in m ::
      multiset(edges)[Edge(a, b)] ==
      if m[a].status !in {"closed", "tombstone"} && m[b].status !in {"closed", "tombstone"}
      then multiset(m[a].deps)[Some(Dependency(b, "blocks"))] else 0
    ensures forall e | e in edges :: e.from in m && e.to in m
    ensures IsGreedy(edges, r.items) && r.count == |r.items| <= (if limit <= 0 then 5 else limit)
    ensures r.totalEdges == |edges|
    ensures r.edgesCovered == |edges| - |set i: nat | i < |edges| && Free(edges, r.items, |r.items|, i)|
    ensures r.capped <==> r.edgesCovered < r.totalEdges
    ensures r.capped ==> r.count == (if limit <= 0 then 5 else limit) && r.limited == |edges|
    ensures if r.totalEdges == 0 then r.ratio == 1.0 else r.ratio * r.totalEdges as real == r.edgesCovered as real
  {
    var list := BuildEdges(m, order);
    edges := list;
    EdgesNamed(m, order);
    r := CoverEdges(list, OrFive(limit));
  }

  lemma CoveredMeaning(edges: seq<Edge>, items: seq<Item>)
    ensures Uncovered(edges, Picks(items)) == set i: nat | i < |edges| && Free(edges, items, |items|, i)
    ensures |Uncovered(edges, Picks(items))| <= |edges|
  {
    assert items[..|items|] == items;
    forall i: nat | i < |edges| ensures Free(edges, items, |items|, i) <==> i in Uncovered(edges, Picks(items)) {
      FreeIs(edges, items, |items|, i);
    }
    AllUncovered(edges);
    CardSplit(Uncovered(edges, []), Uncovered(edges, Picks(items)));
  }

  lemma AllUncovered(edges: seq<Edge>)
    ensures |Uncovered(edges, [])| == |edges|
    ensures Uncovered(edges, []) == set j: nat | j < |edges| && edges[j] == edges[j]
  {
    CountIndices(edges, |edges|);
    assert Uncovered(edges, []) == set j: nat | j < |edges| && edges[j] == edges[j];
  }

  lemma CountIndices(edges: seq<Edge>, n: nat)
    requires n <= |edges|
    ensures |set j: nat | j < n && edges[j] == edges[j]| == n
  {
    if n > 0 {
      CountIndices(edges, n - 1);
      assert (set j: nat | j < n && edges[j] == edges[j]) == (set j: nat | j < n - 1 && edges[j] == edges[j]) + {n - 1};
    }
  }

  /** While an edge is uncovered some node has a degree, and nodes have nonempty IDs. */
  lemma SomeDegree(edges: seq<Edge>, u: set<nat>, deg: map<string, nat>)
    requires u != {} && Counts(edges, u, deg)
    requires forall i | i in u :: i < |edges| && edges[i].from != "" && edges[i].to != ""
    ensures deg != map[] && "" !in deg
  {
    var i :| i in u;
    assert i in Leaving(edges, u, edges[i].from);
    assert edges[i].from in deg;
    assert Leaving(edges, u, "") == {} && Entering(edges, u, "") == {};
  }

  /** The loop body makes the next greedy item. */
  lemma Picked(edges: seq<Edge>, before: seq<Item>, items: seq<Item>,
               uncovered: map<nat, Edge>, rest: map<nat, Edge>, deg: map<string, nat>)
    requires |items| == |before| + 1 && items[..|before|] == before && IsGreedy(edges, before)
    requires Submap(edges, uncovered, Uncovered(edges, Picks(before))) && Counts(edges, uncovered.Keys, deg)
    requires var it := items[|before|];
      && it.id in deg && it.degree == deg[it.id] && it.seqNo == |before| + 1
      && (forall id | id in deg :: deg[id] <= deg[it.id] && (deg[id] == deg[it.id] && id != it.id ==> Less(it.id, id)))
      && rest == (map i | i in uncovered && !Touches(uncovered[i], it.id) :: uncovered[i])
      && it.added == |uncovered.Keys| - |rest.Keys|
    ensures IsGreedy(edges, items)
    ensures Submap(edges, rest, Uncovered(edges, Picks(items)))
  {
    var t, u := |before|, Uncovered(edges, Picks(before));
    var id := items[t].id;
    PickUncovers(edges, before, items, uncovered, rest);
    PickIsBest(edges, u, deg, id);
    forall s | 0 <= s < |items| ensures IsItem(edges, items, s) {
      assert items[..s] == if s < t then before[..s] else before;
      if s < t {
        assert IsItem(edges, before, s);
      }
    }
  }

  lemma PickIsBest(edges: seq<Edge>, u: set<nat>, deg: map<string, nat>, id: string)
    requires Counts(edges, u, deg) && id in deg
    requires forall x | x in deg :: deg[x] <= deg[id] && (deg[x] == deg[id] && x != id ==> Less(id, x))
    ensures IsBest(edges, u, id)
  {
    forall other
      ensures Degree(edges, u, other) <= Degree(edges, u, id)
      ensures Degree(edges, u, other) == Degree(edges, u, id) && other != id ==> Less(id, other)
    {
      assert other in deg <==> Degree(edges, u, other) > 0;
    }
  }

  /** Picking one more node uncovers nothing but what it touches. */
  lemma UncoveredStep(edges: seq<Edge>, picks: seq<string>, id: string)
    ensures Uncovered(edges, picks + [id]) == Uncovered(edges, picks) - Incident(edges, Uncovered(edges, picks), id)
    ensures |Uncovered(edges, picks + [id])| ==
      |Uncovered(edges, picks)| - |Incident(edges, Uncovered(edges, picks), id)|
  {
    var u := Uncovered(edges, picks);
    var gone := Incident(edges, u, id);
    assert forall x :: x in picks + [id] <==> x in picks || x == id;
    assert Uncovered(edges, picks + [id]) == u - gone;
    assert u == (u - gone) + gone;
  }

  lemma PickUncovers(edges: seq<Edge>, before: seq<Item>, items: seq<Item>, uncovered: map<nat, Edge>,
                     rest: map<nat, Edge>)
    requires |items| == |before| + 1 && items[..|before|] == before
    requires Submap(edges, uncovered, Uncovered(edges, Picks(before)))
    requires rest == (map i | i in uncovered && !Touches(uncovered[i], items[|before|].id) :: uncovered[i])
    ensures Submap(edges, rest, Uncovered(edges, Picks(items)))
    ensures |Incident(edges, uncovered.Keys, items[|before|].id)| == |uncovered.Keys| - |rest.Keys|
  {
    var id := items[|before|].id;
    UncoveredStep(edges, Picks(before), id);
    assert Picks(items) == Picks(before) + [id];
    assert rest.Keys == uncovered.Keys - Incident(edges, uncovered.Keys, id);
  }

  // ---------- what every greedy selection satisfies ----------

  /** The edges covered by the first t picks, by count. */
  ghost function Covered(edges: seq<Edge>, items: seq<Item>, t: nat): int
    requires t <= |items|
  {
    |edges| - |Uncovered(edges, Picks(items[..t]))|
  }

  lemma CoveredStep(edges: seq<Edge>, items: seq<Item>, t: nat)
    requires IsGreedy(edges, items) && t < |items|
    ensures Uncovered(edges, Picks(items[..t + 1])) <= Uncovered(edges, Picks(items[..t]))
    ensures Covered(edges, items, t + 1) == Covered(edges, items, t) + items[t].added
  {
    assert IsItem(edges, items, t);
    assert Picks(items[..t + 1]) == Picks(items[..t]) + [items[t].id];
    UncoveredStep(edges, Picks(items[..t]), items[t].id);
  }

  /** EdgesAdded falls short of TotalDegree by the uncovered self-edges of the pick, and by nothing else. */
  lemma AddedVersusDegree(edges: seq<Edge>, u: set<nat>, id: string)
    requires forall i | i in u :: i < |edges|
    ensures Degree(edges, u, id) == |Incident(edges, u, id)| + |Leaving(edges, u, id) * Entering(edges, u, id)|
    ensures |Incident(edges, u, id)| <= Degree(edges, u, id) <= 2 * |Incident(edges, u, id)|
  {
    var l, e := Leaving(edges, u, id), Entering(edges, u, id);
    assert Incident(edges, u, id) == l + e;
    assert |l + e| == |l| + |e| - |l * e|;
    Subset(l * e, l + e);
  }

  lemma Subset<T>(a: set<T>, b: set<T>)
    requires a <= b
    ensures |a| <= |b|
  {
    assert b == a + (b - a);
  }

  lemma DegreeShrinks(edges: seq<Edge>, u: set<nat>, v: set<nat>, id: string)
    requires v <= u
    ensures Degree(edges, v, id) <= Degree(edges, u, id)
  {
    Subset(Leaving(edges, v, id), Leaving(edges, u, id));
    Subset(Entering(edges, v, id), Entering(edges, u, id));
  }

  /** TotalDegree never increases from pick to pick. */
  lemma DegreesDecrease(edges: seq<Edge>, items: seq<Item>, t: nat)
    requires IsGreedy(edges, items) && t + 1 < |items|
    ensures items[t + 1].degree <= items[t].degree
  {
    var u, v := Uncovered(edges, Picks(items[..t])), Uncovered(edges, Picks(items[..t + 1]));
    assert IsItem(edges, items, t) && IsItem(edges, items, t + 1);
    CoveredStep(edges, items, t);
    DegreeShrinks(edges, u, v, items[t + 1].id);
    assert Degree(edges, u, items[t + 1].id) <= Degree(edges, u, items[t].id);
  }

  lemma PickedHasNoDegree(edges: seq<Edge>, picks: seq<string>, id: string)
    requires id in picks
    ensures Degree(edges, Uncovered(edges, picks), id) == 0
  {
    assert Leaving(edges, Uncovered(edges, picks), id) == {};
    assert Entering(edges, Uncovered(edges, picks), id) == {};
  }

  /** No node is picked twice. */
  lemma PicksDistinct(edges: seq<Edge>, items: seq<Item>, s: nat, t: nat)
    requires IsGreedy(edges, items) && s < t < |items|
    ensures items[s].id != items[t].id
  {
    assert IsItem(edges, items, t);
    assert Picks(items[..t])[s] == items[s].id;
    PickedHasNoDegree(edges, Picks(items[..t]), items[s].id);
  }

  /** A selection that leaves nothing uncovered is a vertex cover. */
  lemma VertexCover(edges: seq<Edge>, picks: seq<string>)
    ensures Uncovered(edges, picks) == {} <==> forall i | 0 <= i < |edges| ::
      edges[i].from in picks || edges[i].to in picks
  {
    forall i | 0 <= i < |edges|
      ensures i in Uncovered(edges, picks) <==> edges[i].from !in picks && edges[i].to !in picks
    {
    }
  }

  /** The edges that a set of nodes touches. */
  ghost function TouchedBy(edges: seq<Edge>, u: set<nat>, nodes: set<string>): set<nat>
  {
    set i | i in u && i < |edges| && (edges[i].from in nodes || edges[i].to in nodes)
  }

  /** Any k nodes touch at most k times the largest degree. */
  lemma {:induction false} AtMostMaxDegree(edges: seq<Edge>, u: set<nat>, nodes: set<string>, id: string)
    requires IsBest(edges, u, id)
    ensures |TouchedBy(edges, u, nodes)| <= |nodes| * Degree(edges, u, id)
  {
    if x :| x in nodes {
      var rest := nodes - {x};
      AtMostMaxDegree(edges, u, rest, id);
      var mine := Leaving(edges, u, x) + Entering(edges, u, x);
      assert TouchedBy(edges, u, nodes) == TouchedBy(edges, u, rest) + mine;
      assert Degree(edges, u, x) <= Degree(edges, u, id);
      assert |mine| <= Degree(edges, u, x);
      assert |nodes| * Degree(edges, u, id) == |rest| * Degree(edges, u, id) + Degree(edges, u, id);
    } else {
      assert TouchedBy(edges, u, nodes) == {};
    }
  }

  ghost function Power(b: int, e: nat): int
  {
    if e == 0 then 1 else b * Power(b, e - 1)
  }

  ghost function TouchCount(edges: seq<Edge>, nodes: set<string>): nat
  {
    |TouchedBy(edges, Uncovered(edges, []), nodes)|
  }

  /** Of the c edges that the nodes touch, at least c - covered are still uncovered. */
  lemma StillTouched(edges: seq<Edge>, items: seq<Item>, t: nat, nodes: set<string>)
    requires t <= |items|
    ensures |TouchedBy(edges, Uncovered(edges, Picks(items[..t])), nodes)|
         >= TouchCount(edges, nodes) - Covered(edges, items, t)
  {
    var all, u := Uncovered(edges, []), Uncovered(edges, Picks(items[..t]));
    AllUncovered(edges);
    assert u <= all;
    assert TouchedBy(edges, all, nodes) <= TouchedBy(edges, u, nodes) + (all - u);
    Subset(TouchedBy(edges, all, nodes), TouchedBy(edges, u, nodes) + (all - u));
    assert |all - u| == |all| - |u| by { assert all == u + (all - u); }
  }

  /** One greedy step closes at least 1/(rk) of the gap, if EdgesAdded is at least 1/r of TotalDegree. */
  lemma GapStep(edges: seq<Edge>, items: seq<Item>, t: nat, nodes: set<string>, r: nat)
    requires IsGreedy(edges, items) && t < |items| && r * items[t].added >= items[t].degree
    ensures var k, c := |nodes|, TouchCount(edges, nodes);
      r * k * (c - Covered(edges, items, t + 1)) <= (r * k - 1) * (c - Covered(edges, items, t))
  {
    var k, c, g, a := |nodes|, TouchCount(edges, nodes), Covered(edges, items, t), items[t].added;
    assert IsItem(edges, items, t);
    StillTouched(edges, items, t, nodes);
    AtMostMaxDegree(edges, Uncovered(edges, Picks(items[..t])), nodes, items[t].id);
    CoveredStep(edges, items, t);
    GapArithmetic(k, c - g, a, items[t].degree, r);
  }

  lemma GapArithmetic(k: nat, gap: int, a: nat, d: nat, r: nat)
    requires gap <= k * d && r * a >= d
    ensures r * k * (gap - a) <= (r * k - 1) * gap
  {
    assert k * d <= k * (r * a) == r * k * a;
    assert r * k * (gap - a) == r * k * gap - r * k * a;
  }

  /** Greedy bound: after t picks the gap to any k nodes has shrunk by the factor (1 - 1/(rk))^t. */
  lemma {:induction false} GapBound(edges: seq<Edge>, items: seq<Item>, t: nat, nodes: set<string>, r: nat)
    requires IsGreedy(edges, items) && t <= |items| && r > 0
    requires forall s | 0 <= s < |items| :: r * items[s].added >= items[s].degree
    ensures var k, c := |nodes|, TouchCount(edges, nodes);
      Power(r * k, t) * (c - Covered(edges, items, t)) <= Power(r * k - 1, t) * c
  {
    var k, c := |nodes|, TouchCount(edges, nodes);
    if t == 0 {
      AllUncovered(edges);
      assert Picks(items[..0]) == [];
    } else if k == 0 {
      assert TouchedBy(edges, Uncovered(edges, []), nodes) == {};
    } else {
      GapBound(edges, items, t - 1, nodes, r);
      GapStep(edges, items, t - 1, nodes, r);
      assert r * k >= 1 by { assert r * k >= k; }
      PowerPositive(r * k, t - 1);
      Chain(Power(r * k, t - 1), Power(r * k - 1, t - 1), r * k, c, c - Covered(edges, items, t - 1),
        c - Covered(edges, items, t));
    }
  }

  lemma PowerPositive(b: int, e: nat)
    requires b >= 1
    ensures Power(b, e) >= 1
  {
  }

  lemma Chain(p: int, q: int, m: int, c: int, gap: int, gap': int)
    requires p >= 1 && m >= 1 && p * gap <= q * c && m * gap' <= (m - 1) * gap
    ensures m * p * gap' <= (m - 1) * q * c
  {
    assert p * (m * gap') <= p * ((m - 1) * gap);
    assert (m - 1) * (p * gap) <= (m - 1) * (q * c);
  }

  /** No edge joins a node to itself. */
  ghost predicate NoSelfEdges(edges: seq<Edge>)
  {
    forall i | 0 <= i < |edges| :: edges[i].from != edges[i].to
  }

  /** Without self-dependencies: k^t (c - covered) <= (k - 1)^t c, for any k nodes touching c edges. */
  lemma GreedyBound(edges: seq<Edge>, items: seq<Item>, t: nat, nodes: set<string>)
    requires IsGreedy(edges, items) && t <= |items| && NoSelfEdges(edges)
    ensures Power(|nodes|, t) * (TouchCount(edges, nodes) - Covered(edges, items, t))
         <= Power(|nodes| - 1, t) * TouchCount(edges, nodes)
    ensures forall s | 0 <= s < |items| :: items[s].added == items[s].degree
  {
    forall s | 0 <= s < |items| ensures items[s].added == items[s].degree {
      assert IsItem(edges, items, s);
      var u := Uncovered(edges, Picks(items[..s]));
      AddedVersusDegree(edges, u, items[s].id);
      assert Leaving(edges, u, items[s].id) * Entering(edges, u, items[s].id) == {};
    }
    GapBound(edges, items, t, nodes, 1);
  }

  /** With self-dependencies allowed the same bound holds with 2k in place of k. */
  lemma GreedyBoundSelf(edges: seq<Edge>, items: seq<Item>, t: nat, nodes: set<string>)
    requires IsGreedy(edges, items) && t <= |items|
    ensures Power(2 * |nodes|, t) * (TouchCount(edges, nodes) - Covered(edges, items, t))
         <= Power(2 * |nodes| - 1, t) * TouchCount(edges, nodes)
  {
    forall s | 0 <= s < |items| ensures 2 * items[s].added >= items[s].degree {
      assert IsItem(edges, items, s);
      AddedVersusDegree(edges, Uncovered(edges, Picks(items[..s])), items[s].id);
    }
    GapBound(edges, items, t, nodes, 2);
  }

  /**
   With a self-dependency the bound for k itself can fail: "a" depends on itself, "b" on "c" and "d". Both have
   degree 2, "a" is taken first and covers one edge, while "b" alone would have covered two.
   */
  lemma SelfEdgeBreaksBound()
    ensures var edges := [Edge("a", "a"), Edge("b", "c"), Edge("b", "d")];
      var items := [Item("a", 1, 2, 1)];
      && IsGreedy(edges, items)
      && !(Power(1, 1) * (TouchCount(edges, {"b"}) - Covered(edges, items, 1)) <=
        Power(0, 1) * TouchCount(edges, {"b"}))
  {
    var edges, items := [Edge("a", "a"), Edge("b", "c"), Edge("b", "d")], [Item("a", 1, 2, 1)];
    var u := Uncovered(edges, []);
    assert u == {0, 1, 2};
    assert Picks(items[..0]) == [] && Picks(items[..1]) == ["a"];
    SelfEdgeDegrees(edges, u);
    assert Incident(edges, u, "a") == {0};
    assert Uncovered(edges, ["a"]) == {1, 2};
    assert TouchedBy(edges, u, {"b"}) == {1, 2};
  }

  lemma SelfEdgeDegrees(edges: seq<Edge>, u: set<nat>)
    requires edges == [Edge("a", "a"), Edge("b", "c"), Edge("b", "d")] && u == {0, 1, 2}
    ensures Degree(edges, u, "a") == 2 && IsBest(edges, u, "a")
  {
    forall id ensures Leaving(edges, u, id) == (if id == "a" then {0} else if id == "b" then {1, 2} else {}) {
    }
    forall id
      ensures Entering(edges, u, id) == (if id == "a" then {0} else if id == "c" then {1} else if id == "d" then {2}
        else {})
    {
    }
    assert Less("a", "b");
  }
}
