/**
 Cycles of the whole graph, pkg/analysis/graph_cycles.go: one from each cyclic strongly connected component, up to
 a limit, shortest first. The components come from a library and are taken as given.
 */
module Cycles {
  import opened Sums
  import opened Digraphs
  import opened CycleSearch
  import Sorting

  /** All arcs, from a node to one with an arc to it. */
  ghost function Back(g: Preds): set<(int, int)>
  {
    set u, v | u in g && v in g[u] :: (u, v)
  }

  /** The arcs of the graph itself. */
  ghost function GraphArcs(g: Preds): set<(int, int)>
  {
    Flip(Back(g))
  }

  ghost predicate Mutual(g: Preds, u: int, v: int)
  {
    Reaches(GraphArcs(g), u, v) && Reaches(GraphArcs(g), v, u)
  }

  /**
   The strongly connected components: every node of an arc in one of them, no node twice, mutual reachability inside.
   */
  ghost predicate Components(g: Preds, sccs: seq<seq<int>>)
  {
    && (forall k | 0 <= k < |sccs| :: sccs[k] != [] && Distinct(sccs[k]))
    && (forall k, l, u | 0 <= k < |sccs| && 0 <= l < |sccs| && u in sccs[k] && u in sccs[l] :: k == l)
    && (forall k, u, v | 0 <= k < |sccs| && u in sccs[k] :: v in sccs[k] <==> Mutual(g, u, v))
    && forall u, v | (u, v) in Back(g) :: InSome(sccs, u)
  }

  ghost predicate InSome(sccs: seq<seq<int>>, u: int)
  {
    exists k | 0 <= k < |sccs| :: u in sccs[k]
  }

  ghost predicate Cyclic(g: Preds, scc: seq<int>)
  {
    |scc| > 1 || (|scc| == 1 && scc[0] in At(g, scc[0]))
  }

  ghost function CountCyclic(g: Preds, sccs: seq<seq<int>>, n: nat): nat
    requires n <= |sccs|
  {
    if n == 0 then 0 else CountCyclic(g, sccs, n - 1) + if Cyclic(g, sccs[n - 1]) then 1 else 0
  }

  // ---------- components and cycles ----------

  lemma MutualBack(g: Preds, u: int, v: int)
    ensures Mutual(g, u, v) <==> Reaches(Back(g), u, v) && Reaches(Back(g), v, u)
  {
    ReachesFlip(Back(g), u, v);
    ReachesFlip(Back(g), v, u);
  }

  /** A closed trail stays in the component it starts from. */
  lemma ClosedInside(g: Preds, sccs: seq<seq<int>>, k: nat, p: seq<int>)
    requires Components(g, sccs) && k < |sccs| && Closed(Back(g), p) && p[0] in sccs[k]
    ensures Closed(Inside(g, sccs[k]), p)
  {
    forall i | 0 <= i < |p| ensures p[i] in sccs[k] {
      Part(Back(g), p, 0, i + 1);
      Part(Back(g), p, i, |p|);
      assert TrailFromTo(Back(g), p[0..i + 1], p[0], p[i]);
      assert TrailFromTo(Back(g), p[i..|p|], p[i], p[0]);
      MutualBack(g, p[0], p[i]);
    }
    forall i | 0 <= i < |p| - 1 ensures (p[i], p[i + 1]) in Inside(g, sccs[k]) {
      InsideArc(g, sccs[k], p[i], p[i + 1]);
    }
  }

  lemma InsideArc(g: Preds, nodes: seq<int>, u: int, v: int)
    ensures (u, v) in Inside(g, nodes) <==> (u, v) in Back(g) && u in nodes && v in nodes
  {
  }

  /** A component of two or more nodes has a cycle ahead of its least node. */
  lemma BigCyclic(g: Preds, sccs: seq<seq<int>>, k: nat)
    requires Components(g, sccs) && k < |sccs| && |sccs[k]| > 1
    ensures CycleAhead(g, sccs[k])
  {
    var s := LeastOf(sccs[k]);
    var w := if sccs[k][0] == s then sccs[k][1] else sccs[k][0];
    MutualBack(g, s, w);
    var p :| TrailFromTo(Back(g), p, s, w);
    var q :| TrailFromTo(Back(g), q, w, s);
    Join(Back(g), p, q);
    var loop := p + q[1..];
    ClosedInside(g, sccs, k, loop);
    ReachesSelf(Inside(g, sccs[k]), s);
    assert OnCycle(Inside(g, sccs[k]), s);
  }

  lemma {:induction false} LeastOf(nodes: seq<int>) returns (s: int)
    requires nodes != []
    ensures IsLeast(nodes, s)
  {
    s := nodes[0];
    for i := 1 to |nodes|
      invariant s in nodes && forall j | 0 <= j < i :: s <= nodes[j]
    {
      if nodes[i] < s {
        s := nodes[i];
      }
    }
  }

  /** The graph has a cycle exactly when some component is cyclic. */
  lemma AcyclicIff(g: Preds, sccs: seq<seq<int>>)
    requires Components(g, sccs)
    ensures Acyclic(GraphArcs(g)) <==> CountCyclic(g, sccs, |sccs|) == 0
  {
    AcyclicBack(g);
    NoneCyclic(g, sccs, |sccs|);
    if p :| Closed(Back(g), p) {
      assert (p[0], p[0 + 1]) in Back(g);
      assert InSome(sccs, p[0]);
      var k :| 0 <= k < |sccs| && p[0] in sccs[k];
      ClosedInside(g, sccs, k, p);
      ClosedCyclic(g, sccs[k], p);
    } else {
      forall k | 0 <= k < |sccs| ensures !Cyclic(g, sccs[k]) {
        if Cyclic(g, sccs[k]) {
          CyclicClosed(g, sccs, k);
        }
      }
    }
  }

  lemma AcyclicBack(g: Preds)
    ensures Acyclic(GraphArcs(g)) <==> Acyclic(Back(g))
  {
    FlipTwice(Back(g));
    if p :| Closed(Back(g), p) {
      TrailFlip(Back(g), p);
      assert Closed(GraphArcs(g), Backwards(p));
    }
    if p :| Closed(GraphArcs(g), p) {
      TrailFlip(GraphArcs(g), p);
      assert Closed(Back(g), Backwards(p));
    }
  }

  lemma ClosedCyclic(g: Preds, nodes: seq<int>, p: seq<int>)
    requires Closed(Inside(g, nodes), p)
    ensures Cyclic(g, nodes)
  {
    assert (p[0], p[0 + 1]) in Inside(g, nodes);
    var u, v := p[0], p[1];
    assert u in nodes && v in nodes && v in At(g, u);
  }

  lemma CyclicClosed(g: Preds, sccs: seq<seq<int>>, k: nat)
    requires Components(g, sccs) && k < |sccs| && Cyclic(g, sccs[k])
    ensures exists p :: Closed(Back(g), p)
  {
    if |sccs[k]| > 1 {
      BigCyclic(g, sccs, k);
      var arcs := Inside(g, sccs[k]);
      var c :| OnCycle(arcs, c);
      var p := CycleFrom(arcs, c);
      Outside(g, sccs[k], p);
    } else {
      var n := sccs[k][0];
      assert Closed(Back(g), [n, n]);
    }
  }

  lemma CycleFrom(arcs: set<(int, int)>, c: int) returns (p: seq<int>)
    requires OnCycle(arcs, c)
    ensures Closed(arcs, p) && p[0] == c
  {
    p :| Closed(arcs, p) && p[0] == c;
  }

  lemma Outside(g: Preds, nodes: seq<int>, p: seq<int>)
    requires Closed(Inside(g, nodes), p)
    ensures Closed(Back(g), p) && forall i | 0 <= i < |p| :: p[i] in nodes
  {
    forall i | 0 <= i < |p| - 1 ensures (p[i], p[i + 1]) in Back(g) && p[i] in nodes {
      assert (p[i], p[i + 1]) in Inside(g, nodes);
      InsideArc(g, nodes, p[i], p[i + 1]);
    }
  }

  lemma {:induction false} NoneCyclic(g: Preds, sccs: seq<seq<int>>, n: nat)
    requires n <= |sccs|
    ensures CountCyclic(g, sccs, n) == 0 <==> forall k | 0 <= k < n :: !Cyclic(g, sccs[k])
  {
    if n > 0 {
      NoneCyclic(g, sccs, n - 1);
    }
  }

  lemma {:induction false} CountGrows(g: Preds, sccs: seq<seq<int>>, i: nat, n: nat)
    requires i <= n <= |sccs|
    ensures CountCyclic(g, sccs, i) <= CountCyclic(g, sccs, n)
  {
    if i < n {
      CountGrows(g, sccs, i, n - 1);
    }
  }

  ghost function CyclicOnes(g: Preds, sccs: seq<seq<int>>, n: nat): set<int>
  {
    set k | 0 <= k < n && k < |sccs| && Cyclic(g, sccs[k])
  }

  lemma {:induction false} CountIs(g: Preds, sccs: seq<seq<int>>, n: nat)
    requires n <= |sccs|
    ensures CountCyclic(g, sccs, n) == |CyclicOnes(g, sccs, n)|
  {
    if n > 0 {
      CountIs(g, sccs, n - 1);
      var before := CyclicOnes(g, sccs, n - 1);
      if Cyclic(g, sccs[n - 1]) {
        assert CyclicOnes(g, sccs, n) == before + {n - 1};
      } else {
        assert CyclicOnes(g, sccs, n) == before;
      }
    }
  }

  // ---------- the whole function ----------

  /** Against the arcs, closed, and no node twice but the end. */
  ghost predicate RealCycle(g: Preds, cycle: seq<int>)
  {
    Closed(Back(g), cycle) && Distinct(cycle[1..])
  }

  ghost predicate Apart(a: seq<int>, b: seq<int>)
  {
    forall x | x in a :: x !in b
  }

  /** The cycles found so far come from components before i, from each at most one. */
  ghost predicate Collected(g: Preds, sccs: seq<seq<int>>, cycles: seq<seq<int>>, i: nat)
  {
    && (forall c | c in cycles :: RealCycle(g, c))
    && (forall a, b | 0 <= a < b < |cycles| :: Apart(cycles[a], cycles[b]))
    && forall c, x | c in cycles && x in c :: InFirst(sccs, i, x)
  }

  ghost predicate AllShown(g: Preds, sccs: seq<seq<int>>, cycles: seq<seq<int>>, i: nat)
  {
    forall k | 0 <= k < i && k < |sccs| && Cyclic(g, sccs[k]) :: Shown(sccs[k], cycles)
  }

  /** Some cycle lies in the component. */
  ghost predicate Shown(scc: seq<int>, cycles: seq<seq<int>>)
  {
    exists a | 0 <= a < |cycles| :: Within(cycles[a], scc)
  }

  ghost predicate Within(c: seq<int>, scc: seq<int>)
  {
    forall x | x in c :: x in scc
  }

  lemma ShownMore(scc: seq<int>, cycles: seq<seq<int>>, more: seq<seq<int>>)
    requires Shown(scc, cycles) && forall c | c in cycles :: c in more
    ensures Shown(scc, more)
  {
    var a :| 0 <= a < |cycles| && Within(cycles[a], scc);
    assert cycles[a] in more;
  }

  ghost predicate InFirst(sccs: seq<seq<int>>, i: nat, x: int)
  {
    exists k | 0 <= k < i && k < |sccs| :: x in sccs[k]
  }

  lemma Collect(g: Preds, sccs: seq<seq<int>>, cycles: seq<seq<int>>, i: nat, c: seq<int>)
    requires Components(g, sccs) && Collected(g, sccs, cycles, i) && i < |sccs| && IsCycle(g, sccs[i], c)
    ensures Collected(g, sccs, cycles + [c], i + 1)
  {
    Outside(g, sccs[i], c);
    forall x | x in c ensures x in sccs[i] && !InFirst(sccs, i, x) {
      if k :| 0 <= k < i && x in sccs[k] {
      }
    }
    CollectedLater(g, sccs, cycles, i);
    forall a | 0 <= a < |cycles| ensures Apart(cycles[a], c) {
      assert cycles[a] in cycles;
    }
  }

  lemma CollectShown(g: Preds, sccs: seq<seq<int>>, cycles: seq<seq<int>>, i: nat, c: seq<int>)
    requires AllShown(g, sccs, cycles, i) && i < |sccs| && IsCycle(g, sccs[i], c)
    ensures AllShown(g, sccs, cycles + [c], i + 1)
  {
    Outside(g, sccs[i], c);
    assert (cycles + [c])[|cycles|] == c && Within(c, sccs[i]);
    forall k | 0 <= k < i && Cyclic(g, sccs[k]) ensures Shown(sccs[k], cycles + [c]) {
      ShownMore(sccs[k], cycles, cycles + [c]);
    }
  }

  lemma CollectedLater(g: Preds, sccs: seq<seq<int>>, cycles: seq<seq<int>>, i: nat)
    requires Collected(g, sccs, cycles, i)
    ensures Collected(g, sccs, cycles, i + 1)
  {
    forall c, x | c in cycles && x in c ensures InFirst(sccs, i + 1, x) {
      assert InFirst(sccs, i, x);
    }
  }

  lemma SelfLoop(g: Preds, n: int)
    requires n in At(g, n)
    ensures IsCycle(g, [n], [n, n])
  {
    InsideArc(g, [n], n, n);
  }

  /** Lists of equal length in dictionary order. */
  predicate LexLess(a: seq<int>, b: seq<int>)
  {
    a != [] && b != [] && (a[0] < b[0] || (a[0] == b[0] && LexLess(a[1..], b[1..])))
  }

  /** Shorter cycles first. */
  function Shorter(): (seq<int>, seq<int>) -> bool
  {
    (a: seq<int>, b: seq<int>) => |a| < |b| || (|a| == |b| && LexLess(a, b))
  }

  lemma {:induction false} LexAsymmetric(a: seq<int>, b: seq<int>)
    ensures !(LexLess(a, b) && LexLess(b, a))
  {
    if a != [] && b != [] {
      LexAsymmetric(a[1..], b[1..]);
    }
  }

  lemma {:induction false} LexNegative(a: seq<int>, b: seq<int>, c: seq<int>)
    requires |a| == |b| == |c| && !LexLess(a, b) && !LexLess(b, c)
    ensures !LexLess(a, c)
  {
    if a != [] && a[0] == b[0] == c[0] {
      LexNegative(a[1..], b[1..], c[1..]);
    }
  }

  lemma ShorterOrders()
    ensures Sorting.WeakOrder(Shorter())
  {
    forall a: seq<int>, b: seq<int> ensures !(Shorter()(a, b) && Shorter()(b, a)) {
      LexAsymmetric(a, b);
    }
    forall a: seq<int>, b: seq<int>, c: seq<int> | !Shorter()(a, b) && !Shorter()(b, c) ensures !Shorter()(a, c) {
      if |a| == |b| == |c| {
        LexNegative(a, b, c);
      }
    }
  }

  lemma SortCollected(g: Preds, sccs: seq<seq<int>>, cycles: seq<seq<int>>)
    requires Collected(g, sccs, cycles, |sccs|)
    ensures Collected(g, sccs, Sorting.Sort(Shorter(), cycles), |sccs|)
  {
    var sorted := Sorting.Sort(Shorter(), cycles);
    Sorting.SortKeeps(Shorter(), cycles);
    Sorting.SortDistinct(Shorter(), cycles);
    forall a, b | 0 <= a < b < |cycles| ensures cycles[a] != cycles[b] {
      assert cycles[a] in cycles && Apart(cycles[a], cycles[b]);
      var x := cycles[a][0];
      assert x in cycles[a] && x !in cycles[b];
    }
    forall a, b | 0 <= a < b < |sorted| ensures Apart(sorted[a], sorted[b]) {
      assert sorted[a] in cycles && sorted[b] in cycles;
      var i :| 0 <= i < |cycles| && cycles[i] == sorted[a];
      var j :| 0 <= j < |cycles| && cycles[j] == sorted[b];
      assert i < j ==> Apart(cycles[i], cycles[j]);
      assert j < i ==> Apart(cycles[j], cycles[i]);
    }
  }

  /** Shorter, or as long and with the smaller first node. */
  ghost predicate Sooner(a: seq<int>, b: seq<int>)
  {
    a != [] && b != [] && (|a| < |b| || (|a| == |b| && a[0] < b[0]))
  }

  lemma HeadsDiffer(a: seq<int>, b: seq<int>)
    requires a != [] && b != [] && Apart(a, b) && !(|b| < |a|) && !(|b| == |a| && LexLess(b, a))
    ensures Sooner(a, b)
  {
    assert a[0] in a && b[0] in b;
  }

  /** Cycles without a common node differ at once, so the order of the lists is that of their first nodes. */
  lemma InOrder(g: Preds, sccs: seq<seq<int>>, cycles: seq<seq<int>>)
    requires Collected(g, sccs, cycles, |sccs|) && Sorting.Ascending(Shorter(), cycles)
    ensures forall a, b | 0 <= a < b < |cycles| :: Sooner(cycles[a], cycles[b])
  {
    forall a, b | 0 <= a < b < |cycles| ensures Sooner(cycles[a], cycles[b]) {
      assert cycles[a] in cycles && cycles[b] in cycles;
      assert RealCycle(g, cycles[a]) && RealCycle(g, cycles[b]) && Apart(cycles[a], cycles[b]);
      assert !Shorter()(cycles[b], cycles[a]);
      HeadsDiffer(cycles[a], cycles[b]);
    }
  }

  /** The loop stopped after i components, and sorted lists what it found. */
  lemma FirstShown(g: Preds, sccs: seq<seq<int>>, cycles: seq<seq<int>>, i: nat, limit: int, sorted: seq<seq<int>>)
    requires i <= |sccs| && AllShown(g, sccs, cycles, i) && (i == |sccs| || limit <= CountCyclic(g, sccs, i))
    requires forall c | c in cycles :: c in sorted
    ensures forall k | 0 <= k < |sccs| && Cyclic(g, sccs[k]) && |CyclicOnes(g, sccs, k)| < limit ::
      Shown(sccs[k], sorted)
  {
    forall k | 0 <= k < |sccs| && Cyclic(g, sccs[k]) && |CyclicOnes(g, sccs, k)| < limit
      ensures Shown(sccs[k], sorted)
    {
      CountIs(g, sccs, k);
      if i <= k {
        CountGrows(g, sccs, i, k);
        assert false;
      }
      ShownMore(sccs[k], cycles, sorted);
    }
  }

  method CollectCycles(g: Preds, sccs: seq<seq<int>>, limit: int) returns (cycles: seq<seq<int>>, ghost i: nat)
    requires Components(g, sccs)
    ensures i <= |sccs| && Collected(g, sccs, cycles, i) && AllShown(g, sccs, cycles, i)
    ensures |cycles| == CountCyclic(g, sccs, i) && (|cycles| <= limit || cycles == [])
    ensures i == |sccs| || limit <= |cycles|
  {
    cycles := [];
    var k := 0;
    while k < |sccs| && |cycles| < limit
      invariant k <= |sccs| && Collected(g, sccs, cycles, k) && AllShown(g, sccs, cycles, k)
      invariant |cycles| == CountCyclic(g, sccs, k) && (|cycles| <= limit || cycles == [])
    {
      var cycle := OneCycle(g, sccs, k);
      if |cycle| > 0 {
        Collect(g, sccs, cycles, k, cycle);
        CollectShown(g, sccs, cycles, k, cycle);
        cycles := cycles + [cycle];
      } else {
        CollectedLater(g, sccs, cycles, k);
      }
      k := k + 1;
    }
    i := k;
  }

  method FindCyclesSafe(g: Preds, sccs: seq<seq<int>>, limit: int) returns (cycles: seq<seq<int>>)
    requires Components(g, sccs)
    ensures forall c | c in cycles :: RealCycle(g, c)
    ensures forall a, b | 0 <= a < b < |cycles| :: Apart(cycles[a], cycles[b]) && Sooner(cycles[a], cycles[b])
    ensures var cyclic := |set k | 0 <= k < |sccs| && Cyclic(g, sccs[k])|;
      |cycles| == if limit <= 0 then 0 else if limit < cyclic then limit else cyclic
    ensures forall k | 0 <= k < |sccs| && Cyclic(g, sccs[k]) && |CyclicOnes(g, sccs, k)| < limit ::
      Shown(sccs[k], cycles)
    ensures limit > 0 ==> (cycles == [] <==> Acyclic(GraphArcs(g)))
  {
    ghost var i;
    cycles, i := CollectCycles(g, sccs, limit);
    CountGrows(g, sccs, i, |sccs|);
    AcyclicIff(g, sccs);
    CollectedAll(g, sccs, cycles, i);
    CountIs(g, sccs, |sccs|);
    assert CyclicOnes(g, sccs, |sccs|) == set k | 0 <= k < |sccs| && Cyclic(g, sccs[k]);
    ghost var found := cycles;
    cycles := Arranged(g, sccs, cycles);
    FirstShown(g, sccs, found, i, limit, cycles);
  }

  method Arranged(ghost g: Preds, ghost sccs: seq<seq<int>>, cycles: seq<seq<int>>) returns (sorted: seq<seq<int>>)
    requires Collected(g, sccs, cycles, |sccs|)
    ensures Collected(g, sccs, sorted, |sccs|) && |sorted| == |cycles| && forall c | c in cycles :: c in sorted
    ensures forall a, b | 0 <= a < b < |sorted| :: Sooner(sorted[a], sorted[b])
  {
    SortCollected(g, sccs, cycles);
    Sorting.SortKeeps(Shorter(), cycles);
    ShorterOrders();
    Sorting.SortAscends(Shorter(), cycles);
    sorted := Sorting.Sort(Shorter(), cycles);
    InOrder(g, sccs, sorted);
  }

  lemma CollectedAll(g: Preds, sccs: seq<seq<int>>, cycles: seq<seq<int>>, i: nat)
    requires Collected(g, sccs, cycles, i) && i <= |sccs|
    ensures Collected(g, sccs, cycles, |sccs|)
  {
    forall c, x | c in cycles && x in c ensures InFirst(sccs, |sccs|, x) {
      assert InFirst(sccs, i, x);
    }
  }

  /** The turn of one component: a self-loop for a single node, a search for a larger one. */
  method OneCycle(g: Preds, sccs: seq<seq<int>>, i: nat) returns (cycle: seq<int>)
    requires Components(g, sccs) && i < |sccs|
    ensures cycle != [] <==> Cyclic(g, sccs[i])
    ensures cycle != [] ==> IsCycle(g, sccs[i], cycle)
  {
    var scc := sccs[i];
    if |scc| == 1 {
      var n := scc[0];
      if n in At(g, n) {
        SelfLoop(g, n);
        assert scc == [n];
        return [n, n];
      }
      return [];
    }
    BigCyclic(g, sccs, i);
    cycle := FindOneCycleInScc(g, scc);
  }
}
