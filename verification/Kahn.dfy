/**
 Topological order of the blocking graph by Kahn's algorithm with a min-heap, pkg/analysis/advanced_insights.go.
 Nodes are indices; adj[u] lists the nodes that u blocks, once per dependency.
 */
module Kahn {
  import opened Sums
  import opened Counting
  import opened Digraphs
  import opened IntHeap

  type Lists = seq<seq<int>>

  ghost predicate InRange(adj: Lists)
  {
    forall u, v | 0 <= u < |adj| && v in adj[u] :: 0 <= v < |adj|
  }

  ghost function Arcs(adj: Lists): set<(int, int)>
  {
    set u, v | 0 <= u < |adj| && v in adj[u] :: (u, v)
  }

  // ---------- what the order promises ----------

  /** Some cycle leads to v. */
  ghost predicate Fed(adj: Lists, v: int)
  {
    exists c :: OnCycle(Arcs(adj), c) && Reaches(Arcs(adj), c, v)
  }

  ghost function Unfed(adj: Lists): set<int>
  {
    set v | 0 <= v < |adj| && !Fed(adj, v)
  }

  /** The order lists exactly the given nodes, once each, tails before heads. */
  ghost predicate Linear(adj: Lists, nodes: set<int>, order: seq<int>)
  {
    && Distinct(order) && (forall v :: v in order <==> v in nodes)
    && forall i, j | 0 <= i < |order| && 0 <= j < |order| && (order[i], order[j]) in Arcs(adj) :: i < j
  }

  ghost predicate LexLeq(a: seq<int>, b: seq<int>)
  {
    a == b || exists k | 0 <= k < |a| && k < |b| :: a[..k] == b[..k] && a[k] < b[k]
  }

  /** No order of the same kind comes before it in dictionary order. */
  ghost predicate Smallest(adj: Lists, order: seq<int>)
  {
    forall other | Linear(adj, Unfed(adj), other) :: LexLeq(order, other)
  }

  // ---------- growing an order node by node ----------

  /** All blockers of v are done and v is not. */
  ghost predicate Ready(adj: Lists, done: seq<int>, v: int)
  {
    0 <= v < |adj| && v !in done && forall u | (u, v) in Arcs(adj) :: u in done
  }

  ghost predicate Grown(adj: Lists, order: seq<int>)
  {
    forall k | 0 <= k < |order| :: Ready(adj, order[..k], order[k])
  }

  ghost predicate Complete(adj: Lists, order: seq<int>)
  {
    forall v :: !Ready(adj, order, v)
  }

  /** Each node was the least ready one when it was taken. */
  ghost predicate Greedy(adj: Lists, order: seq<int>)
  {
    forall k, v | 0 <= k < |order| && Ready(adj, order[..k], v) :: order[k] <= v
  }

  lemma GrownDistinct(adj: Lists, order: seq<int>)
    requires Grown(adj, order)
    ensures Distinct(order) && forall v | v in order :: 0 <= v < |adj|
  {
    forall i, j | 0 <= i < j < |order| ensures order[i] != order[j] {
      assert order[i] in order[..j];
    }
  }

  /** Every blocker of a listed node is listed, and earlier. */
  lemma BlockerEarlier(adj: Lists, order: seq<int>, u: int, j: nat) returns (i: nat)
    requires Grown(adj, order) && j < |order| && (u, order[j]) in Arcs(adj)
    ensures i < j && order[i] == u
  {
    assert u in order[..j];
    i :| i < j && order[..j][i] == u;
  }

  lemma GrownForward(adj: Lists, order: seq<int>)
    requires Grown(adj, order)
    ensures forall i, j | 0 <= i < |order| && 0 <= j < |order| && (order[i], order[j]) in Arcs(adj) :: i < j
  {
    GrownDistinct(adj, order);
    forall i, j | 0 <= i < |order| && 0 <= j < |order| && (order[i], order[j]) in Arcs(adj) ensures i < j {
      var k := BlockerEarlier(adj, order, order[i], j);
    }
  }

  /** A trail that ends at place j of the order started at place j or earlier, by as many places as it has arcs. */
  lemma {:induction false} TrailPlaces(adj: Lists, order: seq<int>, p: seq<int>, j: nat) returns (i: nat)
    requires Grown(adj, order) && Trail(Arcs(adj), p) && j < |order| && p[|p| - 1] == order[j]
    ensures i + |p| <= j + 1 && order[i] == p[0]
    decreases |p|
  {
    if |p| == 1 {
      i := j;
    } else {
      assert (p[|p| - 2], p[|p| - 2 + 1]) in Arcs(adj);
      var k := BlockerEarlier(adj, order, p[|p| - 2], j);
      Part(Arcs(adj), p, 0, |p| - 1);
      i := TrailPlaces(adj, order, p[..|p| - 1], k);
    }
  }

  /** No listed node is fed by a cycle. */
  lemma ListedUnfed(adj: Lists, order: seq<int>, v: int)
    requires Grown(adj, order) && v in order
    ensures !Fed(adj, v)
  {
    var arcs := Arcs(adj);
    forall c ensures !(OnCycle(arcs, c) && Reaches(arcs, c, v)) {
      if OnCycle(arcs, c) && Reaches(arcs, c, v) {
        var loop :| Closed(arcs, loop) && loop[0] == c;
        var p :| TrailFromTo(arcs, p, c, v);
        var j :| 0 <= j < |order| && order[j] == v;
        var k := TrailPlaces(adj, order, p, j);
        var i := TrailPlaces(adj, order, loop, k);
        GrownDistinct(adj, order);
      }
    }
  }

  /** From an unlisted node one can walk back among unlisted nodes as far as one likes. */
  lemma {:induction false} WalkBack(adj: Lists, order: seq<int>, v: int, m: nat) returns (p: seq<int>)
    requires InRange(adj) && Complete(adj, order) && 0 <= v < |adj| && v !in order && m > 0
    ensures |p| == m && Trail(Arcs(adj), p) && p[m - 1] == v
    ensures forall i | 0 <= i < m :: 0 <= p[i] < |adj| && p[i] !in order
  {
    if m == 1 {
      p := [v];
    } else {
      var q := WalkBack(adj, order, v, m - 1);
      assert !Ready(adj, order, q[0]);
      var u :| (u, q[0]) in Arcs(adj) && u !in order;
      Join(Arcs(adj), [u, q[0]], q);
      p := [u] + q;
      assert p == [u, q[0]] + q[1..];
    }
  }

  lemma UnlistedFed(adj: Lists, order: seq<int>, v: int)
    requires InRange(adj) && Complete(adj, order) && 0 <= v < |adj| && v !in order
    ensures Fed(adj, v)
  {
    var arcs := Arcs(adj);
    var p := WalkBack(adj, order, v, |adj| + 1);
    var i, j := Repeat(p, |adj|);
    Part(arcs, p, i, j + 1);
    Part(arcs, p, i, |p|);
    assert Closed(arcs, p[i..j + 1]) && p[i..j + 1][0] == p[i];
    assert TrailFromTo(arcs, p[i..], p[i], v);
    assert OnCycle(arcs, p[i]) && Reaches(arcs, p[i], v);
  }

  /** More entries than values: some value repeats. */
  lemma Repeat(p: seq<int>, n: nat) returns (i: nat, j: nat)
    requires |p| > n && forall k | 0 <= k < |p| :: 0 <= p[k] < n
    ensures i < j < |p| && p[i] == p[j]
  {
    if i', j' :| 0 <= i' < j' < |p| && p[i'] == p[j'] {
      i, j := i', j';
    } else {
      var q: seq<nat> := seq(|p|, k requires 0 <= k < |p| => p[k]);
      DistinctBound(q, n);
      assert false;
    }
  }

  /** A grown and complete order lists exactly the nodes no cycle leads to, in the right order. */
  lemma GrownLinear(adj: Lists, order: seq<int>)
    requires InRange(adj) && Grown(adj, order) && Complete(adj, order)
    ensures Linear(adj, Unfed(adj), order)
  {
    GrownDistinct(adj, order);
    GrownForward(adj, order);
    forall v ensures v in order <==> v in Unfed(adj) {
      if v in order {
        ListedUnfed(adj, order, v);
      } else if 0 <= v < |adj| {
        UnlistedFed(adj, order, v);
      }
    }
  }

  /** Conversely, any order of the right kind can be grown. */
  lemma LinearGrown(adj: Lists, order: seq<int>)
    requires InRange(adj) && Linear(adj, Unfed(adj), order)
    ensures Grown(adj, order)
  {
    forall k | 0 <= k < |order| ensures Ready(adj, order[..k], order[k]) {
      assert order[k] in order;
      forall u | (u, order[k]) in Arcs(adj) ensures u in order[..k] {
        UnfedBlocker(adj, u, order[k]);
        assert u in order;
        var i :| 0 <= i < |order| && order[i] == u;
        assert order[..k][i] == u;
      }
    }
  }

  lemma UnfedBlocker(adj: Lists, u: int, v: int)
    requires (u, v) in Arcs(adj) && !Fed(adj, v)
    ensures !Fed(adj, u)
  {
    ReachesArc(Arcs(adj), u, v);
    forall c ensures !(OnCycle(Arcs(adj), c) && Reaches(Arcs(adj), c, u)) {
      if Reaches(Arcs(adj), c, u) {
        ReachesTrans(Arcs(adj), c, u, v);
      }
    }
  }

  /** Taking the least ready node each time gives the smallest of all such orders. */
  lemma GreedySmallest(adj: Lists, order: seq<int>, other: seq<int>)
    requires InRange(adj) && Grown(adj, order) && Complete(adj, order) && Greedy(adj, order)
    requires Linear(adj, Unfed(adj), other)
    ensures LexLeq(order, other)
  {
    LinearGrown(adj, other);
    var k := FirstDifference(order, other);
    GrownLinear(adj, order);
    assert order[..|order|] == order && other[..|other|] == other;
    assert k < |order| ==> order[k] !in order[..k] && order[k] in other;
    assert k < |other| ==> Ready(adj, other[..k], other[k]);
  }

  lemma FirstDifference(a: seq<int>, b: seq<int>) returns (k: nat)
    ensures k <= |a| && k <= |b| && a[..k] == b[..k]
    ensures k < |a| && k < |b| ==> a[k] != b[k]
  {
    k := 0;
    while k < |a| && k < |b| && a[k] == b[k]
      invariant k <= |a| && k <= |b| && a[..k] == b[..k]
    {
      assert a[..k + 1] == a[..k] + [a[k]] && b[..k + 1] == b[..k] + [b[k]];
      k := k + 1;
    }
  }

  /** All nodes are listed exactly when there is no cycle. */
  lemma AllIffAcyclic(adj: Lists)
    requires InRange(adj)
    ensures Acyclic(Arcs(adj)) <==> Unfed(adj) == Below(|adj|)
  {
    var arcs := Arcs(adj);
    if p :| Closed(arcs, p) {
      assert (p[0], p[0 + 1]) in arcs;
      ReachesSelf(arcs, p[0]);
      assert OnCycle(arcs, p[0]) && Fed(adj, p[0]);
      assert p[0] !in Unfed(adj);
    } else {
      forall c ensures !OnCycle(arcs, c) {
      }
    }
  }

  // ---------- counting blockers ----------

  /** How often v is listed by the nodes before m that are not done: one for every dependency. */
  ghost function Pending(adj: Lists, done: seq<int>, v: int, m: nat): nat
    requires m <= |adj|
  {
    if m == 0 then 0
    else Pending(adj, done, v, m - 1) + (if m - 1 in done then 0 else multiset(adj[m - 1])[v])
  }

  lemma {:induction false} PendingZero(adj: Lists, done: seq<int>, v: int, m: nat)
    requires m <= |adj|
    ensures Pending(adj, done, v, m) == 0 <==> forall u | 0 <= u < m && v in adj[u] :: u in done
  {
    if m > 0 {
      PendingZero(adj, done, v, m - 1);
      assert v in adj[m - 1] <==> multiset(adj[m - 1])[v] > 0;
    }
  }

  lemma {:induction false} PendingLess(adj: Lists, done: seq<int>, u: int, v: int, m: nat)
    requires m <= |adj| && 0 <= u < |adj| && u !in done
    ensures Pending(adj, done, v, m) == Pending(adj, done + [u], v, m) + if u < m then multiset(adj[u])[v] else 0
  {
    if m > 0 {
      PendingLess(adj, done, u, v, m - 1);
    }
  }

  lemma ReadyCount(adj: Lists, done: seq<int>, v: int)
    ensures Ready(adj, done, v) <==> 0 <= v < |adj| && v !in done && Pending(adj, done, v, |adj|) == 0
  {
    PendingZero(adj, done, v, |adj|);
    if forall u | 0 <= u < |adj| && v in adj[u] :: u in done {
      forall u | (u, v) in Arcs(adj) ensures u in done {
      }
    } else {
      var u :| 0 <= u < |adj| && v in adj[u] && u !in done;
      assert (u, v) in Arcs(adj);
    }
  }

  /** The counters: what is pending, and extra what the current node has still to take off. */
  ghost predicate Counts(adj: Lists, done: seq<int>, temp: seq<int>, extra: multiset<int>)
  {
    |temp| == |adj| && forall v | 0 <= v < |adj| :: temp[v] == Pending(adj, done, v, |adj|) + extra[v]
  }

  /** The heap holds, once each, the nodes that are not done and whose counter is zero. */
  ghost predicate Queued(done: seq<int>, temp: seq<int>, queue: multiset<int>)
  {
    forall v :: queue[v] == if 0 <= v < |temp| && v !in done && temp[v] == 0 then 1 else 0
  }

  lemma CountDown(adj: Lists, done: seq<int>, temp: seq<int>, extra: multiset<int>, queue: multiset<int>, v: int)
    requires Counts(adj, done, temp, extra) && Queued(done, temp, queue)
    requires 0 <= v < |adj| && extra[v] > 0 && v !in done
    ensures Counts(adj, done, temp[v := temp[v] - 1], extra - multiset{v})
    ensures Queued(done, temp[v := temp[v] - 1], if temp[v] - 1 == 0 then queue + multiset{v} else queue)
  {
  }

  lemma RestOf(xs: seq<int>, i: nat)
    requires i < |xs|
    ensures multiset(xs[i + 1..]) == multiset(xs[i..]) - multiset{xs[i]} && multiset(xs[i..])[xs[i]] > 0
  {
    assert xs[i..] == [xs[i]] + xs[i + 1..];
  }

  /** The inner loop: take u off the counters of the nodes it blocks, queueing those that reach zero. */
  method Release(adj: Lists, u: int, temp: array<int>, heap: Heap, ghost done: seq<int>)
    requires InRange(adj) && 0 <= u < |adj| && heap.Valid()
    requires Counts(adj, done, temp[..], multiset(adj[u])) && Queued(done, temp[..], multiset(heap.h))
    requires forall v | v in adj[u] :: v !in done
    modifies temp, heap
    ensures heap.Valid() && Counts(adj, done, temp[..], multiset{}) && Queued(done, temp[..], multiset(heap.h))
  {
    assert adj[u][0..] == adj[u];
    for i := 0 to |adj[u]|
      invariant heap.Valid()
      invariant Counts(adj, done, temp[..], multiset(adj[u][i..])) && Queued(done, temp[..], multiset(heap.h))
    {
      var v := adj[u][i];
      assert v in adj[u];
      RestOf(adj[u], i);
      ghost var before := temp[..];
      CountDown(adj, done, before, multiset(adj[u][i..]), multiset(heap.h), v);
      temp[v] := temp[v] - 1;
      assert temp[..] == before[v := before[v] - 1];
      if temp[v] == 0 {
        heap.Push(v);
      }
    }
  }

  /** A node that is taken when ready blocks nothing that is already done. */
  lemma BlocksLater(adj: Lists, order: seq<int>, u: int)
    requires Grown(adj, order) && Ready(adj, order, u)
    ensures Grown(adj, order + [u])
    ensures forall v | v in adj[u] :: v !in order + [u]
  {
    var more := order + [u];
    assert more[..|order|] == order;
    forall k | 0 <= k < |more| ensures Ready(adj, more[..k], more[k]) {
      assert k < |order| ==> more[..k] == order[..k];
    }
    GrownForward(adj, more);
    forall v | v in adj[u] ensures v !in more {
      assert (more[|order|], v) in Arcs(adj);
    }
  }

  lemma GreedyMore(adj: Lists, order: seq<int>, u: int)
    requires Greedy(adj, order) && forall v | Ready(adj, order, v) :: u <= v
    ensures Greedy(adj, order + [u])
  {
    var more := order + [u];
    forall k, v | 0 <= k < |more| && Ready(adj, more[..k], v) ensures more[k] <= v {
      assert more[..k] == order[..k];
    }
    assert order[..|order|] == order;
  }

  /** The nodes in the heap are the ready ones. */
  lemma QueuedReady(adj: Lists, order: seq<int>, temp: seq<int>, h: seq<int>)
    requires Counts(adj, order, temp, multiset{}) && Queued(order, temp, multiset(h))
    ensures forall v :: v in h <==> Ready(adj, order, v)
  {
    forall v ensures v in h <==> Ready(adj, order, v) {
      ReadyCount(adj, order, v);
      assert v in h <==> multiset(h)[v] > 0;
    }
  }

  lemma Taken(adj: Lists, order: seq<int>, u: int, temp: seq<int>, queue: multiset<int>)
    requires Counts(adj, order, temp, multiset{}) && Queued(order, temp, queue) && Ready(adj, order, u)
    ensures Counts(adj, order + [u], temp, multiset(adj[u])) && Queued(order + [u], temp, queue - multiset{u})
  {
    forall v | 0 <= v < |adj| ensures temp[v] == Pending(adj, order + [u], v, |adj|) + multiset(adj[u])[v] {
      PendingLess(adj, order, u, v, |adj|);
    }
    ReadyCount(adj, order, u);
  }

  lemma GrownBound(adj: Lists, order: seq<int>)
    requires Grown(adj, order)
    ensures |order| <= |adj|
  {
    GrownDistinct(adj, order);
    if |order| > |adj| {
      var i, j := Repeat(order, |adj|);
    }
  }

  /** The queue before the first node is taken. */
  method Sources(inDegree: seq<int>) returns (heap: Heap)
    ensures fresh(heap) && heap.Valid() && Queued([], inDegree, multiset(heap.h))
  {
    heap := new Heap();
    for i := 0 to |inDegree|
      invariant forall v :: multiset(heap.h)[v] == if 0 <= v < i && inDegree[v] == 0 then 1 else 0
    {
      if inDegree[i] == 0 {
        heap.Append(i);
      }
    }
    heap.Init();
  }

  /** What holds between two turns of the main loop. */
  ghost predicate Inv(adj: Lists, order: seq<int>, temp: seq<int>, queue: multiset<int>)
  {
    && Grown(adj, order) && Greedy(adj, order)
    && Counts(adj, order, temp, multiset{}) && Queued(order, temp, queue)
  }

  lemma InvTaken(adj: Lists, order: seq<int>, temp: seq<int>, h: seq<int>, u: int, queue: multiset<int>)
    requires Inv(adj, order, temp, multiset(h)) && u in h && queue == multiset(h) - multiset{u}
    requires forall v | v in h :: u <= v
    ensures Ready(adj, order, u) && Grown(adj, order + [u]) && Greedy(adj, order + [u]) && |order + [u]| <= |adj|
    ensures Counts(adj, order + [u], temp, multiset(adj[u])) && Queued(order + [u], temp, queue)
    ensures forall v | v in adj[u] :: v !in order + [u]
  {
    QueuedReady(adj, order, temp, h);
    Taken(adj, order, u, temp, multiset(h));
    BlocksLater(adj, order, u);
    GreedyMore(adj, order, u);
    GrownBound(adj, order + [u]);
  }

  lemma InvDone(adj: Lists, order: seq<int>, temp: seq<int>)
    requires InRange(adj) && Inv(adj, order, temp, multiset([]))
    ensures Linear(adj, Unfed(adj), order)
    ensures Smallest(adj, order)
  {
    QueuedReady(adj, order, temp, []);
    GrownLinear(adj, order);
    forall other | Linear(adj, Unfed(adj), other) ensures LexLeq(order, other) {
      GreedySmallest(adj, order, other);
    }
  }

  method TopoOrder(adj: Lists, inDegree: seq<int>) returns (order: seq<int>)
    requires InRange(adj) && Counts(adj, [], inDegree, multiset{})
    ensures Linear(adj, Unfed(adj), order)
    ensures Smallest(adj, order)
  {
    order := [];
    var heap := Sources(inDegree);
    var temp := new int[|adj|](i requires 0 <= i < |adj| => inDegree[i]);
    assert temp[..] == inDegree;
    while |heap.h| > 0
      invariant heap.Valid() && Inv(adj, order, temp[..], multiset(heap.h)) && |order| <= |adj|
      decreases |adj| - |order|
    {
      ghost var h := heap.h;
      var u := heap.Pop();
      InvTaken(adj, order, temp[..], h, u, multiset(heap.h));
      order := order + [u];
      Release(adj, u, temp, heap, order);
    }
    assert heap.h == [];
    InvDone(adj, order, temp[..]);
  }

  /** The order has all n nodes exactly when the graph has no cycle. */
  lemma FullIffAcyclic(adj: Lists, order: seq<int>)
    requires InRange(adj) && Linear(adj, Unfed(adj), order)
    ensures |order| == |adj| <==> Acyclic(Arcs(adj))
  {
    AllIffAcyclic(adj);
    ListCard(order);
    var nodes := Unfed(adj);
    assert (set v | v in order) == nodes;
    CardSplit(Below(|adj|), nodes);
    assert Below(|adj|) - nodes == {} ==> nodes == Below(|adj|);
  }
}
