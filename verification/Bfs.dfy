/**
 Breadth-first search with shortest-path counting: the state it works on, the invariant
 that every step keeps, and what the finished search has computed.
 */
module Bfs {
  import opened Sums
  import opened Paths
  import opened Betweenness

  datatype Search = Search(sigma: seq<real>, dist: seq<int>, pred: seq<seq<nat>>, queue: seq<nat>)

  ghost function Start(n: nat, s: nat): Search
    requires s < n
  {
    Search(seq(n, _ => 0.0)[s := 1.0], seq(n, _ => -1)[s := 0], seq(n, _ => []), [s])
  }

  ghost predicate InRange(st: Search, n: nat)
  {
    && |st.sigma| == |st.dist| == |st.pred| == n
    && forall k | 0 <= k < |st.queue| :: st.queue[k] < n
  }

  /** Looking at the edge v -> w: discovery, then path counting. */
  ghost function Look(st: Search, v: nat, w: nat): (st': Search)
    requires InRange(st, |st.dist|) && v < |st.dist| && w < |st.dist|
    ensures InRange(st', |st.dist|)
  {
    var found := if st.dist[w] < 0 then st.(dist := st.dist[w := st.dist[v] + 1], queue := st.queue + [w]) else st;
    if found.dist[w] == found.dist[v] + 1 then
      found.(sigma := found.sigma[w := found.sigma[w] + found.sigma[v]], pred := found.pred[w := found.pred[w] + [v]])
    else found
  }

  /** The edge u -> w has been looked at: u left the queue before position h, or w is among its first i successors. */
  ghost predicate Done(adj: Adjacency, q: seq<nat>, h: nat, i: nat, u: nat, w: nat)
  {
    Edge(adj, u, w) &&
    ((exists j :: 0 <= j < h && j < |q| && q[j] == u) || (h < |q| && q[h] == u && w in FirstOf(adj[u], i)))
  }

  ghost function FirstOf(xs: seq<nat>, i: nat): seq<nat>
  {
    if i <= |xs| then xs[..i] else xs
  }

  ghost predicate Shape(adj: Adjacency, s: nat, st: Search)
  {
    && |st.sigma| == |st.dist| == |st.pred| == |adj|
    && Distinct(st.queue) && |st.queue| > 0 && st.queue[0] == s
    && (forall k | 0 <= k < |st.queue| :: st.queue[k] < |adj|)
  }

  /** Discovered nodes carry their exact distance. */
  ghost predicate Exact(adj: Adjacency, s: nat, st: Search)
    requires Shape(adj, s, st)
  {
    forall x: nat | x < |adj| ::
      if x in st.queue then st.dist[x] >= 0 && st.dist[x] == Distance(adj, s, x) else st.dist[x] == -1
  }

  /** The queue is sorted by distance and spans at most two levels from position h on. */
  ghost predicate Levels(adj: Adjacency, s: nat, st: Search, h: nat)
    requires Shape(adj, s, st)
  {
    && (forall j, k | 0 <= j <= k < |st.queue| :: st.dist[st.queue[j]] <= st.dist[st.queue[k]])
    && (h < |st.queue| ==>
          forall k | 0 <= k < |st.queue| :: st.dist[st.queue[k]] <= st.dist[st.queue[h]] + 1)
  }

  /** Everything up to the level of position h has been discovered. */
  ghost predicate Complete(adj: Adjacency, s: nat, st: Search, h: nat)
    requires Shape(adj, s, st)
  {
    h < |st.queue| ==>
      forall x: nat | x < |adj| && 0 <= Distance(adj, s, x) <= st.dist[st.queue[h]] :: x in st.queue
  }

  ghost predicate Closed(adj: Adjacency, s: nat, st: Search, h: nat, i: nat)
  {
    forall u: nat, w: nat | Done(adj, st.queue, h, i, u, w) :: w in st.queue
  }

  /** pred[w] lists the tight edges into w that have been looked at. */
  ghost predicate Preds(adj: Adjacency, s: nat, st: Search, h: nat, i: nat)
    requires Shape(adj, s, st)
  {
    forall w: nat | w < |adj| :: PredsOf(adj, s, st.queue, h, i, w, st.pred[w])
  }

  ghost predicate PredsOf(adj: Adjacency, s: nat, q: seq<nat>, h: nat, i: nat, w: nat, pred: seq<nat>)
  {
    Distinct(pred) && forall u: nat :: u in pred <==> Done(adj, q, h, i, u, w) && Tight(adj, s, u, w)
  }

  ghost function SigmaOf(adj: Adjacency, s: nat): nat -> real
  {
    (u: nat) => Sigma(adj, s, u)
  }

  /** sigma[w] counts the shortest walks that arrive through pred[w]. */
  ghost predicate Counts(adj: Adjacency, s: nat, st: Search)
    requires Shape(adj, s, st)
  {
    forall w: nat | w < |adj| ::
      st.sigma[w] == (if w == s then 1.0 else 0.0) + SumOver(st.pred[w], SigmaOf(adj, s))
  }

  /** The search has finished positions 0..h-1 and the first i successors of position h. */
  ghost predicate Inv(adj: Adjacency, s: nat, st: Search, h: nat, i: nat)
  {
    && Simple(adj) && s < |adj| && Shape(adj, s, st)
    && h <= |st.queue| && (h == |st.queue| ==> i == 0) && (h < |st.queue| ==> i <= |adj[st.queue[h]]|)
    && Exact(adj, s, st)
    && Levels(adj, s, st, h)
    && Complete(adj, s, st, h)
    && Closed(adj, s, st, h, i)
    && Preds(adj, s, st, h, i)
    && Counts(adj, s, st)
  }

  lemma DistanceSelf(adj: Adjacency, s: nat)
    requires s < |adj|
    ensures Distance(adj, s, s) == 0 && Sigma(adj, s, s) == 1.0
    ensures forall x: nat | Distance(adj, s, x) == 0 :: x == s
  {
    assert IsWalk(adj, [s]);
    assert WalkFromTo(adj, [s], s, 0, s);
    assert HasWalk(adj, s, 0, s);
    DistanceIs(adj, s, s, 0);
    assert Walks(adj, s, 0, s) == {[s]};
    forall x: nat | Distance(adj, s, x) == 0 ensures x == s {
      assert HasWalk(adj, s, 0, x);
      var p :| p in Walks(adj, s, 0, x);
      assert WalkFromTo(adj, p, s, 0, x);
    }
  }

  /** Every other reachable node has a tight edge into it. */
  lemma TightPredecessor(adj: Adjacency, s: nat, x: nat) returns (u: nat)
    requires Distance(adj, s, x) > 0
    ensures Tight(adj, s, u, x)
  {
    var d := Distance(adj, s, x);
    var p :| p in Walks(adj, s, d, x);
    assert WalkFromTo(adj, p, s, d, x);
    u := p[d - 1];
    assert Edge(adj, p[d - 1], p[d - 1 + 1]);
    ShortestPosition(adj, s, x, p, d - 1);
  }

  lemma StartInv(adj: Adjacency, s: nat)
    requires Simple(adj) && s < |adj|
    ensures Inv(adj, s, Start(|adj|, s), 0, 0)
  {
    DistanceSelf(adj, s);
  }

  lemma DoneAdvance(adj: Adjacency, q: seq<nat>, h: nat, u: nat, w: nat)
    requires h < |q| && q[h] < |adj|
    ensures Done(adj, q, h, |adj[q[h]]|, u, w) <==> Done(adj, q, h + 1, 0, u, w)
  {
    assert FirstOf(adj[q[h]], |adj[q[h]]|) == adj[q[h]];
  }

  /** Popping: once all successors of position h are done, the search stands at h + 1. */
  lemma Advance(adj: Adjacency, s: nat, st: Search, h: nat)
    requires h < |st.queue| && Shape(adj, s, st) && Inv(adj, s, st, h, |adj[st.queue[h]]|)
    ensures Inv(adj, s, st, h + 1, 0)
  {
    var q := st.queue;
    var h' := h + 1;
    forall u: nat, w: nat | Done(adj, q, h', 0, u, w) ensures w in q {
      DoneAdvance(adj, q, h, u, w);
    }
    AdvancePreds(adj, s, st, h);
    if h + 1 < |q| {
      AdvanceComplete(adj, s, st, h);
    }
  }

  lemma AdvancePreds(adj: Adjacency, s: nat, st: Search, h: nat)
    requires h < |st.queue| && Shape(adj, s, st) && Preds(adj, s, st, h, |adj[st.queue[h]]|)
    ensures Preds(adj, s, st, h + 1, 0)
  {
    forall w: nat, u: nat | w < |adj|
      ensures u in st.pred[w] <==> Done(adj, st.queue, h + 1, 0, u, w) && Tight(adj, s, u, w)
    {
      DoneAdvance(adj, st.queue, h, u, w);
    }
  }

  /** A discovered node nearer than what comes next has been worked through, with all its successors. */
  lemma WorkedOff(adj: Adjacency, s: nat, st: Search, h: nat, u: nat, x: nat)
    requires h + 1 < |st.queue| && Shape(adj, s, st) && Levels(adj, s, st, h)
      && Closed(adj, s, st, h, |adj[st.queue[h]]|)
    requires u in st.queue && u < |adj| && st.dist[u] < st.dist[st.queue[h + 1]] && Edge(adj, u, x)
    ensures x in st.queue
  {
    var q := st.queue;
    var j :| 0 <= j < |q| && q[j] == u;
    assert j <= h;
    assert FirstOf(adj[q[h]], |adj[q[h]]|) == adj[q[h]];
    assert Done(adj, q, h, |adj[q[h]]|, u, x);
  }

  /** A node farther away than the head is the successor of a node that has been worked through. */
  lemma FarDiscovered(adj: Adjacency, s: nat, st: Search, h: nat, x: nat)
    requires h + 1 < |st.queue| && Shape(adj, s, st) && Exact(adj, s, st) && Levels(adj, s, st, h)
    requires Complete(adj, s, st, h) && Closed(adj, s, st, h, |adj[st.queue[h]]|)
    requires x < |adj| && st.dist[st.queue[h]] < Distance(adj, s, x) <= st.dist[st.queue[h + 1]]
    ensures x in st.queue
  {
    assert st.dist[st.queue[h + 1]] <= st.dist[st.queue[h]] + 1;
    var u := TightPredecessor(adj, s, x);
    assert u in st.queue && st.dist[u] == Distance(adj, s, u);
    WorkedOff(adj, s, st, h, u, x);
  }

  lemma AdvanceComplete(adj: Adjacency, s: nat, st: Search, h: nat)
    requires h + 1 < |st.queue| && Shape(adj, s, st) && Exact(adj, s, st) && Levels(adj, s, st, h)
    requires Complete(adj, s, st, h) && Closed(adj, s, st, h, |adj[st.queue[h]]|)
    ensures Complete(adj, s, st, h + 1)
  {
    var q, v := st.queue, st.queue[h];
    forall x: nat | x < |adj| && 0 <= Distance(adj, s, x) <= st.dist[q[h + 1]] ensures x in q {
      if Distance(adj, s, x) > st.dist[v] {
        FarDiscovered(adj, s, st, h, x);
      }
    }
  }

  /** Looking at one more edge u -> w, for all other edges nothing changes. */
  lemma DoneLook(adj: Adjacency, q: seq<nat>, q': seq<nat>, h: nat, i: nat, u: nat, w: nat)
    requires Simple(adj) && h < |q| && q[h] < |adj| && i < |adj[q[h]]|
    requires q <= q' && Distinct(q')
    ensures Done(adj, q', h, i + 1, u, w) <==> Done(adj, q, h, i, u, w) || (u == q[h] && w == adj[q[h]][i])
    ensures u == q[h] && w == adj[q[h]][i] ==> !Done(adj, q, h, i, u, w)
  {
    var ws := adj[q[h]];
    assert ws[..i + 1] == ws[..i] + [ws[i]];
    assert ws[i] !in ws[..i];
  }

  /** The list of tight in-neighbours of w, complete and without repetition, counts w's shortest walks. */
  lemma SigmaFromPreds(adj: Adjacency, s: nat, w: nat, us: seq<nat>)
    requires s < |adj| && w < |adj| && Distance(adj, s, w) >= 0
    requires Distinct(us) && forall u: nat :: u in us <==> Tight(adj, s, u, w)
    ensures Sigma(adj, s, w) == (if w == s then 1.0 else 0.0) + SumOver(us, SigmaOf(adj, s))
  {
    DistanceSelf(adj, s);
    if Distance(adj, s, w) == 0 {
      var _ := EmptyOrMember(us);
    } else {
      SigmaFromTight(adj, s, w, us);
    }
  }

  lemma SigmaFromTight(adj: Adjacency, s: nat, w: nat, us: seq<nat>)
    requires w < |adj| && Distance(adj, s, w) > 0
    requires Distinct(us) && forall u: nat :: u in us <==> Tight(adj, s, u, w)
    ensures Sigma(adj, s, w) == SumOver(us, SigmaOf(adj, s))
  {
    var k := Distance(adj, s, w) - 1;
    WaysLast(adj, s, k, w);
    var listed := Listed(us, SigmaOf(adj, s));
    forall u: nat ensures WaysInto(adj, s, k, w)(u) == listed(u) {
      assert SigmaOf(adj, s)(u) == Sigma(adj, s, u);
      WaysIntoTight(adj, s, k, w, u);
    }
    SumEq(|adj|, WaysInto(adj, s, k, w), listed);
    assert forall j | 0 <= j < |us| :: us[j] in us;
    SumOverMembers(us, |adj|, SigmaOf(adj, s));
  }

  lemma WaysIntoTight(adj: Adjacency, s: nat, k: nat, w: nat, u: nat)
    requires Distance(adj, s, w) == k + 1
    ensures WaysInto(adj, s, k, w)(u) == if Tight(adj, s, u, w) then Sigma(adj, s, u) else 0.0
  {
    assert WaysInto(adj, s, k, w)(u) == EdgeWeight(adj, u, w, Ways(adj, s, k, u) as real);
    if Edge(adj, u, w) && !Tight(adj, s, u, w) && HasWalk(adj, s, k, u) {
      DistanceEdge(adj, s, u, w);
    }
  }

  /** When a node reaches the head of the queue its path count is final. */
  lemma HeadCount(adj: Adjacency, s: nat, st: Search, h: nat, i: nat)
    requires Inv(adj, s, st, h, i) && h < |st.queue|
    ensures st.sigma[st.queue[h]] == Sigma(adj, s, st.queue[h])
  {
    var q, v := st.queue, st.queue[h];
    forall u: nat ensures u in st.pred[v] <==> Tight(adj, s, u, v) {
      if Tight(adj, s, u, v) {
        assert u in q;
        var j :| 0 <= j < |q| && q[j] == u;
        assert j < h;
        assert Done(adj, q, h, i, u, v);
      }
    }
    SigmaFromPreds(adj, s, v, st.pred[v]);
  }

  /** A node not yet discovered lies exactly one level beyond the head of the queue. */
  lemma Discovery(adj: Adjacency, s: nat, st: Search, h: nat, i: nat, w: nat)
    requires Inv(adj, s, st, h, i) && h < |st.queue| && Edge(adj, st.queue[h], w) && w !in st.queue
    ensures Distance(adj, s, w) == st.dist[st.queue[h]] + 1
  {
    DistanceEdge(adj, s, st.queue[h], w);
  }

  /** What is known when an edge v -> w is looked at. */
  ghost predicate Ready(adj: Adjacency, s: nat, st: Search, v: nat, w: nat)
  {
    && Shape(adj, s, st) && Edge(adj, v, w)
    && st.dist[v] == Distance(adj, s, v) >= 0 && st.sigma[v] == Sigma(adj, s, v)
    && (if w in st.queue then st.dist[w] == Distance(adj, s, w) >= 0
        else st.dist[w] == -1 && Distance(adj, s, w) == Distance(adj, s, v) + 1)
  }

  lemma IsReady(adj: Adjacency, s: nat, st: Search, h: nat, i: nat)
    requires Inv(adj, s, st, h, i) && h < |st.queue| && i < |adj[st.queue[h]]|
    ensures Ready(adj, s, st, st.queue[h], adj[st.queue[h]][i])
  {
    var v, w := st.queue[h], adj[st.queue[h]][i];
    assert v in st.queue;
    HeadCount(adj, s, st, h, i);
    if w !in st.queue {
      Discovery(adj, s, st, h, i, w);
    }
  }

  /** Look in terms of what is known of w: whether it was found, its distance, whether the edge leads one level on. */
  lemma LookCases(st: Search, v: nat, w: nat, found: bool, d: int, tight: bool, paths: real)
    requires InRange(st, |st.dist|) && v < |st.dist| && w < |st.dist| && st.dist[v] >= 0
    requires paths == st.sigma[v] && found == (st.dist[w] >= 0)
    requires d == (if found then st.dist[w] else st.dist[v] + 1) && tight == (d == st.dist[v] + 1)
    ensures var st' := Look(st, v, w);
      && st'.queue == (if found then st.queue else st.queue + [w])
      && st'.dist == (if found then st.dist else st.dist[w := d])
      && st'.pred == (if tight then st.pred[w := st.pred[w] + [v]] else st.pred)
      && st'.sigma == (if tight then st.sigma[w := st.sigma[w] + paths] else st.sigma)
  {
  }

  /** The effect of looking at an edge, in terms of distances. */
  lemma LookEffect(adj: Adjacency, s: nat, st: Search, v: nat, w: nat)
    requires Ready(adj, s, st, v, w)
    ensures var st' := Look(st, v, w);
      && st'.queue == (if w in st.queue then st.queue else st.queue + [w])
      && st'.dist == (if w in st.queue then st.dist else st.dist[w := Distance(adj, s, w)])
      && st'.pred == (if Tight(adj, s, v, w) then st.pred[w := st.pred[w] + [v]] else st.pred)
      && st'.sigma == (if Tight(adj, s, v, w) then st.sigma[w := st.sigma[w] + Sigma(adj, s, v)] else st.sigma)
  {
    LookCases(st, v, w, w in st.queue, Distance(adj, s, w), Tight(adj, s, v, w), Sigma(adj, s, v));
  }

  lemma LookInv(adj: Adjacency, s: nat, st: Search, h: nat, i: nat)
    requires Inv(adj, s, st, h, i) && h < |st.queue| && i < |adj[st.queue[h]]|
    ensures adj[st.queue[h]][i] < |adj|
    ensures Inv(adj, s, Look(st, st.queue[h], adj[st.queue[h]][i]), h, i + 1)
  {
    IsReady(adj, s, st, h, i);
    LookShape(adj, s, st, h, st.queue[h], adj[st.queue[h]][i]);
    LookEdges(adj, s, st, h, i);
  }

  lemma LookEdges(adj: Adjacency, s: nat, st: Search, h: nat, i: nat)
    requires Simple(adj) && Shape(adj, s, st) && h < |st.queue| && i < |adj[st.queue[h]]|
    requires Ready(adj, s, st, st.queue[h], adj[st.queue[h]][i])
    requires Shape(adj, s, Look(st, st.queue[h], adj[st.queue[h]][i]))
    requires Closed(adj, s, st, h, i) && Preds(adj, s, st, h, i) && Counts(adj, s, st)
    ensures var st' := Look(st, st.queue[h], adj[st.queue[h]][i]);
      Closed(adj, s, st', h, i + 1) && Preds(adj, s, st', h, i + 1) && Counts(adj, s, st')
  {
    LookClosed(adj, s, st, h, i);
    LookPreds(adj, s, st, h, i);
    LookCounts(adj, s, st, st.queue[h], adj[st.queue[h]][i]);
  }

  /** Distances along the new queue: the old ones, and one more level at the end. */
  lemma LookQueue(adj: Adjacency, s: nat, st: Search, v: nat, w: nat, k: nat)
    requires Ready(adj, s, st, v, w) && k < |Look(st, v, w).queue|
    ensures var st' := Look(st, v, w);
      st'.queue[k] < |adj| && st'.dist[st'.queue[k]] ==
        if k < |st.queue| then st.dist[st.queue[k]] else st.dist[v] + 1
    ensures k < |st.queue| ==> Look(st, v, w).queue[k] == st.queue[k]
  {
    LookEffect(adj, s, st, v, w);
    assert k < |st.queue| ==> st.queue[k] in st.queue;
  }

  lemma LookShape(adj: Adjacency, s: nat, st: Search, h: nat, v: nat, w: nat)
    requires Ready(adj, s, st, v, w) && h < |st.queue| && v == st.queue[h]
    requires Exact(adj, s, st) && Levels(adj, s, st, h) && Complete(adj, s, st, h)
    ensures var st' := Look(st, v, w);
      Shape(adj, s, st') && Exact(adj, s, st') && Levels(adj, s, st', h) && Complete(adj, s, st', h)
      && st.queue <= st'.queue && w in st'.queue
  {
    var st' := Look(st, v, w);
    LookKeepsShape(adj, s, st, v, w);
    LookExact(adj, s, st, v, w);
    LookLevels(adj, s, st, h, v, w);
    LookQueue(adj, s, st, v, w, h);
  }

  lemma LookKeepsShape(adj: Adjacency, s: nat, st: Search, v: nat, w: nat)
    requires Ready(adj, s, st, v, w)
    ensures var st' := Look(st, v, w);
      Shape(adj, s, st') && st.queue <= st'.queue && w in st'.queue
  {
    LookEffect(adj, s, st, v, w);
  }

  /** The node itself: found before, or now, at its distance. */
  lemma LookExactHere(adj: Adjacency, s: nat, st: Search, v: nat, w: nat)
    requires Ready(adj, s, st, v, w) && Exact(adj, s, st) && Shape(adj, s, Look(st, v, w))
    ensures var st' := Look(st, v, w); w in st'.queue && st'.dist[w] >= 0 && st'.dist[w] == Distance(adj, s, w)
  {
    LookEffect(adj, s, st, v, w);
  }

  lemma LookExact(adj: Adjacency, s: nat, st: Search, v: nat, w: nat)
    requires Ready(adj, s, st, v, w) && Exact(adj, s, st) && Shape(adj, s, Look(st, v, w))
    ensures Exact(adj, s, Look(st, v, w))
  {
    LookExactHere(adj, s, st, v, w);
    LookEffect(adj, s, st, v, w);
    var st' := Look(st, v, w);
    forall x: nat | x < |adj| && x != w ensures (x in st'.queue <==> x in st.queue) && st'.dist[x] == st.dist[x] {
    }
  }

  lemma LookLevels(adj: Adjacency, s: nat, st: Search, h: nat, v: nat, w: nat)
    requires Ready(adj, s, st, v, w) && h < |st.queue| && v == st.queue[h]
    requires Levels(adj, s, st, h) && Shape(adj, s, Look(st, v, w)) && st.queue <= Look(st, v, w).queue
    ensures Levels(adj, s, Look(st, v, w), h)
  {
    var st' := Look(st, v, w);
    LookEffect(adj, s, st, v, w);
    forall j, k | 0 <= j <= k < |st'.queue| ensures st'.dist[st'.queue[j]] <= st'.dist[st'.queue[k]] {
      LookQueue(adj, s, st, v, w, j);
      LookQueue(adj, s, st, v, w, k);
    }
    LookQueue(adj, s, st, v, w, h);
    forall k | 0 <= k < |st'.queue| ensures st'.dist[st'.queue[k]] <= st'.dist[st'.queue[h]] + 1 {
      LookQueue(adj, s, st, v, w, k);
    }
  }

  lemma LookClosed(adj: Adjacency, s: nat, st: Search, h: nat, i: nat)
    requires Simple(adj) && Shape(adj, s, st) && h < |st.queue| && i < |adj[st.queue[h]]|
    requires Ready(adj, s, st, st.queue[h], adj[st.queue[h]][i])
    requires Distinct(Look(st, st.queue[h], adj[st.queue[h]][i]).queue)
    requires Closed(adj, s, st, h, i)
    ensures Closed(adj, s, Look(st, st.queue[h], adj[st.queue[h]][i]), h, i + 1)
  {
    var v, w := st.queue[h], adj[st.queue[h]][i];
    LookEffect(adj, s, st, v, w);
    var q' := Look(st, v, w).queue;
    var i' := i + 1;
    forall u: nat, x: nat | Done(adj, q', h, i', u, x) ensures x in q' {
      DoneLook(adj, st.queue, q', h, i, u, x);
    }
  }

  lemma PredsStep(adj: Adjacency, s: nat, q: seq<nat>, q': seq<nat>, h: nat, i: nat, x: nat, pred: seq<nat>,
                  pred': seq<nat>)
    requires Simple(adj) && h < |q| && q[h] < |adj| && i < |adj[q[h]]| && q <= q' && Distinct(q')
    requires PredsOf(adj, s, q, h, i, x, pred)
    requires pred' == if x == adj[q[h]][i] && Tight(adj, s, q[h], x) then pred + [q[h]] else pred
    ensures PredsOf(adj, s, q', h, i + 1, x, pred')
  {
    var v := q[h];
    DoneLook(adj, q, q', h, i, v, x);
    forall u: nat ensures u in pred' <==> Done(adj, q', h, i + 1, u, x) && Tight(adj, s, u, x) {
      DoneLook(adj, q, q', h, i, u, x);
    }
  }

  lemma LookPreds(adj: Adjacency, s: nat, st: Search, h: nat, i: nat)
    requires Simple(adj) && Shape(adj, s, st) && h < |st.queue| && i < |adj[st.queue[h]]|
    requires Ready(adj, s, st, st.queue[h], adj[st.queue[h]][i])
    requires Shape(adj, s, Look(st, st.queue[h], adj[st.queue[h]][i]))
    requires Preds(adj, s, st, h, i)
    ensures Preds(adj, s, Look(st, st.queue[h], adj[st.queue[h]][i]), h, i + 1)
  {
    var v, w := st.queue[h], adj[st.queue[h]][i];
    var st' := Look(st, v, w);
    LookEffect(adj, s, st, v, w);
    forall x: nat | x < |adj| ensures PredsOf(adj, s, st'.queue, h, i + 1, x, st'.pred[x]) {
      PredsStep(adj, s, st.queue, st'.queue, h, i, x, st.pred[x], st'.pred[x]);
    }
  }

  lemma LookCounts(adj: Adjacency, s: nat, st: Search, v: nat, w: nat)
    requires Ready(adj, s, st, v, w) && Shape(adj, s, Look(st, v, w)) && Counts(adj, s, st)
    ensures Counts(adj, s, Look(st, v, w))
  {
    LookEffect(adj, s, st, v, w);
    var st' := Look(st, v, w);
    forall x: nat | x < |adj|
      ensures st'.sigma[x] == (if x == s then 1.0 else 0.0) + SumOver(st'.pred[x], SigmaOf(adj, s))
    {
      assert st.sigma[x] == (if x == s then 1.0 else 0.0) + SumOver(st.pred[x], SigmaOf(adj, s));
      if x == w && Tight(adj, s, v, w) {
        SumOverSnoc(st.pred[w], v, SigmaOf(adj, s));
        assert SigmaOf(adj, s)(v) == Sigma(adj, s, v);
      }
    }
  }

  lemma QueueBound(adj: Adjacency, s: nat, st: Search, h: nat)
    requires Inv(adj, s, st, h, 0)
    ensures |st.queue| <= |adj| && InRange(st, |adj|)
  {
    DistinctBound(st.queue, |adj|);
  }

  /** What a finished search has computed. */
  ghost predicate Finished(adj: Adjacency, s: nat, st: Search)
  {
    && Simple(adj) && s < |adj| && Shape(adj, s, st)
    && (forall x: nat | x < |adj| :: st.dist[x] == Distance(adj, s, x))
    && (forall x: nat | x < |adj| :: x in st.queue <==> Distance(adj, s, x) >= 0)
    && (forall j, k | 0 <= j <= k < |st.queue| :: Distance(adj, s, st.queue[j]) <= Distance(adj, s, st.queue[k]))
    && (forall x: nat | x < |adj| :: st.sigma[x] == Sigma(adj, s, x))
    && (forall x: nat | x < |adj| ::
          Distinct(st.pred[x]) && forall u: nat :: u in st.pred[x] <==> Tight(adj, s, u, x))
  }

  lemma {:induction false} AllFound(adj: Adjacency, s: nat, st: Search, x: nat)
    requires Inv(adj, s, st, |st.queue|, 0) && x < |adj| && Distance(adj, s, x) >= 0
    ensures x in st.queue
    decreases Distance(adj, s, x)
  {
    DistanceSelf(adj, s);
    if Distance(adj, s, x) == 0 {
      assert st.queue[0] == s;
    } else {
      var u := TightPredecessor(adj, s, x);
      AllFound(adj, s, st, u);
      assert Done(adj, st.queue, |st.queue|, 0, u, x);
    }
  }

  lemma Finish(adj: Adjacency, s: nat, st: Search)
    requires Inv(adj, s, st, |st.queue|, 0)
    ensures Finished(adj, s, st)
  {
    forall x: nat | x < |adj| ensures x in st.queue <==> Distance(adj, s, x) >= 0 {
      if Distance(adj, s, x) >= 0 {
        AllFound(adj, s, st, x);
      }
    }
    forall x: nat, u: nat | x < |adj| ensures u in st.pred[x] <==> Tight(adj, s, u, x) {
      if Tight(adj, s, u, x) {
        assert Done(adj, st.queue, |st.queue|, 0, u, x);
      }
    }
    forall x: nat | x < |adj| ensures st.sigma[x] == Sigma(adj, s, x) {
      FinalCount(adj, s, st, x);
    }
  }

  lemma FinalCount(adj: Adjacency, s: nat, st: Search, x: nat)
    requires Inv(adj, s, st, |st.queue|, 0) && x < |adj|
    requires forall u: nat :: u in st.pred[x] <==> Tight(adj, s, u, x)
    ensures st.sigma[x] == Sigma(adj, s, x)
  {
    DistanceSelf(adj, s);
    if Distance(adj, s, x) >= 0 {
      SigmaFromPreds(adj, s, x, st.pred[x]);
    } else {
      var _ := EmptyOrMember(st.pred[x]);
      SigmaPositive(adj, s, x);
    }
  }
}
