/**
 The backward phase of Brandes' algorithm as a function of the finished search, and the proof
 that it leaves every node's dependency, hence every node's contribution.
 */
module Accumulation {
  import opened Sums
  import opened Paths
  import opened Betweenness
  import opened Bfs
  import opened Conservation

  datatype Scores = Scores(delta: seq<real>, bc: seq<real>)

  ghost predicate PredsInRange(st: Search, n: nat)
  {
    |st.pred| == n && forall w | 0 <= w < n :: forall k | 0 <= k < |st.pred[w]| :: st.pred[w][k] < n
  }

  /** What w passes back to its predecessor v. */
  ghost function Portion(st: Search, deltaW: real, v: nat, w: nat): real
    requires v < |st.sigma| && w < |st.sigma|
  {
    if st.sigma[w] > 0.0 then Mul(st.sigma[v] / st.sigma[w], 1.0 + deltaW) else 0.0
  }

  /** delta after w has passed back to the first k of its predecessors. */
  ghost function Passed(st: Search, delta: seq<real>, w: nat, k: nat): (delta': seq<real>)
    requires InRange(st, |delta|) && PredsInRange(st, |delta|) && w < |delta| && k <= |st.pred[w]|
    ensures |delta'| == |delta|
  {
    if k == 0 then delta
    else
      var before, v := Passed(st, delta, w, k - 1), st.pred[w][k - 1];
      before[v := before[v] + Portion(st, before[w], v, w)]
  }

  /** One step of the backward walk: the node at position i passes back, unless it is the source. */
  ghost function GatherAt(st: Search, s: nat, later: Scores, i: nat): (sc': Scores)
    requires |later.delta| == |later.bc| && InRange(st, |later.delta|) && PredsInRange(st, |later.delta|)
    requires i < |st.queue|
    ensures |sc'.delta| == |sc'.bc| == |later.delta|
  {
    var w := st.queue[i];
    if w == s then later
    else
      var delta := Passed(st, later.delta, w, |st.pred[w]|);
      Scores(delta, later.bc[w := later.bc[w] + delta[w]])
  }

  /** The scores after the queue has been walked backwards down to position i. */
  ghost function Gathered(st: Search, s: nat, sc: Scores, i: nat): (sc': Scores)
    requires |sc.delta| == |sc.bc| && InRange(st, |sc.delta|) && PredsInRange(st, |sc.delta|) && i <= |st.queue|
    ensures |sc'.delta| == |sc'.bc| == |sc.delta|
    decreases |st.queue| - i
  {
    if i == |st.queue| then sc else GatherAt(st, s, Gathered(st, s, sc, i + 1), i)
  }

  /** A list that holds every tight successor of w gives w's dependency. */
  lemma ListIsDependency(adj: Adjacency, s: nat, w: nat, xs: seq<nat>)
    requires Distance(adj, s, w) >= 0
    requires Distinct(xs) && forall i | 0 <= i < |xs| :: xs[i] < |adj|
    requires forall x: nat | Tight(adj, s, w, x) :: x in xs
    ensures SumOver(xs, Increments(adj, s, w)) == Dependency(adj, s, w)
  {
    BrandesRecursion(adj, s, w);
    var f := Increments(adj, s, w);
    forall x: nat ensures Listed(xs, f)(x) == f(x) {
      assert f(x) == Increment(adj, s, w, x);
      LooseIncrement(adj, s, w, x);
    }
    SumEq(|adj|, Listed(xs, f), f);
    SumOverMembers(xs, |adj|, f);
  }

  /** All tight successors of a node stand behind it in the queue. */
  lemma SuccessorsBehind(adj: Adjacency, s: nat, st: Search, i: nat, x: nat)
    requires Finished(adj, s, st) && i < |st.queue| && Tight(adj, s, st.queue[i], x)
    ensures x in st.queue[i + 1..]
  {
    assert x in st.queue;
    var j :| 0 <= j < |st.queue| && st.queue[j] == x;
    assert j > i;
    assert st.queue[i + 1..][j - (i + 1)] == x;
  }

  lemma LooseIncrement(adj: Adjacency, s: nat, v: nat, w: nat)
    ensures !Tight(adj, s, v, w) ==> Increment(adj, s, v, w) == 0.0
  {
  }


  lemma PortionIsIncrement(adj: Adjacency, s: nat, st: Search, v: nat, w: nat)
    requires v < |st.sigma| && w < |st.sigma| && Tight(adj, s, v, w)
    requires st.sigma[v] == Sigma(adj, s, v) && st.sigma[w] == Sigma(adj, s, w)
    ensures Portion(st, Dependency(adj, s, w), v, w) == Increment(adj, s, v, w)
  {
    SigmaPositive(adj, s, w);
  }

  /** A finished search with its bounds, kept folded. */
  ghost predicate Completed(adj: Adjacency, s: nat, st: Search)
  {
    exists x: Search :: x == st && Finished(adj, s, x)
  }

  /** A finished search, entry by entry. */
  lemma CompletedAt(adj: Adjacency, s: nat, st: Search, w: nat)
    requires Completed(adj, s, st)
    ensures s < |adj| && InRange(st, |adj|) && PredsInRange(st, |adj|)
    ensures w < |adj| ==> st.sigma[w] == Sigma(adj, s, w) && Distinct(st.pred[w])
    ensures w < |adj| ==> forall u: nat :: u in st.pred[w] <==> Tight(adj, s, u, w)
  {
    forall x, k | 0 <= x < |adj| && 0 <= k < |st.pred[x]| ensures st.pred[x][k] < |adj| {
      assert st.pred[x][k] in st.pred[x];
    }
  }

  lemma FinishedInRange(adj: Adjacency, s: nat, st: Search)
    requires Finished(adj, s, st)
    ensures InRange(st, |adj|) && PredsInRange(st, |adj|)
  {
    assert Completed(adj, s, st);
    CompletedAt(adj, s, st, s);
  }

  /** Passing back along a duplicate-free list that does not contain w changes each listed entry once. */
  lemma {:induction false} PassedEffect(st: Search, delta: seq<real>, w: nat, k: nat, v: nat)
    requires InRange(st, |delta|) && PredsInRange(st, |delta|) && w < |delta| && v < |delta| && k <= |st.pred[w]|
    requires Distinct(st.pred[w]) && w !in st.pred[w]
    ensures Passed(st, delta, w, k)[v] == delta[v] + (if v in st.pred[w][..k] then Portion(st, delta[w], v, w) else 0.0)
  {
    if k > 0 {
      var us := st.pred[w];
      PassedEffect(st, delta, w, k - 1, v);
      PassedEffect(st, delta, w, k - 1, w);
      assert us[..k] == us[..k - 1] + [us[k - 1]];
    }
  }

  /** Passing back adds w's increment to every node. */
  lemma PassedAll(adj: Adjacency, s: nat, st: Search, delta: seq<real>, w: nat, v: nat)
    requires Completed(adj, s, st) && InRange(st, |adj|) && PredsInRange(st, |adj|)
    requires |delta| == |adj| && w < |adj| && v < |adj| && delta[w] == Dependency(adj, s, w)
    ensures Passed(st, delta, w, |st.pred[w]|)[v] == delta[v] + Increment(adj, s, v, w)
  {
    CompletedAt(adj, s, st, w);
    CompletedAt(adj, s, st, v);
    PassedEffect(st, delta, w, |st.pred[w]|, v);
    assert st.pred[w][..|st.pred[w]|] == st.pred[w];
    LooseIncrement(adj, s, v, w);
    if Tight(adj, s, v, w) {
      PortionIsIncrement(adj, s, st, v, w);
    }
  }

  ghost predicate Zero(sc: Scores, n: nat)
  {
    |sc.delta| == |sc.bc| == n && forall v | 0 <= v < n :: sc.delta[v] == 0.0 && sc.bc[v] == 0.0
  }

  /** Every node holds the increments of the nodes already taken; those nodes' dependencies are in bc. */
  ghost predicate Partial(adj: Adjacency, s: nat, st: Search, sc: Scores, i: nat)
    requires |sc.delta| == |sc.bc| == |adj| && i <= |st.queue|
  {
    && (forall v: nat | v < |adj| :: sc.delta[v] == SumOver(st.queue[i..], Increments(adj, s, v)))
    && (forall w: nat | w < |adj| ::
          sc.bc[w] == if w != s && w in st.queue[i..] then Dependency(adj, s, w) else 0.0)
  }

  lemma {:induction false} GatheredPartial(adj: Adjacency, s: nat, st: Search, sc: Scores, i: nat) returns (now: Scores)
    requires Completed(adj, s, st) && InRange(st, |adj|) && PredsInRange(st, |adj|)
    requires Zero(sc, |adj|) && i <= |st.queue|
    ensures now == Gathered(st, s, sc, i) && Partial(adj, s, st, now, i)
    decreases |st.queue| - i
  {
    if i == |st.queue| {
      now := sc;
    } else {
      var later := GatheredPartial(adj, s, st, sc, i + 1);
      now := GatherAt(st, s, later, i);
      GatherStep(adj, s, st, later, now, i);
    }
  }

  lemma CompletedQueue(adj: Adjacency, s: nat, st: Search, i: nat, tail: seq<nat>)
    requires Completed(adj, s, st) && i < |st.queue| && tail == st.queue[i + 1..]
    ensures Distinct(st.queue) && Distinct(tail) && st.queue[i] !in tail
    ensures forall k | 0 <= k < |st.queue| :: st.queue[k] < |adj|
    ensures forall k | 0 <= k < |tail| :: tail[k] < |adj|
    ensures Distance(adj, s, st.queue[i]) >= 0
    ensures forall x: nat | Tight(adj, s, st.queue[i], x) :: x in tail && x in st.queue
  {
    assert st.queue[i] in st.queue;
    forall x: nat | Tight(adj, s, st.queue[i], x) ensures x in tail && x in st.queue {
      SuccessorsBehind(adj, s, st, i, x);
    }
  }

  /** What the nodes behind position i, or all nodes, add up to for the node at position i. */
  lemma CompletedTail(adj: Adjacency, s: nat, st: Search, i: nat)
    requires Completed(adj, s, st) && InRange(st, |adj|) && i < |st.queue|
    ensures st.queue[i..] == [st.queue[i]] + st.queue[i + 1..] && st.queue[i] !in st.queue[i + 1..]
    ensures SumOver(st.queue[i + 1..], Increments(adj, s, st.queue[i])) == Dependency(adj, s, st.queue[i])
    ensures SumOver(st.queue, Increments(adj, s, st.queue[i])) == Dependency(adj, s, st.queue[i])
  {
    var tail := st.queue[i + 1..];
    CompletedQueue(adj, s, st, i, tail);
    ListIsDependency(adj, s, st.queue[i], tail);
    ListIsDependency(adj, s, st.queue[i], st.queue);
    TailCons(st.queue, i);
  }

  lemma TailCons(q: seq<nat>, i: nat)
    requires i < |q|
    ensures q[i..] == [q[i]] + q[i + 1..]
  {
  }

  /** The source is skipped, and has nothing to pass back. */
  lemma SkipStep(adj: Adjacency, s: nat, st: Search, later: Scores, i: nat)
    requires Completed(adj, s, st) && InRange(st, |adj|)
    requires |later.delta| == |later.bc| == |adj| && i < |st.queue| && st.queue[i] == s
    requires Partial(adj, s, st, later, i + 1)
    ensures Partial(adj, s, st, later, i)
  {
    var behind := st.queue[i + 1..];
    CompletedTail(adj, s, st, i);
    CompletedAt(adj, s, st, s);
    forall v: nat | v < |adj| ensures later.delta[v] == SumOver(st.queue[i..], Increments(adj, s, v)) {
      SumOverCons(s, behind, Increments(adj, s, v));
      assert Increments(adj, s, v)(s) == Increment(adj, s, v, s);
      NoIncrementFromSource(adj, s, v);
    }
  }

  lemma GatherStep(adj: Adjacency, s: nat, st: Search, later: Scores, now: Scores, i: nat)
    requires Completed(adj, s, st) && InRange(st, |adj|) && PredsInRange(st, |adj|)
    requires |later.delta| == |later.bc| == |adj| && i < |st.queue|
    requires Partial(adj, s, st, later, i + 1) && now == GatherAt(st, s, later, i)
    ensures Partial(adj, s, st, now, i)
  {
    if st.queue[i] == s {
      SkipStep(adj, s, st, later, i);
    } else {
      GatherDelta(adj, s, st, later, now.delta, i);
      GatherOwn(adj, s, st, later, now.delta, i);
      CompletedTail(adj, s, st, i);
      assert forall x :: x in st.queue[i..] <==> x == st.queue[i] || x in st.queue[i + 1..];
    }
  }

  /** The node at position i already holds its whole dependency, and passing back does not change it. */
  lemma GatherOwn(adj: Adjacency, s: nat, st: Search, later: Scores, delta: seq<real>, i: nat)
    requires Completed(adj, s, st) && InRange(st, |adj|) && PredsInRange(st, |adj|)
    requires |later.delta| == |later.bc| == |delta| == |adj| && i < |st.queue|
    requires Partial(adj, s, st, later, i + 1)
    requires delta == Passed(st, later.delta, st.queue[i], |st.pred[st.queue[i]]|)
    ensures delta[st.queue[i]] == Dependency(adj, s, st.queue[i])
  {
    var w := st.queue[i];
    CompletedTail(adj, s, st, i);
    PassedAll(adj, s, st, later.delta, w, w);
    NoSelfIncrement(adj, s, w);
  }

  lemma GatherDelta(adj: Adjacency, s: nat, st: Search, later: Scores, delta: seq<real>, i: nat)
    requires Completed(adj, s, st) && InRange(st, |adj|) && PredsInRange(st, |adj|)
    requires |later.delta| == |later.bc| == |delta| == |adj| && i < |st.queue|
    requires Partial(adj, s, st, later, i + 1)
    requires delta == Passed(st, later.delta, st.queue[i], |st.pred[st.queue[i]]|)
    ensures forall v: nat | v < |adj| :: delta[v] == SumOver(st.queue[i..], Increments(adj, s, v))
  {
    var w, behind := st.queue[i], st.queue[i + 1..];
    CompletedTail(adj, s, st, i);
    forall v: nat | v < |adj|
      ensures delta[v] == later.delta[v] + Increment(adj, s, v, w)
      ensures delta[v] == SumOver(st.queue[i..], Increments(adj, s, v))
    {
      PassedAll(adj, s, st, later.delta, w, v);
      SumOverCons(w, behind, Increments(adj, s, v));
      assert Increments(adj, s, v)(w) == Increment(adj, s, v, w);
    }
  }

  lemma NoIncrementFromSource(adj: Adjacency, s: nat, v: nat)
    requires s < |adj|
    ensures Increment(adj, s, v, s) == 0.0
  {
    DistanceSelf(adj, s);
    LooseIncrement(adj, s, v, s);
  }

  lemma NoSelfIncrement(adj: Adjacency, s: nat, w: nat)
    ensures Increment(adj, s, w, w) == 0.0
  {
    LooseIncrement(adj, s, w, w);
  }

  /** The finished accumulation: dependencies in delta, contributions in bc. */
  lemma GatheredAll(adj: Adjacency, s: nat, st: Search, sc: Scores)
    requires Finished(adj, s, st) && InRange(st, |adj|) && PredsInRange(st, |adj|) && Zero(sc, |adj|)
    ensures var done := Gathered(st, s, sc, 0);
      && (forall w: nat | w < |adj| :: done.bc[w] == Contribution(adj, s, w))
      && (forall i | 0 <= i < |st.queue| :: done.delta[st.queue[i]] == Dependency(adj, s, st.queue[i]))
  {
    assert Completed(adj, s, st);
    var done := GatheredPartial(adj, s, st, sc, 0);
    assert st.queue[0..] == st.queue;
    forall w: nat | w < |adj| ensures done.bc[w] == Contribution(adj, s, w) {
      if w !in st.queue {
        UnreachedDependency(adj, s, w);
      }
    }
    forall i | 0 <= i < |st.queue| ensures done.delta[st.queue[i]] == Dependency(adj, s, st.queue[i]) {
      CompletedTail(adj, s, st, i);
    }
  }

  /** And the source's own dependency is the number of other nodes reached. */
  lemma GatheredSource(adj: Adjacency, s: nat, st: Search, sc: Scores)
    requires Finished(adj, s, st) && InRange(st, |adj|) && PredsInRange(st, |adj|) && Zero(sc, |adj|) && s < |adj|
    ensures Gathered(st, s, sc, 0).delta[s] == |st.queue| as real - 1.0
  {
    GatheredAll(adj, s, st, sc);
    SourceDependency(adj, s, st.queue);
    assert st.queue[0] == s;
  }
}
