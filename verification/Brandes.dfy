/**
 The pooled buffers and the single-source pass of pkg/analysis/betweenness_approx.go:
 reset, breadth-first path counting, and backward accumulation, all updating arrays in place.
 */
module Brandes {
  import opened Paths
  import opened Betweenness
  import opened Bfs
  import opened Accumulation
  import WorkerPool

  lemma ReachedOnly(adj: Adjacency, s: nat, st: Search)
    requires Finished(adj, s, st)
    ensures forall w: nat :: w in st.queue <==> w < |adj| && Distance(adj, s, w) >= 0
  {
  }

  class Buffers {
    var sigma: array<real>
    var dist: array<int>
    var delta: array<real>
    var pred: array<seq<nat>>
    var bc: array<real>
    var queue: seq<nat>
    var stack: seq<nat>
    var count: nat  // the common length of the five slices; the arrays' lengths are their capacity

    ghost function Repr(): set<object>
      reads this
    {
      {this, sigma, dist, delta, pred, bc}
    }

    ghost predicate Valid()
      reads this
    {
      && sigma != delta && sigma != bc && delta != bc
      && sigma.Length == dist.Length == delta.Length == pred.Length == bc.Length
      && count <= sigma.Length
    }

    /** The part of the state that breadth-first search works on. */
    ghost function View(): Search
      requires Valid()
      reads this, sigma, dist, pred
    {
      Search(sigma[..count], dist[..count], pred[..count], queue)
    }

    constructor ()
      ensures Valid() && fresh(Repr())
      ensures count == 0 && sigma.Length == 256
    {
      sigma, dist, delta, pred, bc := new real[256], new int[256], new real[256], new seq<nat>[256], new real[256];
      queue, stack, count := [], [], 0;
    }

    /** Buffers that are too small, or more than twice too large, are replaced. */
    method Resize(n: nat)
      requires Valid()
      modifies this`sigma, this`dist, this`delta, this`pred, this`bc, this`count
      ensures Valid() && fresh(Repr() - old(Repr())) && count == n
      ensures sigma.Length == if n <= old(sigma.Length) <= 2 * n then old(sigma.Length) else n
    {
      if sigma.Length < n || sigma.Length > n * 2 {
        sigma, dist, delta := new real[n], new int[n], new real[n];
        pred, bc := new seq<nat>[n], new real[n];
      }
      count := n;
    }

    /** Every slice as if freshly allocated. */
    ghost predicate Wiped()
      requires Valid()
      reads this, sigma, dist, delta, pred, bc
    {
      forall i | 0 <= i < count ::
        sigma[i] == 0.0 && dist[i] == -1 && delta[i] == 0.0 && pred[i] == [] && bc[i] == 0.0
    }

    /** After a reset nothing of the previous use can be seen, whatever the buffers held. */
    method Reset(n: nat)
      requires Valid()
      modifies Repr()
      ensures Valid() && fresh(Repr() - old(Repr()))
      ensures count == n && queue == [] && stack == [] && Wiped()
      ensures sigma.Length == if n <= old(sigma.Length) <= 2 * n then old(sigma.Length) else n
    {
      Resize(n);
      queue, stack := [], [];
      forall i | 0 <= i < n { sigma[i] := 0.0; }
      forall i | 0 <= i < n { dist[i] := -1; }
      forall i | 0 <= i < n { delta[i] := 0.0; }
      forall i | 0 <= i < n { bc[i] := 0.0; }
      forall i | 0 <= i < n { pred[i] := []; }
    }

    /** One edge v -> w of the search: discovery, then path counting. */
    method LookAt(v: nat, w: nat)
      requires Valid() && v < count && w < count && InRange(View(), count)
      modifies sigma, dist, pred, this`queue
      ensures View() == Look(old(View()), v, w)
    {
      if dist[w] < 0 {
        dist[w] := dist[v] + 1;
        queue := queue + [w];
      }
      if dist[w] == dist[v] + 1 {
        sigma[w] := sigma[w] + sigma[v];
        pred[w] := pred[w] + [v];
      }
    }

    /** The BFS phase. */
    method Explore(adj: Adjacency, s: nat)
      requires Valid() && Simple(adj) && s < |adj| == count
      requires queue == [] && stack == [] && Wiped()
      modifies sigma, dist, pred, this`queue, this`stack
      ensures Finished(adj, s, View()) && stack == queue
    {
      Seed(s);
      StartInv(adj, s);
      Drain(adj, s);
      Finish(adj, s, View());
    }

    /** The loop over the queue. */
    method Drain(adj: Adjacency, ghost s: nat)
      requires Valid() && count == |adj| && stack == [] && Inv(adj, s, View(), 0, 0)
      modifies sigma, dist, pred, this`queue, this`stack
      ensures Inv(adj, s, View(), |queue|, 0) && stack == queue
    {
      ghost var st := View();
      var head := 0;
      while head < |queue|
        invariant View() == st && Inv(adj, s, st, head, 0)
        invariant head <= |queue| && stack == queue[..head]
        decreases |adj| - head
      {
        QueueBound(adj, s, st, head);
        st := Visit(adj, s, st, head);
        head := head + 1;
      }
    }

    method Seed(s: nat)
      requires Valid() && s < count && queue == [] && Wiped()
      modifies sigma, dist, this`queue
      ensures View() == Start(count, s)
    {
      sigma[s] := 1.0;
      dist[s] := 0;
      queue := queue + [s];
    }

    /** The node at the head of the queue moves to the stack and its edges are looked at. */
    method Visit(adj: Adjacency, ghost s: nat, ghost st: Search, head: nat) returns (ghost st': Search)
      requires Valid() && count == |adj| && head < |queue| && stack == queue[..head]
      requires View() == st && Inv(adj, s, st, head, 0)
      modifies sigma, dist, pred, this`queue, this`stack
      ensures View() == st' && Inv(adj, s, st', head + 1, 0)
      ensures head < |queue| && stack == queue[..head + 1]
    {
      stack := stack + [queue[head]];
      assert stack == queue[..head + 1];
      st' := Scan(adj, s, st, head);
      assert queue[..head + 1] == old(queue)[..head + 1];
      Advance(adj, s, st', head);
    }

    /** All edges out of the node at position head. */
    method Scan(adj: Adjacency, ghost s: nat, ghost st: Search, head: nat) returns (ghost st': Search)
      requires Valid() && count == |adj| && head < |queue|
      requires View() == st && Inv(adj, s, st, head, 0)
      modifies sigma, dist, pred, this`queue
      ensures View() == st' && old(queue) <= queue && queue[head] < |adj|
      ensures Inv(adj, s, st', head, |adj[queue[head]]|)
    {
      st' := st;
      for i := 0 to |adj[queue[head]]|
        invariant View() == st' && old(queue) <= queue
        invariant Inv(adj, s, st', head, i)
      {
        st' := ScanEdge(adj, s, st', head, i);
      }
    }

    method ScanEdge(adj: Adjacency, ghost s: nat, ghost st: Search, head: nat, i: nat) returns (ghost st': Search)
      requires Valid() && count == |adj|
      requires View() == st && Inv(adj, s, st, head, i) && head < |queue| && i < |adj[queue[head]]|
      modifies sigma, dist, pred, this`queue
      ensures View() == st' && Inv(adj, s, st', head, i + 1) && old(queue) <= queue
    {
      var v := queue[head];
      var w := adj[v][i];
      LookInv(adj, s, st, head, i);
      LookAt(v, w);
      st' := Look(st, v, w);
    }

    /** w passes its part back to each of its predecessors. */
    method PassBack(w: nat)
      requires Valid() && w < count && InRange(View(), count) && PredsInRange(View(), count)
      modifies delta
      ensures delta[..count] == Passed(View(), old(delta[..count]), w, |pred[w]|)
    {
      var us := pred[w];
      for k := 0 to |us|
        invariant delta[..count] == Passed(View(), old(delta[..count]), w, k)
      {
        var v := us[k];
        if sigma[w] > 0.0 {
          var x := (sigma[v] / sigma[w]) * (1.0 + delta[w]);
          assert x == Portion(View(), delta[w], v, w);
          delta[v] := delta[v] + x;
        }
      }
    }

    /** The accumulation phase. */
    method Accumulate(s: nat)
      requires Valid() && stack == queue && InRange(View(), count) && PredsInRange(View(), count)
      modifies delta, bc
      ensures Scores(delta[..count], bc[..count])
           == Gathered(View(), s, Scores(old(delta[..count]), old(bc[..count])), 0)
    {
      ghost var sc := Scores(delta[..count], bc[..count]);
      for i := |stack| downto 0
        invariant Scores(delta[..count], bc[..count]) == Gathered(View(), s, sc, i)
      {
        var w := stack[i];
        if w == s {
          continue;
        }
        PassBack(w);
        bc[w] := bc[w] + delta[w];
      }
    }

    /** Everything that one pass leaves behind, in terms of the graph alone. */
    ghost predicate Result(adj: Adjacency, s: nat)
      requires Valid()
      reads this, sigma, dist, delta, pred, bc
    {
      && count == |adj| && s < |adj|
      && Finished(adj, s, View()) && stack == queue
      && (forall w: nat | w < |adj| :: bc[w] == Contribution(adj, s, w))
      && (forall i | 0 <= i < |stack| :: delta[stack[i]] == Dependency(adj, s, stack[i]))
      && delta[s] == |stack| as real - 1.0
    }

    /** Brandes' algorithm for one source; it relies on nothing that the buffers held before. */
    method SingleSource(adj: Adjacency, s: nat)
      requires Valid() && Simple(adj) && (|adj| > 0 ==> s < |adj|)
      modifies Repr()
      ensures Valid() && fresh(Repr() - old(Repr()))
      ensures |adj| == 0 ==> unchanged(old(Repr()))
      ensures |adj| > 0 ==> Result(adj, s)
      ensures |adj| > 0 ==> WorkerPool.Computes(adj, s, WorkerPool.Buffer(stack, bc[..count]))
    {
      if |adj| == 0 {
        return;
      }
      Reset(|adj|);
      Explore(adj, s);
      Collect(adj, s);
      ReachedOnly(adj, s, View());
    }

    method Collect(ghost adj: Adjacency, s: nat)
      requires Valid() && count == |adj| && s < |adj|
      requires Finished(adj, s, View()) && stack == queue
      requires forall i | 0 <= i < count :: delta[i] == 0.0 && bc[i] == 0.0
      modifies delta, bc
      ensures Result(adj, s)
    {
      ghost var st, sc := View(), Scores(delta[..count], bc[..count]);
      FinishedInRange(adj, s, st);
      Accumulate(s);
      GatheredAll(adj, s, st, sc);
      GatheredSource(adj, s, st, sc);
    }
  }
}
