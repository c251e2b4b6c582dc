/**
 Longest chains by dynamic programming along a topological order, pkg/analysis/advanced_insights.go: dist and
 pred for every node, and the chain rebuilt from each endpoint.
 */
module LongestPath {
  import opened Digraphs
  import opened Kahn

  // ---------- what dist and pred mean ----------

  /** dist[v] and pred[v] are right as far as the blockers in done go. */
  ghost predicate Level(adj: Lists, done: seq<int>, dist: seq<int>, pred: seq<int>, v: int)
    requires |dist| == |adj| && |pred| == |adj| && 0 <= v < |adj| && forall u | u in done :: 0 <= u < |adj|
  {
    && dist[v] >= 0
    && (forall u | u in done && (u, v) in Arcs(adj) :: dist[u] + 1 <= dist[v])
    && (if dist[v] == 0 then pred[v] == -1
        else pred[v] in done && (pred[v], v) in Arcs(adj) && dist[pred[v]] + 1 == dist[v])
    && forall u | u in done && (u, v) in Arcs(adj) && dist[u] + 1 == dist[v] :: pred[v] <= u
  }

  ghost predicate Levels(adj: Lists, order: seq<int>, dist: seq<int>, pred: seq<int>)
  {
    && |dist| == |adj| && |pred| == |adj| && (forall u | u in order :: 0 <= u < |adj|)
    && forall v | 0 <= v < |adj| :: Level(adj, order, dist, pred, v)
  }

  /** The chain that pred spells out, from its source to v. */
  ghost function ChainTo(adj: Lists, order: seq<int>, dist: seq<int>, pred: seq<int>, v: int): (p: seq<int>)
    requires Levels(adj, order, dist, pred) && 0 <= v < |adj|
    ensures |p| == dist[v] + 1 && Trail(Arcs(adj), p) && p[|p| - 1] == v && 0 <= p[0] < |adj|
    ensures forall i | 0 <= i < |p| - 1 :: p[i] in order
    ensures forall i | 0 <= i < |p| :: 0 <= p[i] < |adj| && dist[p[i]] == i
    decreases dist[v]
  {
    assert Level(adj, order, dist, pred, v);
    if pred[v] == -1 then [v]
    else
      var q := ChainTo(adj, order, dist, pred, pred[v]);
      Join(Arcs(adj), q, [pred[v], v]);
      assert q + [pred[v], v][1..] == q + [v];
      q + [v]
  }

  /** No trail through listed nodes that ends in v is longer. */
  lemma {:induction false} NoneLonger(adj: Lists, order: seq<int>, dist: seq<int>, pred: seq<int>, p: seq<int>)
    requires Levels(adj, order, dist, pred) && Trail(Arcs(adj), p) && 0 <= p[|p| - 1] < |adj|
    requires forall i | 0 <= i < |p| - 1 :: p[i] in order
    ensures |p| <= dist[p[|p| - 1]] + 1
  {
    var v := p[|p| - 1];
    assert Level(adj, order, dist, pred, v);
    if |p| > 1 {
      var u := p[|p| - 2];
      Part(Arcs(adj), p, 0, |p| - 1);
      NoneLonger(adj, order, dist, pred, p[..|p| - 1]);
      assert (p[|p| - 2], p[|p| - 2 + 1]) in Arcs(adj);
    }
  }

  /** All of a trail that ends in a listed node is listed. */
  lemma {:induction false} TrailListed(adj: Lists, order: seq<int>, p: seq<int>)
    requires Grown(adj, order) && Trail(Arcs(adj), p) && p[|p| - 1] in order
    ensures forall i | 0 <= i < |p| :: p[i] in order
  {
    if |p| > 1 {
      var j :| 0 <= j < |order| && order[j] == p[|p| - 1];
      assert (p[|p| - 2], p[|p| - 2 + 1]) in Arcs(adj);
      var i := BlockerEarlier(adj, order, p[|p| - 2], j);
      Part(Arcs(adj), p, 0, |p| - 1);
      TrailListed(adj, order, p[..|p| - 1]);
    }
  }

  /** For a listed node dist is the largest number of arcs on any walk that ends there, cyclic or not elsewhere. */
  lemma LongestWalk(adj: Lists, order: seq<int>, dist: seq<int>, pred: seq<int>, v: int)
    requires InRange(adj) && Linear(adj, Unfed(adj), order) && Levels(adj, order, dist, pred) && v in order
    ensures exists p :: Trail(Arcs(adj), p) && p[|p| - 1] == v && |p| == dist[v] + 1
    ensures forall p | Trail(Arcs(adj), p) && p[|p| - 1] == v :: |p| <= dist[v] + 1
  {
    var p := ChainTo(adj, order, dist, pred, v);
    LinearGrown(adj, order);
    forall q | Trail(Arcs(adj), q) && q[|q| - 1] == v ensures |q| <= dist[v] + 1 {
      TrailListed(adj, order, q);
      NoneLonger(adj, order, dist, pred, q);
    }
  }

  // ---------- the dynamic program ----------

  /** What a node has been offered while u is at work: everything done, and u once its entry has been met. */
  ghost function Offered(adj: Lists, done: seq<int>, u: int, i: nat, v: int): seq<int>
    requires 0 <= u < |adj| && i <= |adj[u]|
  {
    if v in adj[u][..i] then done + [u] else done
  }

  ghost predicate Partly(adj: Lists, done: seq<int>, u: int, i: nat, dist: seq<int>, pred: seq<int>)
    requires 0 <= u < |adj| && i <= |adj[u]|
  {
    && |dist| == |adj| && |pred| == |adj| && (forall w | w in done :: 0 <= w < |adj|)
    && forall v | 0 <= v < |adj| :: Level(adj, Offered(adj, done, u, i, v), dist, pred, v)
  }

  /** One entry: v is offered a path over u. */
  function Better(dist: seq<int>, pred: seq<int>, u: int, v: int): (int, int)
    requires 0 <= u < |dist| && 0 <= v < |dist| && |pred| == |dist|
  {
    if dist[u] + 1 > dist[v] then (dist[u] + 1, u)
    else if dist[u] + 1 == dist[v] && (pred[v] == -1 || u < pred[v]) then (dist[v], u)
    else (dist[v], pred[v])
  }

  lemma Offer(adj: Lists, done: seq<int>, u: int, i: nat, v: int, dist: seq<int>, pred: seq<int>,
              dist': seq<int>, pred': seq<int>)
    requires 0 <= u < |adj| && i < |adj[u]| && Partly(adj, done, u, i, dist, pred)
    requires v == adj[u][i] && 0 <= v < |adj| && v !in done + [u] && u !in adj[u]
    requires dist' == dist[v := Better(dist, pred, u, v).0] && pred' == pred[v := Better(dist, pred, u, v).1]
    ensures Partly(adj, done, u, i + 1, dist', pred')
  {
    assert (u, v) in Arcs(adj);
    var next := i + 1;
    assert adj[u][..next] == adj[u][..i] + [v];
    assert Level(adj, Offered(adj, done, u, i, u), dist, pred, u);
    forall x | 0 <= x < |adj| ensures Level(adj, Offered(adj, done, u, next, x), dist', pred', x) {
      var before := Offered(adj, done, u, i, x);
      assert Level(adj, before, dist, pred, x);
      if x == v {
        OfferOne(adj, before, done, u, v, dist, pred, dist', pred');
      } else {
        OfferOther(adj, before, v, dist, pred, dist', pred', x);
      }
    }
  }

  /** The node that gets the offer. */
  lemma OfferOne(adj: Lists, before: seq<int>, done: seq<int>, u: int, v: int, dist: seq<int>, pred: seq<int>,
                 dist': seq<int>, pred': seq<int>)
    requires |dist| == |adj| && |pred| == |adj| && 0 <= v < |adj| && 0 <= u < |adj|
    requires (forall w | w in done :: 0 <= w < |adj|) && (before == done || before == done + [u])
    requires Level(adj, before, dist, pred, v) && (u, v) in Arcs(adj) && v !in done + [u]
    requires dist' == dist[v := Better(dist, pred, u, v).0] && pred' == pred[v := Better(dist, pred, u, v).1]
    requires dist[u] >= 0
    ensures Level(adj, done + [u], dist', pred', v)
  {
    forall w | w in done + [u] ensures dist'[w] == dist[w] && (w in before || w == u) {
    }
    forall w | w in done + [u] && (w, v) in Arcs(adj) ensures dist'[w] + 1 <= dist'[v] {
    }
    forall w | w in done + [u] && (w, v) in Arcs(adj) && dist'[w] + 1 == dist'[v] ensures pred'[v] <= w {
    }
  }

  /** A node that gets no offer, among sources whose level stays. */
  lemma OfferOther(adj: Lists, before: seq<int>, v: int, dist: seq<int>, pred: seq<int>,
                   dist': seq<int>, pred': seq<int>, x: int)
    requires |dist| == |adj| && |pred| == |adj| && 0 <= v < |adj| && 0 <= x < |adj| && x != v
    requires (forall w | w in before :: 0 <= w < |adj|) && v !in before
    requires |dist'| == |adj| && |pred'| == |adj|
    requires forall w | 0 <= w < |adj| && w != v :: dist'[w] == dist[w] && pred'[w] == pred[w]
    requires Level(adj, before, dist, pred, x)
    ensures Level(adj, before, dist', pred', x)
  {
  }

  lemma Begin(adj: Lists, done: seq<int>, u: int, dist: seq<int>, pred: seq<int>)
    requires Levels(adj, done, dist, pred) && 0 <= u < |adj|
    ensures Partly(adj, done, u, 0, dist, pred)
  {
    forall v | 0 <= v < |adj| ensures Level(adj, Offered(adj, done, u, 0, v), dist, pred, v) {
      assert Offered(adj, done, u, 0, v) == done;
    }
  }

  lemma End(adj: Lists, done: seq<int>, u: int, dist: seq<int>, pred: seq<int>)
    requires 0 <= u < |adj| && Partly(adj, done, u, |adj[u]|, dist, pred)
    ensures Levels(adj, done + [u], dist, pred)
  {
    assert adj[u][..|adj[u]|] == adj[u];
    forall v | 0 <= v < |adj| ensures Level(adj, done + [u], dist, pred, v) {
      assert Level(adj, Offered(adj, done, u, |adj[u]|, v), dist, pred, v);
    }
  }

  method LongestLevels(adj: Lists, order: seq<int>) returns (dists: seq<int>, preds: seq<int>)
    requires InRange(adj) && Grown(adj, order)
    ensures Levels(adj, order, dists, preds)
  {
    GrownDistinct(adj, order);
    var dist := new int[|adj|](_ => 0);
    var pred := new int[|adj|](_ => -1);
    for k := 0 to |order|
      invariant Levels(adj, order[..k], dist[..], pred[..])
    {
      var u := order[k];
      ghost var done := order[..k];
      assert Ready(adj, done, u);
      BlocksLater(adj, done, u) by {
        forall j | 0 <= j < |done| ensures Ready(adj, done[..j], done[j]) {
          assert done[..j] == order[..j];
        }
      }
      Begin(adj, done, u, dist[..], pred[..]);
      for i := 0 to |adj[u]|
        invariant Partly(adj, done, u, i, dist[..], pred[..])
      {
        var v := adj[u][i];
        assert v in adj[u];
        ghost var d, p := dist[..], pred[..];
        if dist[u] + 1 > dist[v] {
          dist[v] := dist[u] + 1;
          pred[v] := u;
        } else if dist[u] + 1 == dist[v] && (pred[v] == -1 || u < pred[v]) {
          pred[v] := u;
        }
        assert dist[..] == d[v := Better(d, p, u, v).0] && pred[..] == p[v := Better(d, p, u, v).1];
        Offer(adj, done, u, i, v, d, p, dist[..], pred[..]);
      }
      End(adj, done, u, dist[..], pred[..]);
      assert order[..k + 1] == done + [u];
    }
    assert order[..|order|] == order;
    return dist[..], pred[..];
  }

  // ---------- chains ----------

  method Reverse(xs: seq<int>) returns (ys: seq<int>)
    ensures |ys| == |xs| && forall k | 0 <= k < |xs| :: ys[k] == xs[|xs| - 1 - k]
  {
    ys := xs;
    var i, j := 0, |ys| - 1;
    while i < j
      invariant |ys| == |xs| && 0 <= i <= |xs| && j == |xs| - 1 - i
      invariant i <= j + 2 && forall k | i <= k <= j :: ys[k] == xs[k]
      invariant forall k | 0 <= k < i :: ys[k] == xs[|xs| - 1 - k]
      invariant forall k | j < k < |xs| :: ys[k] == xs[|xs| - 1 - k]
    {
      ys := ys[i := ys[j]][j := ys[i]];
      i, j := i + 1, j - 1;
    }
  }

  /** Follow pred from v to its source, then turn the list round. It ends because the level falls at each step. */
  method Rebuild(adj: Lists, ghost order: seq<int>, dist: seq<int>, pred: seq<int>, v: int) returns (path: seq<int>)
    requires Levels(adj, order, dist, pred) && 0 <= v < |adj|
    ensures path == ChainTo(adj, order, dist, pred, v)
  {
    var back: seq<int> := [];
    var curr := v;
    ghost var chain := ChainTo(adj, order, dist, pred, v);
    while curr != -1
      invariant curr == -1 || 0 <= curr < |adj|
      invariant |back| <= |chain| && forall k | 0 <= k < |back| :: back[k] == chain[|chain| - 1 - k]
      invariant if curr == -1 then |back| == |chain|
                else |back| < |chain| && ChainTo(adj, order, dist, pred, curr) == chain[..|chain| - |back|]
      decreases |chain| - |back|
    {
      assert Level(adj, order, dist, pred, curr);
      back := back + [curr];
      curr := pred[curr];
    }
    path := Reverse(back);
  }
}
