/**
 Walks in a directed graph given by out-neighbour lists: the reference against which
 breadth-first search and betweenness are judged. Nothing here mentions an algorithm.
 */
module Paths {
  import opened Sums
  import opened Counting

  type Adjacency = seq<seq<nat>>

  /** Every list names nodes of the graph, none of them twice (a simple directed graph). */
  ghost predicate Simple(adj: Adjacency)
  {
    forall v | 0 <= v < |adj| ::
      Distinct(adj[v]) && forall i | 0 <= i < |adj[v]| :: adj[v][i] < |adj|
  }

  ghost predicate Edge(adj: Adjacency, u: nat, v: nat)
  {
    u < |adj| && v < |adj| && v in adj[u]
  }

  ghost predicate IsWalk(adj: Adjacency, p: seq<nat>)
  {
    && |p| > 0
    && (forall i | 0 <= i < |p| :: p[i] < |adj|)
    && forall i | 0 <= i < |p| - 1 :: Edge(adj, p[i], p[i + 1])
  }

  ghost predicate WalkFromTo(adj: Adjacency, p: seq<nat>, s: nat, k: nat, t: nat)
  {
    IsWalk(adj, p) && |p| == k + 1 && p[0] == s && p[k] == t
  }

  /** A walk and one edge more. */
  lemma WalkOn(adj: Adjacency, p: seq<nat>, s: nat, k: nat, u: nat, t: nat)
    requires WalkFromTo(adj, p, s, k, u) && u < |adj| && t in adj[u] && t < |adj|
    ensures WalkFromTo(adj, p + [t], s, k + 1, t)
  {
    var q := p + [t];
    forall i | 0 <= i < |q| - 1 ensures Edge(adj, q[i], q[i + 1]) {
      assert i < |p| - 1 ==> Edge(adj, p[i], p[i + 1]);
    }
  }

  /** A walk without its last edge. */
  lemma WalkFront(adj: Adjacency, p: seq<nat>, s: nat, k: nat, t: nat)
    requires k > 0 && WalkFromTo(adj, p, s, k, t)
    ensures p[k - 1] < |adj| && t in adj[p[k - 1]] && WalkFromTo(adj, p[..k], s, k - 1, p[k - 1]) && p == p[..k] + [t]
  {
    assert Edge(adj, p[k - 1], p[k - 1 + 1]);
    forall i | 0 <= i < k - 1 ensures Edge(adj, p[..k][i], p[..k][i + 1]) {
      assert Edge(adj, p[i], p[i + 1]);
    }
  }

  /** All walks with k edges from s to t. */
  ghost function Walks(adj: Adjacency, s: nat, k: nat, t: nat): (ps: set<seq<nat>>)
    ensures forall p :: p in ps <==> WalkFromTo(adj, p, s, k, t)
    decreases k
  {
    if s >= |adj| || t >= |adj| then {}
    else if k == 0 then
      var ps := if s == t then {[s]} else {};
      assert forall p | WalkFromTo(adj, p, s, 0, t) :: p == [s];
      ps
    else
      var ps := set u, p | 0 <= u < |adj| && t in adj[u] && p in Walks(adj, s, k - 1, u) :: p + [t];
      assert forall p | p in ps :: WalkFromTo(adj, p, s, k, t) by {
        forall u, q | 0 <= u < |adj| && t in adj[u] && q in Walks(adj, s, k - 1, u)
          ensures WalkFromTo(adj, q + [t], s, k, t)
        {
          WalkOn(adj, q, s, k - 1, u, t);
        }
      }
      assert forall p | WalkFromTo(adj, p, s, k, t) :: p in ps by {
        forall p | WalkFromTo(adj, p, s, k, t) ensures p in ps {
          WalkFront(adj, p, s, k, t);
          assert p[..k] in Walks(adj, s, k - 1, p[k - 1]);
        }
      }
      ps
  }

  /** The number of walks with k edges from s to t. */
  ghost function Ways(adj: Adjacency, s: nat, k: nat, t: nat): nat
  {
    |Walks(adj, s, k, t)|
  }

  ghost predicate HasWalk(adj: Adjacency, s: nat, k: nat, t: nat)
  {
    Walks(adj, s, k, t) != {}
  }

  ghost predicate IsDistance(adj: Adjacency, s: nat, t: nat, d: nat)
  {
    HasWalk(adj, s, d, t) && forall k: nat | k < d :: !HasWalk(adj, s, k, t)
  }

  /** The length of a shortest walk, or -1 when there is no walk. */
  ghost function Distance(adj: Adjacency, s: nat, t: nat): (d: int)
    ensures d == -1 || (d >= 0 && IsDistance(adj, s, t, d))
    ensures d == -1 <==> forall k: nat :: !HasWalk(adj, s, k, t)
  {
    if k: nat :| HasWalk(adj, s, k, t) then
      LeastWalk(adj, s, t, k);
      var d: nat :| IsDistance(adj, s, t, d);
      d
    else -1
  }

  lemma LeastWalk(adj: Adjacency, s: nat, t: nat, k: nat)
    requires HasWalk(adj, s, k, t)
    ensures exists d: nat :: d <= k && IsDistance(adj, s, t, d)
  {
    if j: nat :| j < k && HasWalk(adj, s, j, t) {
      LeastWalk(adj, s, t, j);
    } else {
      assert IsDistance(adj, s, t, k);
    }
  }

  lemma DistanceIs(adj: Adjacency, s: nat, t: nat, d: nat)
    requires IsDistance(adj, s, t, d)
    ensures Distance(adj, s, t) == d
  {
    assert HasWalk(adj, s, d, t);
  }

  // ---------- counting walks ----------

  ghost function EdgeWeight(adj: Adjacency, u: nat, v: nat, x: real): real
  {
    if Edge(adj, u, v) then x else 0.0
  }

  /** Ways to reach t by one more edge, by the node u that the last edge leaves. */
  ghost function WaysInto(adj: Adjacency, s: nat, k: nat, t: nat): nat -> real
  {
    (u: nat) => EdgeWeight(adj, u, t, Ways(adj, s, k, u) as real)
  }

  /** Ways to reach t after one edge, by the node u that the first edge enters. */
  ghost function WaysOutOf(adj: Adjacency, s: nat, k: nat, t: nat): nat -> real
  {
    (u: nat) => EdgeWeight(adj, s, u, Ways(adj, u, k, t) as real)
  }

  /** The node that stands at position i of a walk. */
  ghost function At(p: seq<nat>, i: nat): nat
  {
    if i < |p| then p[i] else 0
  }

  lemma CutLast(adj: Adjacency, s: nat, k: nat, t: nat, p: seq<nat>)
    requires p in Walks(adj, s, k + 1, t)
    ensures p[..k + 1] in Walks(adj, s, k, p[k]) && p == p[..k + 1] + [t] && Edge(adj, p[k], t)
  {
    assert WalkFromTo(adj, p, s, k + 1, t);
    WalkPrefix(adj, p, k);
    assert WalkFromTo(adj, p[..k + 1], s, k, p[k]);
    assert Edge(adj, p[k], p[k + 1]);
  }

  lemma AddLast(adj: Adjacency, s: nat, k: nat, u: nat, t: nat, q: seq<nat>)
    requires q in Walks(adj, s, k, u) && Edge(adj, u, t)
    ensures q + [t] in Walks(adj, s, k + 1, t) && (q + [t])[k] == u && (q + [t])[..k + 1] == q
  {
    assert WalkFromTo(adj, q, s, k, u);
    WalkAppend(adj, q, t);
    assert WalkFromTo(adj, q + [t], s, k + 1, t);
  }

  /** The walks whose last edge leaves u are the walks to u, each extended by t. */
  lemma LastSlice(adj: Adjacency, s: nat, k: nat, t: nat, u: nat, key: seq<nat> -> int)
    requires forall p :: key(p) == At(p, k)
    ensures ClassSizes(Walks(adj, s, k + 1, t), key)(u) == WaysInto(adj, s, k, t)(u)
  {
    var ps := Walks(adj, s, k + 1, t);
    forall p | p in ps ensures p[..k + 1] in Walks(adj, s, k, p[k]) && p == p[..k + 1] + [t] && Edge(adj, p[k], t) {
      CutLast(adj, s, k, t, p);
    }
    if Edge(adj, u, t) {
      forall q | q in Walks(adj, s, k, u) ensures q + [t] in Class(ps, key, u) && (q + [t])[..k + 1] == q {
        AddLast(adj, s, k, u, t, q);
      }
      CardBijection(Class(ps, key, u), Walks(adj, s, k, u),
        (p: seq<nat>) => if |p| > k then p[..k + 1] else p, (q: seq<nat>) => q + [t]);
    } else {
      assert Class(ps, key, u) == {};
    }
  }

  /** Walks to t are walks to an in-neighbour of t, extended by one edge. */
  lemma WaysLast(adj: Adjacency, s: nat, k: nat, t: nat)
    requires t < |adj|
    ensures Ways(adj, s, k + 1, t) as real == Sum(|adj|, WaysInto(adj, s, k, t))
  {
    var ps, key := Walks(adj, s, k + 1, t), (p: seq<nat>) => At(p, k);
    CardPartition(ps, |adj|, key);
    forall u: nat ensures ClassSizes(ps, key)(u) == WaysInto(adj, s, k, t)(u) {
      LastSlice(adj, s, k, t, u, key);
    }
    SumEq(|adj|, ClassSizes(ps, key), WaysInto(adj, s, k, t));
  }

  lemma CutFirst(adj: Adjacency, s: nat, k: nat, t: nat, p: seq<nat>)
    requires p in Walks(adj, s, k + 1, t)
    ensures p[1..] in Walks(adj, p[1], k, t) && p == [s] + p[1..] && Edge(adj, s, p[1])
  {
    assert WalkFromTo(adj, p, s, k + 1, t);
    WalkSuffix(adj, p, 1);
    assert WalkFromTo(adj, p[1..], p[1], k, t);
    assert Edge(adj, p[0], p[0 + 1]);
  }

  lemma AddFirst(adj: Adjacency, s: nat, k: nat, u: nat, t: nat, q: seq<nat>)
    requires q in Walks(adj, u, k, t) && Edge(adj, s, u)
    ensures [s] + q in Walks(adj, s, k + 1, t) && ([s] + q)[1] == u && ([s] + q)[1..] == q
  {
    assert WalkFromTo(adj, q, u, k, t);
    assert IsWalk(adj, [s]);
    WalkJoin(adj, [s], q);
    assert WalkFromTo(adj, [s] + q, s, k + 1, t);
  }

  /** The walks whose first edge enters u are the walks from u, each with s in front. */
  lemma FirstSlice(adj: Adjacency, s: nat, k: nat, t: nat, u: nat, key: seq<nat> -> int)
    requires forall p :: key(p) == At(p, 1)
    ensures ClassSizes(Walks(adj, s, k + 1, t), key)(u) == WaysOutOf(adj, s, k, t)(u)
  {
    var ps := Walks(adj, s, k + 1, t);
    forall p | p in ps ensures p[1..] in Walks(adj, p[1], k, t) && p == [s] + p[1..] && Edge(adj, s, p[1]) {
      CutFirst(adj, s, k, t, p);
    }
    if Edge(adj, s, u) {
      forall q | q in Walks(adj, u, k, t) ensures [s] + q in Class(ps, key, u) && ([s] + q)[1..] == q {
        AddFirst(adj, s, k, u, t, q);
      }
      CardBijection(Class(ps, key, u), Walks(adj, u, k, t),
        (p: seq<nat>) => if |p| > 1 then p[1..] else p, (q: seq<nat>) => [s] + q);
    } else {
      assert Class(ps, key, u) == {};
    }
  }

  /** Walks from s are walks from an out-neighbour of s, with one edge in front. */
  lemma WaysFirst(adj: Adjacency, s: nat, k: nat, t: nat)
    requires s < |adj|
    ensures Ways(adj, s, k + 1, t) as real == Sum(|adj|, WaysOutOf(adj, s, k, t))
  {
    var ps, key := Walks(adj, s, k + 1, t), (p: seq<nat>) => At(p, 1);
    CardPartition(ps, |adj|, key);
    forall u: nat ensures ClassSizes(ps, key)(u) == WaysOutOf(adj, s, k, t)(u) {
      FirstSlice(adj, s, k, t, u, key);
    }
    SumEq(|adj|, ClassSizes(ps, key), WaysOutOf(adj, s, k, t));
  }

  // ---------- cutting and joining walks ----------

  lemma WalkPrefix(adj: Adjacency, p: seq<nat>, i: nat)
    requires IsWalk(adj, p) && i < |p|
    ensures IsWalk(adj, p[..i + 1])
  {
    var q := p[..i + 1];
    forall j | 0 <= j < |q| - 1 ensures Edge(adj, q[j], q[j + 1]) {
      assert Edge(adj, p[j], p[j + 1]);
    }
  }

  lemma WalkSuffix(adj: Adjacency, p: seq<nat>, i: nat)
    requires IsWalk(adj, p) && i < |p|
    ensures IsWalk(adj, p[i..])
  {
    var q := p[i..];
    forall j | 0 <= j < |q| - 1 ensures Edge(adj, q[j], q[j + 1]) {
      assert Edge(adj, p[i + j], p[i + j + 1]);
    }
  }

  lemma WalkAppend(adj: Adjacency, p: seq<nat>, t: nat)
    requires IsWalk(adj, p) && Edge(adj, p[|p| - 1], t)
    ensures IsWalk(adj, p + [t])
  {
    var q := p + [t];
    forall j | 0 <= j < |q| - 1 ensures Edge(adj, q[j], q[j + 1]) {
      if j < |p| - 1 {
        assert Edge(adj, p[j], p[j + 1]);
      }
    }
  }

  lemma WalkJoin(adj: Adjacency, p: seq<nat>, q: seq<nat>)
    requires IsWalk(adj, p) && IsWalk(adj, q) && Edge(adj, p[|p| - 1], q[0])
    ensures IsWalk(adj, p + q)
  {
    var r := p + q;
    forall j | 0 <= j < |r| - 1 ensures Edge(adj, r[j], r[j + 1]) {
      if j < |p| - 1 {
        assert Edge(adj, p[j], p[j + 1]);
      } else if j >= |p| {
        assert Edge(adj, q[j - |p|], q[j - |p| + 1]);
      }
    }
  }

  /** Two walks that meet at a node make one walk; the meeting node is written once. */
  lemma WalkThrough(adj: Adjacency, p: seq<nat>, q: seq<nat>)
    requires IsWalk(adj, p) && IsWalk(adj, q) && p[|p| - 1] == q[0]
    ensures IsWalk(adj, p + q[1..])
  {
    if |q| == 1 {
      assert p + q[1..] == p;
    } else {
      WalkSuffix(adj, q, 1);
      assert Edge(adj, q[0], q[0 + 1]);
      WalkJoin(adj, p, q[1..]);
    }
  }

  // ---------- shortest walks ----------

  /** Replacing the first i edges of a walk by another walk to the same node. */
  lemma Reroute(adj: Adjacency, s: nat, t: nat, d: nat, p: seq<nat>, i: nat, k: nat)
    requires p in Walks(adj, s, d, t) && i < |p| && HasWalk(adj, s, k, p[i])
    ensures HasWalk(adj, s, k + (d - i), t)
  {
    var q :| q in Walks(adj, s, k, p[i]);
    WalkSuffix(adj, p, i);
    WalkThrough(adj, q, p[i..]);
    assert q + p[i..][1..] in Walks(adj, s, k + (d - i), t);
  }

  /** On a shortest walk every node stands at its own distance from the start. */
  lemma ShortestPosition(adj: Adjacency, s: nat, t: nat, p: seq<nat>, i: nat)
    requires Distance(adj, s, t) >= 0 && p in Walks(adj, s, Distance(adj, s, t), t) && i < |p|
    ensures Distance(adj, s, p[i]) == i
  {
    var v, d := p[i], Distance(adj, s, t);
    WalkPrefix(adj, p, i);
    assert p[..i + 1] in Walks(adj, s, i, v);
    forall k: nat | k < i ensures !HasWalk(adj, s, k, v) {
      if HasWalk(adj, s, k, v) {
        Reroute(adj, s, t, d, p, i, k);
      }
    }
    DistanceIs(adj, s, v, i);
  }

  /** A shortest walk visits no node twice. */
  lemma ShortestDistinct(adj: Adjacency, s: nat, t: nat, p: seq<nat>)
    requires Distance(adj, s, t) >= 0 && p in Walks(adj, s, Distance(adj, s, t), t)
    ensures Distinct(p)
  {
    forall i, j | 0 <= i < j < |p| ensures p[i] != p[j] {
      ShortestPosition(adj, s, t, p, i);
      ShortestPosition(adj, s, t, p, j);
    }
  }

  /** Distances grow by at most one along an edge. */
  lemma DistanceEdge(adj: Adjacency, s: nat, u: nat, v: nat)
    requires Distance(adj, s, u) >= 0 && Edge(adj, u, v)
    ensures 0 <= Distance(adj, s, v) <= Distance(adj, s, u) + 1
  {
    var k := Distance(adj, s, u);
    var p :| p in Walks(adj, s, k, u);
    WalkAppend(adj, p, v);
    assert p + [v] in Walks(adj, s, k + 1, v);
    assert HasWalk(adj, s, k + 1, v);
  }

  /** The shortest walks from s to t. */
  ghost function Shortest(adj: Adjacency, s: nat, t: nat): set<seq<nat>>
  {
    if Distance(adj, s, t) < 0 then {} else Walks(adj, s, Distance(adj, s, t), t)
  }

  /** The shortest walks from s to t that visit v. */
  ghost function ShortestVia(adj: Adjacency, s: nat, t: nat, v: nat): set<seq<nat>>
  {
    set p | p in Shortest(adj, s, t) && v in p
  }

  /** A walk to a node and a walk from it, joined there. */
  ghost function Join(pq: (seq<nat>, seq<nat>)): seq<nat>
  {
    if |pq.1| > 0 then pq.0 + pq.1[1..] else pq.0
  }

  lemma SplitWalk(adj: Adjacency, s: nat, d: nat, t: nat, p: seq<nat>, i: nat)
    requires p in Walks(adj, s, d, t) && i <= d
    ensures p[..i + 1] in Walks(adj, s, i, p[i])
    ensures p[i..] in Walks(adj, p[i], d - i, t)
    ensures p == Join((p[..i + 1], p[i..]))
  {
    assert WalkFromTo(adj, p, s, d, t);
    WalkPrefix(adj, p, i);
    WalkSuffix(adj, p, i);
    assert WalkFromTo(adj, p[..i + 1], s, i, p[i]);
    assert WalkFromTo(adj, p[i..], p[i], d - i, t);
    assert p == p[..i + 1] + p[i..][1..];
  }

  /** The two halves of a walk that passes v after d steps. */
  ghost function Halves(p: seq<nat>, d: nat): (seq<nat>, seq<nat>)
  {
    if d < |p| then (p[..d + 1], p[d..]) else (p, p)
  }

  lemma SplitAt(adj: Adjacency, s: nat, n: nat, t: nat, v: nat, p: seq<nat>, i: nat)
    requires p in Walks(adj, s, n, t) && i <= n && i < |p| && p[i] == v
    ensures Halves(p, i) in Pairs(Walks(adj, s, i, v), Walks(adj, v, n - i, t)) && Join(Halves(p, i)) == p
  {
    SplitWalk(adj, s, n, t, p, i);
  }

  /** A node on a shortest walk stands where its distance says. */
  lemma ViaPosition(adj: Adjacency, s: nat, t: nat, v: nat, p: seq<nat>) returns (i: nat)
    requires p in ShortestVia(adj, s, t, v)
    ensures i == Distance(adj, s, v) <= Distance(adj, s, t) && i < |p| && p[i] == v
  {
    i :| 0 <= i < |p| && p[i] == v;
    assert WalkFromTo(adj, p, s, Distance(adj, s, t), t);
    ShortestPosition(adj, s, t, p, i);
  }

  lemma SplitVia(adj: Adjacency, s: nat, t: nat, v: nat, p: seq<nat>)
    requires p in ShortestVia(adj, s, t, v)
    ensures 0 <= Distance(adj, s, v) <= Distance(adj, s, t)
    ensures Halves(p, Distance(adj, s, v)) in
      Pairs(Shortest(adj, s, v), Walks(adj, v, Distance(adj, s, t) - Distance(adj, s, v), t))
    ensures Join(Halves(p, Distance(adj, s, v))) == p
  {
    var i := ViaPosition(adj, s, t, v, p);
    SplitAt(adj, s, Distance(adj, s, t), t, v, p, i);
  }

  lemma JoinVia(adj: Adjacency, s: nat, d: nat, v: nat, m: nat, t: nat, p: seq<nat>, q: seq<nat>)
    requires p in Walks(adj, s, d, v) && q in Walks(adj, v, m, t)
    ensures Join((p, q)) in Walks(adj, s, d + m, t) && v in Join((p, q))
    ensures Halves(Join((p, q)), d) == (p, q)
  {
    assert WalkFromTo(adj, p, s, d, v) && WalkFromTo(adj, q, v, m, t);
    WalkThrough(adj, p, q);
    var r := Join((p, q));
    assert WalkFromTo(adj, r, s, d + m, t);
    assert r[d] == v;
    assert r[..d + 1] == p;
    assert r[d..] == [v] + q[1..] == q;
  }

  /** Halving and joining are inverse to each other. */
  lemma ViaPairs(adj: Adjacency, s: nat, t: nat, v: nat, d: nat, m: nat)
    requires d == Distance(adj, s, v) && d + m == Distance(adj, s, t)
    ensures |ShortestVia(adj, s, t, v)| == |Pairs(Shortest(adj, s, v), Walks(adj, v, m, t))|
  {
    var via, pairs := ShortestVia(adj, s, t, v), Pairs(Shortest(adj, s, v), Walks(adj, v, m, t));
    var halve := (p: seq<nat>) => Halves(p, d);
    forall p | p in via ensures halve(p) in pairs && Join(halve(p)) == p {
      SplitVia(adj, s, t, v, p);
    }
    forall pq | pq in pairs ensures Join(pq) in via && halve(Join(pq)) == pq {
      JoinVia(adj, s, d, v, m, t, pq.0, pq.1);
    }
    CardBijection(via, pairs, halve, Join);
  }

  /** The number of shortest walks through v factors at v. */
  lemma CountVia(adj: Adjacency, s: nat, t: nat, v: nat)
    requires 0 <= Distance(adj, s, v) <= Distance(adj, s, t)
    ensures |ShortestVia(adj, s, t, v)|
         == |Shortest(adj, s, v)| * Ways(adj, v, Distance(adj, s, t) - Distance(adj, s, v), t)
  {
    var m := Distance(adj, s, t) - Distance(adj, s, v);
    ViaPairs(adj, s, t, v, Distance(adj, s, v), m);
    CardPairs(Shortest(adj, s, v), Walks(adj, v, m, t));
  }
}
