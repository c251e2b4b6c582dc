/** Finite directed graphs as sets of arcs: trails, reachability and cycles, over any kind of node. */
module Digraphs {

  /** A walk along arcs; a single node is one. */
  ghost predicate Trail<T>(arcs: set<(T, T)>, p: seq<T>)
  {
    |p| > 0 && forall i | 0 <= i < |p| - 1 :: (p[i], p[i + 1]) in arcs
  }

  ghost predicate TrailFromTo<T>(arcs: set<(T, T)>, p: seq<T>, u: T, v: T)
  {
    Trail(arcs, p) && p[0] == u && p[|p| - 1] == v
  }

  ghost predicate Reaches<T(!new)>(arcs: set<(T, T)>, u: T, v: T)
  {
    exists p :: TrailFromTo(arcs, p, u, v)
  }

  /** A closed trail with at least one arc. */
  ghost predicate Closed<T>(arcs: set<(T, T)>, p: seq<T>)
  {
    Trail(arcs, p) && |p| > 1 && p[0] == p[|p| - 1]
  }

  ghost predicate Acyclic<T(!new)>(arcs: set<(T, T)>)
  {
    forall p :: !Closed(arcs, p)
  }

  ghost predicate OnCycle<T(!new)>(arcs: set<(T, T)>, u: T)
  {
    exists p :: Closed(arcs, p) && p[0] == u
  }

  // ---------- neighbour lists ----------

  /** The list of u; nothing when there is none. */
  function At<T(==)>(adj: map<T, seq<T>>, u: T): seq<T>
  {
    if u in adj then adj[u] else []
  }

  /** Every node of the list is on the list of the one before. */
  ghost predicate Linked<T>(adj: map<T, seq<T>>, p: seq<T>)
  {
    forall i | 0 <= i < |p| - 1 :: p[i + 1] in At(adj, p[i])
  }

  function Appended<T(==)>(adj: map<T, seq<T>>, u: T, v: T): map<T, seq<T>>
  {
    adj[u := At(adj, u) + [v]]
  }

  /** The lists describe exactly these arcs. */
  ghost predicate ListsOf<T(!new)>(adj: map<T, seq<T>>, arcs: set<(T, T)>)
  {
    forall u, v :: v in At(adj, u) <==> (u, v) in arcs
  }

  lemma InList<T(!new)>(adj: map<T, seq<T>>, arcs: set<(T, T)>, u: T, v: T)
    requires ListsOf(adj, arcs)
    ensures v in At(adj, u) <==> (u, v) in arcs
  {
  }

  lemma AppendedLists<T(!new)>(adj: map<T, seq<T>>, arcs: set<(T, T)>, u: T, v: T)
    requires ListsOf(adj, arcs)
    ensures ListsOf(Appended(adj, u, v), arcs + {(u, v)})
  {
    var more := Appended(adj, u, v);
    forall x, y ensures y in At(more, x) <==> (x, y) in arcs + {(u, v)} {
      InList(adj, arcs, x, y);
    }
  }

  // ---------- trails ----------

  lemma Part<T>(arcs: set<(T, T)>, p: seq<T>, i: nat, j: nat)
    requires Trail(arcs, p) && i < j <= |p|
    ensures Trail(arcs, p[i..j])
  {
    forall k | 0 <= k < j - i - 1 ensures (p[i..j][k], p[i..j][k + 1]) in arcs {
      assert (p[i + k], p[i + k + 1]) in arcs;
    }
  }

  /** Two trails that meet in a node. */
  lemma Join<T>(arcs: set<(T, T)>, p: seq<T>, q: seq<T>)
    requires Trail(arcs, p) && Trail(arcs, q) && p[|p| - 1] == q[0]
    ensures Trail(arcs, p + q[1..])
    ensures (p + q[1..])[0] == p[0] && (p + q[1..])[|p| + |q| - 2] == q[|q| - 1]
  {
    var r := p + q[1..];
    forall k | 0 <= k < |r| - 1 ensures (r[k], r[k + 1]) in arcs {
      if k < |p| - 1 {
        assert (p[k], p[k + 1]) in arcs;
      } else {
        var m := k - (|p| - 1);
        assert (q[m], q[m + 1]) in arcs && r[k] == q[m] && r[k + 1] == q[m + 1];
      }
    }
  }

  lemma ReachesSelf<T(!new)>(arcs: set<(T, T)>, u: T)
    ensures Reaches(arcs, u, u)
  {
    assert TrailFromTo(arcs, [u], u, u);
  }

  lemma ReachesTrans<T(!new)>(arcs: set<(T, T)>, u: T, v: T, w: T)
    requires Reaches(arcs, u, v) && Reaches(arcs, v, w)
    ensures Reaches(arcs, u, w)
  {
    var p :| TrailFromTo(arcs, p, u, v);
    var q :| TrailFromTo(arcs, q, v, w);
    Join(arcs, p, q);
    assert TrailFromTo(arcs, p + q[1..], u, w);
  }

  lemma ReachesArc<T(!new)>(arcs: set<(T, T)>, u: T, v: T)
    requires (u, v) in arcs
    ensures Reaches(arcs, u, v)
  {
    assert TrailFromTo(arcs, [u, v], u, v);
  }

  /** A set of nodes that no arc leaves is never left. */
  lemma {:induction false} StaysInside<T>(arcs: set<(T, T)>, inside: set<T>, p: seq<T>)
    requires Trail(arcs, p) && p[0] in inside
    requires forall u, v | u in inside && (u, v) in arcs :: v in inside
    ensures forall i | 0 <= i < |p| :: p[i] in inside
  {
    if |p| > 1 {
      Part(arcs, p, 0, |p| - 1);
      StaysInside(arcs, inside, p[..|p| - 1]);
      assert (p[|p| - 2], p[|p| - 1]) in arcs && p[..|p| - 1][|p| - 2] in inside;
    }
  }

  /** A trail over old arcs and one new arc is old, or gets to the new arc's tail and on from its head. */
  lemma {:induction false} UsesArc<T(!new)>(arcs: set<(T, T)>, u: T, v: T, p: seq<T>)
    requires Trail(arcs + {(u, v)}, p)
    ensures Trail(arcs, p) || (Reaches(arcs, p[0], u) && Reaches(arcs, v, p[|p| - 1]))
  {
    if |p| > 1 {
      Part(arcs + {(u, v)}, p, 1, |p|);
      var rest := p[1..];
      UsesArc(arcs, u, v, rest);
      assert (p[0], p[1]) in arcs + {(u, v)};
      if (p[0], p[1]) in arcs {
        if Trail(arcs, rest) {
          Join(arcs, [p[0], p[1]], rest);
          assert p == [p[0], p[1]] + rest[1..];
        } else {
          ReachesArc(arcs, p[0], p[1]);
          ReachesTrans(arcs, p[0], p[1], u);
        }
      } else {
        ReachesSelf(arcs, u);
        if Trail(arcs, rest) {
          assert TrailFromTo(arcs, rest, v, p[|p| - 1]);
        }
      }
    }
  }

  /** One more arc closes a cycle exactly when its head already reached its tail. */
  lemma NewArcCycle<T(!new)>(arcs: set<(T, T)>, u: T, v: T)
    requires Acyclic(arcs)
    ensures Acyclic(arcs + {(u, v)}) <==> !Reaches(arcs, v, u)
  {
    if Reaches(arcs, v, u) {
      var p :| TrailFromTo(arcs, p, v, u);
      var more := arcs + {(u, v)};
      assert Trail(more, p) && Trail(more, [u, v]);
      Join(more, [u, v], p);
      assert Closed(more, [u, v] + p[1..]);
    } else {
      forall p ensures !Closed(arcs + {(u, v)}, p) {
        if Closed(arcs + {(u, v)}, p) {
          UsesArc(arcs, u, v, p);
          assert !Closed(arcs, p);
          ReachesTrans(arcs, v, p[0], u);
        }
      }
    }
  }

  lemma FewerArcs<T(!new)>(fewer: set<(T, T)>, arcs: set<(T, T)>)
    requires Acyclic(arcs) && fewer <= arcs
    ensures Acyclic(fewer)
  {
    forall p ensures !Closed(fewer, p) {
      assert !Closed(arcs, p);
    }
  }

  // ---------- turning the arcs round ----------

  ghost function Flip<T>(arcs: set<(T, T)>): set<(T, T)>
  {
    set a | a in arcs :: (a.1, a.0)
  }

  ghost function Backwards<T>(p: seq<T>): (q: seq<T>)
    ensures |q| == |p| && forall i | 0 <= i < |p| :: q[i] == p[|p| - 1 - i]
  {
    seq(|p|, i requires 0 <= i < |p| => p[|p| - 1 - i])
  }

  lemma TrailFlip<T>(arcs: set<(T, T)>, p: seq<T>)
    requires Trail(arcs, p)
    ensures Trail(Flip(arcs), Backwards(p))
  {
    var q := Backwards(p);
    forall i | 0 <= i < |q| - 1 ensures (q[i], q[i + 1]) in Flip(arcs) {
      var k := |p| - 2 - i;
      var a := (p[k], p[k + 1]);
      assert a in arcs;
    }
  }

  lemma FlipTwice<T>(arcs: set<(T, T)>)
    ensures Flip(Flip(arcs)) == arcs
  {
    forall a ensures a in Flip(Flip(arcs)) <==> a in arcs {
      if a in arcs {
        assert (a.1, a.0) in Flip(arcs);
      }
    }
  }

  lemma ReachesFlip<T(!new)>(arcs: set<(T, T)>, u: T, v: T)
    ensures Reaches(arcs, u, v) <==> Reaches(Flip(arcs), v, u)
  {
    FlipTwice(arcs);
    if p :| TrailFromTo(arcs, p, u, v) {
      TrailFlip(arcs, p);
      assert TrailFromTo(Flip(arcs), Backwards(p), v, u);
    }
    if p :| TrailFromTo(Flip(arcs), p, v, u) {
      TrailFlip(Flip(arcs), p);
      assert TrailFromTo(arcs, Backwards(p), u, v);
    }
  }
}
