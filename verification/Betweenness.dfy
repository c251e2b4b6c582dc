/**
 Betweenness from one source, defined by counting shortest walks, and the recursion that
 Brandes' algorithm exploits to compute it without enumerating them.
 */
module Betweenness {
  import opened Sums
  import opened Paths

  /** The fraction of the shortest s-t walks that visit v; 0 when t cannot be reached. */
  ghost function Share(adj: Adjacency, s: nat, t: nat, v: nat): real
  {
    if Shortest(adj, s, t) == {} then 0.0
    else |ShortestVia(adj, s, t, v)| as real / |Shortest(adj, s, t)| as real
  }

  /** Entry (v, t): v's share of the shortest walks to t. */
  ghost function ShareTable(adj: Adjacency, s: nat): (nat, nat) -> real
  {
    (v: nat, t: nat) => Share(adj, s, t, v)
  }

  /** Row v of a table of shares, without v's share of the walks that end in v. */
  ghost function OtherTargets(share: (nat, nat) -> real, v: nat): nat -> real
  {
    (t: nat) => if t == v then 0.0 else share(v, t)
  }

  /** The dependency of s on v: the sum of v's shares over all other targets. */
  ghost function Dependency(adj: Adjacency, s: nat, v: nat): real
  {
    Sum(|adj|, OtherTargets(ShareTable(adj, s), v))
  }

  /** One source's contribution to the betweenness of w; the source itself gets none. */
  ghost function Contribution(adj: Adjacency, s: nat, w: nat): real
  {
    if w == s then 0.0 else Dependency(adj, s, w)
  }

  /** The number of shortest walks from s to v. */
  ghost function Sigma(adj: Adjacency, s: nat, v: nat): real
  {
    |Shortest(adj, s, v)| as real
  }

  /** The edge u -> w lies on a shortest walk from s. */
  ghost predicate Tight(adj: Adjacency, s: nat, u: nat, w: nat)
  {
    Edge(adj, u, w) && Distance(adj, s, u) >= 0 && Distance(adj, s, w) == Distance(adj, s, u) + 1
  }

  lemma SigmaPositive(adj: Adjacency, s: nat, v: nat)
    ensures Distance(adj, s, v) >= 0 <==> Sigma(adj, s, v) > 0.0
    ensures Distance(adj, s, v) >= 0 <==> Sigma(adj, s, v) != 0.0
  {
    if Distance(adj, s, v) >= 0 {
      assert HasWalk(adj, s, Distance(adj, s, v), v);
    }
  }

  // ---------- the algebra of shares, free of division ----------

  /** A table of shares, characterised by multiplication. */
  ghost predicate IsShareTable(adj: Adjacency, s: nat, share: (nat, nat) -> real)
  {
    forall v: nat, t: nat ::
      Mul(share(v, t), Sigma(adj, s, t)) == |ShortestVia(adj, s, t, v)| as real
      && (Distance(adj, s, t) < 0 ==> share(v, t) == 0.0)
  }

  /** The weights Brandes gives to the edges out of v, characterised by multiplication. */
  ghost predicate IsRatio(adj: Adjacency, s: nat, v: nat, ratio: nat -> real)
  {
    forall w: nat ::
      if Tight(adj, s, v, w) then Mul(ratio(w), Sigma(adj, s, w)) == Sigma(adj, s, v) else ratio(w) == 0.0
  }

  /** Every shortest walk to t visits t. */
  lemma ShareSelf(adj: Adjacency, s: nat, t: nat, share: (nat, nat) -> real)
    requires IsShareTable(adj, s, share) && Distance(adj, s, t) >= 0
    ensures share(t, t) == 1.0
  {
    SigmaPositive(adj, s, t);
    forall p | p in Shortest(adj, s, t) ensures p in ShortestVia(adj, s, t, t) {
      assert p[|p| - 1] == t;
    }
    assert ShortestVia(adj, s, t, t) == Shortest(adj, s, t);
    assert Mul(share(t, t), Sigma(adj, s, t)) == Sigma(adj, s, t);
    Cancel(Sigma(adj, s, t), share(t, t), 1.0);
  }

  lemma Cancel(c: real, x: real, y: real)
    requires c != 0.0 && Mul(x, c) == Mul(y, c)
    ensures x == y
  {
  }

  lemma Commute(x: real, y: real)
    ensures Mul(x, y) == Mul(y, x)
  {
  }

  lemma NoneFarther(adj: Adjacency, s: nat, t: nat, v: nat)
    requires v != t && Distance(adj, s, v) >= Distance(adj, s, t)
    ensures ShortestVia(adj, s, t, v) == {}
  {
    forall p | p in ShortestVia(adj, s, t, v) ensures false {
      assert WalkFromTo(adj, p, s, Distance(adj, s, t), t);
      var i :| 0 <= i < |p| && p[i] == v;
      ShortestPosition(adj, s, t, p, i);
    }
  }

  /** A shortest walk to t visits no other node that is as far away as t, or farther. */
  lemma ShareFar(adj: Adjacency, s: nat, t: nat, v: nat, share: (nat, nat) -> real)
    requires IsShareTable(adj, s, share) && v != t && Distance(adj, s, v) >= Distance(adj, s, t)
    ensures share(v, t) == 0.0
  {
    NoneFarther(adj, s, t, v);
    assert Mul(share(v, t), Sigma(adj, s, t)) == 0.0;
    SigmaPositive(adj, s, t);
    if Distance(adj, s, t) >= 0 {
      Cancel(Sigma(adj, s, t), share(v, t), 0.0);
    }
  }

  /** Shortest walks to t through w, as a multiple of the shortest walks to w. */
  lemma ShareFactor(adj: Adjacency, s: nat, t: nat, w: nat, share: (nat, nat) -> real)
    requires IsShareTable(adj, s, share) && 0 <= Distance(adj, s, w) <= Distance(adj, s, t)
    ensures Mul(share(w, t), Sigma(adj, s, t))
         == Mul(Sigma(adj, s, w), Ways(adj, w, Distance(adj, s, t) - Distance(adj, s, w), t) as real)
  {
    CountVia(adj, s, t, w);
    CastProduct(|Shortest(adj, s, w)|, Ways(adj, w, Distance(adj, s, t) - Distance(adj, s, w), t));
  }

  lemma CastProduct(a: nat, b: nat)
    ensures (a * b) as real == Mul(a as real, b as real)
  {
    if b > 0 {
      CastProduct(a, b - 1);
      assert a * b == a * (b - 1) + a;
    }
  }

  /** An edge that is not tight starts no walk of the remaining length. */
  lemma LooseEdge(adj: Adjacency, s: nat, t: nat, v: nat, w: nat, m: nat)
    requires Distance(adj, s, v) >= 0 && Distance(adj, s, t) == Distance(adj, s, v) + m + 1
    requires Edge(adj, v, w) && !Tight(adj, s, v, w)
    ensures Ways(adj, w, m, t) == 0
  {
    DistanceEdge(adj, s, v, w);
    if HasWalk(adj, w, m, t) {
      JoinedWalk(adj, s, Distance(adj, s, w), w, m, t);
    }
  }

  lemma JoinedWalk(adj: Adjacency, s: nat, d: nat, w: nat, m: nat, t: nat)
    requires HasWalk(adj, s, d, w) && HasWalk(adj, w, m, t)
    ensures HasWalk(adj, s, d + m, t)
  {
    var p :| p in Walks(adj, s, d, w);
    var q :| q in Walks(adj, w, m, t);
    JoinVia(adj, s, d, w, m, t, p, q);
  }

  /** One edge's part of v's share of the walks to t, both sides multiplied by Sigma(t). */
  lemma PassedTerm(adj: Adjacency, s: nat, t: nat, v: nat, w: nat, m: nat,
                   ratio: nat -> real, share: (nat, nat) -> real)
    requires IsShareTable(adj, s, share) && IsRatio(adj, s, v, ratio)
    requires Distance(adj, s, v) >= 0 && Distance(adj, s, t) == Distance(adj, s, v) + m + 1
    ensures Mul(Sigma(adj, s, t), Weighted(ratio, share, t)(w)) == Mul(Sigma(adj, s, v), WaysOutOf(adj, v, m, t)(w))
  {
    if Tight(adj, s, v, w) {
      ShareFactor(adj, s, t, w, share);
      Cross(ratio(w), share(w, t), Sigma(adj, s, v), Sigma(adj, s, w), Sigma(adj, s, t), Ways(adj, w, m, t) as real);
    } else if Edge(adj, v, w) {
      LooseEdge(adj, s, t, v, w, m);
    }
  }

  lemma Cross(ratio: real, share: real, a: real, b: real, c: real, x: real)
    requires Mul(ratio, b) == a && Mul(share, c) == Mul(b, x)
    ensures Mul(c, Mul(ratio, share)) == Mul(a, x)
  {
    assert ratio * share * c == ratio * (share * c);
    assert ratio * (b * x) == ratio * b * x;
  }

  /** Targets that are not farther away than v: nothing is passed. */
  lemma PassedNear(adj: Adjacency, s: nat, t: nat, v: nat, ratio: nat -> real, share: (nat, nat) -> real)
    requires IsShareTable(adj, s, share) && IsRatio(adj, s, v, ratio)
    requires Distance(adj, s, v) >= 0 && Distance(adj, s, t) <= Distance(adj, s, v)
    ensures Sum(|adj|, Weighted(ratio, share, t)) == OtherTargets(share, v)(t)
  {
    forall w: nat ensures Weighted(ratio, share, t)(w) == 0.0 {
      if Tight(adj, s, v, w) {
        ShareFar(adj, s, t, w, share);
      }
    }
    SumZero(|adj|, Weighted(ratio, share, t));
    if t != v {
      ShareFar(adj, s, t, v, share);
    }
  }

  /** Targets farther away than v: walks onwards from v are counted by their first edge. */
  lemma PassedFar(adj: Adjacency, s: nat, t: nat, v: nat, m: nat, ratio: nat -> real, share: (nat, nat) -> real)
    requires IsShareTable(adj, s, share) && IsRatio(adj, s, v, ratio)
    requires Distance(adj, s, v) >= 0 && Distance(adj, s, t) == Distance(adj, s, v) + m + 1 && v < |adj|
    ensures Mul(Sigma(adj, s, t), Sum(|adj|, Weighted(ratio, share, t)))
         == Mul(Sigma(adj, s, v), Ways(adj, v, m + 1, t) as real)
  {
    forall w: nat {
      PassedTerm(adj, s, t, v, w, m, ratio, share);
    }
    SumProportional(|adj|, Sigma(adj, s, t), Sigma(adj, s, v), Weighted(ratio, share, t), WaysOutOf(adj, v, m, t));
    WaysFirst(adj, v, m, t);
  }

  lemma SharePassedFar(adj: Adjacency, s: nat, t: nat, v: nat, ratio: nat -> real, share: (nat, nat) -> real)
    requires IsShareTable(adj, s, share) && IsRatio(adj, s, v, ratio)
    requires 0 <= Distance(adj, s, v) < Distance(adj, s, t)
    ensures Sum(|adj|, Weighted(ratio, share, t)) == share(v, t)
  {
    assert v < |adj| by { var p :| p in Walks(adj, s, Distance(adj, s, v), v); }
    var total := Sum(|adj|, Weighted(ratio, share, t));
    PassedFar(adj, s, t, v, Distance(adj, s, t) - Distance(adj, s, v) - 1, ratio, share);
    ShareFactor(adj, s, t, v, share);
    SigmaPositive(adj, s, t);
    Commute(Sigma(adj, s, t), total);
    Cancel(Sigma(adj, s, t), total, share(v, t));
  }

  /** For one target, v's share is the weighted sum of the shares of its successors. */
  lemma SharePassed(adj: Adjacency, s: nat, t: nat, v: nat, ratio: nat -> real, share: (nat, nat) -> real)
    requires IsShareTable(adj, s, share) && IsRatio(adj, s, v, ratio)
    requires Distance(adj, s, v) >= 0
    ensures Sum(|adj|, Weighted(ratio, share, t)) == OtherTargets(share, v)(t)
  {
    if Distance(adj, s, t) <= Distance(adj, s, v) {
      PassedNear(adj, s, t, v, ratio, share);
    } else {
      SharePassedFar(adj, s, t, v, ratio, share);
    }
  }

  /** One plus the row total of a table of shares. */
  ghost function OnePlusOthers(adj: Adjacency, share: (nat, nat) -> real): nat -> real
  {
    (w: nat) => 1.0 + Sum(|adj|, OtherTargets(share, w))
  }

  lemma RowTotals(adj: Adjacency, s: nat, v: nat, ratio: nat -> real, share: (nat, nat) -> real)
    requires IsShareTable(adj, s, share) && IsRatio(adj, s, v, ratio)
    requires Distance(adj, s, v) >= 0
    ensures Sum(|adj|, Times(ratio, OnePlusOthers(adj, share))) == Sum(|adj|, OtherTargets(share, v))
  {
    forall w: nat | w < |adj| && ratio(w) != 0.0
      ensures Sum(|adj|, Slice(share, w)) == OnePlusOthers(adj, share)(w)
    {
      ShareSelf(adj, s, w, share);
      SumChange(|adj|, w, OtherTargets(share, w), Slice(share, w));
    }
    forall t: nat | t < |adj| {
      SharePassed(adj, s, t, v, ratio, share);
    }
    WeightedTotals(|adj|, ratio, share, OnePlusOthers(adj, share), OtherTargets(share, v));
  }

  // ---------- the recursion ----------

  lemma DivideMultiply(a: real, b: real)
    requires b != 0.0
    ensures Mul(a / b, b) == a
  {
  }

  lemma SharesAreShares(adj: Adjacency, s: nat)
    ensures IsShareTable(adj, s, ShareTable(adj, s))
  {
    forall v: nat, t: nat
      ensures Mul(Share(adj, s, t, v), Sigma(adj, s, t)) == |ShortestVia(adj, s, t, v)| as real
    {
      if Shortest(adj, s, t) == {} {
        assert ShortestVia(adj, s, t, v) == {};
      } else {
        DivideMultiply(|ShortestVia(adj, s, t, v)| as real, Sigma(adj, s, t));
      }
    }
  }

  /** Brandes' weight for the edge v -> w. */
  ghost function EdgeRatio(adj: Adjacency, s: nat, v: nat, w: nat): real
  {
    if Tight(adj, s, v, w) && Sigma(adj, s, w) != 0.0 then Sigma(adj, s, v) / Sigma(adj, s, w) else 0.0
  }

  ghost function EdgeRatios(adj: Adjacency, s: nat, v: nat): nat -> real
  {
    (w: nat) => EdgeRatio(adj, s, v, w)
  }

  lemma RatiosAreRatios(adj: Adjacency, s: nat, v: nat)
    ensures IsRatio(adj, s, v, EdgeRatios(adj, s, v))
  {
    forall w: nat
      ensures if Tight(adj, s, v, w) then Mul(EdgeRatios(adj, s, v)(w), Sigma(adj, s, w)) == Sigma(adj, s, v)
              else EdgeRatios(adj, s, v)(w) == 0.0
    {
      assert EdgeRatios(adj, s, v)(w) == EdgeRatio(adj, s, v, w);
      SigmaPositive(adj, s, w);
      if Tight(adj, s, v, w) {
        DivideMultiply(Sigma(adj, s, v), Sigma(adj, s, w));
      }
    }
  }

  /** What the accumulation phase adds to v for the node w, once w's own dependency is known. */
  ghost function Increment(adj: Adjacency, s: nat, v: nat, w: nat): real
  {
    Mul(EdgeRatio(adj, s, v, w), 1.0 + Dependency(adj, s, w))
  }

  ghost function Increments(adj: Adjacency, s: nat, v: nat): nat -> real
  {
    (w: nat) => Increment(adj, s, v, w)
  }

  lemma IncrementFactors(adj: Adjacency, s: nat, v: nat, w: nat)
    ensures Increments(adj, s, v)(w)
         == Times(EdgeRatios(adj, s, v), OnePlusOthers(adj, ShareTable(adj, s)))(w)
  {
    assert Increments(adj, s, v)(w) == Increment(adj, s, v, w);
    assert EdgeRatios(adj, s, v)(w) == EdgeRatio(adj, s, v, w);
    assert OnePlusOthers(adj, ShareTable(adj, s))(w) == 1.0 + Dependency(adj, s, w);
  }

  /** Brandes' recursion: dependencies accumulate backwards over the tight edges. */
  lemma BrandesRecursion(adj: Adjacency, s: nat, v: nat)
    requires Distance(adj, s, v) >= 0
    ensures Dependency(adj, s, v) == Sum(|adj|, Increments(adj, s, v))
  {
    var share, ratios := ShareTable(adj, s), EdgeRatios(adj, s, v);
    SharesAreShares(adj, s);
    RatiosAreRatios(adj, s, v);
    RowTotals(adj, s, v, ratios, share);
    forall w: nat {
      IncrementFactors(adj, s, v, w);
    }
    SumEq(|adj|, Times(ratios, OnePlusOthers(adj, share)), Increments(adj, s, v));
  }
}
