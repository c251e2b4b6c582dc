/** Conservation: what one source contributes in total is what its shortest walks have inside. */
module Conservation {
  import opened Sums
  import opened Paths
  import opened Betweenness
  import opened Bfs

  /** The number of walks in ps that visit w. */
  ghost function Visits(ps: set<seq<nat>>): nat -> real
  {
    (w: nat) => |set p | p in ps && w in p| as real
  }

  /** Walks without repetition, all with m nodes, are visited m times each. */
  lemma VisitTotal(n: nat, ps: set<seq<nat>>, m: nat)
    requires forall p | p in ps :: Distinct(p) && |p| == m && forall i | 0 <= i < |p| :: p[i] < n
    ensures Sum(n, Visits(ps)) == Mul(m as real, |ps| as real)
  {
    if p :| p in ps {
      var rest := ps - {p};
      VisitTotal(n, rest, m);
      SumIndicator(n, p);
      forall w: nat {
        VisitsSplit(ps, p, w);
      }
      SumAdd(n, Visits(rest), Indicator(p), Visits(ps));
      assert |ps| == |rest| + 1;
      OneMore(m as real, |rest| as real);
    } else {
      forall w: nat ensures Visits(ps)(w) == 0.0 {
        assert (set p | p in ps && w in p) == {};
      }
      SumZero(n, Visits(ps));
    }
  }

  lemma OneMore(a: real, b: real)
    ensures Mul(a, b + 1.0) == Mul(a, b) + a
  {
  }

  lemma VisitsSplit(ps: set<seq<nat>>, p: seq<nat>, w: nat)
    requires p in ps
    ensures Visits(ps)(w) == Visits(ps - {p})(w) + Indicator(p)(w)
  {
    var all, rest := set q | q in ps && w in q, set q | q in ps - {p} && w in q;
    if w in p {
      assert all == rest + {p};
    } else {
      assert all == rest;
    }
  }

  ghost function ColumnOf(f: (nat, nat) -> real, j: nat): nat -> real
  {
    (i: nat) => f(i, j)
  }

  lemma ShortestShape(adj: Adjacency, s: nat, t: nat)
    requires Distance(adj, s, t) >= 0
    ensures forall p | p in Shortest(adj, s, t) ::
      Distinct(p) && |p| == Distance(adj, s, t) + 1 && forall i | 0 <= i < |p| :: p[i] < |adj|
  {
    forall p | p in Shortest(adj, s, t)
      ensures Distinct(p) && |p| == Distance(adj, s, t) + 1 && forall i | 0 <= i < |p| :: p[i] < |adj|
    {
      ShortestDistinct(adj, s, t, p);
      assert WalkFromTo(adj, p, s, Distance(adj, s, t), t);
    }
  }

  /** All nodes' shares of the walks to t add up to the number of nodes on such a walk. */
  lemma ShareTotal(adj: Adjacency, s: nat, t: nat)
    requires Distance(adj, s, t) >= 0
    ensures Sum(|adj|, ColumnOf(ShareTable(adj, s), t)) == Distance(adj, s, t) as real + 1.0
  {
    var ps, d := Shortest(adj, s, t), Distance(adj, s, t);
    ShortestShape(adj, s, t);
    VisitTotal(|adj|, ps, d + 1);
    SigmaPositive(adj, s, t);
    forall w: nat {
      VisitsAreShares(adj, s, t, w);
    }
    SumScale(|adj|, Sigma(adj, s, t), ColumnOf(ShareTable(adj, s), t), Visits(ps));
    CancelTotal(Sigma(adj, s, t), Sum(|adj|, ColumnOf(ShareTable(adj, s), t)), (d + 1) as real);
  }

  lemma VisitsAreShares(adj: Adjacency, s: nat, t: nat, w: nat)
    ensures Visits(Shortest(adj, s, t))(w) == Mul(Sigma(adj, s, t), ColumnOf(ShareTable(adj, s), t)(w))
  {
    SharesAreShares(adj, s);
    var share := ShareTable(adj, s);
    assert Mul(share(w, t), Sigma(adj, s, t)) == |ShortestVia(adj, s, t, w)| as real;
    assert ShortestVia(adj, s, t, w) == set p | p in Shortest(adj, s, t) && w in p;
  }

  lemma CancelTotal(c: real, x: real, y: real)
    requires c != 0.0 && Mul(c, x) == Mul(y, c)
    ensures x == y
  {
  }

  /** The source lies on every shortest walk. */
  lemma ShareSource(adj: Adjacency, s: nat, t: nat)
    requires Distance(adj, s, t) >= 0
    ensures Share(adj, s, t, s) == 1.0
  {
    forall p | p in Shortest(adj, s, t) ensures s in p {
      assert WalkFromTo(adj, p, s, Distance(adj, s, t), t);
      assert p[0] == s;
    }
    assert ShortestVia(adj, s, t, s) == Shortest(adj, s, t);
    SigmaPositive(adj, s, t);
  }

  /** The number of nodes strictly between the two ends of a shortest walk to t. */
  ghost function Interior(adj: Adjacency, s: nat, t: nat): real
  {
    if t == s || Distance(adj, s, t) < 0 then 0.0 else Distance(adj, s, t) as real - 1.0
  }

  ghost function Interiors(adj: Adjacency, s: nat): nat -> real
  {
    (t: nat) => Interior(adj, s, t)
  }

  ghost function Contributions(adj: Adjacency, s: nat): nat -> real
  {
    (w: nat) => Contribution(adj, s, w)
  }

  /** Shares of the nodes other than the two ends. */
  ghost function InnerTable(adj: Adjacency, s: nat): (nat, nat) -> real
  {
    (w: nat, t: nat) => if w == s || w == t then 0.0 else Share(adj, s, t, w)
  }

  lemma InnerRow(adj: Adjacency, s: nat, w: nat)
    ensures Row(|adj|, InnerTable(adj, s))(w) == Contributions(adj, s)(w)
  {
    var row := (t: nat) => InnerTable(adj, s)(w, t);
    assert Contributions(adj, s)(w) == Contribution(adj, s, w);
    if w == s {
      forall t: nat ensures row(t) == 0.0 {
        assert row(t) == InnerTable(adj, s)(w, t);
      }
      SumZero(|adj|, row);
    } else {
      forall t: nat ensures row(t) == OtherTargets(ShareTable(adj, s), w)(t) {
        assert row(t) == InnerTable(adj, s)(w, t);
        assert ShareTable(adj, s)(w, t) == Share(adj, s, t, w);
      }
      SumEq(|adj|, row, OtherTargets(ShareTable(adj, s), w));
    }
    assert Row(|adj|, InnerTable(adj, s))(w) == Sum(|adj|, row);
  }

  lemma InnerColumn(adj: Adjacency, s: nat, t: nat)
    requires s < |adj| && t < |adj|
    ensures Column(|adj|, InnerTable(adj, s))(t) == Interiors(adj, s)(t)
  {
    var column := (w: nat) => InnerTable(adj, s)(w, t);
    assert Interiors(adj, s)(t) == Interior(adj, s, t);
    forall w: nat ensures column(w) == if w == s || w == t then 0.0 else Share(adj, s, t, w) {
      assert column(w) == InnerTable(adj, s)(w, t);
    }
    if Distance(adj, s, t) < 0 || t == s {
      forall w: nat ensures column(w) == 0.0 {
        if t == s && w != s {
          DistanceSelf(adj, s);
          NoInnerSelf(adj, s, w);
        }
      }
      SumZero(|adj|, column);
    } else {
      ShareTotal(adj, s, t);
      ShareSource(adj, s, t);
      SharesAreShares(adj, s);
      ShareSelf(adj, s, t, ShareTable(adj, s));
      var all := ColumnOf(ShareTable(adj, s), t);
      var noSource := (w: nat) => if w == s then 0.0 else all(w);
      assert all(s) == ShareTable(adj, s)(s, t) && all(t) == ShareTable(adj, s)(t, t);
      SumChange(|adj|, s, all, noSource);
      forall w: nat | w != t ensures noSource(w) == column(w) {
        assert all(w) == ShareTable(adj, s)(w, t);
      }
      SumChange(|adj|, t, noSource, column);
    }
    assert Column(|adj|, InnerTable(adj, s))(t) == Sum(|adj|, column);
  }

  lemma NoInnerSelf(adj: Adjacency, s: nat, w: nat)
    requires s < |adj| && w != s
    ensures Share(adj, s, s, w) == 0.0
  {
    DistanceSelf(adj, s);
    if Distance(adj, s, w) < 0 {
      UnreachedShare(adj, s, s, w);
    } else {
      SharesAreShares(adj, s);
      ShareFar(adj, s, s, w, ShareTable(adj, s));
      assert ShareTable(adj, s)(w, s) == Share(adj, s, s, w);
    }
  }

  /** Conservation: a source's contributions add up to the interior lengths of its shortest walks. */
  lemma ContributionTotal(adj: Adjacency, s: nat)
    requires s < |adj|
    ensures Sum(|adj|, Contributions(adj, s)) == Sum(|adj|, Interiors(adj, s))
  {
    SumSwap(|adj|, |adj|, InnerTable(adj, s));
    forall w: nat {
      InnerRow(adj, s, w);
    }
    SumEq(|adj|, Row(|adj|, InnerTable(adj, s)), Contributions(adj, s));
    forall t: nat | t < |adj| {
      InnerColumn(adj, s, t);
    }
    SumEq(|adj|, Column(|adj|, InnerTable(adj, s)), Interiors(adj, s));
  }

  /** The source's own dependency counts the other nodes it can reach. */
  lemma SourceDependency(adj: Adjacency, s: nat, reached: seq<nat>)
    requires s < |adj| && Distinct(reached) && |reached| > 0
    requires forall i | 0 <= i < |reached| :: reached[i] < |adj|
    requires forall x: nat | x < |adj| :: x in reached <==> Distance(adj, s, x) >= 0
    ensures Dependency(adj, s, s) == |reached| as real - 1.0
  {
    DistanceSelf(adj, s);
    SumIndicator(|adj|, reached);
    var others := OtherTargets(ShareTable(adj, s), s);
    forall t: nat | t < |adj| && t != s ensures others(t) == Indicator(reached)(t) {
      assert others(t) == ShareTable(adj, s)(s, t);
      if t in reached {
        ShareSource(adj, s, t);
      }
    }
    assert s in reached;
    SumChange(|adj|, s, Indicator(reached), others);
  }

  /** Nothing depends on a node that cannot be reached. */
  lemma UnreachedDependency(adj: Adjacency, s: nat, w: nat)
    requires Distance(adj, s, w) < 0
    ensures Dependency(adj, s, w) == 0.0
  {
    var others := OtherTargets(ShareTable(adj, s), w);
    forall t: nat ensures others(t) == 0.0 {
      UnreachedShare(adj, s, t, w);
      assert t != w ==> others(t) == ShareTable(adj, s)(w, t);
    }
    SumZero(|adj|, others);
  }

  lemma UnreachedShare(adj: Adjacency, s: nat, t: nat, w: nat)
    requires Distance(adj, s, w) < 0
    ensures Share(adj, s, t, w) == 0.0
  {
    forall p | p in ShortestVia(adj, s, t, w) ensures false {
      var i :| 0 <= i < |p| && p[i] == w;
      ShortestPosition(adj, s, t, p, i);
    }
    assert ShortestVia(adj, s, t, w) == {};
  }
}
