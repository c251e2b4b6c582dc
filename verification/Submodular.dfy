/**
 Diminishing returns of the unlock selection, pkg/analysis/advanced_insights.go: the comments call the gain submodular.
 Here is exactly when completing other issues never makes the gain of an issue grow.
 */
module Submodular {
  import opened Issues
  import opened Counting
  import opened Unlock

  /** The open blockers of u before anything is completed. */
  ghost function OpenBlockers(m: map<string, Issue>, u: string): set<string>
  {
    Blockers(m, u, {})
  }

  /** Whatever open issues are completed on top of others, no gain grows. */
  ghost predicate NeverGrows(m: map<string, Issue>)
  {
    forall c, done, more | IsOpen(m, c) && c !in more && done <= more && (forall x | x in more :: IsOpen(m, x)) ::
      Gain(m, c, more) <= Gain(m, c, done)
  }

  ghost predicate AtMostOne(bs: set<string>)
  {
    forall c, e | c in bs && e in bs :: c == e
  }

  /** c and e wait for each other and for nothing else, and u is the only issue that waits for just these two. */
  ghost predicate OnlyOverPair(m: map<string, Issue>, u: string, c: string, e: string)
  {
    && c != e && OpenBlockers(m, u) == {c, e} && OpenBlockers(m, c) == {e} && OpenBlockers(m, e) == {c}
    && forall v | IsOpen(m, v) && OpenBlockers(m, v) == {c, e} :: v == u
  }

  /** One open blocker at most, or two that wait for each other. */
  ghost predicate Simple(m: map<string, Issue>, u: string)
  {
    AtMostOne(OpenBlockers(m, u)) || exists c, e :: OnlyOverPair(m, u, c, e)
  }

  /** Every open issue is simple, unless it waits for itself and is never freed. */
  ghost predicate AllSimple(m: map<string, Issue>)
  {
    forall u | IsOpen(m, u) && u !in OpenBlockers(m, u) :: Simple(m, u)
  }

  // ---------- simple issues never make a gain grow ----------

  /** What is freed only after more is completed waited for one more issue, which the candidate used to free. */
  lemma Exchanged(m: map<string, Issue>, c: string, done: set<string>, more: set<string>, v: string) returns (e: string)
    requires AllSimple(m) && IsOpen(m, c) && c !in more && done <= more
    requires v in Freed(m, c, more) && v !in Freed(m, c, done)
    ensures OnlyOverPair(m, v, c, e) && e in Freed(m, c, done) && e !in Freed(m, c, more)
  {
    var bs := OpenBlockers(m, v);
    BlockersLeft(m, v, more);
    BlockersLeft(m, v, done);
    assert c in bs - more;
    assert v in bs ==> v in bs - more;
    assert bs - done != {c} && c in bs - done;
    assert bs - done == (bs - done - {c}) + {c};
    assert bs - done - {c} != {};
    assert !AtMostOne(bs) by {
      var x :| x in bs - done - {c};
      assert x in bs && c in bs;
    }
    var p, q :| OnlyOverPair(m, v, p, q);
    e := if p == c then q else p;
    BlockersLeft(m, e, done);
    assert e in bs && e !in bs - more;
    assert e in m;
  }

  lemma SimpleNeverGrows(m: map<string, Issue>, c: string, done: set<string>, more: set<string>)
    requires AllSimple(m) && IsOpen(m, c) && c !in more && done <= more
    ensures Gain(m, c, more) <= Gain(m, c, done)
  {
    var before, after := Freed(m, c, done), Freed(m, c, more);
    if after <= before {
      CardSplit(before, after);
    } else {
      var v :| v in after && v !in before;
      var e := Exchanged(m, c, done, more, v);
      forall w | w in after ensures w in before - {e} || w == v {
        if w !in before {
          var f := Exchanged(m, c, done, more, w);
          assert OpenBlockers(m, c) == {e} == {f};
        }
      }
      CardSplit(before + {v}, after);
      assert |before + {v}| == |before| + 1;
      CardSplit(before - {e} + {v}, after);
    }
  }

  // ---------- any other issue makes some gain grow ----------

  /**
   When none of the issues to be completed is freed by c before, and one more issue is freed by c after, the gain grows.
   */
  lemma Grows(m: map<string, Issue>, u: string, c: string, done: set<string>, more: set<string>)
    requires IsOpen(m, u) && u !in more && u != c && OpenBlockers(m, u) - more == {c}
      && OpenBlockers(m, u) - done != {c}
    requires IsOpen(m, c) && c !in more && done <= more && forall e | e in more :: e !in Freed(m, c, done)
    ensures Gain(m, c, more) > Gain(m, c, done)
  {
    var before, after := Freed(m, c, done), Freed(m, c, more);
    BlockersLeft(m, u, more);
    BlockersLeft(m, u, done);
    MoreDone(m, c, done, more);
    assert before + {u} <= after;
    CardSplit(after, before + {u});
  }

  lemma BlockersOpen(m: map<string, Issue>, u: string)
    ensures forall c | c in OpenBlockers(m, u) :: IsOpen(m, c)
  {
  }

  /** Two blockers of one issue: each waits for the other, apart from what else blocks the issue. */
  lemma Entangled(m: map<string, Issue>, u: string, c: string, e: string)
    requires NeverGrows(m) && IsOpen(m, u) && u !in OpenBlockers(m, u)
    requires c in OpenBlockers(m, u) && e in OpenBlockers(m, u) && c != e
    ensures OpenBlockers(m, e) - (OpenBlockers(m, u) - {c, e}) == {c}
  {
    var bs := OpenBlockers(m, u);
    var done, more := bs - {c, e}, bs - {c};
    BlockersOpen(m, u);
    BlockersLeft(m, e, done);
    assert bs - more == {c} && e in bs - done;
    if OpenBlockers(m, e) - done != {c} {
      assert forall x | x in more :: x == e || x in done;
      Grows(m, u, c, done, more);
    }
  }

  /** A third blocker is one too many. */
  lemma OnlyTwo(m: map<string, Issue>, u: string, c: string, e: string, f: string)
    requires NeverGrows(m) && IsOpen(m, u) && u !in OpenBlockers(m, u)
    requires {c, e, f} <= OpenBlockers(m, u) && c != e
    ensures f == c || f == e
  {
    if f != c && f != e {
      var bs := OpenBlockers(m, u);
      var done, more := bs - {c, e, f}, bs - {c};
      BlockersOpen(m, u);
      Waits(m, u, e, f);
      Waits(m, u, f, e);
      StillWaits(m, c, done, e, f);
      StillWaits(m, c, done, f, e);
      forall x | x in more ensures x !in Freed(m, c, done) {
        assert x == e || x == f || x in done;
      }
      assert bs - more == {c} && e in bs - done;
      Grows(m, u, c, done, more);
    }
  }

  lemma StillWaits(m: map<string, Issue>, c: string, done: set<string>, e: string, f: string)
    requires f in OpenBlockers(m, e) && f !in done && f != c
    ensures e !in Freed(m, c, done)
  {
    BlockersLeft(m, e, done);
    assert f in Blockers(m, e, done);
  }

  lemma Waits(m: map<string, Issue>, u: string, e: string, f: string)
    requires NeverGrows(m) && IsOpen(m, u) && u !in OpenBlockers(m, u)
    requires e in OpenBlockers(m, u) && f in OpenBlockers(m, u) && e != f
    ensures f in OpenBlockers(m, e)
  {
    Entangled(m, u, f, e);
    assert f in OpenBlockers(m, e) - (OpenBlockers(m, u) - {f, e});
  }

  lemma OneForTwo(before: set<string>, after: set<string>, e: string, u: string, v: string)
    requires u in after && v in after && u !in before && v !in before && u != v && before - {e} <= after
    ensures |after| > |before|
  {
    var part := before - {e};
    assert before <= part + {e};
    assert part + {u} + {v} <= after;
    CardSplit(after, part + {u} + {v});
    CardSplit(part + {e}, before);
  }

  /** Two issues over one pair are one too many. */
  lemma NoTwin(m: map<string, Issue>, u: string, v: string, c: string, e: string)
    requires NeverGrows(m) && IsOpen(m, u) && IsOpen(m, v) && c != e
    requires OpenBlockers(m, u) == {c, e} == OpenBlockers(m, v) && OpenBlockers(m, c) == {e}
      && OpenBlockers(m, e) == {c}
    ensures u == v
  {
    BlockersOpen(m, u);
    PairFrees(m, u, c, e);
    PairFrees(m, v, c, e);
    MoreDone(m, c, {}, {e});
    if u != v {
      OneForTwo(Freed(m, c, {}), Freed(m, c, {e}), e, u, v);
    }
  }

  lemma PairFrees(m: map<string, Issue>, u: string, c: string, e: string)
    requires IsOpen(m, u) && c != e && OpenBlockers(m, u) == {c, e} && OpenBlockers(m, c) == {e}
      && OpenBlockers(m, e) == {c}
    ensures u in Freed(m, c, {e}) && u !in Freed(m, c, {})
  {
    BlockersLeft(m, u, {e});
    assert {c, e} - {e} == {c};
    assert e in {c, e} && e !in {c};
  }

  lemma NeverGrowsSimple(m: map<string, Issue>, u: string)
    requires NeverGrows(m) && IsOpen(m, u) && u !in OpenBlockers(m, u)
    ensures Simple(m, u)
  {
    var bs := OpenBlockers(m, u);
    if !AtMostOne(bs) {
      var c :| c in bs && exists e :: e in bs && e != c;
      var e :| e in bs && e != c;
      forall f | f in bs ensures f == c || f == e {
        OnlyTwo(m, u, c, e, f);
      }
      assert bs == {c, e} && bs - {c, e} == {} && bs - {e, c} == {};
      Entangled(m, u, c, e);
      Entangled(m, u, e, c);
      forall v | IsOpen(m, v) && OpenBlockers(m, v) == {c, e} ensures v == u {
        NoTwin(m, u, v, c, e);
      }
      assert OnlyOverPair(m, u, c, e);
    }
  }

  /**
   Gains never grow exactly when every open issue that does not wait for itself has at most one open blocker, or is the
   only one to wait for two issues that wait for each other.
   */
  lemma NeverGrowsIff(m: map<string, Issue>)
    ensures NeverGrows(m) <==> AllSimple(m)
  {
    if NeverGrows(m) {
      forall u | IsOpen(m, u) && u !in OpenBlockers(m, u) ensures Simple(m, u) {
        NeverGrowsSimple(m, u);
      }
    }
    if AllSimple(m) {
      forall c, done, more | IsOpen(m, c) && c !in more && done <= more && (forall x | x in more :: IsOpen(m, x))
        ensures Gain(m, c, more) <= Gain(m, c, done)
      {
        SimpleNeverGrows(m, c, done, more);
      }
    }
  }

  /** Then the marginal gains of the greedy selection only fall. */
  lemma MarginalGainsFall(m: map<string, Issue>, items: seq<Item>, i: nat, j: nat)
    requires GreedyRun(m, items) && AllSimple(m) && i <= j < |items|
    ensures items[j].gain <= items[i].gain
  {
    var c := items[j].id;
    PicksGrow(items, i, j);
    assert BestChoice(m, items[j], Picks(items[..j])) && BestChoice(m, items[i], Picks(items[..i]));
    SimpleNeverGrows(m, c, Picks(items[..i]), Picks(items[..j]));
  }
}
