/**
 Greedy unlock selection, pkg/analysis/advanced_insights.go: pick, again and again, the open issue whose completion
 frees the most others, and account for what the picks have freed.
 */
module Unlock {
  import opened Issues
  import opened Sums
  import opened Counting
  import opened CriticalPaths
  import Sorting

  // ---------- what completing an issue frees ----------

  /** The open issues that block u once those in done are completed. */
  ghost function Blockers(m: map<string, Issue>, u: string, done: set<string>): set<string>
  {
    set i | 0 <= i < |Deps(m, u)| && IsBlocks(Deps(m, u)[i]) && IsOpen(m, Deps(m, u)[i].value.target)
      && Deps(m, u)[i].value.target !in done :: Deps(m, u)[i].value.target
  }

  /** c is the last open blocker of u, and u is neither c nor completed. */
  ghost predicate Unlocks(m: map<string, Issue>, c: string, done: set<string>, u: string)
  {
    IsOpen(m, u) && u !in done && u != c && Blockers(m, u, done) == {c}
  }

  ghost function Freed(m: map<string, Issue>, c: string, done: set<string>): set<string>
  {
    set u | u in m && Unlocks(m, c, done, u)
  }

  /** A dependency of u that still holds it up: blocking, on an open issue not completed yet. */
  ghost predicate HoldsUp(m: map<string, Issue>, dep: Option<Dependency>, done: set<string>)
  {
    && dep.Some? && dep.value.kind == "blocks" && dep.value.target in m && dep.value.target !in done
    && m[dep.value.target].status != "closed" && m[dep.value.target].status != "tombstone"
  }

  /** What is freed, on the records: something holds it up, and everything that does is on c. */
  lemma FreedMeaning(m: map<string, Issue>, c: string, done: set<string>, u: string)
    ensures u in Freed(m, c, done) <==>
      && u in m && m[u].status != "closed" && m[u].status != "tombstone" && u !in done && u != c
      && (exists dep :: dep in m[u].deps && HoldsUp(m, dep, done))
      && forall dep | dep in m[u].deps && HoldsUp(m, dep, done) :: dep.value.target == c
  {
    if u in m {
      var deps := m[u].deps;
      forall i | 0 <= i < |deps| && HoldsUp(m, deps[i], done) ensures deps[i].value.target in Blockers(m, u, done) {
        assert deps[i] == Deps(m, u)[i] && IsBlocks(deps[i]) && IsOpen(m, deps[i].value.target);
      }
      if Blockers(m, u, done) == {c} {
        assert c in Blockers(m, u, done);
        var i :| 0 <= i < |deps| && IsBlocks(deps[i]) && IsOpen(m, deps[i].value.target)
          && deps[i].value.target !in done && deps[i].value.target == c;
        assert deps[i] in deps && HoldsUp(m, deps[i], done);
      } else if dep :| dep in deps && HoldsUp(m, dep, done) {
        assert dep.value.target in Blockers(m, u, done);
      }
    }
  }

  /** Completing more never loses an unlock, except of an issue that is itself completed. */
  lemma MoreDone(m: map<string, Issue>, c: string, done: set<string>, more: set<string>)
    requires done <= more && IsOpen(m, c) && c !in more
    ensures forall u | u in Freed(m, c, done) :: u in Freed(m, c, more) || u in more
  {
    forall u | u in Freed(m, c, done) && u !in more ensures u in Freed(m, c, more) {
      assert Blockers(m, u, more) == Blockers(m, u, done) - more;
    }
  }

  /** The gain of an issue can grow as others are completed, so it is not submodular. */
  lemma GainCanGrow()
    ensures exists m, c, done :: IsOpen(m, c) && c !in done && |Freed(m, c, {})| < |Freed(m, c, done)|
  {
    var deps := [Some(Dependency("a", "blocks")), Some(Dependency("b", "blocks"))];
    var u := Issue("u", "open", deps);
    var m := map["a" := Issue("a", "open", []), "b" := Issue("b", "open", []), "u" := u];
    assert Deps(m, "u") == deps && Deps(m, "a") == [] && Deps(m, "b") == [];
    assert deps[0].value.target in Blockers(m, "u", {}) && deps[1].value.target in Blockers(m, "u", {});
    assert Freed(m, "b", {}) == {} by {
      forall x | x in m ensures !Unlocks(m, "b", {}, x) {
        assert x == "u" ==> "a" in Blockers(m, "u", {});
        assert x != "u" ==> Blockers(m, x, {}) == {};
      }
    }
    assert Blockers(m, "u", {"a"}) == {"b"};
    assert "u" in Freed(m, "b", {"a"});
    assert IsOpen(m, "b") && |Freed(m, "b", {})| < |Freed(m, "b", {"a"})|;
  }

  // ---------- one marginal gain ----------

  /** The loop over the dependencies of one issue. */
  method IsLastBlocker(m: map<string, Issue>, c: string, done: set<string>, u: string) returns (last: bool)
    requires IsOpen(m, c) && c !in done
    ensures last <==> Blockers(m, u, done) == {c}
  {
    var wouldBeBlocked, hasThisBlocker := false, false;
    var deps := Deps(m, u);
    var i := 0;
    while i < |deps|
      invariant 0 <= i <= |deps| && !wouldBeBlocked
      invariant hasThisBlocker <==> exists j | 0 <= j < i :: IsBlocks(deps[j]) && deps[j].value.target == c
      invariant forall j | 0 <= j < i && IsBlocks(deps[j]) ::
        deps[j].value.target == c || !IsOpen(m, deps[j].value.target) || deps[j].value.target in done
    {
      var dep := deps[i];
      if IsBlocks(dep) {
        var target := dep.value.target;
        if target == c {
          hasThisBlocker := true;
        } else if IsOpen(m, target) && target !in done {
          wouldBeBlocked := true;
          assert target in Blockers(m, u, done);
          break;
        }
      }
      i := i + 1;
    }
    if hasThisBlocker {
      assert c in Blockers(m, u, done);
    }
    return hasThisBlocker && !wouldBeBlocked;
  }

  method ComputeMarginalUnblocks(m: map<string, Issue>, c: string, done: set<string>) returns (unblocks: seq<string>)
    requires IsOpen(m, c) && c !in done
    ensures Distinct(unblocks) && Sorting.Ascending(Sorting.ById(), unblocks)
    ensures (forall u :: u in unblocks <==> u in Freed(m, c, done)) && |unblocks| == |Freed(m, c, done)|
  {
    unblocks := [];
    var keys := m.Keys;
    while keys != {}
      invariant keys <= m.Keys && Distinct(unblocks)
      invariant forall u :: u in unblocks <==> u !in keys && u in Freed(m, c, done)
    {
      var u :| u in keys;
      keys := keys - {u};
      if IsClosedLike(m[u].status) || u in done || u == c {
        continue;
      }
      var last := IsLastBlocker(m, c, done, u);
      if last {
        unblocks := unblocks + [u];
      }
    }
    ListCard(unblocks);
    assert (set u | u in unblocks) == Freed(m, c, done);
    Sorting.SortDistinct(Sorting.ById(), unblocks);
    Sorting.SortKeeps(Sorting.ById(), unblocks);
    Sorting.ByIdTotal();
    Sorting.SortAscends(Sorting.ById(), unblocks);
    unblocks := Sorting.Sort(Sorting.ById(), unblocks);
  }

  // ---------- the greedy choice ----------

  datatype Item = Item(id: string, gain: nat, unblocks: seq<string>)

  ghost function Picks(items: seq<Item>): (done: set<string>)
  {
    if items == [] then {} else Picks(items[..|items| - 1]) + {items[|items| - 1].id}
  }

  lemma {:induction false} PicksMember(items: seq<Item>, id: string)
    ensures id in Picks(items) <==> exists i | 0 <= i < |items| :: items[i].id == id
  {
    if items != [] {
      PicksMember(items[..|items| - 1], id);
    }
  }

  lemma PicksSnoc(items: seq<Item>, item: Item)
    ensures Picks(items + [item]) == Picks(items) + {item.id}
  {
    assert (items + [item])[..|items|] == items;
  }

  ghost function Gain(m: map<string, Issue>, c: string, done: set<string>): nat
  {
    |Freed(m, c, done)|
  }

  /** A candidate that no other beats: largest gain, and among those the smallest ID. */
  ghost predicate BestChoice(m: map<string, Issue>, item: Item, done: set<string>)
  {
    && IsOpen(m, item.id) && item.id !in done && item.gain == Gain(m, item.id, done)
    && forall c | IsOpen(m, c) && c !in done ::
      Gain(m, c, done) < item.gain || (Gain(m, c, done) == item.gain && (c == item.id || Less(item.id, c)))
  }

  ghost predicate Accounted(m: map<string, Issue>, item: Item, done: set<string>)
  {
    && item.gain == |item.unblocks| && Distinct(item.unblocks)
    && forall u :: u in item.unblocks <==> u in Freed(m, item.id, done)
  }

  /** Every pick is the best one after those before it, and lists exactly what it frees. */
  ghost predicate GreedyRun(m: map<string, Issue>, items: seq<Item>)
  {
    forall i | 0 <= i < |items| :: BestChoice(m, items[i], Picks(items[..i]))
      && Accounted(m, items[i], Picks(items[..i]))
  }

  ghost function TotalGain(items: seq<Item>): nat
  {
    if items == [] then 0 else TotalGain(items[..|items| - 1]) + items[|items| - 1].gain
  }

  // ---------- the accounting ----------

  /** After i picks the last open blocker of u has just been completed, and u itself has not been picked. */
  ghost predicate FreedAt(m: map<string, Issue>, items: seq<Item>, u: string, i: nat)
    requires i < |items|
  {
    && IsOpen(m, u) && Blockers(m, u, {}) <= Picks(items[..i + 1]) && !(Blockers(m, u, {}) <= Picks(items[..i]))
    && u !in Picks(items[..i + 1])
  }

  ghost predicate EverFreed(m: map<string, Issue>, items: seq<Item>, u: string)
  {
    exists i | 0 <= i < |items| :: FreedAt(m, items, u, i)
  }

  /** The issues with open blockers, all of them picked, that were not picked before their last one. */
  ghost function AllFreed(m: map<string, Issue>, items: seq<Item>): set<string>
  {
    set u | u in m && EverFreed(m, items, u)
  }

  lemma BlockersLeft(m: map<string, Issue>, u: string, done: set<string>)
    ensures Blockers(m, u, done) == Blockers(m, u, {}) - done
  {
  }

  /** The last open blocker: the candidate completes the set of blockers that was not complete before. */
  lemma LastBlocker(bs: set<string>, before: set<string>, c: string)
    requires c !in before
    ensures bs - before == {c} <==> bs <= before + {c} && !(bs <= before)
  {
    if bs <= before + {c} && !(bs <= before) {
      assert forall x | x in bs - before :: x == c;
      assert c in bs - before;
    }
    if bs - before == {c} {
      assert c in bs - before;
      forall x | x in bs ensures x in before + {c} {
        assert x !in before ==> x in bs - before;
      }
    }
  }

  lemma FreedIs(m: map<string, Issue>, items: seq<Item>, u: string, i: nat)
    requires i < |items| && items[i].id !in Picks(items[..i])
    ensures FreedAt(m, items, u, i) <==> u in Freed(m, items[i].id, Picks(items[..i]))
  {
    var before := Picks(items[..i]);
    assert items[..i + 1] == items[..i] + [items[i]];
    PicksSnoc(items[..i], items[i]);
    BlockersLeft(m, u, before);
    LastBlocker(Blockers(m, u, {}), before, items[i].id);
  }

  /** No issue is freed twice. */
  lemma FreedOnce(m: map<string, Issue>, items: seq<Item>, u: string, i: nat, j: nat)
    requires i < j < |items| && FreedAt(m, items, u, i)
    ensures !FreedAt(m, items, u, j)
  {
    PicksGrow(items, i + 1, j);
  }

  lemma {:induction false} PicksGrow(items: seq<Item>, i: nat, j: nat)
    requires i <= j <= |items|
    ensures Picks(items[..i]) <= Picks(items[..j])
  {
    if i < j {
      PicksGrow(items, i, j - 1);
      assert items[..j] == items[..j - 1] + [items[j - 1]];
      PicksSnoc(items[..j - 1], items[j - 1]);
    }
  }

  /** The lists of two picks have no issue in common. */
  lemma UnblocksDisjoint(m: map<string, Issue>, items: seq<Item>, i: nat, j: nat)
    requires GreedyRun(m, items) && i < j < |items|
    ensures forall u | u in items[i].unblocks :: u !in items[j].unblocks
  {
    forall u | u in items[i].unblocks ensures u !in items[j].unblocks {
      FreedIs(m, items, u, i);
      FreedIs(m, items, u, j);
      FreedOnce(m, items, u, i, j);
    }
  }

  lemma FreedBefore(m: map<string, Issue>, items: seq<Item>, u: string, n: nat, i: nat)
    requires i < n <= |items|
    ensures FreedAt(m, items[..n], u, i) <==> FreedAt(m, items, u, i)
  {
    assert items[..n][..i] == items[..i] && items[..n][..i + 1] == items[..i + 1];
  }

  lemma EverFreedSnoc(m: map<string, Issue>, items: seq<Item>, u: string, n: nat)
    requires n + 1 == |items|
    ensures EverFreed(m, items, u) <==> EverFreed(m, items[..n], u) || FreedAt(m, items, u, n)
    ensures !(EverFreed(m, items[..n], u) && FreedAt(m, items, u, n))
  {
    if i :| 0 <= i < |items| && FreedAt(m, items, u, i) {
      if i < n {
        FreedBefore(m, items, u, n, i);
      }
    }
    if i :| 0 <= i < n && FreedAt(m, items[..n], u, i) {
      FreedBefore(m, items, u, n, i);
      FreedOnce(m, items, u, i, n);
    }
  }

  lemma AllFreedSnoc(m: map<string, Issue>, items: seq<Item>, n: nat, last: set<string>)
    requires n + 1 == |items| && items[n].id !in Picks(items[..n]) && last == Freed(m, items[n].id, Picks(items[..n]))
    ensures AllFreed(m, items) == AllFreed(m, items[..n]) + last && AllFreed(m, items[..n]) * last == {}
  {
    forall u ensures u in AllFreed(m, items) <==> u in AllFreed(m, items[..n]) || u in last {
      EverFreedSnoc(m, items, u, n);
      FreedIs(m, items, u, n);
    }
    forall u | u in AllFreed(m, items[..n]) ensures u !in last {
      EverFreedSnoc(m, items, u, n);
      FreedIs(m, items, u, n);
    }
  }

  /** The total gain counts exactly the issues that the picks have freed, each once. */
  lemma {:induction false} TotalGainCounts(m: map<string, Issue>, items: seq<Item>)
    requires GreedyRun(m, items)
    ensures TotalGain(items) == |AllFreed(m, items)|
  {
    if items == [] {
      assert AllFreed(m, items) == {};
    } else {
      var n := |items| - 1;
      RunPrefix(m, items, n);
      TotalGainCounts(m, items[..n]);
      assert BestChoice(m, items[n], Picks(items[..n]));
      var all, last := AllFreed(m, items), Freed(m, items[n].id, Picks(items[..n]));
      AllFreedSnoc(m, items, n, last);
      CardSplit(all, last);
      assert all - last == AllFreed(m, items[..n]);
    }
  }

  lemma RunPrefix(m: map<string, Issue>, items: seq<Item>, n: nat)
    requires GreedyRun(m, items) && n <= |items|
    ensures GreedyRun(m, items[..n])
  {
    forall i | 0 <= i < n
      ensures BestChoice(m, items[..n][i], Picks(items[..n][..i]))
        && Accounted(m, items[..n][i], Picks(items[..n][..i]))
    {
      assert items[..n][..i] == items[..i];
    }
  }

  // ---------- the whole function ----------

  /** The best of the first n candidates that are not completed yet. */
  ghost predicate BestAmong(m: map<string, Issue>, candidates: seq<string>, n: nat, done: set<string>, item: Item)
  {
    && IsOpen(m, item.id) && item.id !in done && item.gain == Gain(m, item.id, done) && Accounted(m, item, done)
    && forall j | 0 <= j < n && j < |candidates| && candidates[j] !in done ::
      var g := Gain(m, candidates[j], done);
      g < item.gain || (g == item.gain && (candidates[j] == item.id || Less(item.id, candidates[j])))
  }

  /** What the loop knows after n candidates: the best of them, or that all are completed. */
  ghost predicate BestSoFar(m: map<string, Issue>, candidates: seq<string>, n: nat, done: set<string>, id: string,
                            gain: int, unblocks: seq<string>)
  {
    && (id == "" ==> gain == -1 && forall j | 0 <= j < n && j < |candidates| :: candidates[j] in done)
    && (id != "" ==> gain >= 0 && BestAmong(m, candidates, n, done, Item(id, gain, unblocks)))
  }

  /** A completed candidate, or one that does not beat the best, changes nothing. */
  lemma BestSoFarSame(m: map<string, Issue>, candidates: seq<string>, i: nat, done: set<string>, id: string, gain: int,
                      unblocks: seq<string>)
    requires i < |candidates| && BestSoFar(m, candidates, i, done, id, gain, unblocks)
    requires candidates[i] in done || (id != "" &&
      (Gain(m, candidates[i], done) < gain || (Gain(m, candidates[i], done) == gain && !Less(candidates[i], id))))
    ensures BestSoFar(m, candidates, i + 1, done, id, gain, unblocks)
  {
    LessTotal(candidates[i], id);
  }

  /** The loop over the candidates. */
  method BestCandidate(m: map<string, Issue>, candidates: seq<string>, completed: set<string>)
      returns (best: Option<Item>)
    requires Indexed(m) && Nodes(m, candidates)
    ensures best.None? ==> forall c | IsOpen(m, c) :: c in completed
    ensures best.Some? ==> BestChoice(m, best.value, completed) && Accounted(m, best.value, completed)
  {
    var bestId, bestGain, bestUnblocks := "", -1, [];
    for i := 0 to |candidates|
      invariant BestSoFar(m, candidates, i, completed, bestId, bestGain, bestUnblocks)
    {
      var cand := candidates[i];
      assert cand in candidates && IsOpen(m, cand) && cand != "";
      if cand in completed {
        BestSoFarSame(m, candidates, i, completed, bestId, bestGain, bestUnblocks);
        continue;
      }
      var unblocks := ComputeMarginalUnblocks(m, cand, completed);
      var gain := |unblocks|;
      if gain > bestGain || (gain == bestGain && (bestId == "" || Less(cand, bestId))) {
        LessOver(m, candidates, i, completed, bestId, bestGain, bestUnblocks, Item(cand, gain, unblocks));
        bestId, bestGain, bestUnblocks := cand, gain, unblocks;
      } else {
        BestSoFarSame(m, candidates, i, completed, bestId, bestGain, bestUnblocks);
      }
    }
    if bestId == "" {
      assert forall c | IsOpen(m, c) :: c in candidates;
      return None;
    }
    best := Some(Item(bestId, bestGain, bestUnblocks));
    BestOfAll(m, candidates, completed, best.value);
  }

  lemma BestOfAll(m: map<string, Issue>, candidates: seq<string>, done: set<string>, item: Item)
    requires Nodes(m, candidates) && BestAmong(m, candidates, |candidates|, done, item)
    ensures BestChoice(m, item, done)
  {
    forall c | IsOpen(m, c) && c !in done
      ensures Gain(m, c, done) < item.gain || (Gain(m, c, done) == item.gain && (c == item.id || Less(item.id, c)))
    {
      assert c in candidates;
      var j :| 0 <= j < |candidates| && candidates[j] == c;
    }
  }

  /** A new best is best among the candidates met so far. */
  lemma LessOver(m: map<string, Issue>, candidates: seq<string>, i: nat, done: set<string>,
                 bestId: string, bestGain: int, bestUnblocks: seq<string>, item: Item)
    requires i < |candidates| && candidates[i] == item.id && IsOpen(m, item.id) && item.id !in done
      && Accounted(m, item, done)
    requires item.gain == Gain(m, item.id, done)
    requires bestId == "" ==> forall j | 0 <= j < i :: candidates[j] in done
    requires bestId != "" ==> bestGain >= 0 && BestAmong(m, candidates, i, done, Item(bestId, bestGain, bestUnblocks))
    requires bestId == "" || item.gain > bestGain || (item.gain == bestGain && Less(item.id, bestId))
    ensures BestAmong(m, candidates, i + 1, done, item)
  {
    forall j | 0 <= j < i + 1 && candidates[j] !in done
      ensures var g := Gain(m, candidates[j], done);
        g < item.gain || (g == item.gain && (candidates[j] == item.id || Less(item.id, candidates[j])))
    {
      if j < i && item.gain == bestGain && Less(bestId, candidates[j]) {
        LessTransitive(item.id, bestId, candidates[j]);
      }
    }
  }

  datatype TopKSet = TopKSet(count: nat, capped: bool, limited: nat, items: seq<Item>, totalGain: nat,
                            marginalGains: seq<nat>)

  method GenerateTopKSet(m: map<string, Issue>, k: int) returns (r: TopKSet, ghost candidates: seq<string>)
    requires Indexed(m)
    ensures Nodes(m, candidates) && r.limited == |candidates|
    ensures GreedyRun(m, r.items) && r.totalGain == |AllFreed(m, r.items)|
    ensures r.count == |r.items| <= (if k <= 0 then 5 else k)
    ensures |r.items| < (if k <= 0 then 5 else k) ==>
      forall c | IsOpen(m, c) :: exists i | 0 <= i < |r.items| :: r.items[i].id == c
    ensures |r.marginalGains| == |r.items| && forall i | 0 <= i < |r.items| :: r.marginalGains[i] == r.items[i].gain
    ensures r.capped <==> |r.items| == (if k <= 0 then 5 else k) && |candidates| > (if k <= 0 then 5 else k)
  {
    var limit := OrDefault(k, 5);
    var open := OpenNodes(m);
    candidates := open;
    var completed: set<string>, items: seq<Item>, gains: seq<nat>, total: nat := {}, [], [], 0;
    var i := 0;
    while i < limit && |open| > 0
      invariant i == |items| <= limit && completed == Picks(items) && GreedyRun(m, items) && total == TotalGain(items)
      invariant |gains| == |items| && forall j | 0 <= j < |items| :: gains[j] == items[j].gain
    {
      var best := BestCandidate(m, open, completed);
      if best.None? {
        break;
      }
      PicksSnoc(items, best.value);
      RunSnoc(m, items, best.value);
      completed := completed + {best.value.id};
      items := items + [best.value];
      gains := gains + [best.value.gain];
      total := total + best.value.gain;
      i := i + 1;
    }
    TotalGainCounts(m, items);
    forall c {
      PicksMember(items, c);
    }
    if |open| == 0 {
      NoneOpen(m, open);
    }
    r := TopKSet(|items|, |items| >= limit && |open| > limit, |open|, items, total, gains);
  }

  ghost function Earlier(items: seq<Item>, i: nat): set<string>
  {
    set h | 0 <= h < i && h < |items| :: items[h].id
  }

  lemma {:induction false} EarlierIs(items: seq<Item>, i: nat)
    requires i <= |items|
    ensures Picks(items[..i]) == Earlier(items, i)
  {
    forall id ensures id in Picks(items[..i]) <==> id in Earlier(items, i) {
      PicksMember(items[..i], id);
      if id in Earlier(items, i) {
        var h :| 0 <= h < i && items[h].id == id;
        assert items[..i][h].id == id;
      }
    }
  }

  /** A greedy run on the records: open issues, none twice; each lists what it frees, and no other frees more. */
  lemma GreedyMeaning(m: map<string, Issue>, items: seq<Item>, i: nat)
    requires GreedyRun(m, items) && i < |items|
    ensures var id, done := items[i].id, Earlier(items, i);
      && id in m && m[id].status != "closed" && m[id].status != "tombstone" && id !in done
      && items[i].gain == |items[i].unblocks| && Distinct(items[i].unblocks)
      && (forall u :: u in items[i].unblocks <==> u in Freed(m, id, done))
      && forall c | c in m && m[c].status != "closed" && m[c].status != "tombstone" && c !in done && c != id ::
        var gain := |Freed(m, c, done)|;
        gain < items[i].gain || (gain == items[i].gain && Less(id, c))
  {
    EarlierIs(items, i);
    assert BestChoice(m, items[i], Picks(items[..i]));
    forall c | IsOpen(m, c) && c !in Earlier(items, i) && c != items[i].id
      ensures |Freed(m, c, Earlier(items, i))| < items[i].gain
        || (|Freed(m, c, Earlier(items, i))| == items[i].gain && Less(items[i].id, c))
    {
      assert Gain(m, c, Earlier(items, i)) == |Freed(m, c, Earlier(items, i))|;
    }
  }

  lemma NoneOpen(m: map<string, Issue>, ids: seq<string>)
    requires Nodes(m, ids) && ids == []
    ensures forall c :: !IsOpen(m, c)
  {
    forall c ensures !IsOpen(m, c) {
      assert c !in ids;
    }
  }

  lemma RunSnoc(m: map<string, Issue>, items: seq<Item>, item: Item)
    requires GreedyRun(m, items) && BestChoice(m, item, Picks(items)) && Accounted(m, item, Picks(items))
    ensures GreedyRun(m, items + [item]) && TotalGain(items + [item]) == TotalGain(items) + item.gain
  {
    var more := items + [item];
    assert more[..|items|] == items;
    forall i | 0 <= i < |more|
      ensures BestChoice(m, more[i], Picks(more[..i])) && Accounted(m, more[i], Picks(more[..i]))
    {
      assert i < |items| ==> more[..i] == items[..i];
    }
  }
}
