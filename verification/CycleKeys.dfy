/**
 Comparing cycles by a canonical key, pkg/analysis/diff.go: rotate to the smallest ID, join with arrows. This is
 right for cycles listed without repetition; the cycles of the graph engine repeat their first node at the end.
 */
module CycleKeys {
  import opened Issues
  import opened Sums
  import Sorting

  // ---------- the canonical rotation ----------

  function Rotation(c: seq<string>, i: nat): (r: seq<string>)
    requires i <= |c|
    ensures |r| == |c|
  {
    c[i..] + c[..i]
  }

  /** The index of the smallest entry, the first of equal ones. */
  function MinIndex(c: seq<string>): (i: nat)
    requires c != []
    ensures i < |c|
  {
    if |c| == 1 then 0
    else
      var k := MinIndex(c[..|c| - 1]);
      if Less(c[|c| - 1], c[k]) then |c| - 1 else k
  }

  ghost predicate IsFirstMin(c: seq<string>, i: nat)
  {
    && i < |c| && (forall j | 0 <= j < |c| :: !Less(c[j], c[i]))
    && forall j | 0 <= j < i :: Less(c[i], c[j])
  }

  lemma {:induction false} MinIndexIs(c: seq<string>)
    requires c != []
    ensures IsFirstMin(c, MinIndex(c))
  {
    var n := |c| - 1;
    LessIrreflexive(c[n]);
    if n > 0 {
      var k := MinIndex(c[..n]);
      MinIndexIs(c[..n]);
      forall j | 0 <= j < n ensures !Less(c[j], c[k]) && (j < k ==> Less(c[k], c[j])) {
        assert c[..n][j] == c[j];
      }
      if Less(c[n], c[k]) {
        forall j | 0 <= j < n ensures Less(c[n], c[j]) {
          LessTotal(c[k], c[j]);
          if Less(c[k], c[j]) {
            LessTransitive(c[n], c[k], c[j]);
          }
        }
        forall j | 0 <= j < n ensures !Less(c[j], c[n]) {
          if Less(c[j], c[n]) {
            LessTransitive(c[n], c[j], c[n]);
          }
        }
      }
    }
  }

  function Canonical(c: seq<string>): (r: seq<string>)
    ensures |r| == |c|
  {
    if c == [] then [] else Rotation(c, MinIndex(c))
  }

  function Join(c: seq<string>): string
  {
    if c == [] then "" else if |c| == 1 then c[0] else Join(c[..|c| - 1]) + "->" + c[|c| - 1]
  }

  function Key(c: seq<string>): string
  {
    Join(Canonical(c))
  }

  /** Joined lists come apart at an arrow, and a single entry is itself. */
  lemma {:induction false} JoinSplits(c: seq<string>, d: seq<string>)
    requires c != [] && d != []
    ensures Join(c + d) == Join(c) + "->" + Join(d) && (|d| == 1 ==> Join(d) == d[0])
  {
    var n := |d| - 1;
    assert (c + d)[..|c| + n] == c + d[..n];
    if n == 0 {
      assert c + d[..0] == c;
    } else {
      JoinSplits(c, d[..n]);
    }
  }

  method NormalizeCycle(cycle: seq<string>) returns (result: string)
    ensures result == Key(cycle)
    ensures cycle != [] ==> exists i: nat :: IsFirstMin(cycle, i) && result == Join(cycle[i..] + cycle[..i])
  {
    if cycle != [] {
      MinIndexIs(cycle);
    }
    if |cycle| == 0 {
      return "";
    }
    var minIdx := 0;
    for i := 0 to |cycle|
      invariant minIdx < |cycle| && minIdx == if i == 0 then 0 else MinIndex(cycle[..i])
    {
      assert cycle[..i + 1][..i] == cycle[..i];
      LessIrreflexive(cycle[0]);
      if Less(cycle[i], cycle[minIdx]) {
        minIdx := i;
      }
    }
    assert cycle[..|cycle|] == cycle;
    var rotated := [];
    for i := 0 to |cycle|
      invariant rotated == Rotation(cycle, minIdx)[..i]
    {
      rotated := rotated + [cycle[(minIdx + i) % |cycle|]];
      Wrapped(cycle, minIdx, i);
    }
    result := "";
    for i := 0 to |rotated|
      invariant result == Join(rotated[..i])
    {
      assert rotated[..i + 1][..i] == rotated[..i];
      if i > 0 {
        result := result + "->";
      }
      result := result + rotated[i];
    }
    assert rotated == Rotation(cycle, minIdx) && rotated[..|rotated|] == rotated;
  }

  lemma Wrapped(c: seq<string>, m: nat, i: nat)
    requires m < |c| && i < |c|
    ensures c[(m + i) % |c|] == Rotation(c, m)[i]
    ensures Rotation(c, m)[..i + 1] == Rotation(c, m)[..i] + [Rotation(c, m)[i]]
  {
    ModOnce(m + i, |c|);
    var r := Rotation(c, m);
    assert r[..i + 1] == r[..i] + [r[i]];
  }

  lemma ModOnce(x: nat, n: nat)
    requires 0 < n && x < 2 * n
    ensures x % n == if x < n then x else x - n
  {
    var q, r := x / n, x % n;
    assert x == n * q + r && 0 <= r < n;
    if q >= 2 {
      TwiceOrMore(n, q);
    }
    assert q == 0 || q == 1;
  }

  lemma TwiceOrMore(n: nat, q: nat)
    requires q >= 2
    ensures n * q >= 2 * n
  {
  }

  // ---------- cycles without repetition ----------

  ghost predicate IsRotation(c: seq<string>, d: seq<string>)
  {
    exists k | 0 <= k <= |c| :: d == Rotation(c, k)
  }

  lemma RotateTwice(c: seq<string>, i: nat, j: nat)
    requires i <= |c| && j <= |c|
    ensures Rotation(Rotation(c, i), j) == Rotation(c, if i + j <= |c| then i + j else i + j - |c|)
  {
  }

  /** Rotations of a list without repetition are told apart by their first entry. */
  lemma FirstTells(c: seq<string>, i: nat, j: nat)
    requires Distinct(c) && i < |c| && j < |c| && Rotation(c, i)[0] == Rotation(c, j)[0]
    ensures i == j
  {
  }

  /** The first entry of the canonical form is a smallest one. */
  lemma CanonicalFirst(c: seq<string>)
    requires c != []
    ensures Canonical(c)[0] in c && forall x | x in c :: !Less(x, Canonical(c)[0])
  {
    MinIndexIs(c);
  }

  lemma RotationMembers(c: seq<string>, k: nat)
    requires k <= |c|
    ensures forall x :: x in Rotation(c, k) <==> x in c
  {
    assert c == c[..k] + c[k..];
  }

  lemma CanonicalIff(c: seq<string>, d: seq<string>)
    requires Distinct(c) && Distinct(d)
    ensures Canonical(c) == Canonical(d) <==> IsRotation(c, d)
  {
    if c != [] && d != [] && Canonical(c) == Canonical(d) {
      var i, j := MinIndex(c), MinIndex(d);
      RotateTwice(d, j, |d| - j);
      assert Rotation(d, |d|) == d;
      RotateTwice(c, i, |c| - j);
    }
    if IsRotation(c, d) && c != [] {
      var k :| 0 <= k <= |c| && d == Rotation(c, k);
      SameCanonical(c, d, k);
    }
    if c == [] {
      assert Rotation(c, 0) == [];
    }
  }

  lemma SameCanonical(c: seq<string>, d: seq<string>, k: nat)
    requires Distinct(c) && c != [] && k <= |c| && d == Rotation(c, k)
    ensures Canonical(c) == Canonical(d)
  {
    var i, j := MinIndex(c), MinIndex(d);
    CanonicalFirst(c);
    CanonicalFirst(d);
    RotationMembers(c, k);
    LessTotal(Canonical(c)[0], Canonical(d)[0]);
    RotateTwice(c, k, j);
    var m := if k + j <= |c| then k + j else k + j - |c|;
    assert Rotation(c, |c|) == Rotation(c, 0);
    FirstTells(c, i, if m == |c| then 0 else m);
  }

  // ---------- cycles that repeat their first node at the end ----------

  /** The form in which the graph engine lists cycles. */
  ghost predicate ClosedList(c: seq<string>)
  {
    |c| > 1 && Distinct(c[..|c| - 1]) && c[|c| - 1] == c[0]
  }

  /** Where the repeated entry stands in a rotation. */
  lemma Twins(c: seq<string>, m: nat, a: nat, b: nat)
    requires ClosedList(c) && m < |c| - 1 && a < b < |c|
    ensures var r := Rotation(c, m);
      r[a] == r[b] <==> if m == 0 then a == 0 && b == |c| - 1 else a == |c| - 1 - m && b == |c| - m
  {
    var n := |c| - 1;
    var q := c[..n];
    assert forall i | 0 <= i < n :: q[i] == c[i];
    var r := Rotation(c, m);
    assert r[a] == c[if m + a <= n then m + a else m + a - n - 1];
    assert r[b] == c[if m + b <= n then m + b else m + b - n - 1];
  }

  lemma MinBeforeLast(c: seq<string>)
    requires ClosedList(c)
    ensures MinIndex(c) < |c| - 1
  {
    MinIndexIs(c);
    LessIrreflexive(c[0]);
  }

  /** The canonical form of a closed list shows where its smallest entry stood. */
  lemma SameMinIndex(c: seq<string>, d: seq<string>)
    requires ClosedList(c) && ClosedList(d) && Canonical(c) == Canonical(d)
    ensures MinIndex(c) == MinIndex(d)
  {
    var i, j := MinIndex(c), MinIndex(d);
    MinBeforeLast(c);
    MinBeforeLast(d);
    var n := |c| - 1;
    var a, b := if i == 0 then 0 else n - i, if i == 0 then n else n + 1 - i;
    Twins(c, i, a, b);
    Twins(d, j, a, b);
  }

  lemma RotateBack(c: seq<string>, i: nat)
    requires i <= |c|
    ensures Rotation(Rotation(c, i), |c| - i) == c
  {
    RotateTwice(c, i, |c| - i);
    assert Rotation(c, |c|) == c;
  }

  /** For closed lists the key is no better than the list itself: another starting node gives another key. */
  lemma ClosedIff(c: seq<string>, d: seq<string>)
    requires ClosedList(c) && ClosedList(d)
    ensures Canonical(c) == Canonical(d) <==> c == d
  {
    if Canonical(c) == Canonical(d) {
      SameMinIndex(c, d);
      RotateBack(c, MinIndex(c));
      RotateBack(d, MinIndex(d));
    }
  }

  // ---------- joined keys ----------

  ghost predicate ArrowAt(s: string, i: nat)
  {
    i + 1 < |s| && s[i] == '-' && s[i + 1] == '>'
  }

  ghost predicate HasArrow(s: string)
  {
    exists i: nat :: ArrowAt(s, i)
  }

  /** No ID contains an arrow; the characters of one are allowed. */
  ghost predicate Arrowless(c: seq<string>)
  {
    forall i | 0 <= i < |c| :: !HasArrow(c[i])
  }

  /** The last arrow of a joined list is the one that was put in last. */
  lemma {:induction false} JoinInjective(c: seq<string>, d: seq<string>)
    requires Arrowless(c) && Arrowless(d) && c != [] && d != [] && Join(c) == Join(d)
    ensures c == d
  {
    if |c| == 1 && |d| == 1 {
      assert c == [c[0]] && d == [d[0]];
    } else if |c| == 1 {
      JoinHasArrow(d);
    } else if |d| == 1 {
      JoinHasArrow(c);
    } else {
      var m, n := |c| - 1, |d| - 1;
      LastArrow(Join(c[..m]), Join(d[..n]), c[m], d[n]);
      JoinInjective(c[..m], d[..n]);
      assert c == c[..m] + [c[m]] && d == d[..n] + [d[n]];
    }
  }

  lemma JoinHasArrow(c: seq<string>)
    requires |c| > 1
    ensures HasArrow(Join(c))
  {
    assert ArrowAt(Join(c), |Join(c[..|c| - 1])|);
  }

  lemma LastArrow(a: string, b: string, x: string, y: string)
    requires a + "->" + x == b + "->" + y && !HasArrow(x) && !HasArrow(y)
    ensures a == b && x == y
  {
    NotBehind(a, b, x, y);
    NotBehind(b, a, y, x);
    var w := a + "->" + x;
    assert w[..|a|] == a && w[..|b|] == b && w[|a| + 2..] == x && w[|b| + 2..] == y;
  }

  lemma NotBehind(a: string, b: string, x: string, y: string)
    requires a + "->" + x == b + "->" + y && !HasArrow(x)
    ensures |b| <= |a|
  {
    var w := a + "->" + x;
    assert w[|a|] == '-' && w[|a| + 1] == '>' && w[|b|] == '-' && w[|b| + 1] == '>';
    if |b| >= |a| + 2 {
      assert x[|b| - |a| - 2] == w[|b|] && x[|b| - |a| - 1] == w[|b| + 1];
      assert ArrowAt(x, |b| - |a| - 2);
    }
  }

  // ---------- comparing two lists of cycles ----------

  ghost predicate HasKey(cycles: seq<seq<string>>, key: string)
  {
    exists i | 0 <= i < |cycles| :: Key(cycles[i]) == key
  }

  /** Of the listed cycles with its key, the last one. */
  ghost predicate IsLast(cycles: seq<seq<string>>, c: seq<string>)
  {
    exists i :: LastAt(cycles, i, c)
  }

  ghost predicate LastAt(cycles: seq<seq<string>>, i: nat, c: seq<string>)
  {
    i < |cycles| && cycles[i] == c && forall j | i < j < |cycles| :: Key(cycles[j]) != Key(c)
  }

  /** A cycle replaces an earlier one with its key. */
  ghost predicate KeyedBy(m: map<string, seq<string>>, cycles: seq<seq<string>>)
  {
    && (forall key :: key in m <==> HasKey(cycles, key))
    && forall key | key in m :: IsLast(cycles, m[key]) && Key(m[key]) == key
  }

  method KeyMap(cycles: seq<seq<string>>) returns (m: map<string, seq<string>>)
    ensures KeyedBy(m, cycles)
  {
    m := map[];
    for i := 0 to |cycles|
      invariant KeyedBy(m, cycles[..i])
    {
      var key := NormalizeCycle(cycles[i]);
      HasKeyNext(cycles, i);
      forall k | k in m && k != key ensures IsLast(cycles[..i + 1], m[k]) {
        LastStays(cycles, i, m[k]);
      }
      m := m[key := cycles[i]];
    }
    assert cycles[..|cycles|] == cycles;
  }

  lemma HasKeyNext(cycles: seq<seq<string>>, i: nat)
    requires i < |cycles|
    ensures forall key :: HasKey(cycles[..i + 1], key) <==> HasKey(cycles[..i], key) || key == Key(cycles[i])
    ensures IsLast(cycles[..i + 1], cycles[i])
  {
    var more := cycles[..i + 1];
    assert more == cycles[..i] + [cycles[i]];
    forall key ensures HasKey(more, key) <==> HasKey(cycles[..i], key) || key == Key(cycles[i]) {
      if HasKey(cycles[..i], key) {
        var j :| 0 <= j < i && Key(cycles[..i][j]) == key;
        assert Key(more[j]) == key;
      }
      if key == Key(cycles[i]) {
        assert Key(more[i]) == key;
      }
    }
    assert LastAt(more, i, cycles[i]);
  }

  lemma LastStays(cycles: seq<seq<string>>, i: nat, c: seq<string>)
    requires i < |cycles| && IsLast(cycles[..i], c) && Key(c) != Key(cycles[i])
    ensures IsLast(cycles[..i + 1], c)
  {
    var k: nat :| LastAt(cycles[..i], k, c);
    LastPushed(cycles[..i], cycles[i], k, c);
    assert cycles[..i + 1] == cycles[..i] + [cycles[i]];
  }

  lemma LastPushed(cycles: seq<seq<string>>, d: seq<string>, k: nat, c: seq<string>)
    requires LastAt(cycles, k, c) && Key(c) != Key(d)
    ensures LastAt(cycles + [d], k, c)
  {
  }

  /** Of the first list, one cycle for every key the second list lacks: the last one listed with that key. */
  ghost predicate Missing(r: seq<seq<string>>, a: seq<seq<string>>, b: seq<seq<string>>)
  {
    && (forall c | c in r :: IsLast(a, c))
    && (forall key :: HasKey(r, key) <==> HasKey(a, key) && !HasKey(b, key))
    && forall i, j | 0 <= i < j < |r| :: Key(r[i]) != Key(r[j])
  }

  function ByKey(): (seq<string>, seq<string>) -> bool
  {
    (a: seq<string>, b: seq<string>) => Less(Key(a), Key(b))
  }

  lemma ByKeyOrders()
    ensures Sorting.WeakOrder(ByKey())
  {
    Sorting.ByIdTotal();
    forall a: string, b: string, c: string | !Less(a, b) && !Less(b, c) ensures !Less(a, c) {
      assert Sorting.ById()(a, b) == Less(a, b) && Sorting.ById()(b, c) == Less(b, c)
        && Sorting.ById()(a, c) == Less(a, c);
    }
    forall a: string, b: string ensures !(Less(a, b) && Less(b, a)) {
      assert Sorting.ById()(a, b) == Less(a, b) && Sorting.ById()(b, a) == Less(b, a);
    }
  }

  /** The cycles picked once the given keys are done. */
  ghost predicate Picked(r: seq<seq<string>>, a: map<string, seq<string>>, b: map<string, seq<string>>,
                         done: set<string>)
  {
    && (forall c | c in r :: Key(c) in a && c == a[Key(c)])
    && (forall key :: HasKey(r, key) <==> key in a && key in done && key !in b)
    && forall i, j | 0 <= i < j < |r| :: Key(r[i]) != Key(r[j])
  }

  lemma HasKeySnoc(r: seq<seq<string>>, c: seq<string>)
    ensures forall key :: HasKey(r + [c], key) <==> HasKey(r, key) || key == Key(c)
  {
    HasKeyNext(r + [c], |r|);
    assert (r + [c])[..|r|] == r && (r + [c])[..|r| + 1] == r + [c];
  }

  lemma PickOne(r: seq<seq<string>>, a: map<string, seq<string>>, b: map<string, seq<string>>, done: set<string>,
                key: string, c: seq<string>)
    requires Picked(r, a, b, done) && key in a && key !in done && key !in b && c == a[key] && Key(c) == key
    ensures Picked(r + [c], a, b, done + {key})
  {
    HasKeySnoc(r, c);
    PickedOwn(r, a, c);
    PickedOnce(r, c, key);
  }

  lemma PickedOwn(r: seq<seq<string>>, a: map<string, seq<string>>, c: seq<string>)
    requires (forall x | x in r :: Key(x) in a && x == a[Key(x)]) && Key(c) in a && c == a[Key(c)]
    ensures forall x | x in r + [c] :: Key(x) in a && x == a[Key(x)]
  {
    forall x | x in r + [c] ensures Key(x) in a && x == a[Key(x)] {
      assert x in r || x == c;
    }
  }

  lemma PickedOnce(r: seq<seq<string>>, c: seq<string>, key: string)
    requires (forall i, j | 0 <= i < j < |r| :: Key(r[i]) != Key(r[j])) && !HasKey(r, key) && Key(c) == key
    ensures forall i, j | 0 <= i < j < |r + [c]| :: Key((r + [c])[i]) != Key((r + [c])[j])
  {
    forall i | 0 <= i < |r| ensures Key(r[i]) != key {
      assert HasKey(r, Key(r[i]));
    }
  }

  lemma PickNone(r: seq<seq<string>>, a: map<string, seq<string>>, b: map<string, seq<string>>, done: set<string>,
                 key: string)
    requires Picked(r, a, b, done) && key in b
    ensures Picked(r, a, b, done + {key})
  {
  }

  method PickMissing(a: map<string, seq<string>>, b: map<string, seq<string>>) returns (r: seq<seq<string>>)
    requires forall key | key in a :: Key(a[key]) == key
    ensures Picked(r, a, b, a.Keys)
  {
    r := [];
    var keys := a.Keys;
    ghost var done: set<string> := {};
    while keys != {}
      invariant keys !! done && keys + done == a.Keys && Picked(r, a, b, done)
    {
      var key :| key in keys;
      keys := keys - {key};
      if key !in b {
        PickOne(r, a, b, done, key, a[key]);
        r := r + [a[key]];
      } else {
        PickNone(r, a, b, done, key);
      }
      done := done + {key};
    }
    assert done == a.Keys;
  }

  method MissingFrom(a: map<string, seq<string>>, b: map<string, seq<string>>,
                     ghost as_: seq<seq<string>>, ghost bs: seq<seq<string>>) returns (r: seq<seq<string>>)
    requires KeyedBy(a, as_) && KeyedBy(b, bs)
    ensures Missing(r, as_, bs) && Sorting.Ascending(ByKey(), r)
    ensures forall i, j | 0 <= i < j < |r| :: Less(Key(r[i]), Key(r[j]))
  {
    r := PickMissing(a, b);
    AllPicked(r, a, b, a.Keys, as_, bs);
    SortMissing(r, as_, bs);
    ByKeyOrders();
    Sorting.SortAscends(ByKey(), r);
    r := Sorting.Sort(ByKey(), r);
    KeysRise(r, as_, bs);
  }

  lemma KeysRise(r: seq<seq<string>>, a: seq<seq<string>>, b: seq<seq<string>>)
    requires Missing(r, a, b) && Sorting.Ascending(ByKey(), r)
    ensures forall i, j | 0 <= i < j < |r| :: Less(Key(r[i]), Key(r[j]))
  {
    forall i, j | 0 <= i < j < |r| ensures Less(Key(r[i]), Key(r[j])) {
      assert !ByKey()(r[j], r[i]);
      LessTotal(Key(r[i]), Key(r[j]));
    }
  }

  lemma AllPicked(r: seq<seq<string>>, a: map<string, seq<string>>, b: map<string, seq<string>>, done: set<string>,
                  as_: seq<seq<string>>, bs: seq<seq<string>>)
    requires KeyedBy(a, as_) && KeyedBy(b, bs) && Picked(r, a, b, done) && done == a.Keys
    ensures Missing(r, as_, bs)
  {
  }

  lemma SortMissing(r: seq<seq<string>>, a: seq<seq<string>>, b: seq<seq<string>>)
    requires Missing(r, a, b)
    ensures Missing(Sorting.Sort(ByKey(), r), a, b)
  {
    var s := Sorting.Sort(ByKey(), r);
    Sorting.SortKeeps(ByKey(), r);
    Sorting.SortDistinct(ByKey(), r);
    forall key ensures HasKey(s, key) <==> HasKey(r, key) {
      if i :| 0 <= i < |r| && Key(r[i]) == key {
        assert r[i] in s;
      }
      if i :| 0 <= i < |s| && Key(s[i]) == key {
        assert s[i] in r;
      }
    }
    forall i, j | 0 <= i < j < |s| ensures Key(s[i]) != Key(s[j]) {
      assert s[i] in r && s[j] in r;
      var x :| 0 <= x < |r| && r[x] == s[i];
      var y :| 0 <= y < |r| && r[y] == s[j];
    }
  }

  method CompareCycles(from: seq<seq<string>>, to: seq<seq<string>>)
      returns (new_: seq<seq<string>>, resolved: seq<seq<string>>)
    ensures Missing(new_, to, from) && Sorting.Ascending(ByKey(), new_)
    ensures Missing(resolved, from, to) && Sorting.Ascending(ByKey(), resolved)
    ensures forall i, j | 0 <= i < j < |new_| :: Less(Key(new_[i]), Key(new_[j]))
    ensures forall i, j | 0 <= i < j < |resolved| :: Less(Key(resolved[i]), Key(resolved[j]))
  {
    var fromSet := KeyMap(from);
    var toSet := KeyMap(to);
    new_ := MissingFrom(toSet, fromSet, to, from);
    resolved := MissingFrom(fromSet, toSet, from, to);
  }

  /** Of one key only one cycle is the last. */
  lemma LastUnique(a: seq<seq<string>>, c: seq<string>, d: seq<string>)
    requires IsLast(a, c) && IsLast(a, d) && Key(c) == Key(d)
    ensures c == d
  {
    var i: nat :| LastAt(a, i, c);
    var j: nat :| LastAt(a, j, d);
  }

  lemma MissingIn(r: seq<seq<string>>, s: seq<seq<string>>, a: seq<seq<string>>, b: seq<seq<string>>, c: seq<string>)
    requires Missing(r, a, b) && Missing(s, a, b) && c in r
    ensures c in s
  {
    var i :| 0 <= i < |r| && r[i] == c;
    assert HasKey(r, Key(c)) && HasKey(s, Key(c));
    var j :| 0 <= j < |s| && Key(s[j]) == Key(c);
    assert s[j] in s;
    LastUnique(a, c, s[j]);
  }

  /** What is missing, in the order of the keys, is one list only. */
  lemma MissingUnique(r: seq<seq<string>>, s: seq<seq<string>>, a: seq<seq<string>>, b: seq<seq<string>>)
    requires Missing(r, a, b) && Missing(s, a, b) && Sorting.Ascending(ByKey(), r) && Sorting.Ascending(ByKey(), s)
    ensures r == s
  {
    forall c ensures c in r <==> c in s {
      if c in r {
        MissingIn(r, s, a, b, c);
      }
      if c in s {
        MissingIn(s, r, a, b, c);
      }
    }
    Sorting.DistinctCounts(r);
    Sorting.DistinctCounts(s);
    assert multiset(r) == multiset(s) by {
      forall c ensures multiset(r)[c] == multiset(s)[c] {
        assert c in multiset(r) <==> c in r;
        assert c in multiset(s) <==> c in s;
      }
    }
    KeysSeparate(r, a, b);
    Sorting.AscendingUnique(ByKey(), r, s);
  }

  lemma KeysSeparate(r: seq<seq<string>>, a: seq<seq<string>>, b: seq<seq<string>>)
    requires Missing(r, a, b)
    ensures Sorting.Separates(ByKey(), r)
  {
    forall c, d | c in r && d in r ensures c == d || ByKey()(c, d) || ByKey()(d, c) {
      LessTotal(Key(c), Key(d));
      if Key(c) == Key(d) {
        LastUnique(a, c, d);
      }
    }
  }

  /** The last cycle listed with a key is the one reported for it. */
  lemma LastReported(r: seq<seq<string>>, a: seq<seq<string>>, b: seq<seq<string>>, c: seq<string>)
    requires Missing(r, a, b) && IsLast(a, c) && HasKey(r, Key(c))
    ensures c in r
  {
    var x :| 0 <= x < |r| && Key(r[x]) == Key(c);
    assert r[x] in r;
    LastUnique(a, c, r[x]);
  }

  /** What is reported: the cycles of a with a key no cycle of b has and no later one of a. */
  lemma MissingMeaning(r: seq<seq<string>>, a: seq<seq<string>>, b: seq<seq<string>>, c: seq<string>)
    requires Missing(r, a, b)
    ensures c in r <==>
      && (forall j | 0 <= j < |b| :: Key(b[j]) != Key(c))
      && exists i :: 0 <= i < |a| && a[i] == c && forall j | i < j < |a| :: Key(a[j]) != Key(c)
  {
    if c in r {
      var x :| 0 <= x < |r| && r[x] == c;
      assert HasKey(r, Key(c)) && IsLast(a, c);
      var i: nat :| LastAt(a, i, c);
    }
    if i :| 0 <= i < |a| && a[i] == c && forall j | i < j < |a| :: Key(a[j]) != Key(c) {
      assert HasKey(a, Key(c)) && LastAt(a, i, c);
      if HasKey(r, Key(c)) {
        LastReported(r, a, b, c);
      }
    }
  }

  /** Comparing in the other direction exchanges new and resolved cycles, as lists. */
  lemma SwapCycles(from: seq<seq<string>>, to: seq<seq<string>>, new_: seq<seq<string>>, resolved: seq<seq<string>>,
                   newBack: seq<seq<string>>, resolvedBack: seq<seq<string>>)
    requires Missing(new_, to, from) && Sorting.Ascending(ByKey(), new_)
    requires Missing(resolved, from, to) && Sorting.Ascending(ByKey(), resolved)
    requires Missing(newBack, from, to) && Sorting.Ascending(ByKey(), newBack)
    requires Missing(resolvedBack, to, from) && Sorting.Ascending(ByKey(), resolvedBack)
    ensures newBack == resolved && resolvedBack == new_
  {
    MissingUnique(newBack, resolved, from, to);
    MissingUnique(resolvedBack, new_, to, from);
  }

  lemma KeyIff(c: seq<string>, d: seq<string>)
    requires Arrowless(c) && Arrowless(d) && c != [] && d != []
    ensures Key(c) == Key(d) <==> Canonical(c) == Canonical(d)
  {
    if Key(c) == Key(d) {
      RotationMembers(c, MinIndex(c));
      RotationMembers(d, MinIndex(d));
      forall i | 0 <= i < |Canonical(c)| ensures !HasArrow(Canonical(c)[i]) {
        assert Canonical(c)[i] in c;
      }
      forall i | 0 <= i < |Canonical(d)| ensures !HasArrow(Canonical(d)[i]) {
        assert Canonical(d)[i] in d;
      }
      JoinInjective(Canonical(c), Canonical(d));
    }
  }

  lemma KeyOfTwo(p: string, q: string)
    requires !Less(q, p)
    ensures Key([p, q]) == p + "->" + q
  {
    var c := [p, q];
    assert c[..1] == [p];
    assert MinIndex([p]) == 0 && MinIndex(c) == 0;
    assert Canonical(c) == c[0..] + c[..0] == c;
    assert Join([p]) == p;
  }

  lemma {:induction false} LessLonger(s: string, t: string)
    requires t != ""
    ensures Less(s, s + t)
  {
    if s != "" {
      LessLonger(s[1..], t);
      assert (s + t)[1..] == s[1..] + t;
    }
  }

  lemma RotationOfTwo(p: string, q: string, r: string, s: string)
    requires IsRotation([p, q], [r, s])
    ensures (r == p && s == q) || (r == q && s == p)
  {
    var c := [p, q];
    var k :| 0 <= k <= 2 && [r, s] == Rotation(c, k);
    if k == 1 {
      assert Rotation(c, 1) == [q, p];
    } else {
      assert Rotation(c, k) == c;
    }
  }

  lemma NotRotated(p: string, w: string, u: string, q: string)
    requires u != p && Less(u, p) && !Less(w, p)
    ensures !IsRotation([p, w], [u, q])
  {
    if IsRotation([p, w], [u, q]) {
      RotationOfTwo(p, w, u, q);
    }
  }

  lemma Regrouped(u: string, arrow: string, v: string, w: string)
    ensures (u + arrow + v) + arrow + w == u + arrow + (v + arrow + w) && u + arrow + v == u + (arrow + v)
  {
  }

  /** An arrow inside an ID gives different cycles one key. */
  lemma ArrowConfuses(u: string, v: string, w: string)
    requires !Less(w, u + "->" + v) && !Less(v + "->" + w, u)
    ensures Key([u + "->" + v, w]) == Key([u, v + "->" + w])
    ensures !IsRotation([u + "->" + v, w], [u, v + "->" + w])
  {
    var arrow := "->";
    Regrouped(u, arrow, v, w);
    KeyOfTwo(u + arrow + v, w);
    KeyOfTwo(u, v + arrow + w);
    LessLonger(u, arrow + v);
    assert |u + arrow + v| > |u|;
    NotRotated(u + arrow + v, w, u, v + arrow + w);
  }

  /** Listed without repetition, a cycle is known when some rotation of it is. */
  lemma KnownDistinct(c: seq<string>, cycles: seq<seq<string>>)
    requires Distinct(c) && Arrowless(c) && c != []
    requires forall d | d in cycles :: Distinct(d) && Arrowless(d) && d != []
    ensures HasKey(cycles, Key(c)) <==> exists i | 0 <= i < |cycles| :: IsRotation(c, cycles[i])
  {
    forall i | 0 <= i < |cycles| ensures Key(cycles[i]) == Key(c) <==> IsRotation(c, cycles[i]) {
      assert cycles[i] in cycles;
      KeyIff(c, cycles[i]);
      CanonicalIff(c, cycles[i]);
    }
  }

  /**
   Listed as the engine lists it, a cycle is known only when the very same list is: from another start it counts as new.
   */
  lemma KnownClosed(c: seq<string>, cycles: seq<seq<string>>)
    requires ClosedList(c) && Arrowless(c) && forall d | d in cycles :: ClosedList(d) && Arrowless(d)
    ensures HasKey(cycles, Key(c)) <==> c in cycles
  {
    forall i | 0 <= i < |cycles| ensures Key(cycles[i]) == Key(c) <==> cycles[i] == c {
      assert cycles[i] in cycles;
      KeyIff(c, cycles[i]);
      ClosedIff(c, cycles[i]);
    }
  }

  /** Two nodes that depend on each other: found from a before and from b after, one cycle is both new and resolved. */
  lemma SameCycleNewAndResolved(new_: seq<seq<string>>, resolved: seq<seq<string>>)
    requires var c, d := ["a", "b", "a"], ["b", "a", "b"];
      Missing(new_, [d], [c]) && Missing(resolved, [c], [d])
    requires Sorting.Ascending(ByKey(), new_) && Sorting.Ascending(ByKey(), resolved)
    ensures var c, d := ["a", "b", "a"], ["b", "a", "b"];
      ClosedList(c) && ClosedList(d) && IsRotation(c[..2], d[..2]) && new_ == [d] && resolved == [c]
  {
    var c, d := ["a", "b", "a"], ["b", "a", "b"];
    assert c[..2] == ["a", "b"] && d[..2] == ["b", "a"];
    assert Rotation(["a", "b"], 1) == ["b", "a"];
    KnownClosed(c, [d]);
    KnownClosed(d, [c]);
    OnlyMissing(new_, d, c);
    OnlyMissing(resolved, c, d);
  }

  lemma OnlyMissing(r: seq<seq<string>>, c: seq<string>, d: seq<string>)
    requires Missing(r, [c], [d]) && Sorting.Ascending(ByKey(), r) && !HasKey([d], Key(c))
    ensures r == [c]
  {
    assert LastAt([c], 0, c);
    assert Missing([c], [c], [d]) by {
      forall key ensures HasKey([c], key) <==> HasKey([c], key) && !HasKey([d], key) {
        assert HasKey([c], key) ==> key == Key(c);
      }
    }
    MissingUnique(r, [c], [c], [d]);
  }
}
