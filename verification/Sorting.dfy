/** Sorting, as the library calls the code relies on: an ascending rearrangement, the only one under a total order. */
module Sorting {
  import opened Issues
  import opened Sums

  ghost predicate TotalOrder<T(!new)>(lt: (T, T) -> bool)
  {
    && (forall a, b :: !(lt(a, b) && lt(b, a)))
    && (forall a, b :: a == b || lt(a, b) || lt(b, a))
    && (forall a, b, c | lt(a, b) && lt(b, c) :: lt(a, c))
  }

  /** What a comparison must satisfy to sort by it; values may tie. */
  ghost predicate WeakOrder<T(!new)>(lt: (T, T) -> bool)
  {
    && (forall a, b :: !(lt(a, b) && lt(b, a)))
    && (forall a, b, c | !lt(a, b) && !lt(b, c) :: !lt(a, c))
  }

  lemma TotalIsWeak<T(!new)>(lt: (T, T) -> bool)
    requires TotalOrder(lt)
    ensures WeakOrder(lt)
  {
  }

  ghost predicate Ascending<T(!new)>(lt: (T, T) -> bool, xs: seq<T>)
  {
    forall i, j | 0 <= i < j < |xs| :: !lt(xs[j], xs[i])
  }

  function Insert<T>(lt: (T, T) -> bool, x: T, xs: seq<T>): seq<T>
  {
    if xs == [] || !lt(xs[0], x) then [x] + xs else [xs[0]] + Insert(lt, x, xs[1..])
  }

  function Sort<T>(lt: (T, T) -> bool, xs: seq<T>): seq<T>
  {
    if xs == [] then [] else Insert(lt, xs[0], Sort(lt, xs[1..]))
  }

  lemma {:induction false} InsertKeeps<T(!new)>(lt: (T, T) -> bool, x: T, xs: seq<T>)
    ensures multiset(Insert(lt, x, xs)) == multiset(xs) + multiset{x}
  {
    if xs != [] {
      InsertKeeps(lt, x, xs[1..]);
      assert xs == [xs[0]] + xs[1..];
    }
  }

  lemma {:induction false} InsertAscends<T(!new)>(lt: (T, T) -> bool, x: T, xs: seq<T>)
    requires WeakOrder(lt) && Ascending(lt, xs)
    ensures Ascending(lt, Insert(lt, x, xs))
  {
    if xs == [] || !lt(xs[0], x) {
      forall j | 0 <= j < |xs| ensures !lt(xs[j], x) {
        assert j > 0 ==> !lt(xs[j], xs[0]);
      }
    } else {
      InsertAscends(lt, x, xs[1..]);
      InsertKeeps(lt, x, xs[1..]);
      var rest := Insert(lt, x, xs[1..]);
      forall j | 0 <= j < |rest| ensures !lt(rest[j], xs[0]) {
        assert rest[j] in multiset(rest);
        assert rest[j] == x || rest[j] in xs[1..];
      }
    }
  }

  lemma {:induction false} SortKeeps<T(!new)>(lt: (T, T) -> bool, xs: seq<T>)
    ensures multiset(Sort(lt, xs)) == multiset(xs)
    ensures |Sort(lt, xs)| == |xs|
    ensures forall x :: x in Sort(lt, xs) <==> x in xs
  {
    if xs != [] {
      SortKeeps(lt, xs[1..]);
      InsertKeeps(lt, xs[0], Sort(lt, xs[1..]));
      assert xs == [xs[0]] + xs[1..];
    }
    SameMembers(Sort(lt, xs), xs);
  }

  lemma SameMembers<T(!new)>(xs: seq<T>, ys: seq<T>)
    requires multiset(xs) == multiset(ys)
    ensures |xs| == |ys| && forall x :: x in xs <==> x in ys
  {
    assert |xs| == |multiset(xs)| && |ys| == |multiset(ys)|;
    forall x ensures x in xs <==> x in ys {
      assert x in multiset(xs) <==> x in multiset(ys);
    }
  }

  lemma {:induction false} SortAscends<T(!new)>(lt: (T, T) -> bool, xs: seq<T>)
    requires WeakOrder(lt)
    ensures Ascending(lt, Sort(lt, xs))
  {
    if xs != [] {
      SortAscends(lt, xs[1..]);
      InsertAscends(lt, xs[0], Sort(lt, xs[1..]));
    }
  }

  /** No two different members tie. */
  ghost predicate Separates<T(!new)>(lt: (T, T) -> bool, xs: seq<T>)
  {
    forall a, b | a in xs && b in xs :: a == b || lt(a, b) || lt(b, a)
  }

  /** Without ties there is one ascending arrangement only. */
  lemma {:induction false} AscendingUnique<T(!new)>(lt: (T, T) -> bool, xs: seq<T>, ys: seq<T>)
    requires Separates(lt, xs) && Ascending(lt, xs) && Ascending(lt, ys) && multiset(xs) == multiset(ys)
    ensures xs == ys
    decreases |xs|
  {
    SmallestFirst(lt, xs, ys);
    if xs != [] {
      var us := Tail(lt, xs);
      var vs := Tail(lt, ys);
      AscendingUnique(lt, us, vs);
    }
  }

  lemma Removed<T>(xs: seq<T>, k: nat)
    requires k < |xs|
    ensures multiset(xs[..k] + xs[k + 1..]) == multiset(xs) - multiset{xs[k]}
  {
    assert xs == xs[..k] + ([xs[k]] + xs[k + 1..]);
  }

  lemma Tail<T(!new)>(lt: (T, T) -> bool, xs: seq<T>) returns (rest: seq<T>)
    requires xs != []
    ensures |rest| == |xs| - 1 && xs == [xs[0]] + rest && multiset(rest) == multiset(xs) - multiset{xs[0]}
    ensures Ascending(lt, xs) ==> Ascending(lt, rest)
    ensures Separates(lt, xs) ==> Separates(lt, rest)
  {
    rest := xs[1..];
    assert xs == [xs[0]] + xs[1..];
  }

  lemma SmallestFirst<T(!new)>(lt: (T, T) -> bool, xs: seq<T>, ys: seq<T>)
    requires Separates(lt, xs) && Ascending(lt, xs) && Ascending(lt, ys) && multiset(xs) == multiset(ys)
    ensures |xs| == |ys| && (xs != [] ==> xs[0] == ys[0])
  {
    SameMembers(xs, ys);
    if xs != [] {
      assert xs[0] in ys && ys[0] in xs;
      var i :| 0 <= i < |xs| && xs[i] == ys[0];
      var j :| 0 <= j < |ys| && ys[j] == xs[0];
    }
  }

  /** Sorting forgets the order and nothing else. */
  lemma SortCanonical<T(!new)>(lt: (T, T) -> bool, xs: seq<T>, ys: seq<T>)
    requires TotalOrder(lt)
    ensures Sort(lt, xs) == Sort(lt, ys) <==> multiset(xs) == multiset(ys)
  {
    SortKeeps(lt, xs);
    SortKeeps(lt, ys);
    TotalIsWeak(lt);
    SortAscends(lt, xs);
    SortAscends(lt, ys);
    if multiset(xs) == multiset(ys) {
      AscendingUnique(lt, Sort(lt, xs), Sort(lt, ys));
    }
  }

  lemma {:induction false} DistinctCounts<T(!new)>(xs: seq<T>)
    ensures Distinct(xs) <==> forall x :: multiset(xs)[x] <= 1
  {
    if xs != [] {
      DistinctCounts(xs[1..]);
      assert xs == [xs[0]] + xs[1..];
      assert multiset(xs)[xs[0]] == multiset(xs[1..])[xs[0]] + 1;
      if xs[0] in xs[1..] {
        var k :| 0 <= k < |xs[1..]| && xs[1..][k] == xs[0];
        assert xs[k + 1] == xs[0];
      } else if Distinct(xs[1..]) {
        forall i, j | 0 <= i < j < |xs| ensures xs[i] != xs[j] {
          assert xs[j] == xs[1..][j - 1];
          assert i > 0 ==> xs[i] == xs[1..][i - 1];
        }
      } else {
        var i, j :| 0 <= i < j < |xs[1..]| && xs[1..][i] == xs[1..][j];
        assert xs[i + 1] == xs[j + 1];
        var x :| multiset(xs[1..])[x] > 1;
        assert multiset(xs)[x] > 1;
      }
    }
  }

  lemma SortDistinct<T(!new)>(lt: (T, T) -> bool, xs: seq<T>)
    ensures Distinct(Sort(lt, xs)) <==> Distinct(xs)
  {
    SortKeeps(lt, xs);
    DistinctCounts(xs);
    DistinctCounts(Sort(lt, xs));
  }

  ghost function Mapped<A(!new), B>(f: A -> B, xs: seq<A>): (ys: seq<B>)
    ensures |ys| == |xs| && forall i | 0 <= i < |xs| :: ys[i] == f(xs[i])
  {
    seq(|xs|, i requires 0 <= i < |xs| => f(xs[i]))
  }

  /** Rearranging arguments rearranges values. */
  lemma {:induction false} MappedMultiset<A(!new), B>(f: A -> B, a: seq<A>, b: seq<A>)
    requires multiset(a) == multiset(b)
    ensures multiset(Mapped(f, a)) == multiset(Mapped(f, b))
    decreases |a|
  {
    SameMembers(a, b);
    if a != [] {
      assert a[0] in b;
      var k :| 0 <= k < |b| && b[k] == a[0];
      var x := MappedWithout(f, a, 0);
      var y := MappedWithout(f, b, k);
      MappedMultiset(f, x, y);
    }
  }

  lemma MappedWithout<A(!new), B>(f: A -> B, a: seq<A>, k: nat) returns (rest: seq<A>)
    requires k < |a|
    ensures |rest| == |a| - 1 && multiset(rest) == multiset(a) - multiset{a[k]}
    ensures multiset(Mapped(f, a)) == multiset(Mapped(f, rest)) + multiset{f(a[k])}
  {
    rest := a[..k] + a[k + 1..];
    Removed(a, k);
    var ys := Mapped(f, a);
    Removed(ys, k);
    assert Mapped(f, rest) == ys[..k] + ys[k + 1..];
    assert ys[k] in ys;
  }

  function ByNumber(): (int, int) -> bool
  {
    (a: int, b: int) => a < b
  }

  /** Go's order on strings. */
  function ById(): (string, string) -> bool
  {
    (a: string, b: string) => Less(a, b)
  }

  lemma ByIdTotal()
    ensures TotalOrder(ById()) && WeakOrder(ById())
  {
    forall a: string, b: string ensures !(Less(a, b) && Less(b, a)) && (a == b || Less(a, b) || Less(b, a)) {
      LessTotal(a, b);
      if Less(a, b) && Less(b, a) {
        LessTransitive(a, b, a);
        LessIrreflexive(a);
      }
    }
    forall a: string, b: string, c: string | Less(a, b) && Less(b, c) ensures Less(a, c) {
      LessTransitive(a, b, c);
    }
  }

  /** What ascending means for numbers and for IDs. */
  lemma AscendingMeaning(ns: seq<int>, ids: seq<string>)
    ensures Ascending(ByNumber(), ns) <==> forall i, j | 0 <= i < j < |ns| :: ns[i] <= ns[j]
    ensures Ascending(ById(), ids) <==> forall i, j | 0 <= i < j < |ids| :: ids[i] == ids[j] || Less(ids[i], ids[j])
  {
    forall i, j | 0 <= i < j < |ids| ensures Less(ids[j], ids[i]) <==> !(ids[i] == ids[j] || Less(ids[i], ids[j])) {
      LessTotal(ids[i], ids[j]);
      LessIrreflexive(ids[i]);
      if Less(ids[i], ids[j]) && Less(ids[j], ids[i]) {
        LessTransitive(ids[i], ids[j], ids[i]);
      }
    }
  }
}
