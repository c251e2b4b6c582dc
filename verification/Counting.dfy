/** Cardinalities of finite sets: bijections, classes and products. */
module Counting {
  import opened Sums

  lemma CardImage<A(!new), B(!new)>(xs: set<A>, f: A -> B)
    requires forall x, y | x in xs && y in xs && x != y :: f(x) != f(y)
    ensures |set x | x in xs :: f(x)| == |xs|
  {
    var image := set x | x in xs :: f(x);
    if x :| x in xs {
      CardImage(xs - {x}, f);
      assert image == (set y | y in xs - {x} :: f(y)) + {f(x)};
    } else {
      assert image == {};
    }
  }

  lemma CardBijection<A(!new), B(!new)>(xs: set<A>, ys: set<B>, f: A -> B, g: B -> A)
    requires forall x | x in xs :: f(x) in ys && g(f(x)) == x
    requires forall y | y in ys :: g(y) in xs && f(g(y)) == y
    ensures |xs| == |ys|
  {
    CardImage(xs, f);
    assert ys == set x | x in xs :: f(x);
  }

  /** The members of xs with the given key. */
  ghost function Class<A(!new)>(xs: set<A>, key: A -> int, u: int): set<A>
  {
    set x | x in xs && key(x) == u
  }

  ghost function ClassSizes<A(!new)>(xs: set<A>, key: A -> int): nat -> real
  {
    (u: nat) => |Class(xs, key, u)| as real
  }

  /** A finite set is counted class by class. */
  lemma CardPartition<A(!new)>(xs: set<A>, n: nat, key: A -> int)
    requires forall x | x in xs :: 0 <= key(x) < n
    ensures |xs| as real == Sum(n, ClassSizes(xs, key))
  {
    if n == 0 {
      assert xs == {};
    } else {
      var last := Class(xs, key, n - 1);
      var rest := xs - last;
      CardPartition(rest, n - 1, key);
      forall u: nat | u < n - 1 ensures ClassSizes(rest, key)(u) == ClassSizes(xs, key)(u) {
        assert Class(rest, key, u) == Class(xs, key, u);
      }
      SumEq(n - 1, ClassSizes(rest, key), ClassSizes(xs, key));
      CardSplit(xs, last);
    }
  }

  lemma CardSplit<A>(xs: set<A>, ys: set<A>)
    requires ys <= xs
    ensures |xs| == |xs - ys| + |ys|
  {
    assert xs == (xs - ys) + ys;
  }

  ghost function Pairs<A(!new), B(!new)>(xs: set<A>, ys: set<B>): set<(A, B)>
  {
    set x, y | x in xs && y in ys :: (x, y)
  }

  lemma PairsSplit<A(!new), B(!new)>(xs: set<A>, ys: set<B>, x: A)
    requires x in xs
    ensures |Pairs(xs, ys)| == |Pairs(xs - {x}, ys)| + |ys|
  {
    var pair := (y: B) => (x, y);
    var mine := set y | y in ys :: pair(y);
    CardImage(ys, pair);
    assert Pairs(xs, ys) == Pairs(xs - {x}, ys) + mine;
    assert Pairs(xs - {x}, ys) !! mine;
  }

  lemma CardPairs<A(!new), B(!new)>(xs: set<A>, ys: set<B>)
    ensures |Pairs(xs, ys)| == |xs| * |ys|
  {
    if x :| x in xs {
      CardPairs(xs - {x}, ys);
      PairsSplit(xs, ys, x);
      assert (|xs| - 1) * |ys| + |ys| == |xs| * |ys|;
    } else {
      assert Pairs(xs, ys) == {};
    }
  }

  ghost function Below(n: nat): (xs: set<int>)
    ensures |xs| == n && forall x :: x in xs <==> 0 <= x < n
  {
    if n == 0 then {} else Below(n - 1) + {n - 1}
  }

  lemma {:induction false} ListCard<T(!new)>(xs: seq<T>)
    requires Distinct(xs)
    ensures |set x | x in xs| == |xs|
  {
    if xs != [] {
      ListCard(xs[1..]);
      assert xs == [xs[0]] + xs[1..];
      assert (set x | x in xs) == (set x | x in xs[1..]) + {xs[0]};
    }
  }
}
