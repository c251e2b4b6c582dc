/** Finite sums of reals and the few laws about them that the graph proofs use. */
module Sums {

  /** Multiplication under a name of its own, so that equal factors give equal products by congruence. */
  ghost function Mul(x: real, y: real): real
  {
    x * y
  }

  /** Division, named for the same reason. */
  ghost function Div(x: real, y: real): real
    requires y != 0.0
  {
    x / y
  }

  /** The sum of f(0), ..., f(n-1). */
  ghost function Sum(n: nat, f: nat -> real): real
  {
    if n == 0 then 0.0 else Sum(n - 1, f) + f(n - 1)
  }

  lemma SumEq(n: nat, f: nat -> real, g: nat -> real)
    requires forall i: nat | i < n :: f(i) == g(i)
    ensures Sum(n, f) == Sum(n, g)
  {
  }

  lemma SumZero(n: nat, f: nat -> real)
    requires forall i: nat | i < n :: f(i) == 0.0
    ensures Sum(n, f) == 0.0
  {
  }

  lemma SumAdd(n: nat, f: nat -> real, g: nat -> real, h: nat -> real)
    requires forall i: nat | i < n :: h(i) == f(i) + g(i)
    ensures Sum(n, h) == Sum(n, f) + Sum(n, g)
  {
  }

  lemma SumScale(n: nat, c: real, f: nat -> real, h: nat -> real)
    requires forall i: nat | i < n :: h(i) == Mul(c, f(i))
    ensures Sum(n, h) == Mul(c, Sum(n, f))
  {
    if n > 0 {
      SumScale(n - 1, c, f, h);
      assert c * Sum(n, f) == c * Sum(n - 1, f) + c * f(n - 1);
    }
  }

  lemma SumProportional(n: nat, c: real, d: real, f: nat -> real, g: nat -> real)
    requires forall i: nat | i < n :: Mul(c, f(i)) == Mul(d, g(i))
    ensures Mul(c, Sum(n, f)) == Mul(d, Sum(n, g))
  {
    var h := (i: nat) => Mul(c, f(i));
    assert forall i: nat :: h(i) == Mul(c, f(i));
    SumScale(n, c, f, h);
    SumScale(n, d, g, h);
  }

  /** Changing one term changes the sum by the difference of the terms. */
  lemma SumChange(n: nat, j: nat, f: nat -> real, g: nat -> real)
    requires j < n
    requires forall i: nat | i < n && i != j :: f(i) == g(i)
    ensures Sum(n, g) == Sum(n, f) - f(j) + g(j)
  {
    if j == n - 1 {
      SumEq(n - 1, f, g);
    } else {
      SumChange(n - 1, j, f, g);
    }
  }

  /** Row i of a table, summed. */
  ghost function Row(m: nat, f: (nat, nat) -> real): nat -> real
  {
    (i: nat) => Sum(m, (j: nat) => f(i, j))
  }

  /** Column j of a table, summed over its first n rows. */
  ghost function Column(n: nat, f: (nat, nat) -> real): nat -> real
  {
    (j: nat) => Sum(n, (i: nat) => f(i, j))
  }

  /** A double sum may be taken in either order. */
  lemma SumSwap(n: nat, m: nat, f: (nat, nat) -> real)
    ensures Sum(n, Row(m, f)) == Sum(m, Column(n, f))
  {
    if n == 0 {
      SumZero(m, Column(0, f));
    } else {
      SumSwap(n - 1, m, f);
      var last := (j: nat) => f(n - 1, j);
      SumAdd(m, Column(n - 1, f), last, Column(n, f));
      assert Row(m, f)(n - 1) == Sum(m, last);
    }
  }

  /** The terms g(i) * f(i, j), for a fixed column j. */
  ghost function Weighted(g: nat -> real, f: (nat, nat) -> real, j: nat): nat -> real
  {
    (i: nat) => Mul(g(i), f(i, j))
  }

  /** Row i of a table, as a function of the column. */
  ghost function Slice(f: (nat, nat) -> real, i: nat): nat -> real
  {
    (j: nat) => f(i, j)
  }

  ghost function Times(g: nat -> real, h: nat -> real): nat -> real
  {
    (i: nat) => Mul(g(i), h(i))
  }

  ghost function Products(g: nat -> real, f: (nat, nat) -> real): (nat, nat) -> real
  {
    (i: nat, j: nat) => Mul(g(i), f(i, j))
  }

  lemma WeightedRow(n: nat, g: nat -> real, f: (nat, nat) -> real, i: nat)
    ensures Row(n, Products(g, f))(i) == Mul(g(i), Sum(n, Slice(f, i)))
  {
    var products := (j: nat) => Products(g, f)(i, j);
    forall j: nat ensures products(j) == Mul(g(i), Slice(f, i)(j)) {
      assert products(j) == Products(g, f)(i, j);
    }
    SumScale(n, g(i), Slice(f, i), products);
    assert Row(n, Products(g, f))(i) == Sum(n, products);
  }

  lemma WeightedColumn(n: nat, g: nat -> real, f: (nat, nat) -> real, j: nat)
    ensures Column(n, Products(g, f))(j) == Sum(n, Weighted(g, f, j))
  {
    var products := (i: nat) => Products(g, f)(i, j);
    forall i: nat ensures products(i) == Weighted(g, f, j)(i) {
      assert products(i) == Products(g, f)(i, j);
    }
    SumEq(n, products, Weighted(g, f, j));
    assert Column(n, Products(g, f))(j) == Sum(n, products);
  }

  lemma WeightedRows(n: nat, g: nat -> real, f: (nat, nat) -> real, rows: nat -> real)
    requires forall i: nat | i < n :: g(i) == 0.0 || Sum(n, Slice(f, i)) == rows(i)
    ensures Sum(n, Row(n, Products(g, f))) == Sum(n, Times(g, rows))
  {
    forall i: nat | i < n ensures Row(n, Products(g, f))(i) == Times(g, rows)(i) {
      WeightedRow(n, g, f, i);
    }
    SumEq(n, Row(n, Products(g, f)), Times(g, rows));
  }

  /** Weighing the row totals and totalling the weighted columns give the same sum. */
  lemma WeightedTotals(n: nat, g: nat -> real, f: (nat, nat) -> real, rows: nat -> real, columns: nat -> real)
    requires forall i: nat | i < n :: g(i) == 0.0 || Sum(n, Slice(f, i)) == rows(i)
    requires forall j: nat | j < n :: Sum(n, Weighted(g, f, j)) == columns(j)
    ensures Sum(n, Times(g, rows)) == Sum(n, columns)
  {
    WeightedRows(n, g, f, rows);
    SumSwap(n, n, Products(g, f));
    forall j: nat | j < n {
      WeightedColumn(n, g, f, j);
    }
    SumEq(n, Column(n, Products(g, f)), columns);
  }

  /** The sum of f over the elements of a list. */
  ghost function SumOver(xs: seq<nat>, f: nat -> real): real
  {
    if xs == [] then 0.0 else SumOver(xs[..|xs| - 1], f) + f(xs[|xs| - 1])
  }

  lemma SumOverSnoc(xs: seq<nat>, x: nat, f: nat -> real)
    ensures SumOver(xs + [x], f) == SumOver(xs, f) + f(x)
  {
    assert (xs + [x])[..|xs|] == xs;
  }

  lemma SumOverCons(x: nat, xs: seq<nat>, f: nat -> real)
    ensures SumOver([x] + xs, f) == f(x) + SumOver(xs, f)
  {
    if xs == [] {
      assert SumOver([x], f) == SumOver([x][..0], f) + f(x);
    } else {
      var k := |xs| - 1;
      assert ([x] + xs)[..k + 1] == [x] + xs[..k];
      SumOverCons(x, xs[..k], f);
    }
  }

  function Min(a: int, b: int): int
  {
    if a < b then a else b
  }

  ghost predicate Distinct<T>(xs: seq<T>)
  {
    forall i, j | 0 <= i < j < |xs| :: xs[i] != xs[j]
  }

  /** The list and the map are inverse to each other. */
  ghost predicate Index<T>(xs: seq<T>, index: map<T, int>)
  {
    && (forall i | 0 <= i < |xs| :: xs[i] in index && index[xs[i]] == i)
    && forall x | x in index :: 0 <= index[x] < |xs| && xs[index[x]] == x
  }

  lemma EmptyOrMember(xs: seq<nat>) returns (x: nat)
    ensures xs == [] || x in xs
  {
    x := if xs == [] then 0 else xs[0];
  }

  /** f on the members of xs, 0 elsewhere. */
  ghost function Listed(xs: seq<nat>, f: nat -> real): nat -> real
  {
    (x: nat) => if x in xs then f(x) else 0.0
  }

  /** Summing over a duplicate-free list is summing over the range, restricted to its members. */
  lemma SumOverMembers(xs: seq<nat>, n: nat, f: nat -> real)
    requires Distinct(xs)
    requires forall i | 0 <= i < |xs| :: xs[i] < n
    ensures SumOver(xs, f) == Sum(n, Listed(xs, f))
  {
    if xs == [] {
      SumZero(n, Listed(xs, f));
    } else {
      var ys, y := xs[..|xs| - 1], xs[|xs| - 1];
      assert xs == ys + [y];
      SumOverMembers(ys, n, f);
      SumChange(n, y, Listed(ys, f), Listed(xs, f));
    }
  }

  ghost function Indicator(xs: seq<nat>): nat -> real
  {
    (x: nat) => if x in xs then 1.0 else 0.0
  }

  lemma SumIndicator(n: nat, xs: seq<nat>)
    requires Distinct(xs) && forall i | 0 <= i < |xs| :: xs[i] < n
    ensures Sum(n, Indicator(xs)) == |xs| as real
  {
    SumOverMembers(xs, n, (x: nat) => 1.0);
    SumOnes(xs);
    SumEq(n, Indicator(xs), Listed(xs, (x: nat) => 1.0));
  }

  lemma SumOnes(xs: seq<nat>)
    ensures SumOver(xs, (x: nat) => 1.0) == |xs| as real
  {
    if xs != [] {
      SumOnes(xs[..|xs| - 1]);
    }
  }

  lemma IndicatorBound(n: nat, xs: seq<nat>)
    ensures Sum(n, Indicator(xs)) <= n as real
  {
    if n > 0 {
      IndicatorBound(n - 1, xs);
    }
  }

  /** A duplicate-free list of numbers below n has at most n entries. */
  lemma DistinctBound(xs: seq<nat>, n: nat)
    requires Distinct(xs) && forall i | 0 <= i < |xs| :: xs[i] < n
    ensures |xs| <= n
  {
    SumIndicator(n, xs);
    IndicatorBound(n, xs);
  }
}
