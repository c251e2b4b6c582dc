/** The min-heap of pkg/analysis/advanced_insights.go over a slice, with the sift loops of the heap library. */
module IntHeap {

  function Parent(k: int): int
    requires k > 0
  {
    (k - 1) / 2
  }

  /** Inside h[..n], every node with parent at or after lo is in order with it, except below the hole. */
  ghost predicate Ordered(h: seq<int>, lo: int, n: int, hole: int)
  {
    && n <= |h|
    && (forall k | 0 < k < n && Parent(k) >= lo && Parent(k) != hole :: h[Parent(k)] <= h[k])
    && (forall k | 0 < k < n && hole > 0 && Parent(k) == hole && Parent(hole) >= lo :: h[Parent(hole)] <= h[k])
  }

  ghost predicate IsHeap(h: seq<int>)
  {
    forall k | 0 < k < |h| :: h[Parent(k)] <= h[k]
  }

  /** The root is a minimum. */
  lemma {:induction false} RootIsLeast(h: seq<int>, k: nat)
    requires IsHeap(h) && k < |h|
    ensures h[0] <= h[k]
    decreases k
  {
    if k > 0 {
      RootIsLeast(h, Parent(k));
    }
  }

  lemma RootIsMinimum(h: seq<int>)
    requires IsHeap(h) && h != []
    ensures h[0] in h && forall y | y in h :: h[0] <= y
  {
    forall k | 0 <= k < |h| ensures h[0] <= h[k] {
      RootIsLeast(h, k);
    }
  }

  lemma DropLast(h: seq<int>, n: nat)
    requires |h| == n + 1
    ensures multiset(h[..n]) == multiset(h) - multiset{h[n]}
    ensures Ordered(h, 0, n, -1) ==> IsHeap(h[..n])
  {
    assert h == h[..n] + [h[n]];
  }

  function Swapped(h: seq<int>, i: nat, j: nat): (g: seq<int>)
    requires i < |h| && j < |h|
    ensures multiset(g) == multiset(h) && |g| == |h|
  {
    h[i := h[j]][j := h[i]]
  }

  /** Moving the hole to its smaller child. */
  lemma SiftStep(h: seq<int>, lo: nat, n: nat, i: nat, j: nat)
    requires Ordered(h, lo, n, i) && lo <= i < j < n && Parent(j) == i && h[j] < h[i]
    requires forall k | 0 < k < n && Parent(k) == i :: h[j] <= h[k]
    ensures Ordered(Swapped(h, i, j), lo, n, j) && Swapped(h, i, j)[n..] == h[n..]
  {
    var g := Swapped(h, i, j);
    forall k | 0 < k < n && Parent(k) >= lo && Parent(k) != j ensures g[Parent(k)] <= g[k] {
      if k == i {
        assert h[Parent(i)] <= h[j];
      }
    }
  }

  class Heap {
    var h: seq<int>

    ghost predicate Valid()
      reads this
    {
      IsHeap(h)
    }

    constructor ()
      ensures h == []
    {
      h := [];
    }

    method Append(x: int)
      modifies this
      ensures h == old(h) + [x]
    {
      h := h + [x];
    }

    /** The smaller child of i inside h[..n], or -1 when i is a leaf. */
    method SmallerChild(i: nat, n: nat) returns (j: int)
      requires n <= |h|
      ensures j == -1 || (i < j < n && Parent(j) == i)
      ensures forall k | 0 < k < n && Parent(k) == i :: j > 0 && h[j] <= h[k]
    {
      var j1 := 2 * i + 1;
      if j1 >= n {
        return -1;
      }
      j := j1;
      var j2 := j1 + 1;
      if j2 < n && h[j2] < h[j1] {
        j := j2;
      }
      assert forall k | 0 < k < n && Parent(k) == i :: k == j1 || k == j2;
    }

    method Down(start: nat, n: nat, ghost lo: nat)
      requires n <= |h| && lo <= start && Ordered(h, lo, n, start)
      modifies this
      ensures |h| == old(|h|) && h[n..] == old(h[n..]) && multiset(h) == multiset(old(h))
      ensures Ordered(h, lo, n, -1)
    {
      var i := start;
      while true
        invariant |h| == old(|h|) && h[n..] == old(h[n..]) && multiset(h) == multiset(old(h))
        invariant lo <= i && Ordered(h, lo, n, i)
        decreases n - i
      {
        var j := SmallerChild(i, n);
        if j < 0 {
          break;
        }
        if !(h[j] < h[i]) {
          break;
        }
        SiftStep(h, lo, n, i, j);
        h := Swapped(h, i, j);
        i := j;
      }
    }

    method Init()
      modifies this
      ensures Valid() && multiset(h) == multiset(old(h))
    {
      var n := |h|;
      var i := n / 2;
      while i > 0
        invariant 0 <= i <= n / 2 && |h| == n && multiset(h) == multiset(old(h))
        invariant Ordered(h, i, n, -1)
      {
        i := i - 1;
        Down(i, n, i);
      }
      assert Ordered(h, 0, n, -1);
    }

    method Push(x: int)
      requires Valid()
      modifies this
      ensures Valid() && multiset(h) == multiset(old(h)) + multiset{x}
    {
      Append(x);
      Up(|h| - 1);
    }

    /** All nodes but j are in order with their parents, and the children of j with the parent of j. */
    ghost predicate AllBut(j: int)
      reads this
    {
      && (forall k | 0 < k < |h| && k != j :: h[Parent(k)] <= h[k])
      && (forall k | 0 < k < |h| && j > 0 && Parent(k) == j :: h[Parent(j)] <= h[k])
    }

    method Up(start: nat)
      requires start < |h| && AllBut(start)
      modifies this
      ensures Valid() && multiset(h) == multiset(old(h))
    {
      var j := start;
      while j > 0
        invariant j < |h| && AllBut(j) && multiset(h) == multiset(old(h))
      {
        var i := Parent(j);
        if !(h[j] < h[i]) {
          break;
        }
        h := Swapped(h, i, j);
        j := i;
      }
    }

    method Pop() returns (x: int)
      requires Valid() && h != []
      modifies this
      ensures Valid() && multiset(h) == multiset(old(h)) - multiset{x}
      ensures x in old(h) && forall y | y in old(h) :: x <= y
    {
      RootIsMinimum(h);
      var n := |h| - 1;
      h := Swapped(h, 0, n);
      assert h[n..][0] == old(h)[0];
      Down(0, n, 0);
      x := h[n..][0];
      DropLast(h, n);
      h := h[..n];
    }
  }
}
