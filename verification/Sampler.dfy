/**
 The pivot sampler of pkg/analysis/betweenness_approx.go: a Fisher-Yates shuffle stopped after k
 swaps. The random generator is a parameter: the list of the indices it chose.
 */
module Sampler {
  import opened Sums

  ghost function Identity(n: nat): seq<nat>
  {
    seq(n, i => i)
  }

  ghost function Swap(s: seq<nat>, i: nat, j: nat): seq<nat>
    requires i < |s| && j < |s|
  {
    s[i := s[j]][j := s[i]]
  }

  /** The generator draws j from [i, n) at step i. */
  ghost predicate Choices(n: nat, k: nat, js: seq<nat>)
  {
    |js| == k && forall i | 0 <= i < k :: i <= js[i] < n
  }

  /** The list after i swaps. */
  ghost function Shuffled(n: nat, js: seq<nat>, i: nat): (s: seq<nat>)
    requires i <= |js| && i <= n && forall m | 0 <= m < |js| :: m <= js[m] < n
    ensures |s| == n
  {
    if i == 0 then Identity(n) else Swap(Shuffled(n, js, i - 1), i - 1, js[i - 1])
  }

  /** sampleIndices, with the generator's choices as a parameter. */
  method SampleIndices(n: nat, k: nat, js: seq<nat>) returns (out: seq<nat>)
    requires k < n ==> Choices(n, k, js)
    ensures k >= n ==> |out| == n && forall i | 0 <= i < n :: out[i] == i
    ensures k < n ==> out == Shuffled(n, js, k)[..k]
  {
    var shuffled := new nat[n];
    for i := 0 to n
      invariant forall m | 0 <= m < i :: shuffled[m] == m
    {
      shuffled[i] := i;
    }
    assert shuffled[..] == Identity(n);
    if k >= n {
      return shuffled[..];
    }
    for i := 0 to k
      invariant shuffled[..] == Shuffled(n, js, i)
    {
      var j := js[i];
      shuffled[i], shuffled[j] := shuffled[j], shuffled[i];
    }
    out := shuffled[..k];
  }

  /** Each step exchanges the entry at its place with the one that was chosen; nothing else moves. */
  lemma ShuffleStep(n: nat, js: seq<nat>, i: nat, m: nat)
    requires i < |js| && i < n && m < n && forall l | 0 <= l < |js| :: l <= js[l] < n
    ensures Shuffled(n, js, 0)[m] == m
    ensures var before, after := Shuffled(n, js, i), Shuffled(n, js, i + 1);
      after[m] == before[if m == i then js[i] else if m == js[i] then i else m]
  {
  }

  // ---------- every sample comes from exactly one list of choices ----------

  /** All numbers below n, each once. */
  ghost predicate Permutation(n: nat, s: seq<nat>)
  {
    |s| == n && Distinct(s) && forall v: nat :: v in s <==> v < n
  }

  lemma SwapPermutation(n: nat, s: seq<nat>, i: nat, j: nat)
    requires Permutation(n, s) && i < n && j < n
    ensures Permutation(n, Swap(s, i, j))
  {
    var t := Swap(s, i, j);
    forall v: nat ensures v in t <==> v < n {
      if v < n {
        assert v in s;
        var m :| 0 <= m < n && s[m] == v;
        assert t[if m == i then j else if m == j then i else m] == v;
      }
      if v in t {
        var m :| 0 <= m < n && t[m] == v;
        assert s[if m == i then j else if m == j then i else m] == v;
        assert v in s;
      }
    }
  }

  lemma {:induction false} ShuffledPermutation(n: nat, js: seq<nat>, i: nat)
    requires i <= |js| && i <= n && forall m | 0 <= m < |js| :: m <= js[m] < n
    ensures Permutation(n, Shuffled(n, js, i))
  {
    if i == 0 {
      forall v: nat | v < n ensures v in Identity(n) {
        assert Identity(n)[v] == v;
      }
    } else {
      ShuffledPermutation(n, js, i - 1);
      SwapPermutation(n, Shuffled(n, js, i - 1), i - 1, js[i - 1]);
    }
  }

  /** Later swaps leave the positions already drawn alone. */
  lemma {:induction false} DrawnStays(n: nat, js: seq<nat>, i: nat, k: nat)
    requires i <= k <= |js| && k <= n && forall m | 0 <= m < |js| :: m <= js[m] < n
    ensures Shuffled(n, js, k)[..i] == Shuffled(n, js, i)[..i]
  {
    if i < k {
      DrawnStays(n, js, i, k - 1);
      assert Swap(Shuffled(n, js, k - 1), k - 1, js[k - 1])[..i] == Shuffled(n, js, k - 1)[..i];
    }
  }

  /** Only the first i choices matter for the first i swaps. */
  lemma {:induction false} PrefixDecides(n: nat, js: seq<nat>, ks: seq<nat>, i: nat)
    requires i <= |js| && i <= |ks| && i <= n && js[..i] == ks[..i]
    requires forall m | 0 <= m < |js| :: m <= js[m] < n
    requires forall m | 0 <= m < |ks| :: m <= ks[m] < n
    ensures Shuffled(n, js, i) == Shuffled(n, ks, i)
  {
    if i > 0 {
      assert js[..i - 1] == js[..i][..i - 1] == ks[..i][..i - 1] == ks[..i - 1];
      PrefixDecides(n, js, ks, i - 1);
      assert js[i - 1] == js[..i][i - 1] == ks[..i][i - 1] == ks[i - 1];
    }
  }

  /** A sample is k distinct indices below n. */
  lemma SampleDistinct(n: nat, k: nat, js: seq<nat>)
    requires k < n && Choices(n, k, js)
    ensures Distinct(Shuffled(n, js, k)[..k]) && forall i | 0 <= i < k :: Shuffled(n, js, k)[i] < n
  {
    ShuffledPermutation(n, js, k);
    var s := Shuffled(n, js, k);
    forall i | 0 <= i < k ensures s[i] < n {
      assert s[i] in s;
    }
  }

  /** With equal choices so far and one sample, the next choice is the same. */
  lemma SameChoice(n: nat, k: nat, js: seq<nat>, ks: seq<nat>, i: nat)
    requires k < n && Choices(n, k, js) && Choices(n, k, ks) && i < k && js[..i] == ks[..i]
    requires Shuffled(n, js, k)[..k] == Shuffled(n, ks, k)[..k]
    ensures js[i] == ks[i]
  {
    PrefixDecides(n, js, ks, i);
    DrawnAt(n, k, js, i);
    DrawnAt(n, k, ks, i);
    SameDraw(n, js, i, js[i], ks[i]);
  }

  /** Injectivity: two lists of choices with the same sample are the same list. */
  lemma {:induction false} SampleInjective(n: nat, k: nat, js: seq<nat>, ks: seq<nat>, i: nat)
    requires k < n && Choices(n, k, js) && Choices(n, k, ks) && i <= k
    requires Shuffled(n, js, k)[..k] == Shuffled(n, ks, k)[..k]
    ensures js[..i] == ks[..i]
  {
    if i > 0 {
      SampleInjective(n, k, js, ks, i - 1);
      SameChoice(n, k, js, ks, i - 1);
      assert js[..i] == js[..i - 1] + [js[i - 1]] && ks[..i] == ks[..i - 1] + [ks[i - 1]];
    }
  }

  /** A shuffled list has no number twice. */
  lemma SameDraw(n: nat, js: seq<nat>, i: nat, a: nat, b: nat)
    requires i <= |js| && i <= n && (forall m | 0 <= m < |js| :: m <= js[m] < n) && a < n && b < n
    requires Shuffled(n, js, i)[a] == Shuffled(n, js, i)[b]
    ensures a == b
  {
    ShuffledPermutation(n, js, i);
  }

  /** The i-th entry of the sample is what the i-th choice pointed at. */
  lemma DrawnAt(n: nat, k: nat, js: seq<nat>, i: nat)
    requires k < n && Choices(n, k, js) && i < k
    ensures Shuffled(n, js, k)[..k][i] == Shuffled(n, js, i)[js[i]]
  {
    DrawnStays(n, js, i + 1, k);
    assert Shuffled(n, js, k)[..i + 1][i] == Shuffled(n, js, i + 1)[..i + 1][i];
  }

  /** The next wanted index has not been drawn, so some choice points at it. */
  lemma NextChoice(n: nat, k: nat, target: seq<nat>, front: seq<nat>) returns (j: nat)
    requires 0 < k < n && |target| == k && Distinct(target) && target[k - 1] < n
    requires Choices(n, k - 1, front) && Shuffled(n, front, k - 1)[..k - 1] == target[..k - 1]
    ensures k - 1 <= j < n && Shuffled(n, front, k - 1)[j] == target[k - 1]
  {
    var s := Shuffled(n, front, k - 1);
    ShuffledPermutation(n, front, k - 1);
    assert target[k - 1] in s;
    assert forall m | 0 <= m < k - 1 :: s[m] == s[..k - 1][m] == target[..k - 1][m];
    j :| 0 <= j < n && s[j] == target[k - 1];
  }

  /** Surjectivity: every list of k distinct indices is the sample of some choices. */
  lemma {:induction false} SampleSurjective(n: nat, k: nat, target: seq<nat>) returns (js: seq<nat>)
    requires k < n && |target| == k && Distinct(target) && forall i | 0 <= i < k :: target[i] < n
    ensures Choices(n, k, js) && Shuffled(n, js, k)[..k] == target
  {
    if k == 0 {
      js := [];
    } else {
      var front := SampleSurjective(n, k - 1, target[..k - 1]);
      var j := NextChoice(n, k, target, front);
      js := front + [j];
      OneMoreChoice(n, k, front, j);
      assert target == target[..k - 1] + [target[k - 1]];
    }
  }

  lemma OneMoreChoice(n: nat, k: nat, front: seq<nat>, j: nat)
    requires 0 < k < n && Choices(n, k - 1, front) && k - 1 <= j < n
    ensures Shuffled(n, front + [j], k)[..k] == Shuffled(n, front, k - 1)[..k - 1] + [Shuffled(n, front, k - 1)[j]]
  {
    var js := front + [j];
    assert js[..k - 1] == front[..k - 1];
    PrefixDecides(n, js, front, k - 1);
  }

  /** The choices and the ordered samples are in one-to-one correspondence. */
  lemma SampleBijection(n: nat, k: nat, target: seq<nat>)
    requires k < n && |target| == k && Distinct(target) && forall i | 0 <= i < k :: target[i] < n
    ensures exists js :: Choices(n, k, js) && Shuffled(n, js, k)[..k] == target
    ensures forall js, ks | Choices(n, k, js) && Choices(n, k, ks)
      && Shuffled(n, js, k)[..k] == target && Shuffled(n, ks, k)[..k] == target :: js == ks
  {
    var witness_ := SampleSurjective(n, k, target);
    forall js, ks | Choices(n, k, js) && Choices(n, k, ks)
      && Shuffled(n, js, k)[..k] == target && Shuffled(n, ks, k)[..k] == target ensures js == ks
    {
      SampleInjective(n, k, js, ks, k);
      assert js[..k] == js && ks[..k] == ks;
    }
  }

  // ---------- the sample is unbiased ----------

  /** The sum of f over the list positions lo, ..., lo + m - 1. */
  ghost function Along(s: seq<nat>, lo: nat, f: nat -> real): nat -> real
  {
    (m: nat) => if lo + m < |s| then f(s[lo + m]) else 0.0
  }

  /** The total of the first k entries. */
  ghost function Total(s: seq<nat>, k: nat, f: nat -> real): real
  {
    Sum(k, Along(s, 0, f))
  }

  ghost predicate Prefix(n: nat, js: seq<nat>)
  {
    |js| <= n && forall m | 0 <= m < |js| :: m <= js[m] < n
  }

  /**
   The value g gives to a list of choices, averaged over every way to complete js to k choices;
   each remaining step has n - i equally likely ones.
   */
  ghost function Mean(n: nat, k: nat, js: seq<nat>, g: seq<nat> -> real): real
    requires Prefix(n, js) && |js| <= k < n
    decreases k - |js|, 1
  {
    if |js| == k then g(js)
    else Div(Sum(n - |js|, Continuations(n, k, js, g)), (n - |js|) as real)
  }

  ghost function Continuations(n: nat, k: nat, js: seq<nat>, g: seq<nat> -> real): nat -> real
    requires Prefix(n, js) && |js| < k < n
    decreases k - |js|, 0
  {
    (d: nat) => if d < n - |js| then Mean(n, k, js + [|js| + d], g) else 0.0
  }

  /** The total of f over the sample that a list of choices draws. */
  ghost function SampleTotal(n: nat, k: nat, f: nat -> real): seq<nat> -> real
  {
    (js: seq<nat>) => if k < n && Choices(n, k, js) then Total(Shuffled(n, js, k)[..k], k, f) else 0.0
  }

  /** The mean is made of the values at full lists of choices. */
  lemma {:induction false} MeanEq(n: nat, k: nat, js: seq<nat>, g: seq<nat> -> real, h: seq<nat> -> real)
    requires Prefix(n, js) && |js| <= k < n && forall ks | Choices(n, k, ks) :: g(ks) == h(ks)
    ensures Mean(n, k, js, g) == Mean(n, k, js, h)
    decreases k - |js|
  {
    if |js| < k {
      forall d: nat | d < n - |js| ensures Continuations(n, k, js, g)(d) == Continuations(n, k, js, h)(d) {
        MeanEq(n, k, js + [|js| + d], g, h);
      }
      SumEq(n - |js|, Continuations(n, k, js, g), Continuations(n, k, js, h));
    }
  }

  ghost function Scaled(g: seq<nat> -> real, c: real): seq<nat> -> real
  {
    (js: seq<nat>) => Mul(g(js), c)
  }

  /** A factor comes out of the mean. */
  lemma {:induction false} MeanScale(n: nat, k: nat, js: seq<nat>, g: seq<nat> -> real, c: real)
    requires Prefix(n, js) && |js| <= k < n
    ensures Mean(n, k, js, Scaled(g, c)) == Mul(Mean(n, k, js, g), c)
    decreases k - |js|
  {
    if |js| < k {
      var m := n - |js|;
      var e, x := Continuations(n, k, js, Scaled(g, c)), Continuations(n, k, js, g);
      forall d: nat | d < m ensures e(d) == Mul(x(d), c) {
        MeanScale(n, k, js + [|js| + d], g, c);
      }
      SumScale(m, e, x, c);
      DivScale(Sum(m, x), c, m as real);
    }
  }

  lemma SumScale(m: nat, e: nat -> real, x: nat -> real, c: real)
    requires forall d: nat | d < m :: e(d) == Mul(x(d), c)
    ensures Sum(m, e) == Mul(Sum(m, x), c)
  {
    if m > 0 {
      SumScale(m - 1, e, x, c);
      AddFactor(Sum(m - 1, x), x(m - 1), c);
    }
  }

  lemma AddFactor(x: real, y: real, c: real)
    ensures Mul(x + y, c) == Mul(x, c) + Mul(y, c)
  {
  }

  lemma DivScale(x: real, c: real, m: real)
    requires m != 0.0
    ensures Div(Mul(x, c), m) == Mul(Div(x, m), c)
  {
    assert x * c / m == x / m * c;
  }

  /** The part not yet drawn. */
  ghost function Rest(s: seq<nat>, i: nat, f: nat -> real): real
    requires i <= |s|
  {
    Sum(|s| - i, Along(s, i, f))
  }

  lemma TotalStep(s: seq<nat>, i: nat, f: nat -> real)
    requires i < |s|
    ensures Total(s, i + 1, f) == Total(s, i, f) + f(s[i])
  {
  }

  lemma RestStep(s: seq<nat>, i: nat, f: nat -> real)
    requires i < |s|
    ensures Rest(s, i, f) == f(s[i]) + Rest(s, i + 1, f)
  {
    SumShift(|s| - i - 1, Along(s, i, f), Along(s, i + 1, f));
  }

  /** Taking the first term out of a sum. */
  lemma SumShift(n: nat, f: nat -> real, g: nat -> real)
    requires forall m: nat | m < n :: g(m) == f(m + 1)
    ensures Sum(n + 1, f) == f(0) + Sum(n, g)
  {
    if n > 0 {
      SumShift(n - 1, f, g);
    }
  }

  /** A swap at or behind i changes nothing in front of i ... */
  lemma SwapTotal(s: seq<nat>, i: nat, j: nat, f: nat -> real)
    requires i <= j < |s|
    ensures Total(Swap(s, i, j), i, f) == Total(s, i, f)
  {
    SumEq(i, Along(s, 0, f), Along(Swap(s, i, j), 0, f));
  }

  /** ... and only permutes what is at i or behind. */
  lemma SwapRest(s: seq<nat>, i: nat, j: nat, f: nat -> real)
    requires i <= j < |s|
    ensures Rest(Swap(s, i, j), i, f) == Rest(s, i, f)
  {
    var n, t := |s| - i, Swap(s, i, j);
    var half := s[i := s[j]];
    SumChange(n, 0, Along(s, i, f), Along(half, i, f));
    SumChange(n, j - i, Along(half, i, f), Along(t, i, f));
  }

  /** One branch: the drawn value joins the total ... */
  lemma BranchTotal(s: seq<nat>, i: nat, d: nat, f: nat -> real)
    requires i + d < |s|
    ensures Total(Swap(s, i, i + d), i + 1, f) == Total(s, i, f) + Along(s, i, f)(d)
  {
    SwapTotal(s, i, i + d, f);
    TotalStep(Swap(s, i, i + d), i, f);
  }

  /** ... and the others stay in the rest. */
  lemma BranchRest(s: seq<nat>, i: nat, d: nat, f: nat -> real)
    requires i + d < |s|
    ensures Rest(Swap(s, i, i + d), i + 1, f) == Rest(s, i, f) - Along(s, i, f)(d)
  {
    SwapRest(s, i, i + d, f);
    RestStep(Swap(s, i, i + d), i, f);
  }

  /** One choice more is one swap more. */
  lemma NextShuffle(n: nat, js: seq<nat>, j: nat)
    requires Prefix(n, js) && |js| <= j < n
    ensures Prefix(n, js + [j]) && Shuffled(n, js + [j], |js| + 1) == Swap(Shuffled(n, js, |js|), |js|, j)
  {
    PrefixDecides(n, js + [j], js, |js|);
  }

  lemma MeanAtEnd(n: nat, k: nat, js: seq<nat>, f: nat -> real)
    requires Prefix(n, js) && |js| == k < n
    ensures Mean(n, k, js, SampleTotal(n, k, f)) == Total(Shuffled(n, js, k), k, f)
  {
    var s := Shuffled(n, js, k);
    SumEq(k, Along(s[..k], 0, f), Along(s, 0, f));
  }

  /** e is a fair outcome after i draws: every remaining draw takes an equal part of the rest. */
  ghost predicate Fair(n: nat, k: nat, i: nat, s: seq<nat>, f: nat -> real, e: real)
    requires i <= k < n && |s| == n
  {
    Mul((n - i) as real, e - Total(s, i, f)) == Mul((k - i) as real, Rest(s, i, f))
  }

  /** The same after one draw more, in terms of the list before it. */
  ghost predicate FairNext(n: nat, k: nat, i: nat, s: seq<nat>, f: nat -> real, e: real, x: real)
    requires i < k < n && |s| == n
  {
    Mul((n - i - 1) as real, e - Total(s, i, f) - x) == Mul((k - i - 1) as real, Rest(s, i, f) - x)
  }

  lemma FairBranch(n: nat, k: nat, i: nat, s: seq<nat>, f: nat -> real, d: nat, e: real)
    requires i < k < n && |s| == n && d < n - i && Fair(n, k, i + 1, Swap(s, i, i + d), f, e)
    ensures FairNext(n, k, i, s, f, e, Along(s, i, f)(d))
  {
    BranchTotal(s, i, d, f);
    BranchRest(s, i, d, f);
  }

  lemma FairMean(n: nat, k: nat, i: nat, s: seq<nat>, f: nat -> real, c: nat -> real, mean: real)
    requires i < k < n && |s| == n && mean == Div(Sum(n - i, c), (n - i) as real)
    requires forall d: nat | d < n - i :: FairNext(n, k, i, s, f, c(d), Along(s, i, f)(d))
    ensures Fair(n, k, i, s, f, mean)
  {
    var x, p, t := Along(s, i, f), Total(s, i, f), Rest(s, i, f);
    forall d: nat | d < n - i ensures Mul((n - i - 1) as real, c(d) - p - x(d)) == Mul((k - i - 1) as real, t - x(d)) {
      assert FairNext(n, k, i, s, f, c(d), x(d));
    }
    MeanOfBranches(n - i, k - i, p, t, c, x, mean);
  }

  lemma ContinuationAt(n: nat, k: nat, js: seq<nat>, g: seq<nat> -> real, d: nat)
    requires Prefix(n, js) && |js| < k < n && d < n - |js|
    ensures Continuations(n, k, js, g)(d) == if d < n - |js| then Mean(n, k, js + [|js| + d], g) else 0.0
  {
  }

  lemma FairContinuation(n: nat, k: nat, js: seq<nat>, s: seq<nat>, f: nat -> real, g: seq<nat> -> real, d: nat,
                         e: real, i: nat)
    requires Prefix(n, js) && |js| < k < n && |s| == n && d < n - |js| && Prefix(n, js + [|js| + d])
    requires e == Mean(n, k, js + [|js| + d], g) && i == |js| + 1 && Fair(n, k, i, Swap(s, |js|, |js| + d), f, e)
    ensures FairNext(n, k, |js|, s, f, Continuations(n, k, js, g)(d), Along(s, |js|, f)(d))
  {
    ContinuationAt(n, k, js, g, d);
    FairBranch(n, k, |js|, s, f, d, e);
  }

  lemma FairAtEnd(n: nat, k: nat, s: seq<nat>, f: nat -> real)
    requires k < n && |s| == n
    ensures Fair(n, k, k, s, f, Total(s, k, f))
  {
    NoShare((n - k) as real, Rest(s, k, f));
  }

  lemma NoShare(m: real, t: real)
    ensures Mul(m, 0.0) == Mul(0.0, t)
  {
  }

  lemma FairMeanOf(n: nat, k: nat, js: seq<nat>, g: seq<nat> -> real, s: seq<nat>, f: nat -> real)
    requires Prefix(n, js) && |js| < k < n && |s| == n
    requires forall d: nat | d < n - |js| ::
      FairNext(n, k, |js|, s, f, Continuations(n, k, js, g)(d), Along(s, |js|, f)(d))
    ensures Fair(n, k, |js|, s, f, Mean(n, k, js, g))
  {
    FairMean(n, k, |js|, s, f, Continuations(n, k, js, g), Mean(n, k, js, g));
  }

  lemma {:induction false} BranchesFair(n: nat, k: nat, js: seq<nat>, s: seq<nat>, f: nat -> real, g: seq<nat> -> real)
    requires Prefix(n, js) && |js| < k < n && s == Shuffled(n, js, |js|) && g == SampleTotal(n, k, f)
    ensures forall d: nat | d < n - |js| :: FairNext(n, k, |js|, s, f, Continuations(n, k, js, g)(d),
      Along(s, |js|, f)(d))
    decreases k - |js|, 0
  {
    forall d: nat | d < n - |js|
      ensures FairNext(n, k, |js|, s, f, Continuations(n, k, js, g)(d), Along(s, |js|, f)(d))
    {
      NextShuffle(n, js, |js| + d);
      MeanIsFair(n, k, js + [|js| + d], Swap(s, |js|, |js| + d), f, g);
      FairContinuation(n, k, js, s, f, g, d, Mean(n, k, js + [|js| + d], g), |js + [|js| + d]|);
    }
  }

  lemma {:induction false} MeanIsFair(n: nat, k: nat, js: seq<nat>, s: seq<nat>, f: nat -> real, g: seq<nat> -> real)
    requires Prefix(n, js) && |js| <= k < n && s == Shuffled(n, js, |js|) && g == SampleTotal(n, k, f)
    ensures Fair(n, k, |js|, s, f, Mean(n, k, js, g))
    decreases k - |js|, 1
  {
    if |js| == k {
      MeanAtEnd(n, k, js, f);
      FairAtEnd(n, k, s, f);
    } else {
      BranchesFair(n, k, js, s, f, g);
      FairMeanOf(n, k, js, g, s, f);
    }
  }

  /** Averaging over m draws, each of which leaves c - 1 draws among the other m - 1 entries. */
  lemma MeanOfBranches(m: nat, c: nat, p: real, t: real, e: nat -> real, x: nat -> real, mean: real)
    requires m > 1 && c > 0 && t == Sum(m, x) && mean == Div(Sum(m, e), m as real)
    requires forall d: nat | d < m :: Mul((m - 1) as real, e(d) - p - x(d)) == Mul((c - 1) as real, t - x(d))
    ensures Mul(m as real, mean - p) == Mul(c as real, t)
  {
    var constant := (d: nat) => t;
    SumProportional(m, (m - 1) as real, (c - 1) as real, Deviation(e, p, x), Deviation(constant, 0.0, x));
    SumDeviation(m, e, p, x);
    SumDeviation(m, constant, 0.0, x);
    SumConstant(m, t);
    Average(m as real, Sum(m, e), mean, p, t, c as real);
  }

  /** e(d) - p - x(d). */
  ghost function Deviation(e: nat -> real, p: real, x: nat -> real): nat -> real
  {
    (d: nat) => e(d) - p - x(d)
  }

  lemma SumDeviation(m: nat, e: nat -> real, p: real, x: nat -> real)
    ensures Sum(m, Deviation(e, p, x)) == Sum(m, e) - Mul(m as real, p) - Sum(m, x)
  {
    if m > 0 {
      SumDeviation(m - 1, e, p, x);
      OneMoreFactor((m - 1) as real, p);
    }
  }

  lemma SumConstant(m: nat, t: real)
    ensures Sum(m, (d: nat) => t) == Mul(m as real, t)
  {
    if m > 0 {
      SumConstant(m - 1, t);
      OneMoreFactor((m - 1) as real, t);
    }
  }

  lemma OneMoreFactor(m: real, p: real)
    ensures Mul(m + 1.0, p) == Mul(m, p) + p
  {
  }

  lemma Average(a: real, sum: real, e: real, p: real, t: real, c: real)
    requires a > 1.0 && e == Div(sum, a)
    requires Mul(a - 1.0, sum - Mul(a, p) - t) == Mul(c - 1.0, Mul(a, t) - t)
    ensures Mul(a, e - p) == Mul(c, t)
  {
    assert a * e == sum;
    assert (a - 1.0) * (sum - a * p - t) == (c - 1.0) * ((a - 1.0) * t);
    CancelFactor(a - 1.0, sum - a * p - t, (c - 1.0) * t);
  }

  lemma CancelFactor(a: real, x: real, y: real)
    requires a != 0.0 && a * x == a * y
    ensures x == y
  {
  }

  /** Scaled by n / k and averaged over all choices, the sample total is the total over all indices. */
  lemma Unbiased(n: nat, k: nat, f: nat -> real)
    requires 0 < k < n
    ensures Mul(Mean(n, k, [], SampleTotal(n, k, f)), n as real / k as real) == Sum(n, f)
  {
    MeanIsFair(n, k, [], Identity(n), f, SampleTotal(n, k, f));
    SumEq(n, Along(Identity(n), 0, f), f);
    Scale(n as real, k as real, Mean(n, k, [], SampleTotal(n, k, f)), Sum(n, f));
  }

  lemma Scale(n: real, k: real, e: real, t: real)
    requires k != 0.0 && Mul(n, e) == Mul(k, t)
    ensures Mul(e, n / k) == t
  {
    assert e * (n / k) == n * e / k;
    assert k * t / k == t;
  }
}
