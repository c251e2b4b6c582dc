/**
 Finding likely duplicates, pkg/analysis/duplicates.go: keyword lists, an inverted index over them, and the proof
 that going through the index finds the same pairs as comparing every issue with every other.
 */
module Duplicates {
  import opened Issues
  import opened Sums
  import opened Counting
  import Sorting

  /** An issue with the words of its title and description, in order. */
  datatype Doc = Doc(id: string, status: string, words: seq<string>)

  datatype Config = Config(threshold: real, minKeywords: int, ignoreClosedVsOpen: bool, maxSuggestions: nat)

  // ---------- keywords ----------

  predicate Meaningful(w: string, stopWords: set<string>)
  {
    |w| >= 3 && w !in stopWords
  }

  /** Every meaningful word once. */
  method ExtractKeywords(words: seq<string>, stopWords: set<string>) returns (keywords: seq<string>)
    ensures Distinct(keywords)
    ensures forall w :: w in keywords <==> w in words && |w| >= 3 && w !in stopWords
  {
    keywords := [];
    var seen: set<string> := {};
    for i := 0 to |words|
      invariant Distinct(keywords) && forall w :: w in seen <==> w in keywords
      invariant forall w :: w in keywords <==> w in words[..i] && Meaningful(w, stopWords)
    {
      var word := words[i];
      assert words[..i + 1] == words[..i] + [word];
      if |word| < 3 || word in stopWords || word in seen {
        continue;
      }
      seen := seen + {word};
      keywords := keywords + [word];
    }
    assert words[..|words|] == words;
  }

  ghost predicate AllDistinct(keywords: seq<seq<string>>)
  {
    forall i | 0 <= i < |keywords| :: Distinct(keywords[i])
  }

  // ---------- the index ----------

  type Index = map<string, seq<nat>>

  function Postings(index: Index, w: string): seq<nat>
  {
    if w in index then index[w] else []
  }

  /** Issue j is listed under w once the first i issues and the first k keywords of issue i are in. */
  ghost predicate Entered(keywords: seq<seq<string>>, min: int, i: nat, k: nat, w: string, j: nat)
  {
    && j < |keywords| && |keywords[j]| >= min
    && ((j < i && w in keywords[j]) || (j == i && k <= |keywords[i]| && w in keywords[i][..k]))
  }

  ghost predicate Lists(index: Index, keywords: seq<seq<string>>, min: int, i: nat, k: nat)
  {
    forall w :: Distinct(Postings(index, w))
      && forall j: nat :: j in Postings(index, w) <==> Entered(keywords, min, i, k, w, j)
  }

  lemma EnterOne(index: Index, keywords: seq<seq<string>>, min: int, i: nat, k: nat, w: string)
    requires Lists(index, keywords, min, i, k) && i < |keywords| && |keywords[i]| >= min
    requires Distinct(keywords[i]) && k < |keywords[i]| && w == keywords[i][k]
    ensures Lists(index[w := Postings(index, w) + [i]], keywords, min, i, k + 1)
  {
    var more := index[w := Postings(index, w) + [i]];
    assert keywords[i][..k + 1] == keywords[i][..k] + [w];
    assert w !in keywords[i][..k];
    assert !Entered(keywords, min, i, k, w, i);
    assert i !in Postings(index, w);
    forall x, j: nat ensures j in Postings(more, x) <==> Entered(keywords, min, i, k + 1, x, j) {
      assert j in Postings(more, x) <==> j in Postings(index, x) || (x == w && j == i);
      assert j in Postings(index, x) <==> Entered(keywords, min, i, k, x, j);
    }
    forall x ensures Distinct(Postings(more, x)) {
      assert Distinct(Postings(index, x));
    }
  }

  lemma EnterNext(index: Index, keywords: seq<seq<string>>, min: int, i: nat, k: nat)
    requires Lists(index, keywords, min, i, k) && i < |keywords| && (k == |keywords[i]| || |keywords[i]| < min)
    ensures Lists(index, keywords, min, i + 1, 0)
  {
    forall w, j: nat ensures Entered(keywords, min, i + 1, 0, w, j) <==> Entered(keywords, min, i, k, w, j) {
      assert keywords[i][..|keywords[i]|] == keywords[i];
    }
  }

  method BuildIndex(keywords: seq<seq<string>>, min: int) returns (index: Index)
    requires AllDistinct(keywords)
    ensures Lists(index, keywords, min, |keywords|, 0)
  {
    index := map[];
    for i := 0 to |keywords|
      invariant Lists(index, keywords, min, i, 0)
    {
      var kws := keywords[i];
      if |kws| >= min {
        for k := 0 to |kws|
          invariant Lists(index, keywords, min, i, k)
        {
          EnterOne(index, keywords, min, i, k, kws[k]);
          index := index[kws[k] := Postings(index, kws[k]) + [i]];
        }
        EnterNext(index, keywords, min, i, |kws|);
      } else {
        EnterNext(index, keywords, min, i, 0);
      }
    }
  }

  // ---------- overlaps ----------

  ghost function Words(xs: seq<string>): set<string>
  {
    set w | w in xs
  }

  /** How many of the first k keywords of a are in b. */
  ghost function Shared(a: seq<string>, k: nat, b: seq<string>): nat
    requires k <= |a|
  {
    if k == 0 then 0 else Shared(a, k - 1, b) + if a[k - 1] in b then 1 else 0
  }

  /** Since no keyword is listed twice, counting entries counts the intersection. */
  lemma {:induction false} SharedIs(a: seq<string>, k: nat, b: seq<string>)
    requires Distinct(a) && k <= |a|
    ensures Shared(a, k, b) == |Words(a[..k]) * Words(b)|
  {
    if k == 0 {
      SharedNone(a[..0], b);
    } else {
      var m := k - 1;
      SharedIs(a, m, b);
      SharedNext(a, m, b);
    }
  }

  lemma SharedNone(a: seq<string>, b: seq<string>)
    requires a == []
    ensures |Words(a) * Words(b)| == 0
  {
    assert Words(a) * Words(b) == {};
  }

  lemma SharedNext(a: seq<string>, k: nat, b: seq<string>)
    requires Distinct(a) && k < |a|
    ensures |Words(a[..k + 1]) * Words(b)| == |Words(a[..k]) * Words(b)| + if a[k] in b then 1 else 0
  {
    var before, after := Words(a[..k]) * Words(b), Words(a[..k + 1]) * Words(b);
    assert a[..k + 1] == a[..k] + [a[k]];
    assert a[k] !in before;
    if a[k] in b {
      assert after == before + {a[k]};
    } else {
      assert after == before;
    }
  }

  /** What the counter for candidate j must show: the entries met so far, for later issues with enough keywords. */
  ghost function Count(keywords: seq<seq<string>>, min: int, i: nat, k: nat, j: nat): nat
    requires i < |keywords| && k <= |keywords[i]|
  {
    if i < j < |keywords| && |keywords[j]| >= min then Shared(keywords[i], k, keywords[j]) else 0
  }

  function CounterAt(overlaps: map<nat, nat>, j: nat): nat
  {
    if j in overlaps then overlaps[j] else 0
  }

  ghost predicate Counted(overlaps: map<nat, nat>, keywords: seq<seq<string>>, min: int, i: nat, k: nat)
    requires i < |keywords| && k <= |keywords[i]|
  {
    && (forall j: nat :: CounterAt(overlaps, j) == Count(keywords, min, i, k, j))
    && forall j | j in overlaps :: overlaps[j] > 0
  }

  /** While the postings of one word are worked through: those before p have been counted. */
  ghost predicate PartlyCounted(overlaps: map<nat, nat>, keywords: seq<seq<string>>, min: int, i: nat, k: nat,
                                list: seq<nat>, p: nat)
    requires i < |keywords| && k <= |keywords[i]| && p <= |list|
  {
    && (forall j: nat :: CounterAt(overlaps, j) == Count(keywords, min, i, k, j) + if j in list[..p] && j > i then 1
      else 0)
    && forall j | j in overlaps :: overlaps[j] > 0
  }

  method CountOverlaps(keywords: seq<seq<string>>, min: int, index: Index, i: nat) returns (overlaps: map<nat, nat>)
    requires AllDistinct(keywords) && Lists(index, keywords, min, |keywords|, 0) && i < |keywords|
    ensures Counted(overlaps, keywords, min, i, |keywords[i]|)
  {
    overlaps := map[];
    for k := 0 to |keywords[i]|
      invariant Counted(overlaps, keywords, min, i, k)
    {
      var list := Postings(index, keywords[i][k]);
      for p := 0 to |list|
        invariant PartlyCounted(overlaps, keywords, min, i, k, list, p)
      {
        var j := list[p];
        NextPosting(list, p);
        if j > i {
          overlaps := overlaps[j := CounterAt(overlaps, j) + 1];
        }
      }
      WordDone(overlaps, keywords, min, index, i, k, list);
    }
  }

  lemma NextPosting(list: seq<nat>, p: nat)
    requires Distinct(list) && p < |list|
    ensures list[..p + 1] == list[..p] + [list[p]] && list[p] !in list[..p]
  {
  }

  lemma WordDone(overlaps: map<nat, nat>, keywords: seq<seq<string>>, min: int, index: Index, i: nat, k: nat,
                 list: seq<nat>)
    requires Lists(index, keywords, min, |keywords|, 0) && i < |keywords| && k < |keywords[i]|
    requires list == Postings(index, keywords[i][k]) && PartlyCounted(overlaps, keywords, min, i, k, list, |list|)
    ensures Counted(overlaps, keywords, min, i, k + 1)
  {
    assert list[..|list|] == list;
    var w := keywords[i][k];
    forall j: nat ensures CounterAt(overlaps, j) == Count(keywords, min, i, k + 1, j) {
      assert j in list <==> Entered(keywords, min, |keywords|, 0, w, j);
    }
  }

  // ---------- pairs ----------

  datatype Pair = Pair(i: nat, j: nat, issue1: string, issue2: string, similarity: real, keywords: seq<string>)

  ghost function Common(keywords: seq<seq<string>>, i: nat, j: nat): set<string>
    requires i < |keywords| && j < |keywords|
  {
    Words(keywords[i]) * Words(keywords[j])
  }

  /** The Jaccard similarity of two keyword sets, at least one of them not empty. */
  ghost function Jaccard(a: set<string>, b: set<string>): real
    requires |a + b| > 0
  {
    |a * b| as real / |a + b| as real
  }

  ghost predicate Comparable(docs: seq<Doc>, config: Config, i: nat, j: nat)
    requires i < |docs| && j < |docs|
  {
    && docs[i].status != "tombstone" && docs[j].status != "tombstone"
    && (config.ignoreClosedVsOpen ==> IsClosedLike(docs[i].status) == IsClosedLike(docs[j].status))
  }

  /** The pairs found by comparing the keyword sets of all pairs directly. */
  ghost predicate Match(docs: seq<Doc>, keywords: seq<seq<string>>, config: Config, i: nat, j: nat)
    requires |docs| == |keywords|
  {
    && i < j < |docs| && |keywords[i]| >= config.minKeywords && |keywords[j]| >= config.minKeywords
    && |Words(keywords[i]) + Words(keywords[j])| > 0
    && Jaccard(Words(keywords[i]), Words(keywords[j])) >= config.threshold && Comparable(docs, config, i, j)
  }

  /** What the code asks of a candidate that shares some keyword. */
  ghost predicate Accepted(docs: seq<Doc>, keywords: seq<seq<string>>, config: Config, i: nat, j: nat)
    requires |docs| == |keywords|
  {
    Match(docs, keywords, config, i, j) && |Common(keywords, i, j)| > 0
  }

  /** The similarity is the true quotient: times the size of the union it is the size of the intersection. */
  lemma JaccardIs(a: set<string>, b: set<string>, threshold: real)
    requires |a + b| > 0
    ensures Jaccard(a, b) * |a + b| as real == |a * b| as real
    ensures Jaccard(a, b) >= threshold <==> |a * b| as real >= threshold * |a + b| as real
  {
    var n, u := |a * b| as real, |a + b| as real;
    QuotientAtLeast(n, u, threshold);
  }

  lemma QuotientAtLeast(n: real, u: real, t: real)
    requires u > 0.0
    ensures n / u * u == n && (n / u >= t <==> n >= t * u)
  {
    var q := n / u;
    assert q * u == n;
    if q >= t {
      assert (q - t) * u >= 0.0;
    } else {
      assert (t - q) * u > 0.0;
    }
  }

  /** A match on the records: both with enough keywords, enough of them common, and neither a tombstone. */
  lemma MatchMeaning(docs: seq<Doc>, keywords: seq<seq<string>>, config: Config, i: nat, j: nat)
    requires |docs| == |keywords|
    ensures Match(docs, keywords, config, i, j) <==>
      && i < j < |docs| && |keywords[i]| >= config.minKeywords && |keywords[j]| >= config.minKeywords
      && var a, b := set w | w in keywords[i], set w | w in keywords[j];
      && a + b != {} && |a * b| as real >= config.threshold * |a + b| as real
      && docs[i].status != "tombstone" && docs[j].status != "tombstone"
      && (config.ignoreClosedVsOpen ==> (docs[i].status == "closed" <==> docs[j].status == "closed"))
  {
    if i < j < |docs| {
      var a, b := Words(keywords[i]), Words(keywords[j]);
      if a + b != {} {
        JaccardIs(a, b, config.threshold);
      }
    }
  }

  lemma UnionSize(a: seq<string>, b: seq<string>)
    requires Distinct(a) && Distinct(b)
    ensures |Words(a) + Words(b)| == |a| + |b| - |Words(a) * Words(b)|
  {
    ListCard(a);
    ListCard(b);
    var x, y := Words(a), Words(b);
    CardSplit(x + y, x);
    CardSplit(y, x * y);
    assert (x + y) - x == y - x * y;
  }

  /** The meaningful words of an issue. */
  ghost predicate KeywordsOf(doc: Doc, stopWords: set<string>, kws: seq<string>)
  {
    forall w :: w in kws <==> w in doc.words && Meaningful(w, stopWords)
  }

  /** The keyword lists of all issues. */
  ghost predicate Extracted(docs: seq<Doc>, stopWords: set<string>, keywords: seq<seq<string>>)
  {
    && |keywords| == |docs| && AllDistinct(keywords)
    && forall i | 0 <= i < |docs| :: KeywordsOf(docs[i], stopWords, keywords[i])
  }

  /**
   Looking only at issues that share a keyword finds every pair that direct comparison finds, whatever the issues say.
   */
  ghost predicate LosesNothing(config: Config, stopWords: set<string>)
  {
    forall docs, keywords, i, j | Extracted(docs, stopWords, keywords) && Match(docs, keywords, config, i, j) ::
      Accepted(docs, keywords, config, i, j)
  }

  lemma NoShareNoSimilarity(a: set<string>, b: set<string>)
    requires |a + b| > 0 && |a * b| == 0
    ensures Jaccard(a, b) == 0.0
  {
  }

  function Repeated(c: char, n: nat): (s: string)
    ensures |s| == n && forall k | 0 <= k < n :: s[k] == c
  {
    seq(n, _ => c)
  }

  /** Longer than every stop word. */
  lemma LongEnough(stopWords: set<string>) returns (n: nat)
    ensures n >= 3 && forall w | w in stopWords :: |w| < n
  {
    n := 3;
    var rest := stopWords;
    while rest != {}
      invariant n >= 3 && rest <= stopWords && forall w | w in stopWords - rest :: |w| < n
    {
      var w :| w in rest;
      rest := rest - {w};
      n := if |w| < n then n else |w| + 1;
    }
  }

  /** n different words of one letter, of length m or more. */
  ghost function Letters(c: char, m: nat, n: nat): (ws: seq<string>)
    requires m > 0
    ensures |ws| == n && forall i | 0 <= i < n :: |ws[i]| == m + i && ws[i][0] == c
  {
    var ws := seq(n, i requires 0 <= i < n => Repeated(c, m + i));
    assert forall i | 0 <= i < n :: ws[i] == Repeated(c, m + i);
    ws
  }

  /** An issue whose words are all keywords. */
  lemma LettersExtracted(c: char, m: nat, n: nat, stopWords: set<string>, doc: Doc)
    requires m >= 3 && (forall w | w in stopWords :: |w| < m) && doc.words == Letters(c, m, n)
    ensures Distinct(doc.words) && KeywordsOf(doc, stopWords, doc.words)
  {
    forall w | w in doc.words ensures Meaningful(w, stopWords) {
      var i :| 0 <= i < |doc.words| && doc.words[i] == w;
    }
  }

  /** The index is complete exactly for positive thresholds. */
  lemma LosesNothingIff(config: Config, stopWords: set<string>)
    ensures LosesNothing(config, stopWords) <==> config.threshold > 0.0
  {
    if config.threshold > 0.0 {
      forall docs, keywords, i, j | Extracted(docs, stopWords, keywords) && Match(docs, keywords, config, i, j)
        ensures Accepted(docs, keywords, config, i, j)
      {
        if |Common(keywords, i, j)| == 0 {
          NoShareNoSimilarity(Words(keywords[i]), Words(keywords[j]));
        }
      }
    } else {
      LostPair(config, stopWords);
    }
  }

  lemma LettersApart(m: nat, n: nat)
    requires m > 0 && n > 0
    ensures var a, b := Letters('a', m, n), Letters('b', m, n); |Words(a) * Words(b)| == 0 && |Words(a) + Words(b)| > 0
  {
    var a, b := Letters('a', m, n), Letters('b', m, n);
    assert Words(a) * Words(b) == {} by {
      forall w | w in Words(a) ensures w !in Words(b) {
        assert w[0] == 'a';
      }
    }
    assert a[0] in Words(a) + Words(b);
  }

  /** Two issues without a common keyword pass a threshold of zero or less, and share nothing in the index. */
  lemma LostPair(config: Config, stopWords: set<string>)
    requires config.threshold <= 0.0
    ensures !LosesNothing(config, stopWords)
  {
    var m := LongEnough(stopWords);
    var n := if config.minKeywords > 1 then config.minKeywords else 1;
    var a, b := Letters('a', m, n), Letters('b', m, n);
    var docs, keywords := [Doc("a", "open", a), Doc("b", "open", b)], [a, b];
    LettersExtracted('a', m, n, stopWords, docs[0]);
    LettersExtracted('b', m, n, stopWords, docs[1]);
    LettersApart(m, n);
    TwoExtracted(docs, stopWords, keywords);
    Strangers(docs, keywords, config);
    OneLost(config, stopWords, docs, keywords);
  }

  lemma OneLost(config: Config, stopWords: set<string>, docs: seq<Doc>, keywords: seq<seq<string>>)
    requires Extracted(docs, stopWords, keywords)
    requires Match(docs, keywords, config, 0, 1) && !Accepted(docs, keywords, config, 0, 1)
    ensures !LosesNothing(config, stopWords)
  {
  }

  lemma TwoExtracted(docs: seq<Doc>, stopWords: set<string>, keywords: seq<seq<string>>)
    requires |docs| == |keywords| == 2 && Distinct(keywords[0]) && Distinct(keywords[1])
    requires KeywordsOf(docs[0], stopWords, keywords[0]) && KeywordsOf(docs[1], stopWords, keywords[1])
    ensures Extracted(docs, stopWords, keywords)
  {
  }

  /** Two live issues with enough keywords and none in common. */
  lemma Strangers(docs: seq<Doc>, keywords: seq<seq<string>>, config: Config)
    requires |docs| == |keywords| == 2 && config.threshold <= 0.0 && docs[0].status == docs[1].status == "open"
    requires |keywords[0]| >= config.minKeywords && |keywords[1]| >= config.minKeywords
    requires |Words(keywords[0]) + Words(keywords[1])| > 0 && |Words(keywords[0]) * Words(keywords[1])| == 0
    ensures Match(docs, keywords, config, 0, 1) && !Accepted(docs, keywords, config, 0, 1)
  {
    NoShareNoSimilarity(Words(keywords[0]), Words(keywords[1]));
  }

  method IntersectKeywords(a: seq<string>, b: seq<string>) returns (common: seq<string>)
    requires Distinct(b)
    ensures Sorting.Ascending(Sorting.ById(), common) && Distinct(common)
    ensures forall w :: w in common <==> w in Words(a) * Words(b)
  {
    var m: set<string> := {};
    for i := 0 to |a|
      invariant forall w :: w in m <==> w in a[..i]
    {
      assert a[..i + 1] == a[..i] + [a[i]];
      m := m + {a[i]};
    }
    assert a[..|a|] == a;
    common := [];
    for i := 0 to |b|
      invariant Distinct(common) && forall w :: w in common <==> w in b[..i] && w in a
    {
      assert b[..i + 1] == b[..i] + [b[i]];
      assert b[i] !in b[..i];
      if b[i] in m {
        common := common + [b[i]];
      }
    }
    assert b[..|b|] == b;
    Sorting.ByIdTotal();
    Sorting.SortKeeps(Sorting.ById(), common);
    Sorting.SortDistinct(Sorting.ById(), common);
    Sorting.SortAscends(Sorting.ById(), common);
    common := Sorting.Sort(Sorting.ById(), common);
  }

  /** A pair as it is reported: true similarity, true common keywords. */
  ghost predicate Truthful(docs: seq<Doc>, keywords: seq<seq<string>>, p: Pair)
    requires |docs| == |keywords|
  {
    && p.i < |docs| && p.j < |docs| && p.issue1 == docs[p.i].id && p.issue2 == docs[p.j].id
    && |Words(keywords[p.i]) + Words(keywords[p.j])| > 0
    && p.similarity == Jaccard(Words(keywords[p.i]), Words(keywords[p.j]))
    && Sorting.Ascending(Sorting.ById(), p.keywords) && Distinct(p.keywords)
    && forall w :: w in p.keywords <==> w in Common(keywords, p.i, p.j)
  }

  /** No two issues are paired twice. */
  ghost predicate OnceEach(pairs: seq<Pair>)
  {
    forall k, l | 0 <= k < l < |pairs| :: pairs[k].i != pairs[l].i || pairs[k].j != pairs[l].j
  }

  ghost predicate HasPair(pairs: seq<Pair>, i: nat, j: nat)
  {
    exists k | 0 <= k < |pairs| :: pairs[k].i == i && pairs[k].j == j
  }

  /** Issues before i are done, and of issue i the candidates in met. */
  ghost predicate Reached(i: nat, met: set<nat>, a: nat, b: nat)
  {
    a < i || (a == i && b in met)
  }

  /** Exactly the accepted pairs reached so far, each once, reported truthfully. */
  ghost predicate Found(pairs: seq<Pair>, docs: seq<Doc>, keywords: seq<seq<string>>, config: Config, i: nat,
                        met: set<nat>)
    requires |docs| == |keywords|
  {
    && (forall k | 0 <= k < |pairs| :: Truthful(docs, keywords, pairs[k])
          && Accepted(docs, keywords, config, pairs[k].i, pairs[k].j) && Reached(i, met, pairs[k].i, pairs[k].j))
    && OnceEach(pairs)
    && forall a, b | Accepted(docs, keywords, config, a, b) && Reached(i, met, a, b) :: HasPair(pairs, a, b)
  }

  lemma FoundMore(pairs: seq<Pair>, docs: seq<Doc>, keywords: seq<seq<string>>, config: Config, i: nat, met: set<nat>,
                  p: Pair)
    requires |docs| == |keywords| && Found(pairs, docs, keywords, config, i, met)
    requires p.i == i && p.j !in met && Truthful(docs, keywords, p) && Accepted(docs, keywords, config, p.i, p.j)
    ensures Found(pairs + [p], docs, keywords, config, i, met + {p.j})
  {
    var more := pairs + [p];
    assert more[|pairs|] == p;
    forall a, b | Accepted(docs, keywords, config, a, b) && Reached(i, met + {p.j}, a, b) ensures HasPair(more, a, b) {
      if Reached(i, met, a, b) {
        var k :| 0 <= k < |pairs| && pairs[k].i == a && pairs[k].j == b;
        assert more[k] == pairs[k];
      }
    }
  }

  lemma FoundSame(pairs: seq<Pair>, docs: seq<Doc>, keywords: seq<seq<string>>, config: Config, i: nat, met: set<nat>,
                  j: nat)
    requires |docs| == |keywords| && Found(pairs, docs, keywords, config, i, met)
      && !Accepted(docs, keywords, config, i, j)
    ensures Found(pairs, docs, keywords, config, i, met + {j})
  {
    forall a, b | Accepted(docs, keywords, config, a, b) && Reached(i, met + {j}, a, b) ensures HasPair(pairs, a, b) {
      assert Reached(i, met, a, b);
    }
  }

  /** The next issue begins when every candidate that shares a keyword has been met. */
  lemma FoundNext(pairs: seq<Pair>, docs: seq<Doc>, keywords: seq<seq<string>>, config: Config, i: nat, met: set<nat>)
    requires |docs| == |keywords| && Found(pairs, docs, keywords, config, i, met)
    requires forall j | Accepted(docs, keywords, config, i, j) :: j in met
    ensures Found(pairs, docs, keywords, config, i + 1, {})
  {
    forall a, b | Accepted(docs, keywords, config, a, b) && Reached(i + 1, {}, a, b) ensures HasPair(pairs, a, b) {
      assert Reached(i, met, a, b);
    }
  }

  lemma OverlapIs(keywords: seq<seq<string>>, min: int, overlaps: map<nat, nat>, i: nat, j: nat)
    requires AllDistinct(keywords) && i < |keywords| && Counted(overlaps, keywords, min, i, |keywords[i]|)
    ensures j in overlaps <==> i < j < |keywords| && |keywords[j]| >= min && |Common(keywords, i, j)| > 0
    ensures j in overlaps ==> overlaps[j] == |Common(keywords, i, j)|
  {
    if i < j < |keywords| {
      SharedIs(keywords[i], |keywords[i]|, keywords[j]);
      assert keywords[i][..|keywords[i]|] == keywords[i];
    }
    assert CounterAt(overlaps, j) == Count(keywords, min, i, |keywords[i]|, j);
  }

  /** A truthful pair on the records: the common words, and their number over the number of all words. */
  lemma TruthfulMeaning(docs: seq<Doc>, keywords: seq<seq<string>>, p: Pair)
    requires |docs| == |keywords| && Truthful(docs, keywords, p)
    ensures p.i < |docs| && p.j < |docs| && p.issue1 == docs[p.i].id && p.issue2 == docs[p.j].id
    ensures var a, b := set w | w in keywords[p.i], set w | w in keywords[p.j];
      |a + b| > 0 && p.similarity == |a * b| as real / |a + b| as real && forall w :: w in p.keywords <==> w in a * b
  {
  }

  /** The tests made on one candidate. */
  method Evaluate(docs: seq<Doc>, keywords: seq<seq<string>>, config: Config, i: nat, j: nat, overlap: nat)
      returns (p: Option<Pair>)
    requires |docs| == |keywords| && AllDistinct(keywords) && i < j < |docs|
    requires |keywords[i]| >= config.minKeywords && overlap == |Common(keywords, i, j)| > 0
    ensures p.Some? <==> Accepted(docs, keywords, config, i, j)
    ensures p.Some? ==> p.value.i == i && p.value.j == j && Truthful(docs, keywords, p.value)
  {
    if |keywords[j]| < config.minKeywords {
      return None;
    }
    UnionSize(keywords[i], keywords[j]);
    SomeUnion(Words(keywords[i]), Words(keywords[j]));
    var union := |keywords[i]| + |keywords[j]| - overlap;
    var similarity := overlap as real / union as real;
    assert similarity == Jaccard(Words(keywords[i]), Words(keywords[j]));
    if similarity < config.threshold {
      return None;
    }
    if docs[i].status == "tombstone" || docs[j].status == "tombstone" {
      return None;
    }
    if config.ignoreClosedVsOpen && IsClosedLike(docs[i].status) != IsClosedLike(docs[j].status) {
      return None;
    }
    var common := IntersectKeywords(keywords[i], keywords[j]);
    p := Some(Pair(i, j, docs[i].id, docs[j].id, similarity, common));
  }

  lemma SomeUnion(a: set<string>, b: set<string>)
    requires |a * b| > 0
    ensures |a + b| > 0
  {
    var x :| x in a * b;
    assert x in a + b;
  }

  /** The candidates of one issue. */
  method PairsOf(docs: seq<Doc>, keywords: seq<seq<string>>, config: Config, index: Index, i: nat, before: seq<Pair>)
      returns (pairs: seq<Pair>)
    requires |docs| == |keywords| && AllDistinct(keywords) && i < |docs|
    requires Lists(index, keywords, config.minKeywords, |keywords|, 0) && Found(before, docs, keywords, config, i, {})
    ensures Found(pairs, docs, keywords, config, i + 1, {})
  {
    pairs := before;
    if |keywords[i]| < config.minKeywords {
      FoundNext(pairs, docs, keywords, config, i, {});
      return;
    }
    var overlaps := CountOverlaps(keywords, config.minKeywords, index, i);
    var todo := overlaps.Keys;
    ghost var met: set<nat> := {};
    while todo != {}
      invariant todo !! met && todo + met == overlaps.Keys && Found(pairs, docs, keywords, config, i, met)
    {
      var j :| j in todo;
      OverlapIs(keywords, config.minKeywords, overlaps, i, j);
      var p := Evaluate(docs, keywords, config, i, j, overlaps[j]);
      if p.Some? {
        FoundMore(pairs, docs, keywords, config, i, met, p.value);
        pairs := pairs + [p.value];
      } else {
        FoundSame(pairs, docs, keywords, config, i, met, j);
      }
      todo, met := todo - {j}, met + {j};
    }
    forall j | Accepted(docs, keywords, config, i, j) ensures j in met {
      OverlapIs(keywords, config.minKeywords, overlaps, i, j);
    }
    FoundNext(pairs, docs, keywords, config, i, met);
  }

  method ExtractAll(docs: seq<Doc>, stopWords: set<string>) returns (keywords: seq<seq<string>>)
    ensures Extracted(docs, stopWords, keywords)
  {
    keywords := [];
    for i := 0 to |docs|
      invariant |keywords| == i && AllDistinct(keywords)
      invariant forall j | 0 <= j < i :: KeywordsOf(docs[j], stopWords, keywords[j])
    {
      var kws := ExtractKeywords(docs[i].words, stopWords);
      keywords := keywords + [kws];
    }
  }

  /** Found through the index, the pairs are those that direct comparison of the keyword sets accepts. */
  method FindPairs(docs: seq<Doc>, config: Config, stopWords: set<string>)
      returns (pairs: seq<Pair>, ghost keywords: seq<seq<string>>)
    requires |docs| >= 2
    ensures Extracted(docs, stopWords, keywords) && forall k | 0 <= k < |pairs| :: Truthful(docs, keywords, pairs[k])
    ensures OnceEach(pairs) && AllAccepted(pairs, docs, keywords, config)
    ensures config.threshold > 0.0 ==> forall i, j :: HasPair(pairs, i, j) <==> Match(docs, keywords, config, i, j)
  {
    var kws := ExtractAll(docs, stopWords);
    keywords := kws;
    var index := BuildIndex(kws, config.minKeywords);
    pairs := [];
    for i := 0 to |docs|
      invariant Found(pairs, docs, kws, config, i, {})
    {
      pairs := PairsOf(docs, kws, config, index, i, pairs);
    }
    AllFound(pairs, docs, kws, config);
    LosesNothingIff(config, stopWords);
  }

  lemma AllFound(pairs: seq<Pair>, docs: seq<Doc>, keywords: seq<seq<string>>, config: Config)
    requires |docs| == |keywords| && Found(pairs, docs, keywords, config, |docs|, {})
    ensures forall i, j :: HasPair(pairs, i, j) <==> Accepted(docs, keywords, config, i, j)
  {
    forall i, j ensures HasPair(pairs, i, j) <==> Accepted(docs, keywords, config, i, j) {
      if HasPair(pairs, i, j) {
        var k :| 0 <= k < |pairs| && pairs[k].i == i && pairs[k].j == j;
        assert Accepted(docs, keywords, config, pairs[k].i, pairs[k].j);
      }
      if Accepted(docs, keywords, config, i, j) {
        assert Reached(|docs|, {}, i, j);
      }
    }
  }

  function MoreSimilar(): (Pair, Pair) -> bool
  {
    (p: Pair, q: Pair) => p.similarity > q.similarity
  }

  /** At most the allowed number, each pair once and truthful, none less similar than one that is left out. */
  method DetectDuplicates(docs: seq<Doc>, config: Config, stopWords: set<string>)
      returns (top: seq<Pair>, ghost rest: seq<Pair>, ghost keywords: seq<seq<string>>)
    ensures |docs| < 2 ==> top == []
    ensures |docs| >= 2 ==> Extracted(docs, stopWords, keywords) && AllAccepted(top + rest, docs, keywords, config)
    ensures |docs| >= 2 ==> forall p | p in top + rest :: Truthful(docs, keywords, p)
    ensures OnceEach(top + rest)
    ensures |top| <= config.maxSuggestions && (|top| == config.maxSuggestions || rest == [])
    ensures forall k, l | 0 <= k < l < |top| :: top[k].similarity >= top[l].similarity
    ensures forall p, q | p in top && q in rest :: p.similarity >= q.similarity
  {
    if |docs| < 2 {
      rest, keywords := [], [];
      return [], rest, keywords;
    }
    var pairs;
    pairs, keywords := FindPairs(docs, config, stopWords);
    ghost var sorted;
    top, rest, sorted := Best(pairs, config.maxSuggestions);
    SameAccepted(pairs, sorted, docs, keywords, config);
    SameOnce(pairs, sorted);
    forall k, l | 0 <= k < l < |top| ensures top[k].similarity >= top[l].similarity {
      assert !MoreSimilar()(top[l], top[k]);
    }
  }

  /** The issues a pair joins. */
  ghost function Places(): Pair -> (nat, nat)
  {
    (p: Pair) => (p.i, p.j)
  }

  lemma OnceIsDistinct(pairs: seq<Pair>)
    ensures OnceEach(pairs) <==> Distinct(Sorting.Mapped(Places(), pairs))
  {
    var at := Sorting.Mapped(Places(), pairs);
    assert forall k | 0 <= k < |pairs| :: at[k] == (pairs[k].i, pairs[k].j);
  }

  lemma SameOnce(pairs: seq<Pair>, sorted: seq<Pair>)
    requires OnceEach(pairs) && multiset(pairs) == multiset(sorted)
    ensures OnceEach(sorted)
  {
    OnceIsDistinct(pairs);
    OnceIsDistinct(sorted);
    Sorting.MappedMultiset(Places(), pairs, sorted);
    Sorting.DistinctCounts(Sorting.Mapped(Places(), pairs));
    Sorting.DistinctCounts(Sorting.Mapped(Places(), sorted));
  }

  ghost predicate AllAccepted(pairs: seq<Pair>, docs: seq<Doc>, keywords: seq<seq<string>>, config: Config)
    requires |docs| == |keywords|
  {
    forall i, j :: HasPair(pairs, i, j) <==> Accepted(docs, keywords, config, i, j)
  }

  lemma SameAccepted(pairs: seq<Pair>, sorted: seq<Pair>, docs: seq<Doc>, keywords: seq<seq<string>>, config: Config)
    requires |docs| == |keywords| && AllAccepted(pairs, docs, keywords, config)
      && forall p :: p in pairs <==> p in sorted
    ensures AllAccepted(sorted, docs, keywords, config)
  {
    forall i, j ensures HasPair(sorted, i, j) <==> HasPair(pairs, i, j) {
      if k :| 0 <= k < |pairs| && pairs[k].i == i && pairs[k].j == j {
        assert pairs[k] in sorted;
      }
      if k :| 0 <= k < |sorted| && sorted[k].i == i && sorted[k].j == j {
        assert sorted[k] in pairs;
      }
    }
  }

  method Best(pairs: seq<Pair>, max: nat) returns (top: seq<Pair>, ghost rest: seq<Pair>, ghost sorted: seq<Pair>)
    ensures (forall p :: p in pairs <==> p in sorted) && sorted == top + rest && multiset(sorted) == multiset(pairs)
    ensures |top| <= max && (|top| == max || rest == [])
    ensures Sorting.Ascending(MoreSimilar(), top) && forall p, q | p in top && q in rest :: p.similarity >= q.similarity
  {
    top, rest := Sorting.Sort(MoreSimilar(), pairs), [];
    sorted := top;
    Sorting.SortKeeps(MoreSimilar(), pairs);
    Sorting.SortAscends(MoreSimilar(), pairs);
    if |top| > max {
      rest := top[max..];
      top := top[..max];
      Cut(sorted, max);
    }
  }

  lemma Cut(sorted: seq<Pair>, max: nat)
    requires Sorting.Ascending(MoreSimilar(), sorted) && max <= |sorted|
    ensures sorted == sorted[..max] + sorted[max..] && Sorting.Ascending(MoreSimilar(), sorted[..max])
    ensures forall p, q | p in sorted[..max] && q in sorted[max..] :: p.similarity >= q.similarity
  {
    forall p, q | p in sorted[..max] && q in sorted[max..] ensures p.similarity >= q.similarity {
      var a :| 0 <= a < max && sorted[a] == p;
      var b :| 0 <= b < |sorted[max..]| && sorted[max..][b] == q;
      assert !MoreSimilar()(sorted[max + b], sorted[a]);
    }
  }
}
