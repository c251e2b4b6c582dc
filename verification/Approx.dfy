/** ApproxBetweenness in pkg/analysis/betweenness_approx.go: sampling, the pool, and scaling, put together. */
module Approx {
  import opened Sums
  import opened Paths
  import opened Betweenness
  import opened Sampler
  import opened WorkerPool

  /** The contribution of every source to node w. */
  ghost function Sources(adj: Adjacency, w: nat): nat -> real
  {
    (s: nat) => Contribution(adj, s, w)
  }

  /** What the score map says about a node; nodes without an entry score zero. */
  function ScoreIn(scores: map<int, real>, id: int): real
  {
    if id in scores then scores[id] else 0.0
  }

  /** Scaling up from the sample to the graph; zeros get no entry. */
  method ScaleUp(partial: seq<real>, ids: seq<int>, sampleSize: nat) returns (scores: map<int, real>)
    requires |ids| == |partial| && Distinct(ids) && sampleSize > 0
    ensures forall id :: id in scores <==> exists i | 0 <= i < |ids| :: ids[i] == id && partial[i] != 0.0
    ensures forall i | 0 <= i < |ids| :: ScoreIn(scores, ids[i]) == Mul(partial[i], |ids| as real / sampleSize as real)
  {
    var scale := |ids| as real / sampleSize as real;
    scores := map[];
    for i := 0 to |partial|
      invariant forall id :: id in scores <==> exists j | 0 <= j < i :: ids[j] == id && partial[j] != 0.0
      invariant forall j | 0 <= j < i :: ScoreIn(scores, ids[j]) == Mul(partial[j], scale)
    {
      if partial[i] == 0.0 {
        continue;
      }
      scores := scores[ids[i] := partial[i] * scale];
    }
  }

  /** The job of a run: the pivots are the sample drawn by the choices js. */
  ghost function JobOf(adj: Adjacency, k: nat, cap: nat, js: seq<nat>): Job
    requires k < |adj| && Choices(|adj|, k, js)
  {
    Job(adj, Shuffled(|adj|, js, k)[..k], cap)
  }

  /** Some schedule of the goroutines ends in this state. */
  ghost predicate Outcome(job: Job, p: Pool)
  {
    exists trace :: Run(job, trace) && AllFinished(trace[|trace| - 1]) && p == trace[|trace| - 1]
  }

  /** A finished run over a sample holds the sample's total. */
  lemma RunTotal(adj: Adjacency, k: nat, cap: nat, js: seq<nat>, p: Pool, w: nat)
    requires k < |adj| && Choices(|adj|, k, js) && Outcome(JobOf(adj, k, cap, js), p) && w < |adj|
    ensures |p.partial| == |adj| && p.partial[w] == SampleTotal(|adj|, k, Sources(adj, w))(js)
  {
    var job := JobOf(adj, k, cap, js);
    var trace :| Run(job, trace) && AllFinished(trace[|trace| - 1]) && p == trace[|trace| - 1];
    ScheduleIndependence(job, trace, w);
    forall i: nat | i < k ensures PivotContributions(job, w)(i) == Along(job.pivots, 0, Sources(adj, w))(i) {
      assert Sources(adj, w)(job.pivots[i]) == Contribution(adj, job.pivots[i], w);
    }
    SumEq(k, PivotContributions(job, w), Along(job.pivots, 0, Sources(adj, w)));
  }

  /** The score of w in a final state, as ScaleUp computes it. */
  ghost function Score(p: Pool, w: nat, n: nat, k: nat): real
    requires k > 0
  {
    if w < |p.partial| then Mul(p.partial[w], n as real / k as real) else 0.0
  }

  /** The score each list of choices leads to, when final says how its run ends. */
  ghost function Scores(final: seq<nat> -> Pool, w: nat, n: nat, k: nat): seq<nat> -> real
    requires k > 0
  {
    (js: seq<nat>) => Score(final(js), w, n, k)
  }

  /**
   However the goroutines of each run are scheduled: the mean of the scores over all choices of the sampler is the
   betweenness over all sources.
   */
  lemma ScoresUnbiased(adj: Adjacency, k: nat, cap: nat, w: nat, final: seq<nat> -> Pool)
    requires 0 < k < |adj| && w < |adj|
    requires forall js | Choices(|adj|, k, js) :: Outcome(JobOf(adj, k, cap, js), final(js))
    ensures Mean(|adj|, k, [], Scores(final, w, |adj|, k)) == Sum(|adj|, Sources(adj, w))
  {
    var n, f := |adj|, Sources(adj, w);
    var c := n as real / k as real;
    forall js | Choices(n, k, js)
      ensures Scores(final, w, n, k)(js) == Scaled(SampleTotal(n, k, f), c)(js)
    {
      RunTotal(adj, k, cap, js, final(js), w);
    }
    MeanEq(n, k, [], Scores(final, w, n, k), Scaled(SampleTotal(n, k, f), c));
    MeanScale(n, k, [], SampleTotal(n, k, f), c);
    Unbiased(n, k, f);
  }
}
