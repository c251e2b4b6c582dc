/**
 The concurrent part of ApproxBetweenness in pkg/analysis/betweenness_approx.go: one goroutine per
 pivot, a channel of tokens, a pool of recycled buffers, and a mutex around the merge. A state
 machine interleaves the goroutines' steps; the theorems hold in every schedule.
 */
module WorkerPool {
  import opened Sums
  import opened Paths
  import opened Betweenness
  import opened Conservation

  /** The fields of a pooled buffer that are read after the pass. */
  datatype Buffer = Buffer(stack: seq<nat>, bc: seq<real>)

  /** What a pass for source s leaves in a buffer, whatever the buffer held before. */
  ghost predicate Computes(adj: Adjacency, s: nat, b: Buffer)
  {
    && |b.bc| == |adj| && Distinct(b.stack)
    && (forall w: nat | w < |adj| :: b.bc[w] == Contribution(adj, s, w))
    && (forall w: nat :: w in b.stack <==> w < |adj| && Distance(adj, s, w) >= 0)
  }

  datatype Phase =
    | Waiting
    | Admitted
    | Holding(buf: nat)
    | Computed(buf: nat)
    | Merging(buf: nat, pos: nat)
    | Merged(buf: nat)
    | Returned
    | Finished
  {
    ghost predicate HasBuffer() { Holding? || Computed? || Merging? || Merged? }
    ghost predicate HasToken() { !Waiting? && !Finished? }
  }

  datatype Pool = Pool(
    phases: seq<Phase>,
    tokens: nat,               // tokens in the channel
    locked: bool,              // the mutex
    free: set<nat>,            // buffers in the pool
    bufs: map<nat, Buffer>,    // all buffers ever made, with their contents
    partial: seq<real>)

  /** The job: a graph, the pivots to run, and the capacity of the token channel. */
  datatype Job = Job(adj: Adjacency, pivots: seq<nat>, cap: nat)

  ghost predicate Initial(job: Job, p: Pool)
  {
    && |p.phases| == |job.pivots| && (forall i | 0 <= i < |p.phases| :: p.phases[i] == Waiting)
    && p.tokens == 0 && !p.locked && p.free <= p.bufs.Keys
    && p.partial == seq(|job.adj|, _ => 0.0)
  }

  datatype Step =
    | Acquire                       // a token from the channel
    | Reuse(buf: nat)               // a pooled buffer
    | Make(buf: nat, junk: Buffer)  // a new buffer, when the pool has none or hides them
    | Compute(result: Buffer)       // the whole single-source pass; it touches nothing shared
    | Lock
    | Add                           // one entry of the merge loop
    | Unlock
    | Put                           // the buffer back into the pool
    | Release                       // the token back into the channel
    | Drop(kept: set<nat>)          // the collector empties the pool, at any moment

  ghost predicate Enabled(job: Job, p: Pool, i: nat, step: Step)
  {
    if step.Drop? then
      step.kept <= p.free
    else
      i < |p.phases| && i < |job.pivots| && Ready(job, p, i, step)
  }

  ghost predicate Ready(job: Job, p: Pool, i: nat, step: Step)
    requires i < |p.phases| && i < |job.pivots|
  {
    match step
    case Acquire => p.phases[i].Waiting? && p.tokens < job.cap
    case Reuse(b) => p.phases[i].Admitted? && b in p.free
    case Make(b, _) => p.phases[i].Admitted? && b !in p.bufs
    case Compute(c) => p.phases[i].Holding? && Computes(job.adj, job.pivots[i], c)
    case Lock => p.phases[i].Computed? && !p.locked
    case Add => p.phases[i].Merging? && p.phases[i].buf in p.bufs && p.phases[i].pos < |p.bufs[p.phases[i].buf].stack|
    case Unlock => p.phases[i].Merging? && p.phases[i].buf in p.bufs
      && p.phases[i].pos == |p.bufs[p.phases[i].buf].stack|
    case Put => p.phases[i].Merged?
    case Release => p.phases[i].Returned? && p.tokens > 0
    case Drop(_) => false
  }

  ghost function After(job: Job, p: Pool, i: nat, step: Step): Pool
    requires Enabled(job, p, i, step)
  {
    match step
    case Acquire => p.(phases := p.phases[i := Admitted], tokens := p.tokens + 1)
    case Reuse(b) => p.(phases := p.phases[i := Holding(b)], free := p.free - {b})
    case Make(b, junk) => p.(phases := p.phases[i := Holding(b)], bufs := p.bufs[b := junk])
    case Compute(c) => p.(phases := p.phases[i := Computed(p.phases[i].buf)], bufs := p.bufs[p.phases[i].buf := c])
    case Lock => p.(phases := p.phases[i := Merging(p.phases[i].buf, 0)], locked := true)
    case Add =>
      var b, pos := p.bufs[p.phases[i].buf], p.phases[i].pos;
      p.(phases := p.phases[i := Merging(p.phases[i].buf, pos + 1)], partial := Merge(p.partial, b, pos))
    case Unlock => p.(phases := p.phases[i := Merged(p.phases[i].buf)], locked := false)
    case Put => p.(phases := p.phases[i := Returned], free := p.free + {p.phases[i].buf})
    case Release => p.(phases := p.phases[i := Finished], tokens := p.tokens - 1)
    case Drop(kept) => p.(free := kept)
  }

  /** One entry of the merge loop. */
  ghost function Merge(partial: seq<real>, b: Buffer, pos: nat): seq<real>
    requires pos < |b.stack|
  {
    var w := b.stack[pos];
    if w < |partial| && w < |b.bc| then partial[w := partial[w] + b.bc[w]] else partial
  }

  // ---------- the invariant ----------

  ghost function TokenHolders(p: Pool): set<nat>
  {
    set i: nat | i < |p.phases| && p.phases[i].HasToken()
  }

  /** What goroutine i has added to partial[w] so far. */
  ghost function Added(job: Job, p: Pool, w: nat, i: nat): real
  {
    if i >= |p.phases| || i >= |job.pivots| then 0.0
    else
      match p.phases[i]
      case Merging(b, pos) =>
        if b in p.bufs && pos <= |p.bufs[b].stack| && w in p.bufs[b].stack[..pos]
        then Contribution(job.adj, job.pivots[i], w) else 0.0
      case Merged(_) => Contribution(job.adj, job.pivots[i], w)
      case Returned => Contribution(job.adj, job.pivots[i], w)
      case Finished => Contribution(job.adj, job.pivots[i], w)
      case _ => 0.0
  }

  ghost function AddedBy(job: Job, p: Pool, w: nat): nat -> real
  {
    (i: nat) => Added(job, p, w, i)
  }

  ghost predicate Tokens(job: Job, p: Pool)
  {
    p.tokens == |TokenHolders(p)| && p.tokens <= job.cap
  }

  /** No buffer is in two hands, or in a hand and in the pool. */
  ghost predicate Owned(p: Pool)
  {
    && p.free <= p.bufs.Keys
    && (forall i | 0 <= i < |p.phases| && p.phases[i].HasBuffer() ::
          p.phases[i].buf in p.bufs && p.phases[i].buf !in p.free)
    && (forall i, j | 0 <= i < j < |p.phases| && p.phases[i].HasBuffer() && p.phases[j].HasBuffer() ::
          p.phases[i].buf != p.phases[j].buf)
  }

  /** At most one goroutine merges, and exactly when the mutex is taken. */
  ghost predicate Mutex(p: Pool)
  {
    && (forall i, j | 0 <= i < j < |p.phases| :: !(p.phases[i].Merging? && p.phases[j].Merging?))
    && (p.locked <==> exists i :: 0 <= i < |p.phases| && p.phases[i].Merging?)
  }

  ghost predicate Contents(job: Job, p: Pool)
    requires |p.phases| == |job.pivots|
  {
    forall i | 0 <= i < |p.phases| && (p.phases[i].Computed? || p.phases[i].Merging?) ::
      && p.phases[i].buf in p.bufs && Computes(job.adj, job.pivots[i], p.bufs[p.phases[i].buf])
      && (p.phases[i].Merging? ==> p.phases[i].pos <= |p.bufs[p.phases[i].buf].stack|)
  }

  ghost predicate Merges(job: Job, p: Pool)
  {
    |p.partial| == |job.adj| &&
    forall w: nat | w < |job.adj| :: p.partial[w] == Sum(|job.pivots|, AddedBy(job, p, w))
  }

  ghost predicate Inv(job: Job, p: Pool)
  {
    |p.phases| == |job.pivots| && Tokens(job, p) && Owned(p) && Mutex(p) && Contents(job, p) && Merges(job, p)
  }

  lemma InitialInv(job: Job, p: Pool)
    requires Initial(job, p)
    ensures Inv(job, p)
  {
    assert TokenHolders(p) == {};
    forall w: nat | w < |job.adj| ensures Sum(|job.pivots|, AddedBy(job, p, w)) == 0.0 {
      forall i: nat ensures AddedBy(job, p, w)(i) == 0.0 {
        assert AddedBy(job, p, w)(i) == Added(job, p, w, i);
      }
      SumZero(|job.pivots|, AddedBy(job, p, w));
    }
  }

  /** One goroutine's part changes, the others' do not: the total changes by the difference. */
  lemma AddedChange(job: Job, p: Pool, q: Pool, i: nat, w: nat)
    requires |p.phases| == |q.phases| == |job.pivots| && i < |p.phases|
    requires forall j: nat | j < |p.phases| && j != i :: Added(job, q, w, j) == Added(job, p, w, j)
    ensures Sum(|job.pivots|, AddedBy(job, q, w))
         == Sum(|job.pivots|, AddedBy(job, p, w)) - Added(job, p, w, i) + Added(job, q, w, i)
  {
    forall j: nat ensures AddedBy(job, p, w)(j) == Added(job, p, w, j) && AddedBy(job, q, w)(j) == Added(job, q, w, j) {
    }
    SumChange(|job.pivots|, i, AddedBy(job, p, w), AddedBy(job, q, w));
  }

  // ---------- every step keeps the invariant ----------

  lemma HoldersAcquire(job: Job, p: Pool, i: nat)
    requires Enabled(job, p, i, Acquire)
    ensures i !in TokenHolders(p) && TokenHolders(After(job, p, i, Acquire)) == TokenHolders(p) + {i}
  {
  }

  lemma HoldersRelease(job: Job, p: Pool, i: nat)
    requires Enabled(job, p, i, Release)
    ensures i in TokenHolders(p) && TokenHolders(After(job, p, i, Release)) == TokenHolders(p) - {i}
  {
  }

  lemma HoldersSame(job: Job, p: Pool, i: nat, step: Step)
    requires Enabled(job, p, i, step) && !step.Acquire? && !step.Release?
    ensures TokenHolders(After(job, p, i, step)) == TokenHolders(p)
  {
  }

  lemma KeepsTokens(job: Job, p: Pool, i: nat, step: Step)
    requires Tokens(job, p) && Enabled(job, p, i, step)
    ensures Tokens(job, After(job, p, i, step))
  {
    match step
    case Acquire => HoldersAcquire(job, p, i);
    case Release => HoldersRelease(job, p, i);
    case _ => HoldersSame(job, p, i, step);
  }

  lemma KeepsOwned(job: Job, p: Pool, i: nat, step: Step)
    requires Inv(job, p) && Enabled(job, p, i, step)
    ensures Owned(After(job, p, i, step))
  {
  }

  lemma KeepsMutex(job: Job, p: Pool, i: nat, step: Step)
    requires Inv(job, p) && Enabled(job, p, i, step)
    ensures Mutex(After(job, p, i, step))
  {
    var q := After(job, p, i, step);
    if step.Lock? || step.Add? {
      assert q.phases[i].Merging?;
    } else if step.Unlock? {
      assert forall j | 0 <= j < |p.phases| && j != i :: !p.phases[j].Merging?;
    } else {
      assert forall j | 0 <= j < |p.phases| :: q.phases[j].Merging? <==> p.phases[j].Merging?;
    }
  }

  lemma KeepsContents(job: Job, p: Pool, i: nat, step: Step)
    requires Inv(job, p) && Enabled(job, p, i, step)
    ensures Contents(job, After(job, p, i, step))
  {
  }

  /** The other goroutines' parts are untouched. */
  lemma OthersUnchanged(job: Job, p: Pool, i: nat, step: Step, w: nat, j: nat)
    requires Inv(job, p) && Enabled(job, p, i, step) && !step.Drop? && j < |p.phases| && j != i
    ensures Added(job, After(job, p, i, step), w, j) == Added(job, p, w, j)
  {
  }

  /** What the part of goroutine i grows by is what the shared entry grows by. */
  ghost predicate Balanced(job: Job, p: Pool, q: Pool, i: nat, w: nat)
  {
    && w < |p.partial| == |q.partial|
    && q.partial[w] - p.partial[w] == Added(job, q, w, i) - Added(job, p, w, i)
  }

  /** One turn of the merge loop adds one node's contribution, once. */
  lemma OwnAdd(job: Job, p: Pool, i: nat, w: nat)
    requires Inv(job, p) && Enabled(job, p, i, Add) && w < |job.adj|
    ensures Balanced(job, p, After(job, p, i, Add), i, w)
  {
    var b, pos := p.bufs[p.phases[i].buf], p.phases[i].pos;
    NextEntry(b.stack, pos);
    assert Computes(job.adj, job.pivots[i], b);
    assert b.stack[pos] in b.stack;
  }

  lemma NextEntry(stack: seq<nat>, pos: nat)
    requires Distinct(stack) && pos < |stack|
    ensures stack[..pos + 1] == stack[..pos] + [stack[pos]] && stack[pos] !in stack[..pos]
  {
  }

  /** After the loop only unreached nodes are left out, and their contribution is zero. */
  lemma OwnUnlock(job: Job, p: Pool, i: nat, w: nat)
    requires Inv(job, p) && Enabled(job, p, i, Unlock) && w < |job.adj|
    ensures Balanced(job, p, After(job, p, i, Unlock), i, w)
  {
    var b := p.bufs[p.phases[i].buf];
    assert b.stack[..|b.stack|] == b.stack;
    assert Computes(job.adj, job.pivots[i], b);
    if w !in b.stack {
      UnreachedDependency(job.adj, job.pivots[i], w);
    }
  }

  /** Outside the merge nothing is added. */
  lemma OwnOther(job: Job, p: Pool, i: nat, step: Step, w: nat)
    requires Inv(job, p) && Enabled(job, p, i, step) && !step.Drop? && !step.Add? && !step.Unlock? && w < |job.adj|
    ensures Balanced(job, p, After(job, p, i, step), i, w)
  {
  }

  /** A goroutine's own part grows only when it merges, by its contribution, once for each node. */
  lemma OwnPart(job: Job, p: Pool, i: nat, step: Step, w: nat)
    requires Inv(job, p) && Enabled(job, p, i, step) && !step.Drop? && w < |job.adj|
    ensures Balanced(job, p, After(job, p, i, step), i, w)
  {
    match step
    case Add => OwnAdd(job, p, i, w);
    case Unlock => OwnUnlock(job, p, i, w);
    case _ => OwnOther(job, p, i, step, w);
  }

  /** A pool drop changes no part. */
  lemma DropKeepsTotal(job: Job, p: Pool, kept: set<nat>, w: nat)
    ensures Sum(|job.pivots|, AddedBy(job, p.(free := kept), w)) == Sum(|job.pivots|, AddedBy(job, p, w))
  {
    var q := p.(free := kept);
    forall j: nat ensures AddedBy(job, p, w)(j) == AddedBy(job, q, w)(j) {
      assert AddedBy(job, p, w)(j) == Added(job, p, w, j) && AddedBy(job, q, w)(j) == Added(job, q, w, j);
    }
    SumEq(|job.pivots|, AddedBy(job, p, w), AddedBy(job, q, w));
  }

  lemma StepKeepsTotal(job: Job, p: Pool, i: nat, step: Step, w: nat)
    requires Inv(job, p) && Enabled(job, p, i, step) && !step.Drop? && w < |job.adj|
    ensures var q := After(job, p, i, step);
      |q.partial| == |p.partial| && q.partial[w] == Sum(|job.pivots|, AddedBy(job, q, w))
  {
    var q := After(job, p, i, step);
    forall j: nat | j < |p.phases| && j != i {
      OthersUnchanged(job, p, i, step, w, j);
    }
    AddedChange(job, p, q, i, w);
    OwnPart(job, p, i, step, w);
  }

  lemma KeepsMerges(job: Job, p: Pool, i: nat, step: Step)
    requires Inv(job, p) && Enabled(job, p, i, step)
    ensures Merges(job, After(job, p, i, step))
  {
    var q := After(job, p, i, step);
    forall w: nat | w < |job.adj|
      ensures |q.partial| == |p.partial| && q.partial[w] == Sum(|job.pivots|, AddedBy(job, q, w))
    {
      if step.Drop? {
        DropKeepsTotal(job, p, step.kept, w);
      } else {
        StepKeepsTotal(job, p, i, step, w);
      }
    }
    StepLength(job, p, i, step);
  }

  lemma StepLength(job: Job, p: Pool, i: nat, step: Step)
    requires Enabled(job, p, i, step)
    ensures |After(job, p, i, step).partial| == |p.partial|
  {
  }

  lemma StepInv(job: Job, p: Pool, i: nat, step: Step)
    requires Inv(job, p) && Enabled(job, p, i, step)
    ensures Inv(job, After(job, p, i, step))
  {
    KeepsTokens(job, p, i, step);
    KeepsOwned(job, p, i, step);
    KeepsMutex(job, p, i, step);
    KeepsContents(job, p, i, step);
    KeepsMerges(job, p, i, step);
  }

  // ---------- whole runs ----------

  ghost predicate Next(job: Job, p: Pool, q: Pool)
  {
    exists i, step :: Enabled(job, p, i, step) && q == After(job, p, i, step)
  }

  ghost predicate Run(job: Job, trace: seq<Pool>)
  {
    |trace| > 0 && Initial(job, trace[0]) && forall k | 0 <= k < |trace| - 1 :: Next(job, trace[k], trace[k + 1])
  }

  lemma {:induction false} RunInv(job: Job, trace: seq<Pool>, k: nat)
    requires Run(job, trace) && k < |trace|
    ensures Inv(job, trace[k])
  {
    if k == 0 {
      InitialInv(job, trace[0]);
    } else {
      RunInv(job, trace, k - 1);
      assert Next(job, trace[k - 1], trace[k - 1 + 1]);
      var i, step :| Enabled(job, trace[k - 1], i, step) && trace[k] == After(job, trace[k - 1], i, step);
      StepInv(job, trace[k - 1], i, step);
    }
  }

  /** In every state of every schedule: no shared buffer, never more running goroutines than tokens. */
  lemma Safety(job: Job, trace: seq<Pool>, k: nat)
    requires Run(job, trace) && k < |trace|
    ensures var p := trace[k];
      && (forall i, j | 0 <= i < j < |p.phases| && p.phases[i].HasBuffer() && p.phases[j].HasBuffer() ::
            p.phases[i].buf != p.phases[j].buf)
      && (forall i | 0 <= i < |p.phases| && p.phases[i].HasBuffer() :: p.phases[i].buf !in p.free)
      && |TokenHolders(p)| <= job.cap
  {
    RunInv(job, trace, k);
  }

  ghost predicate AllFinished(p: Pool)
  {
    forall i | 0 <= i < |p.phases| :: p.phases[i].Finished?
  }

  ghost function PivotContributions(job: Job, w: nat): nat -> real
  {
    (i: nat) => if i < |job.pivots| then Contribution(job.adj, job.pivots[i], w) else 0.0
  }

  /** Whatever the schedule and the recycled buffers: the merged result is the sum over the pivots. */
  lemma ScheduleIndependence(job: Job, trace: seq<Pool>, w: nat)
    requires Run(job, trace) && AllFinished(trace[|trace| - 1]) && w < |job.adj|
    ensures |trace[|trace| - 1].partial| == |job.adj|
    ensures trace[|trace| - 1].partial[w] == Sum(|job.pivots|, PivotContributions(job, w))
  {
    var p := trace[|trace| - 1];
    RunInv(job, trace, |trace| - 1);
    forall i: nat | i < |job.pivots| ensures AddedBy(job, p, w)(i) == PivotContributions(job, w)(i) {
      assert AddedBy(job, p, w)(i) == Added(job, p, w, i);
    }
    SumEq(|job.pivots|, AddedBy(job, p, w), PivotContributions(job, w));
  }

  // ---------- parallelism ----------

  /** As many goroutines as there are tokens can run at once: the bound of Safety is reached. */
  lemma {:induction false} FullyParallel(job: Job, start: Pool, k: nat) returns (trace: seq<Pool>)
    requires Initial(job, start) && k <= job.cap && k <= |job.pivots|
    ensures Run(job, trace) && trace[0] == start
    ensures var p := trace[|trace| - 1];
      p.tokens == k && |p.phases| == |job.pivots|
      && forall i | 0 <= i < |p.phases| :: p.phases[i] == if i < k then Admitted else Waiting
  {
    if k == 0 {
      trace := [start];
    } else {
      var before := FullyParallel(job, start, k - 1);
      var p := before[|before| - 1];
      assert Enabled(job, p, k - 1, Acquire);
      var q := After(job, p, k - 1, Acquire);
      trace := before + [q];
      forall m | 0 <= m < |trace| - 1 ensures Next(job, trace[m], trace[m + 1]) {
        assert m < |before| - 1 ==> Next(job, before[m], before[m + 1]);
        assert m == |before| - 1 ==> trace[m] == p && trace[m + 1] == q;
      }
    }
  }

  // ---------- progress ----------

  /** What goroutine i does next, when it waits for nothing. */
  ghost function Own(job: Job, p: Pool, i: nat): Step
    requires i < |p.phases|
  {
    match p.phases[i]
    case Waiting => Acquire
    case Admitted => Make(Unused(p.bufs.Keys), Buffer([], []))
    case Holding(_) => Compute(Pass(job, i))
    case Computed(_) => Lock
    case Merging(b, pos) => if b in p.bufs && pos < |p.bufs[b].stack| then Add else Unlock
    case Merged(_) => Put
    case Returned => Release
    case Finished => Drop({})
  }

  ghost function Unused(used: set<nat>): (b: nat)
    ensures b !in used
  {
    UnusedExists(used);
    var b: nat :| b !in used; b
  }

  lemma UnusedExists(used: set<nat>)
    ensures exists b: nat :: b !in used
  {
    var b := Above(used);
    assert b !in used;
  }

  lemma Above(used: set<nat>) returns (b: nat)
    ensures forall x | x in used :: x < b
  {
    b := 0;
    if x: nat :| x in used {
      var c := Above(used - {x});
      b := if x < c then c else x + 1;
      assert forall y | y in used :: y == x || y in used - {x};
    }
  }

  /** The result of a pass: the reachable nodes and the contributions. */
  ghost function Pass(job: Job, i: nat): (b: Buffer)
    ensures i < |job.pivots| ==> Computes(job.adj, job.pivots[i], b)
  {
    if i < |job.pivots| then
      var s := job.pivots[i];
      Buffer(Reached(job.adj, s, |job.adj|), seq(|job.adj|, (w: nat) => Contribution(job.adj, s, w)))
    else Buffer([], [])
  }

  ghost function Reached(adj: Adjacency, s: nat, n: nat): (xs: seq<nat>)
    ensures Distinct(xs) && forall w: nat :: w in xs <==> w < n && Distance(adj, s, w) >= 0
  {
    if n == 0 then [] else
      var xs := Reached(adj, s, n - 1);
      if Distance(adj, s, n - 1) >= 0 then xs + [n - 1] else xs
  }

  /** Some goroutine's own next step is enabled until all have finished. */
  lemma Progress(job: Job, p: Pool) returns (i: nat)
    requires Inv(job, p) && job.cap > 0 && !AllFinished(p)
    ensures i < |p.phases| && !p.phases[i].Finished? && Enabled(job, p, i, Own(job, p, i))
  {
    if m: nat :| m < |p.phases| && p.phases[m].Merging? {
      i := m;
    } else if m: nat :| m < |p.phases| && p.phases[m].HasToken() {
      i := m;
      assert m in TokenHolders(p);
      assert !p.locked;
    } else {
      i :| i < |p.phases| && !p.phases[i].Finished?;
      assert TokenHolders(p) == {};
    }
  }

  /** How many steps goroutine i still has in front of it, at most. */
  ghost function Remaining(job: Job, phase: Phase): int
  {
    match phase
    case Waiting => |job.adj| + 7
    case Admitted => |job.adj| + 6
    case Holding(_) => |job.adj| + 5
    case Computed(_) => |job.adj| + 4
    case Merging(_, pos) => |job.adj| - pos + 3
    case Merged(_) => 2
    case Returned => 1
    case Finished => 0
  }

  ghost function Rank(job: Job, phases: seq<Phase>): int
  {
    if phases == [] then 0 else Remaining(job, phases[0]) + Rank(job, phases[1..])
  }

  lemma {:induction false} RankChange(job: Job, phases: seq<Phase>, i: nat, phase: Phase)
    requires i < |phases|
    ensures Rank(job, phases[i := phase]) == Rank(job, phases) - Remaining(job, phases[i]) + Remaining(job, phase)
  {
    if i == 0 {
      assert phases[i := phase][1..] == phases[1..];
    } else {
      assert phases[i := phase][1..] == phases[1..][i - 1 := phase];
      RankChange(job, phases[1..], i - 1, phase);
    }
  }

  lemma StackBound(job: Job, p: Pool, i: nat)
    requires Inv(job, p) && i < |p.phases|
    ensures p.phases[i].Merging? ==> p.phases[i].pos <= |p.bufs[p.phases[i].buf].stack| <= |job.adj|
  {
    if p.phases[i].Merging? {
      var xs := p.bufs[p.phases[i].buf].stack;
      assert forall k | 0 <= k < |xs| :: xs[k] in xs;
      DistinctBound(xs, |job.adj|);
    }
  }

  lemma {:induction false} RankPositive(job: Job, p: Pool, k: nat)
    requires Inv(job, p) && k <= |p.phases|
    ensures Rank(job, p.phases[k..]) >= 0
    decreases |p.phases| - k
  {
    if k < |p.phases| {
      RankPositive(job, p, k + 1);
      assert p.phases[k..][1..] == p.phases[k + 1..];
      StackBound(job, p, k);
    }
  }

  lemma OneFewer(job: Job, p: Pool, i: nat, step: Step)
    requires Inv(job, p) && Enabled(job, p, i, step) && !step.Drop?
    ensures var q := After(job, p, i, step);
      && Remaining(job, q.phases[i]) < Remaining(job, p.phases[i])
      && q.phases == p.phases[i := q.phases[i]]
  {
    StackBound(job, p, i);
  }

  /** Every step of a goroutine is one of finitely many. */
  lemma Termination(job: Job, p: Pool, i: nat, step: Step)
    requires Inv(job, p) && Enabled(job, p, i, step)
    ensures 0 <= Rank(job, After(job, p, i, step).phases) <= Rank(job, p.phases)
    ensures !step.Drop? ==> Rank(job, After(job, p, i, step).phases) < Rank(job, p.phases)
  {
    var q := After(job, p, i, step);
    StepInv(job, p, i, step);
    RankPositive(job, q, 0);
    assert q.phases[0..] == q.phases;
    if !step.Drop? {
      OneFewer(job, p, i, step);
      RankChange(job, p.phases, i, q.phases[i]);
    }
  }

  /** Every run can be carried on until all goroutines have finished. */
  lemma {:induction false} Completes(job: Job, trace: seq<Pool>) returns (longer: seq<Pool>)
    requires Run(job, trace) && job.cap > 0
    ensures Run(job, longer) && trace <= longer && AllFinished(longer[|longer| - 1])
    decreases Rank(job, trace[|trace| - 1].phases)
  {
    var p := trace[|trace| - 1];
    RunInv(job, trace, |trace| - 1);
    RankPositive(job, p, 0);
    assert p.phases[0..] == p.phases;
    if AllFinished(p) {
      longer := trace;
    } else {
      var i := Progress(job, p);
      var step := Own(job, p, i);
      Termination(job, p, i, step);
      RunMore(job, trace, i, step);
      longer := Completes(job, trace + [After(job, p, i, step)]);
    }
  }

  lemma RunMore(job: Job, trace: seq<Pool>, i: nat, step: Step)
    requires Run(job, trace) && Enabled(job, trace[|trace| - 1], i, step)
    ensures Run(job, trace + [After(job, trace[|trace| - 1], i, step)])
  {
    var p := trace[|trace| - 1];
    var more := trace + [After(job, p, i, step)];
    forall k | 0 <= k < |more| - 1 ensures Next(job, more[k], more[k + 1]) {
      if k < |trace| - 1 {
        assert Next(job, trace[k], trace[k + 1]);
      }
    }
  }
}
