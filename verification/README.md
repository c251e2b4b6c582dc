# Verified model of the beadstui graph engine and caches

This project models the hard parts of beadstui, a terminal interface over an issue tracker, in Dafny 4.11, and proves
what they promise: betweenness centrality by Brandes' algorithm with its pooled buffers, sampler and worker pool; the
selections and path searches over the dependency graph; the snapshot cache that races with commits; and the caches,
keys, diffs and indexes around the analysis. `dafny verify dfyconfig.toml` checks everything.

Code that changes state step by step is modelled that way (classes with fields, arrays, loops with invariants) and tied
to specification functions; the theorems are about those. Interleavings (worker goroutines, concurrent loaders and
committers, runs of the disk cache) are state machines over their steps, and the theorems hold for every run.

## How the files hang together

- Shared groundwork: `Sums`, `Counting`, `Sorting`, `Decimals`, `Digraphs`, `Issues`.
- Betweenness: `DenseGraph` (adjacency lists), `Paths` (walks, distances, path counts: the reference), `Betweenness` and
  `Conservation` (mathematics of dependencies), `Bfs`, `Accumulation`, `Brandes` (the buffers and the pass), `Sampler`,
  `WorkerPool`, `Approx`.
- Selections and paths: `Coverage`, `Unlock`, `Submodular` (when gains never grow), `IntHeap`, `Kahn`, `LongestPath`,
  `CriticalPaths`, `CycleGuard`, `CycleSearch`, `Cycles`, `Capacity`.
- Snapshot cache: `SnapshotNames`, `SnapshotCodec` (the bytes of a file), `SnapshotCache` (the state machine),
  `SnapshotCalls` (what becomes of a call), `SnapshotReuse` (manifests that come back), and `SnapshotDisk` (the same
  machine working on bytes).
- Keys, diffs, indexes: `CacheStream` (the bytes behind the cache key), `KeyTokens`, `CacheKey`, `KeyCollisions`,
  `ValidatedKeys` (what those bytes identify), `DiskCache`, `DiskCacheHits` (when a get must hit), `Diff`, `DiffFields`
  (what it compares, field by field), `DiffCounts`, `CycleKeys`, `Duplicates`.

## Where the code does less than one might think

- The cache key stream has no end mark after comments, ends labels and dependencies with an empty field, and writes the
  bytes between fields and between issues like any other. For issues that model.Issue.Validate accepts the stream
  identifies them up to order exactly when no field contains a zero byte and no label is empty
  (`ValidatedKeys.ValidatedIff`); validation rules out neither. An empty label with three labels behind it reads like a
  dependency (`ValidatedKeys.EmptyLabelCollides`), and a zero byte moves text from one field to the next
  (`ValidatedKeys.ZeroByteCollides`). Empty dependency targets and empty comment IDs do no harm to validated issues.
  The SQL reader does not validate. With statuses of any text, and still without zero bytes and empty labels, the stream
  identifies the issues exactly when no comment ID and no dependency type is byte one followed by a string above the ID
  of its issue, or no status is, as text, at or below some number (`KeyCollisions.IdentifiesIff`,
  `KeyCollisions.RiskyCollides`). A dependency type counts only because a dependency may have an empty target.
- Cycles are compared by rotating them to their smallest ID. That is right for cycles listed without repetition, but the
  cycle finder repeats the first node at the end; for such lists the key tells no more than the list itself, so the
  same cycle found from another node counts as both new and resolved (`CycleKeys.ClosedIff`, `CycleKeys.KnownClosed`;
  `CycleKeys.SameCycleNewAndResolved` is such a case). All this is for IDs without an arrow inside; with one, different
  cycles share a key (`CycleKeys.ArrowConfuses`).
- A diff compares dependencies by their target, a colon and their type, in one string. That is comparing targets and
  types exactly when no two dependencies are of the form (t, s:k) and (t:s, k), which read alike (`DiffFields.ToldIff`).
  Targets without a colon are enough, and so are types without one (`DiffFields.NoColons`).
- The open count of a snapshot knows the statuses open, in_progress and blocked. The balance of new, reopened, closed and
  removed issues explains its change exactly when as many issues are deferred, pinned, hooked or in review before as
  after (`DiffCounts.OpenChangesIff`); deferring one issue is enough to break it (`DiffCounts.DeferredUnbalances`).
- The comments call the greedy edge cover a 2-approximation and the unlock selection submodular. The cover obeys the
  bound of `Coverage.GreedyBound`, and a self-dependency breaks even that (`Coverage.SelfEdgeBreaksBound`); the gain of an
  unlock can grow as more is completed (`Unlock.GainCanGrow`). Gains never grow exactly when every open issue has at most
  one open blocker, or waits for itself, or is the only one to wait for two issues that wait for each other and for
  nothing else (`Submodular.NeverGrowsIff`).
- The inverted index finds all pairs that direct comparison finds exactly for positive thresholds
  (`Duplicates.LosesNothingIff`).
- A snapshot load can return data newer than the key it is cached under. That is harmless as long as no commit brings an
  old manifest back (`SnapshotCache.Linearizable`); with a manifest that returns, a load can be stale
  (`SnapshotCache.StaleWithReusedManifest`). Loads of a database are linearizable in every run exactly when its history
  is settled: whatever was current while, or after, a manifest was current is current again whenever that manifest is
  back (`SnapshotReuse.LinearIffSettled`).

## Reading the statements

Members called Meaning restate a specification on the bare records, with the statuses, types and numbers of the source
written out and without the functions the methods are proved against. The order of strings is that of
`Issues.LessMeaning`, ascending lists are those of `Sorting.AscendingMeaning`, and decimal text is that of
`Decimals.DigitsValue`.

Floating-point numbers are reals. IDs are strings compared byte by byte; where the code uses the empty ID as "none yet",
the issues are indexed under nonempty IDs, as model.Issue.Validate demands. Map iteration is an arbitrary choice of a
remaining key. Timestamps in the key stream are the text the formatter produces: not empty, with a T inside, and
beginning with a year, so that no time is above all numbers as text. Library sorts are the ascending rearrangement;
gonum's strongly connected components are an argument with their defining property, and a graph's neighbour lists are
free of duplicates, as gonum's simple graphs keep them.

## Model

| member | source | states |
|---|---|---|
| DenseGraph.BuildDenseIndex | pkg/analysis/betweenness_approx.go:19-32 | the index and the list of IDs are inverse to each other |
| DenseGraph.BuildCachedAdjacency | pkg/analysis/betweenness_approx.go:39-77 | there is an arc between two indices iff the graph lists the one node under the other; lists are ascending and without repetition; incoming lists are the transpose |
| DenseGraph.Transpose | pkg/analysis/betweenness_approx.go:63-71 | every arc turned round, each once, lists ascending |
| Brandes.Buffers.constructor | pkg/analysis/betweenness_approx.go:112-125 | a new buffer set is valid and has room for 256 nodes |
| Brandes.Buffers.Reset | pkg/analysis/betweenness_approx.go:169-215 | whatever the buffers held, every slice is as if freshly made; buffers grow when too small and shrink when more than twice too large |
| Brandes.Buffers.LookAt | pkg/analysis/betweenness_approx.go:422-434 | one edge of the search: first discovery, then path counting, as the step function of the search |
| Brandes.Buffers.Explore | pkg/analysis/betweenness_approx.go:409-435 | from wiped buffers: dist is the exact distance (-1 iff unreachable), sigma counts shortest paths, pred is exactly the in-neighbours one level closer, stack and queue are the reached nodes by distance |
| Brandes.Buffers.Accumulate | pkg/analysis/betweenness_approx.go:437-452 | the reverse loop computes the gathered scores of the finished search |
| Brandes.Buffers.SingleSource | pkg/analysis/betweenness_approx.go:394-453 | for every duplicate-free graph and source, whatever the recycled buffers held: bc[w] is the sum over targets of the fraction of shortest paths through w, and delta[source] is the number of other nodes reached |
| Bfs.LookInv | pkg/analysis/betweenness_approx.go:422-434 | looking at one edge keeps the invariant of breadth-first search |
| Bfs.Finish | pkg/analysis/betweenness_approx.go:415-435 | when the queue is worked through, distances, path counts and predecessors are exact |
| Betweenness.BrandesRecursion | pkg/analysis/betweenness_approx.go:444-448 | Brandes' theorem: the dependency on v, defined by counting shortest walks, is the sum over its successors w on shortest paths of sigma(v)/sigma(w) times one plus the dependency on w |
| Accumulation.GatheredAll | pkg/analysis/betweenness_approx.go:437-452 | after the reverse loop delta holds every reached node's dependency and bc every node's contribution |
| Conservation.ContributionTotal | pkg/analysis/betweenness_approx.go:437-452 | the contributions of one source add up to the sum of distance minus one over the other reachable nodes |
| Conservation.SourceDependency | pkg/analysis/betweenness_approx.go:438-448 | the source's own dependency is the number of nodes on the stack minus one |
| Conservation.UnreachedDependency | pkg/analysis/betweenness_approx.go:337-341 | merging visited nodes only loses nothing: unreached nodes contribute zero |
| Sampler.SampleIndices | pkg/analysis/betweenness_approx.go:364-387 | 0 to n-1 in order when all are wanted, otherwise the first k places of the shuffle by the generator's choices |
| Sampler.ShuffleStep | pkg/analysis/betweenness_approx.go:379-384 | step i exchanges entry i with the chosen one and moves nothing else |
| Sampler.SampleDistinct | pkg/analysis/betweenness_approx.go:379-386 | a sample is k distinct indices below n |
| Sampler.SampleInjective | pkg/analysis/betweenness_approx.go:379-386 | equal samples come from equal choices |
| Sampler.SampleBijection | pkg/analysis/betweenness_approx.go:379-386 | every list of k distinct indices is the sample of exactly one list of choices |
| Sampler.Unbiased | pkg/analysis/betweenness_approx.go:347-353 | scaled by n/k and averaged over all choices, the sample total is the total over all indices |
| Approx.RunTotal | pkg/analysis/betweenness_approx.go:313-345 | in every schedule, the merged result is the total over the pivots the sampler's choices have drawn |
| Approx.ScaleUp | pkg/analysis/betweenness_approx.go:347-357 | every node's score is its merged entry times n/k; exactly the nodes with a nonzero entry are in the map |
| Approx.ScoresUnbiased | pkg/analysis/betweenness_approx.go:347-357 | however the goroutines of each run are scheduled, the mean of the scaled scores over all choices of the sampler is the betweenness over all sources |
| WorkerPool.StepInv | pkg/analysis/betweenness_approx.go:324-345 | every step of every goroutine keeps tokens, buffers, mutex and merged parts in order |
| WorkerPool.Safety | pkg/analysis/betweenness_approx.go:326-344 | in every state of every schedule no two goroutines hold one buffer, none of them is in the pool, and no more run than there are tokens |
| WorkerPool.ScheduleIndependence | pkg/analysis/betweenness_approx.go:324-345 | the final partialBC is the sum of the pivots' contributions, whatever the schedule and the recycled buffers |
| WorkerPool.Progress | pkg/analysis/betweenness_approx.go:324-345 | until all have finished, some goroutine can take its own next step |
| WorkerPool.Termination | pkg/analysis/betweenness_approx.go:324-345 | every step but a pool drop lowers a bounded rank |
| WorkerPool.Completes | pkg/analysis/betweenness_approx.go:324-345 | every unfinished run can be carried on until all goroutines have finished |
| WorkerPool.FullyParallel | pkg/analysis/betweenness_approx.go:315-330 | as many goroutines as there are tokens can run at once |
| Coverage.AllEdgesMeaning | pkg/analysis/advanced_insights.go:474-487 | an edge is recorded iff an open issue has a blocking dependency on an open issue |
| Coverage.AllEdgesCount | pkg/analysis/advanced_insights.go:474-487 | an edge stands in the list as often as the open issue lists a blocking dependency on that open issue, and otherwise not at all |
| Coverage.BuildEdges | pkg/analysis/advanced_insights.go:474-487 | the recorded edges are exactly the blocking dependencies of open issues on open issues, each as often as it is listed, in any order of the issues |
| Coverage.CountDegrees | pkg/analysis/advanced_insights.go:515-520 | the degree of every node over the uncovered edges, self-edges twice |
| Coverage.PickBest | pkg/analysis/advanced_insights.go:522-556 | the node of largest degree, the smallest ID among equals, in any order of the map |
| Coverage.RemoveIncident | pkg/analysis/advanced_insights.go:534-541 | exactly the edges touching the pick go, and are counted |
| Coverage.GreedyCover | pkg/analysis/advanced_insights.go:504-559 | every item is the greedy choice; edgesCovered is exactly the number of edges incident to the picks; capped iff edges are left |
| Coverage.ItemMeaning | pkg/analysis/advanced_insights.go:515-556 | every item's degree counts the edges no earlier pick touches that begin in it and those that end in it, and added counts those it touches |
| Coverage.PickMeaning | pkg/analysis/advanced_insights.go:522-529 | no other node has a larger degree over those edges, and one of equal degree has a greater ID |
| Coverage.GenerateCoverageSet | pkg/analysis/advanced_insights.go:467-574 | the whole function: totals, the covered count, the default limit of five, the cap and the ratio, all on the recorded edges |
| Coverage.CoveredStep | pkg/analysis/advanced_insights.go:534-542 | the covered count after t picks grows by exactly the edges the pick adds |
| Coverage.AddedVersusDegree | pkg/analysis/advanced_insights.go:534-556 | a pick adds its degree less its uncovered self-edges |
| Coverage.DegreesDecrease | pkg/analysis/advanced_insights.go:514-557 | TotalDegree never increases from pick to pick |
| Coverage.PicksDistinct | pkg/analysis/advanced_insights.go:514-557 | no node is picked twice |
| Coverage.VertexCover | pkg/analysis/advanced_insights.go:559 | nothing is left uncovered iff the picks form a vertex cover |
| Coverage.GreedyBound | pkg/analysis/advanced_insights.go:504-557 | without self-dependencies, for any k nodes covering c edges: k^t (c - covered after t picks) <= (k-1)^t c |
| Coverage.GreedyBoundSelf | pkg/analysis/advanced_insights.go:504-557 | with self-dependencies, the same bound with 2k for k |
| Coverage.SelfEdgeBreaksBound | pkg/analysis/advanced_insights.go:517-528 | with a self-dependency the bound for k can fail |
| Unlock.ComputeMarginalUnblocks | pkg/analysis/advanced_insights.go:412-463 | exactly the open issues whose only open blocker left is the candidate, sorted, each once |
| Unlock.GenerateTopKSet | pkg/analysis/advanced_insights.go:324-394 | every pick has the largest gain, the smallest ID on ties; TotalGain is the number of issues the picks have freed; at most k picks, five when k is not positive, and fewer only when all open issues are picked |
| Unlock.GreedyMeaning | pkg/analysis/advanced_insights.go:354-394 | every pick is open and new and lists what it frees, and no other open issue left frees more, or as many with a smaller ID |
| Unlock.FreedMeaning | pkg/analysis/advanced_insights.go:412-463 | an issue is freed iff it is open, neither picked nor the candidate, has a blocking dependency on an open unpicked issue, and every such dependency is on the candidate |
| Unlock.TotalGainCounts | pkg/analysis/advanced_insights.go:354-394 | TotalGain counts the open issues whose nonempty set of open blockers lies inside the picks and that were not picked before or as their last blocker |
| Unlock.UnblocksDisjoint | pkg/analysis/advanced_insights.go:354-394 | the Unblocks lists of different picks have no issue in common |
| Unlock.MoreDone | pkg/analysis/advanced_insights.go:412-463 | completing more loses no unlock except of an issue that is itself completed |
| Unlock.GainCanGrow | pkg/analysis/advanced_insights.go:322-324 | the gain of an issue can grow as others are completed |
| Submodular.NeverGrowsIff | pkg/analysis/advanced_insights.go:322-324 | gains never grow, whatever open issues are completed on top of others, iff every open issue that does not wait for itself has at most one open blocker or is the only one over a pair that waits for each other |
| Submodular.MarginalGainsFall | pkg/analysis/advanced_insights.go:354-394 | then the marginal gains of the greedy selection never rise from pick to pick |
| IntHeap.Heap.Init | pkg/analysis/advanced_insights.go:650-656 | any slice becomes a heap of the same entries |
| IntHeap.Heap.Push | pkg/analysis/advanced_insights.go:14-18 | the heap gains the entry and stays a heap |
| IntHeap.Heap.Pop | pkg/analysis/advanced_insights.go:14-26 | a least entry leaves, the rest stays a heap |
| Kahn.TopoOrder | pkg/analysis/advanced_insights.go:647-672 | the order lists exactly the nodes no cycle leads to, tails before heads, and is the smallest such order in dictionary order |
| Kahn.Release | pkg/analysis/advanced_insights.go:666-671 | the counters come down by one for every parallel edge, and exactly the nodes that reach zero are queued |
| Kahn.GrownLinear | pkg/analysis/advanced_insights.go:661-676 | taking ready nodes until none is left lists exactly the nodes not reachable from a cycle |
| Kahn.GreedySmallest | pkg/analysis/advanced_insights.go:661-664 | taking the least ready node each time gives the lexicographically smallest order |
| Kahn.FullIffAcyclic | pkg/analysis/advanced_insights.go:674-676 | the order has all nodes iff the graph has no cycle |
| LongestPath.LongestLevels | pkg/analysis/advanced_insights.go:678-696 | dist and pred satisfy the recursion over the listed blockers, pred the smallest index among the best, on cyclic graphs too |
| LongestPath.LongestWalk | pkg/analysis/advanced_insights.go:678-696 | for every listed node dist is the largest number of edges of any walk that ends there |
| LongestPath.Rebuild | pkg/analysis/advanced_insights.go:730-741 | the predecessor walk ends and gives, reversed, the chain of dist+1 nodes from a source |
| CriticalPaths.OpenNodes | pkg/analysis/advanced_insights.go:593-603 | exactly the open issues, each once, in the order of their IDs |
| CriticalPaths.BuildGraph | pkg/analysis/advanced_insights.go:621-640 | the lists hold exactly the blocking dependencies between open issues, inDegree counts them with multiplicity |
| CriticalPaths.SortLists | pkg/analysis/advanced_insights.go:642-645 | the lists become ascending, the graph and its counts stay |
| CriticalPaths.RankEnds | pkg/analysis/advanced_insights.go:698-715 | every node once, in strictly falling order of length and, among equals, rising order of ID |
| CriticalPaths.SelectPaths | pkg/analysis/advanced_insights.go:717-770 | the picks are exactly the first k ends that are foremost among the ends of their source, longest first, smaller IDs first; each is reported with its chain |
| CriticalPaths.GenerateKPaths | pkg/analysis/advanced_insights.go:579-790 | at most k reported paths (five when k is not positive), each along blocking dependencies between open issues with no issue twice, cut at the cap (fifty when it is not positive), ranked by falling length with pairwise different first issues; without cycles no chain of open issues is longer than the first path unless that was cut; they are the chains of the first foremost ends and the counts are exact |
| CriticalPaths.PicksAreChains | pkg/analysis/advanced_insights.go:730-762 | each reported chain runs along blocking dependencies of open issues, no issue twice, dist+1 of them |
| CriticalPaths.FirstIsLongest | pkg/analysis/advanced_insights.go:709-728 | without cycles the first path is at least as long as any chain of open issues |
| CriticalPaths.OpenBlocksMeaning | pkg/analysis/advanced_insights.go:621-640 | an arc is a blocking dependency between issues that are neither closed nor tombstones |
| CriticalPaths.LongMeaning | pkg/analysis/advanced_insights.go:678-723 | the ends that count are the nodes with an arc from a listed node |
| CycleGuard.WouldCreateCycle | pkg/analysis/cycle_warnings.go:136-190 | true iff the target equals or reaches the source over blocking dependencies; the path is then a real closed walk from, to, ..., from with no node twice on the way |
| CycleGuard.Search.Dfs | pkg/analysis/cycle_warnings.go:156-180 | the recursive search extends the path to the goal, or leaves it as it was with the node and all it can reach visited; it ends because unvisited nodes run out |
| CycleGuard.CheckDependencyAddition | pkg/analysis/cycle_warnings.go:194-202 | approves exactly when the target does not reach the source, and otherwise names the cycle, with the warning as its text |
| CycleGuard.StaysAcyclic | pkg/analysis/cycle_warnings.go:192-202 | any run that starts acyclic and adds only approved dependencies is acyclic in every state |
| CycleGuard.RefusesOnlyCycles | pkg/analysis/cycle_warnings.go:192-202 | on an acyclic graph the addition keeps it acyclic iff it is approved |
| CycleGuard.BlockingMeaning | pkg/analysis/cycle_warnings.go:137-146 | an arc of the guard is a dependency of type blocks, or of no type |
| CycleSearch.FindOneCycleInScc | pkg/analysis/graph_cycles.go:58-143 | for any nodes: a cycle against the arcs inside them, no node twice but the end, or nothing iff the least node leads to no cycle inside them |
| CycleSearch.Turn | pkg/analysis/graph_cycles.go:102-140 | one turn of the loop finds a cycle on the stack or keeps the invariant and comes closer to the end |
| Cycles.OneCycle | pkg/analysis/graph_cycles.go:21-34 | a component gives a cycle inside it iff it is cyclic |
| Cycles.AcyclicIff | pkg/analysis/graph_cycles.go:12-34 | the graph has no cycle iff no component is cyclic |
| Cycles.FindCyclesSafe | pkg/analysis/graph_cycles.go:12-55 | real cycles, pairwise without a common node, one from each of the first cyclic components up to the limit, none iff the graph is acyclic (positive limit), shorter ones first and among equals by their first node |
| Capacity.Chains.Dfs | cmd/bt/robot_forecast.go:214-234 | the backtracking search leaves visited as it was and meets every simple chain that goes on from its path |
| Capacity.BuildBlocks | cmd/bt/robot_forecast.go:183-197 | both lists hold exactly the dependencies of open issues on known issues, one turned round against the other |
| Capacity.ActionableIssues | cmd/bt/robot_forecast.go:199-212 | exactly the open issues that depend on no open issue |
| Capacity.RunCapacity | cmd/bt/robot_forecast.go:158-256 | longestChain is a simple chain from an issue that can start, no other is longer; the actionable issues are those without an open blocker, each once; effective is the chain plus the largest number of minutes that all agents together can work within the rest; serial <= effective <= total |
| Capacity.UnblocksMeaning | cmd/bt/robot_forecast.go:183-197 | an open issue waits for another issue of the list when some dependency of any type points to it |
| Capacity.ActionableMeaning | cmd/bt/robot_forecast.go:199-212 | an issue can start iff it is not closed and no dependency of it points to an issue that is not closed |
| Capacity.EffectiveBounds | cmd/bt/robot_forecast.go:254-256 | effective minutes lie between the chain and the total, never grow with more agents, and reach the chain when agents outnumber the parallel minutes |
| Capacity.MinutesPart | cmd/bt/robot_forecast.go:239-246 | distinct open issues take no more minutes than all of them |
| Capacity.MinutesAdd | cmd/bt/robot_forecast.go:239-246 | the minutes of joined lists add up |
| Capacity.MinutesOne | cmd/bt/robot_forecast.go:239-246 | the minutes of one issue are its estimate |
| SnapshotNames.SanitizeCacheDBName | internal/datasource/embedded_cache.go:95-109 | letters, digits, underscore and dash stay, every other character becomes an underscore, an empty name becomes default |
| SnapshotNames.SanitizedIsSafe | internal/datasource/embedded_cache.go:90-109 | the result has safe characters only, safe names keep their own, sanitizing twice changes nothing |
| SnapshotNames.NamesCollide | internal/datasource/embedded_cache.go:86-109 | different database names can share a cache file |
| SnapshotNames.SamePathIff | internal/datasource/embedded_cache.go:86-109 | two databases share a cache file iff their sanitized names agree |
| SnapshotCodec.WriteSnapshot | internal/datasource/embedded_cache.go:172-242 | the bytes of the file, part by part: magic, version 1, two zeros, the manifest hash, the length of the name low byte first, the name, the payload; a name too long for its length field is an error |
| SnapshotCodec.ReadHeader | internal/datasource/embedded_cache.go:126-155 | the key the file carries, or nothing exactly when it carries no key |
| SnapshotCodec.ReadSnapshot | internal/datasource/embedded_cache.go:117-166 | a hit iff the file carries the wanted key and its payload decodes; everything else is a miss |
| SnapshotCodec.OneKey | internal/datasource/embedded_cache.go:126-159 | a file carries at most one key and one payload |
| SnapshotCodec.OnlyItsOwnKey | internal/datasource/embedded_cache.go:155-159 | a file written under one key is read under that key only, with its own payload |
| SnapshotCodec.ReadsBack | internal/datasource/embedded_cache.go:117-242 | what was written under a key is read back under that key, and under no other |
| SnapshotCodec.TruncatedHeader | internal/datasource/embedded_cache.go:126-153 | a file cut short inside its header is a miss |
| SnapshotCodec.LoadIssues | internal/datasource/embedded.go:105-178 | a hit returns the cached payload and exports nothing; otherwise the first export that does not plainly fail decides, and only its issues are stored |
| SnapshotDisk.ProbeReads | internal/datasource/embedded_cache.go:117-166 | when the directory holds the bytes of the entries and otherwise only files without a key, reading it gives exactly what the state machine's probe gives: the entry's issues on a hit, nothing on a miss |
| SnapshotDisk.HitCarries | internal/datasource/embedded_cache.go:155-159 | the state machine hits iff the file carries the wanted key |
| SnapshotDisk.RenameWrites | internal/datasource/embedded_cache.go:172-242 | renaming the written bytes into place is the state machine's rename step |
| SnapshotDisk.StepRefines | internal/datasource/embedded.go:105-178 | every step of the machine that reads, writes and deletes byte files is the abstract step |
| SnapshotDisk.RunRefines | internal/datasource/embedded.go:105-178 | every run on bytes, from a directory of files without a key, shows an abstract run state by state |
| SnapshotDisk.RunRealized | internal/datasource/embedded.go:105-178 | every abstract run over names that fit their length field has a run on bytes, from an empty directory, that shows it state by state |
| SnapshotDisk.BytesLinearizable | internal/datasource/embedded.go:105-178 | in every run on bytes, with manifests never reused and no two of them with one hash, what a load returns was the state of its own database at some moment inside the call |
| SnapshotCache.StepInv | internal/datasource/embedded.go:105-178 | every step of every loader and committer keeps the invariant, manifests that come back included |
| SnapshotCache.Linearizable | internal/datasource/embedded.go:105-178 | in every interleaving, with manifests never reused, every result, hit or miss, is the state of the call's own database at some moment inside the call |
| SnapshotCache.NeverBackwards | internal/datasource/embedded.go:105-178 | a call that begins after another has returned sees no older state |
| SnapshotCache.StaleWithReusedManifest | internal/datasource/embedded.go:98-104 | if a manifest may come back, some run returns data that was not current at any moment of the call |
| SnapshotCalls.ExportedIsDelivered | internal/datasource/embedded.go:153-166 | in every run what a call has exported is what it returns, whether or not the cache file is written |
| SnapshotCalls.FailedIff | internal/datasource/embedded.go:147-177 | in every run a call has failed iff it has given up or maxRetries + 1 of its exports have failed |
| SnapshotCalls.CanLoad | internal/datasource/embedded.go:105-178 | every run can be carried on until a call that has not failed returns issues |
| SnapshotCalls.LikeTheLoop | internal/datasource/embedded.go:147-177 | behind a miss a call left alone ends as the loop of SnapshotCodec.LoadIssues ends, whatever the attempts bring |
| SnapshotCalls.UnchangedIsServed | internal/datasource/embedded.go:114-122 | a call that has read the key of a file put in place and left alone since returns what the writer returned, without an export |
| SnapshotCalls.KeyIsCurrent | internal/datasource/embedded.go:115 | the key a call reads is the manifest current at that moment, or none when there is none |
| SnapshotCalls.LabelledRuns | internal/datasource/embedded.go:105-178 | a run told step by step is a run, and by SnapshotCalls.Labels every run can be told so |
| SnapshotReuse.LinearIffSettled | internal/datasource/embedded.go:98-178 | for every history of a database: in all runs along it every load is linearizable iff the history is settled |
| SnapshotReuse.SettledLinear | internal/datasource/embedded.go:98-178 | along a settled history every result of every run was current inside its call, whatever the other databases do |
| SnapshotReuse.UnsettledRun | internal/datasource/embedded.go:98-178 | every unsettled history has a run with a load that was current at no moment of its call |
| CacheStream.ComputeDataHash | pkg/analysis/cache.go:138-301 | the hash of the stream of the issues in ID order, by whatever sort; an empty list has a key of its own |
| CacheStream.WriteIssue | pkg/analysis/cache.go:151-298 | one issue: sixteen fields, sorted labels, sorted dependencies, sorted comments, the byte between issues |
| CacheStream.Layout | pkg/analysis/cache.go:151-298 | the bytes of an issue spelled out: the sixteen fields by name, then the labels, dependencies and comments in the one order their comparisons allow |
| CacheStream.PresentCount | pkg/analysis/cache.go:219-221 | absent dependencies and comments are left out and nothing else is |
| KeyTokens.StreamIsTokens | pkg/analysis/cache.go:151-298 | for fields without zero bytes two streams are equal iff the lists of fields behind them are |
| CacheKey.SafeIdentifies | pkg/analysis/cache.go:138-301 | without zero bytes and empty labels, without risky comment IDs, and without risky dependency types unless no dependency has an empty target, two lists give the same stream iff they are equal up to the order of issues, labels, dependencies and comments |
| CacheKey.ContentMeaning | pkg/analysis/cache.go:151-298 | equal up to order means: every field equal, a missing external reference counting as an empty one, and every label, dependency and comment as often |
| CacheKey.ValidatedIdentifies | pkg/analysis/cache.go:138-301 | for issues that pass validation and have no zero bytes and no empty labels the same holds whatever the comment IDs, dependency targets and dependency types are |
| CacheKey.KnownAbove | pkg/model/types.go:219-242 | every status that validation accepts is above every number as text |
| CacheKey.AboveIff | pkg/analysis/cache.go:182 | a status is above every 64-bit number as text iff it is above eighteen nines |
| KeyCollisions.RiskyCollides | pkg/analysis/cache.go:210-297 | every risky comment ID, every risky dependency type, and every status that some priority reaches as text make two different lists share a stream, with real times and otherwise valid issues |
| KeyCollisions.IdentifiesIff | pkg/analysis/cache.go:138-301 | with free statuses, without zero bytes and empty labels, the stream identifies the issues up to order iff no allowed comment ID or dependency type is risky or every allowed status is above all numbers |
| ValidatedKeys.ValidatedIff | pkg/analysis/cache.go:138-301 | validated issues are identified up to order iff neither zero bytes nor empty labels are allowed |
| ValidatedKeys.EmptyLabelCollides | pkg/analysis/cache.go:197-207 | at any time: two validated issues without zero bytes, one with an empty label, one with a dependency, share a stream |
| ValidatedKeys.ZeroByteCollides | pkg/analysis/cache.go:151-160 | whatever the texts: a zero byte between title and description may belong to either, and both issues share a stream |
| DiskCache.Prune | pkg/analysis/cache.go:770-776 | exactly the entries that are a day old or younger stay |
| DiskCache.EvictLru | pkg/analysis/cache.go:778-804 | at most ten entries stay, unchanged, each with a later (time of use, key) than every entry that went |
| DiskCache.EvictionUnique | pkg/analysis/cache.go:778-804 | what eviction leaves does not depend on the order of the map |
| DiskCache.Cache.Get | pkg/analysis/cache.go:806-844 | the whole new file and the answer, however writing the file back goes: expired entries go, a hit is stamped, and returned even when the write fails |
| DiskCache.Cache.Put | pkg/analysis/cache.go:886-922 | the whole new file, however the write goes: expired entries go, the entry is stored, the oldest are evicted; an oversized result changes nothing |
| DiskCache.StepInv | pkg/analysis/cache.go:806-921 | every get, put, failed write and crash keeps: at most ten entries, each with the blob of the latest stored put of its key and the time of its latest recorded use |
| DiskCache.HitIsLatest | pkg/analysis/cache.go:806-844 | in every run every hit, also one whose stamp is lost, returns the blob of the latest stored put of its key, made at most a day ago; oversized puts and puts whose write failed are not stored |
| DiskCacheHits.HitIff | pkg/analysis/cache.go:806-844 | in every run a get hits iff the file holds an entry of its key stored at a positive time at most 24 hours ago, and then returns the latest stored put |
| DiskCacheHits.StaysStored | pkg/analysis/cache.go:778-921 | a stored entry is still in the file while it is at most 24 hours old, fewer than ten other keys have been used since its last use, and no write has been cut short |
| DiskCacheHits.RecentIsHit | pkg/analysis/cache.go:806-921 | so a get of a key put within 24 hours, of at most ten megabytes, with fewer than ten other keys used since, hits |
| DiskCache.NeverMoreThanTen | pkg/analysis/cache.go:778-804 | in every state of every run the file holds at most ten entries |
| DiskCache.PutEvictsOldest | pkg/analysis/cache.go:778-804 | what a put pushes out was used, by the recorded uses, before everything it leaves, or at the same time with a smaller key |
| DiskCache.FreshIsKept | pkg/analysis/cache.go:904-921 | a fresh entry is evicted at once only when all that stay were used at that very time under greater keys |
| Diff.DetectChanges | pkg/analysis/diff.go:241-337 | names exactly the fields that differ, each of the eleven spelled out, in the order of the code |
| Diff.CompareSnapshots | pkg/analysis/diff.go:140-238 | each list, the modified one too, holds exactly its issues, each once, in ID order; modifications list exactly the fields that differ, without the status when it closed or reopened |
| Diff.PatchRebuilds | pkg/analysis/diff.go:140-238 | applied to the older snapshot the lists give the newer one on all compared fields |
| Diff.SwapExchanges | pkg/analysis/diff.go:140-238 | swapping the arguments exchanges new and removed, closed and reopened, and modifies the same issues |
| Diff.EmptyIff | pkg/analysis/diff.go:460-491 | no change is counted iff both snapshots have the same issues and agree on all of them |
| DiffFields.AgreeIff | pkg/analysis/diff.go:241-337 | versions agree iff title, status, priority, assignee, type, description, design, acceptance criteria, notes, dependency strings and label sets are equal |
| DiffFields.ToldIff | pkg/analysis/diff.go:535-546 | for every set of dependencies to draw from: the strings tell dependency sets apart as targets and types do iff no two dependencies are (t, s:k) and (t:s, k) |
| DiffFields.NoColons | pkg/analysis/diff.go:535-546 | targets without a colon never overlap, nor do types without one |
| DiffFields.PatchFields | pkg/analysis/diff.go:140-238 | without such overlaps the patched snapshot has the issues of the newer one with the same nine fields, (target, type) pairs and labels |
| DiffFields.EmptyIffFields | pkg/analysis/diff.go:460-491 | without such overlaps nothing is counted iff both snapshots have the same issues with the same fields, (target, type) pairs and labels |
| DiffFields.ListsMeaning | pkg/analysis/diff.go:140-228 | new, removed, closed and reopened by presence and by the statuses closed and tombstone before and after |
| DiffFields.ModifiedMeaning | pkg/analysis/diff.go:190-228 | an issue is modified iff it differs beyond the status change that closed or reopened it |
| DiffFields.TotalCounts | pkg/analysis/diff.go:477-491 | the total adds up the five kinds of change, each issue once in each |
| DiffCounts.ComputeCounts | pkg/analysis/diff.go:55-68 | open counts the issues with status open, in_progress or blocked, closed those closed or tombstone, blocked those blocked, and limbo is what is missing from the total |
| DiffCounts.OpenChangesIff | pkg/analysis/diff.go:420-425 | the open count changes by new, reopened, closed and removed live issues iff as many issues are in limbo before as after |
| DiffCounts.DeferredUnbalances | pkg/analysis/diff.go:55-68 | one open issue becomes deferred: nothing is new, closed, removed or reopened, and the open count falls by one |
| DiffCounts.NetChange | pkg/analysis/diff.go:491-494 | NetIssueChange is the change of the total |
| CycleKeys.NormalizeCycle | pkg/analysis/diff.go:386-414 | the rotation that starts at the first of the smallest IDs, joined with arrows |
| CycleKeys.CanonicalIff | pkg/analysis/diff.go:386-403 | for cycles without repetition the rotated lists agree iff one is a rotation of the other |
| CycleKeys.ClosedIff | pkg/analysis/diff.go:386-403 | for cycles that repeat their first node at the end the rotated lists agree iff the cycles are equal as lists |
| CycleKeys.JoinInjective | pkg/analysis/diff.go:405-413 | joining with arrows loses nothing when no ID contains an arrow |
| CycleKeys.JoinSplits | pkg/analysis/diff.go:405-413 | joined lists come apart at an arrow, and a single entry is itself |
| CycleKeys.ArrowConfuses | pkg/analysis/diff.go:405-413 | an ID that contains an arrow gives two cycles that are not rotations of each other one key |
| CycleKeys.CompareCycles | pkg/analysis/diff.go:340-377 | new and resolved: for each key of one list that the other lacks the last cycle listed with it, in strictly rising order of the keys |
| CycleKeys.MissingMeaning | pkg/analysis/diff.go:340-377 | a cycle is reported iff no cycle of the other list has its key and no later one of its own list |
| CycleKeys.SwapCycles | pkg/analysis/diff.go:340-377 | swapping the arguments exchanges new and resolved cycles, as lists |
| CycleKeys.KnownDistinct | pkg/analysis/diff.go:340-377 | for IDs without an arrow inside: listed without repetition, a cycle is known iff some rotation of it is listed |
| CycleKeys.KnownClosed | pkg/analysis/diff.go:340-377 | for IDs without an arrow inside: listed as the cycle finder lists it, a cycle is known iff the very same list is there |
| CycleKeys.SameCycleNewAndResolved | pkg/analysis/diff.go:340-377 | two issues that depend on each other: found from one before and from the other after, their cycle is reported as new and as resolved |
| Duplicates.ExtractKeywords | pkg/analysis/duplicates.go:233-256 | every word of three bytes or more that is no stop word, once |
| Duplicates.BuildIndex | pkg/analysis/duplicates.go:84-100 | under each word exactly the issues with enough keywords that have it, each once |
| Duplicates.CountOverlaps | pkg/analysis/duplicates.go:111-122 | the counter of every later candidate is the number of its keywords shared |
| Duplicates.SharedIs | pkg/analysis/duplicates.go:111-134 | without duplicate keywords, counting entries counts the intersection |
| Duplicates.Evaluate | pkg/analysis/duplicates.go:124-163 | a candidate passes iff direct comparison of the keyword sets accepts it; similarity and common words are the true ones |
| Duplicates.MatchMeaning | pkg/analysis/duplicates.go:124-152 | two issues match iff both have enough keywords, the common words are at least threshold times all words, neither is a tombstone, and, if asked for, both are closed or neither is |
| Duplicates.TruthfulMeaning | pkg/analysis/duplicates.go:130-163 | a reported pair names its two issues, their common words, and the quotient of common and all words |
| Duplicates.FindPairs | pkg/analysis/duplicates.go:84-165 | the pairs found through the index are, for positive thresholds, exactly those that comparing every pair of keyword sets finds, each once |
| Duplicates.LosesNothingIff | pkg/analysis/duplicates.go:111-138 | whatever the issues say and whatever the stop words are: looking only at shared keywords loses nothing iff the threshold is positive |
| Duplicates.IntersectKeywords | pkg/analysis/duplicates.go:209-222 | the common words, sorted, each once |
| Duplicates.DetectDuplicates | pkg/analysis/duplicates.go:79-171 | at most the allowed number of pairs, each once, with its true similarity and common words, most similar first, none less similar than one that is left out |

## Left out

- Exact betweenness for samples of all nodes is the graph library's; only the sampled path is modelled.
- Brandes.Buffers.SingleSource: takes lists without duplicates, as the cached adjacency of a simple graph has them.
- Brandes.Buffers.Reset: slices are arrays whose length is the capacity; the per-node capacity of predecessor lists and of the queue is not modelled.
- WorkerPool.ScheduleIndependence: addition is exact over the reals, so it says nothing about rounding differences between schedules.
- Time limits, wall-clock values, retry delays and the elapsed time in results.
- Titles, rationales, usage hints and other display text of the insights results; the suggestions for breaking cycles and the parallel cut.
- Unlock.GenerateTopKSet: titles are not carried along.
- Capacity.RunCapacity: the label filter is applied by the caller, the minutes of an issue are a parameter, days and percentages and the bottleneck list are not modelled.
- Cycles.FindCyclesSafe: the strongly connected components are given, with their defining property.
- SnapshotCache.Linearizable: the database name in the configuration does not change during a load, and an export is one atomic read.
- SnapshotCodec.LoadIssues: the subprocess is a list of outcomes; looking up the program and the file operations of the atomic rename are not modelled here, the rename is a step of SnapshotCache.
- CacheStream.ComputeDataHash: the hash itself is a parameter; timestamps enter as text.
- KeyCollisions.IdentifiesIff: of the free texts, empty statuses are left out, and of dependency types only those that begin with byte one are restricted.
- CacheKey.ValidatedIdentifies: zero bytes and empty labels are excluded, since with either the statement is false (ValidatedKeys.ValidatedIff); of validation's comparison of times nothing is needed and nothing modelled.
- CacheKey.SafeIdentifies: zero bytes and empty labels are excluded for the same reason.
- SnapshotDisk.ProbeReads: the hash is assumed to tell the manifests that occur apart, and the encoding of issues to be decoded as it was encoded.
- DiskCache.Cache.Get: opening, locking and decoding the file are one read; an operation that cannot open or lock the file counts as a crash that leaves it alone.
- The in-memory cache with its time to live, the analyzer wrapper and the per-issue fingerprints.
- CycleKeys.KnownDistinct: IDs with an arrow inside are excluded; with them different cycles can share a key (CycleKeys.ArrowConfuses).
- CycleKeys.KnownClosed: IDs with an arrow inside are excluded for the same reason.
- Diff.DetectChanges: names the fields only; the old and new values shown to the user are not modelled, and dependencies are compared by the strings the code makes of them.
- Diff.CompareSnapshots: averages of centralities, component counts and the health trend are not modelled.
- Duplicates.ExtractKeywords: starts from the list of words; lower-casing and the splitting of text are not modelled.
- Duplicates.DetectDuplicates: ends with the ranked pairs; the suggestion text made from them is not modelled.
- Command-line plumbing, encoders, SQL readers, terminal views, recipes and the query language.
