/**
 One cycle inside a set of nodes, pkg/analysis/graph_cycles.go: depth-first search with an explicit stack that
 remembers, for each node on it, how far its neighbour list has been worked through.
 */
module CycleSearch {
  import opened Sums
  import opened Digraphs
  import Sorting

  /** For each node, the nodes with an arc to it, in the order the graph iterates them. */
  type Preds = map<int, seq<int>>

  /** The search follows arcs backwards: from a node to those with an arc to it, inside the given nodes. */
  ghost function Inside(g: Preds, nodes: seq<int>): set<(int, int)>
  {
    set u, v | u in nodes && v in At(g, u) && v in nodes :: (u, v)
  }

  // ---------- the state of the search ----------

  datatype State = State(
    visited: set<int>,
    onStack: set<int>,
    stackPos: map<int, int>,
    stack: seq<int>,
    next: map<int, nat>
  )

  function Next(st: State, u: int): nat
  {
    if u in st.next then st.next[u] else 0
  }

  /** Nodes whose lists are worked through, each after all its neighbours. */
  ghost predicate Finished(adj: map<int, seq<int>>, done: seq<int>)
  {
    && Distinct(done)
    && forall i, v | 0 <= i < |done| && v in At(adj, done[i]) :: v in done[..i]
  }

  ghost predicate StackShape(adj: map<int, seq<int>>, st: State)
  {
    && Distinct(st.stack)
    && (forall i | 0 <= i < |st.stack| - 1 :: st.stack[i + 1] in At(adj, st.stack[i]))
    && (forall i | 0 <= i < |st.stack| - 1 :: st.stack[i] in st.visited)
    && (forall u :: u in st.onStack <==> u in st.stack && u in st.visited)
    && (forall i | 0 <= i < |st.stack| :: st.stack[i] in st.stackPos && st.stackPos[st.stack[i]] == i)
  }

  /** The list of the node at place i: what lies before its mark is done, except where the next node came from. */
  ghost predicate Worked(adj: map<int, seq<int>>, st: State, done: seq<int>, i: nat)
    requires i < |st.stack|
  {
    var u := st.stack[i];
    && Next(st, u) <= |At(adj, u)|
    && forall v | v in At(adj, u)[..Next(st, u)] :: v in done || (i + 1 < |st.stack| && v == st.stack[i + 1])
  }

  ghost predicate Progress(adj: map<int, seq<int>>, st: State, done: seq<int>)
  {
    && (forall u | u !in st.stack || u !in st.visited :: Next(st, u) == 0)
    && forall i | 0 <= i < |st.stack| :: Worked(adj, st, done, i)
  }

  ghost predicate Places(adj: map<int, seq<int>>, nodes: set<int>, st: State, done: seq<int>)
  {
    && (forall u, v | v in At(adj, u) :: v in nodes)
    && st.visited <= nodes && (forall u | u in st.stack :: u in nodes)
    && (forall u :: u in done <==> u in st.visited && u !in st.stack)
  }

  ghost predicate Inv(adj: map<int, seq<int>>, nodes: set<int>, st: State, done: seq<int>)
  {
    Places(adj, nodes, st, done) && Finished(adj, done) && StackShape(adj, st) && Progress(adj, st, done)
  }

  // ---------- the steps ----------

  function Top(st: State): int
    requires st.stack != []
  {
    st.stack[|st.stack| - 1]
  }

  function Visited(st: State): State
    requires st.stack != []
  {
    st.(visited := st.visited + {Top(st)}, onStack := st.onStack + {Top(st)})
  }

  function Advanced(st: State): State
    requires st.stack != []
  {
    st.(next := st.next[Top(st) := Next(st, Top(st)) + 1])
  }

  function Pushed(st: State, v: int): State
  {
    st.(stackPos := st.stackPos[v := |st.stack|], stack := st.stack + [v])
  }

  function Popped(st: State): State
    requires st.stack != []
  {
    st.(onStack := st.onStack - {Top(st)}, stackPos := st.stackPos - {Top(st)}, stack := st.stack[..|st.stack| - 1],
        next := st.next - {Top(st)})
  }

  // Each step keeps the invariant; the parts are kept one by one.

  lemma VisitStep(adj: map<int, seq<int>>, nodes: set<int>, st: State, done: seq<int>)
    requires Inv(adj, nodes, st, done) && st.stack != [] && Top(st) !in st.visited
    ensures Inv(adj, nodes, Visited(st), done)
  {
    VisitShape(adj, st);
    VisitProgress(adj, st, done);
  }

  lemma VisitShape(adj: map<int, seq<int>>, st: State)
    requires StackShape(adj, st) && st.stack != []
    ensures StackShape(adj, Visited(st))
  {
  }

  lemma VisitProgress(adj: map<int, seq<int>>, st: State, done: seq<int>)
    requires Progress(adj, st, done) && st.stack != []
    ensures Progress(adj, Visited(st), done)
  {
    forall i | 0 <= i < |st.stack| ensures Worked(adj, Visited(st), done, i) {
      assert Worked(adj, st, done, i);
    }
  }

  lemma AdvanceStep(adj: map<int, seq<int>>, nodes: set<int>, st: State, done: seq<int>)
    requires Inv(adj, nodes, st, done) && st.stack != [] && Top(st) in st.visited
    requires Next(st, Top(st)) < |At(adj, Top(st))| && At(adj, Top(st))[Next(st, Top(st))] in done
    ensures Inv(adj, nodes, Advanced(st), done)
  {
    forall i | 0 <= i < |st.stack| ensures Worked(adj, Advanced(st), done, i) {
      AdvanceWorked(adj, st, done, i);
    }
    assert StackShape(adj, Advanced(st));
    assert Progress(adj, Advanced(st), done);
  }

  lemma AdvanceWorked(adj: map<int, seq<int>>, st: State, done: seq<int>, i: nat)
    requires i < |st.stack| && Distinct(st.stack) && Worked(adj, st, done, i)
    requires var u := Top(st); Next(st, u) < |At(adj, u)| && At(adj, u)[Next(st, u)] in done
    ensures Worked(adj, Advanced(st), done, i)
  {
    var u := Top(st);
    if i == |st.stack| - 1 {
      assert At(adj, u)[..Next(st, u) + 1] == At(adj, u)[..Next(st, u)] + [At(adj, u)[Next(st, u)]];
    }
  }

  lemma PushStep(adj: map<int, seq<int>>, nodes: set<int>, st: State, done: seq<int>, v: int)
    requires Inv(adj, nodes, st, done) && st.stack != [] && Top(st) in st.visited
    requires Next(st, Top(st)) < |At(adj, Top(st))| && At(adj, Top(st))[Next(st, Top(st))] == v && v !in st.visited
    ensures Inv(adj, nodes, Pushed(Advanced(st), v), done)
    ensures v in nodes - st.visited && v !in st.stack
  {
    PushShape(adj, st, v);
    var after := Pushed(Advanced(st), v);
    forall i | 0 <= i < |after.stack| ensures Worked(adj, after, done, i) {
      if i < |st.stack| {
        assert Worked(adj, st, done, i);
        PushWorked(adj, st, done, v, i);
      }
    }
    assert Progress(adj, after, done);
  }

  lemma PushPositions(adj: map<int, seq<int>>, st: State, v: int)
    requires StackShape(adj, st) && st.stack != [] && v !in st.stack
    ensures var after := Pushed(Advanced(st), v);
      forall i | 0 <= i < |after.stack| :: after.stack[i] in after.stackPos && after.stackPos[after.stack[i]] == i
  {
  }

  lemma PushTrail(adj: map<int, seq<int>>, st: State, v: int)
    requires StackShape(adj, st) && st.stack != [] && v !in st.stack && v in At(adj, Top(st)) && Top(st) in st.visited
    ensures var stack := Pushed(Advanced(st), v).stack;
      && Distinct(stack)
      && forall i | 0 <= i < |stack| - 1 :: stack[i + 1] in At(adj, stack[i]) && stack[i] in st.visited
  {
    var stack := Pushed(Advanced(st), v).stack;
    forall i | 0 <= i < |stack| - 1 ensures stack[i + 1] in At(adj, stack[i]) && stack[i] in st.visited {
      assert stack[i] == st.stack[i];
      if i < |st.stack| - 1 {
        assert stack[i + 1] == st.stack[i + 1];
      }
    }
  }

  lemma PushShape(adj: map<int, seq<int>>, st: State, v: int)
    requires StackShape(adj, st) && st.stack != [] && Top(st) in st.visited
    requires v in At(adj, Top(st)) && v !in st.visited
    ensures StackShape(adj, Pushed(Advanced(st), v)) && v !in st.stack
  {
    assert forall i | 0 <= i < |st.stack| :: st.stack[i] in st.visited;
    PushPositions(adj, st, v);
    PushTrail(adj, st, v);
    assert forall u :: u in Pushed(Advanced(st), v).stack <==> u in st.stack || u == v;
  }

  lemma PushWorked(adj: map<int, seq<int>>, st: State, done: seq<int>, v: int, i: nat)
    requires i < |st.stack| && Distinct(st.stack) && Worked(adj, st, done, i)
    requires var u := Top(st); Next(st, u) < |At(adj, u)| && At(adj, u)[Next(st, u)] == v
    ensures Worked(adj, Pushed(Advanced(st), v), done, i)
  {
    var u := Top(st);
    if i == |st.stack| - 1 {
      assert At(adj, u)[..Next(st, u) + 1] == At(adj, u)[..Next(st, u)] + [v];
    }
  }

  lemma PopStep(adj: map<int, seq<int>>, nodes: set<int>, st: State, done: seq<int>)
    requires Inv(adj, nodes, st, done) && st.stack != [] && Top(st) in st.visited
    requires Next(st, Top(st)) == |At(adj, Top(st))|
    ensures Inv(adj, nodes, Popped(st), done + [Top(st)])
  {
    PopShape(adj, st);
    PopPlaces(adj, nodes, st, done);
    assert Worked(adj, st, done, |st.stack| - 1);
    PopFinished(adj, st, done);
    PopProgress(adj, st, done);
  }

  lemma PopShape(adj: map<int, seq<int>>, st: State)
    requires StackShape(adj, st) && st.stack != [] && Top(st) in st.visited
    ensures StackShape(adj, Popped(st)) && Top(st) !in Popped(st).stack
  {
    var s := Popped(st).stack;
    assert forall i | 0 <= i < |s| :: s[i] == st.stack[i];
    assert st.stack == s + [Top(st)];
  }

  lemma PopPlaces(adj: map<int, seq<int>>, nodes: set<int>, st: State, done: seq<int>)
    requires Places(adj, nodes, st, done) && st.stack != [] && Top(st) in st.visited && Top(st) !in Popped(st).stack
    ensures Places(adj, nodes, Popped(st), done + [Top(st)])
  {
    assert st.stack == Popped(st).stack + [Top(st)];
  }

  lemma PopFinished(adj: map<int, seq<int>>, st: State, done: seq<int>)
    requires st.stack != [] && Finished(adj, done) && Top(st) !in done && Worked(adj, st, done, |st.stack| - 1)
    requires Next(st, Top(st)) == |At(adj, Top(st))|
    ensures Finished(adj, done + [Top(st)])
  {
    var more := done + [Top(st)];
    assert At(adj, Top(st))[..|At(adj, Top(st))|] == At(adj, Top(st));
    forall i, v | 0 <= i < |more| && v in At(adj, more[i]) ensures v in more[..i] {
      assert more[..i] == done[..i];
    }
    assert done[..|done|] == done;
  }

  lemma PopProgress(adj: map<int, seq<int>>, st: State, done: seq<int>)
    requires st.stack != [] && Distinct(st.stack) && Progress(adj, st, done)
    ensures Progress(adj, Popped(st), done + [Top(st)])
  {
    var after := Popped(st);
    assert st.stack == after.stack + [Top(st)];
    forall i | 0 <= i < |after.stack| ensures Worked(adj, after, done + [Top(st)], i) {
      assert Worked(adj, st, done, i);
    }
    forall u | u !in after.stack || u !in after.visited ensures Next(after, u) == 0 {
      assert u in st.stack <==> u in after.stack || u == Top(st);
    }
  }

  // ---------- neighbour lists ----------

  method Neighbours(g: Preds, inScc: set<int>, u: int) returns (neighbors: seq<int>)
    ensures forall v :: v in neighbors <==> v in At(g, u) && v in inScc
    ensures Sorting.Ascending(Sorting.ByNumber(), neighbors)
  {
    var to := At(g, u);
    neighbors := [];
    for i := 0 to |to|
      invariant forall v :: v in neighbors <==> v in to[..i] && v in inScc
    {
      assert to[..i + 1] == to[..i] + [to[i]];
      if to[i] in inScc {
        neighbors := neighbors + [to[i]];
      }
    }
    assert to[..|to|] == to;
    Sorting.SortKeeps(Sorting.ByNumber(), neighbors);
    Sorting.SortAscends(Sorting.ByNumber(), neighbors);
    neighbors := Sorting.Sort(Sorting.ByNumber(), neighbors);
  }

  method BuildAdj(g: Preds, scc: seq<int>) returns (adj: map<int, seq<int>>)
    ensures ListsOf(adj, Inside(g, scc))
  {
    var inScc := set n | n in scc;
    adj := map[];
    for i := 0 to |scc|
      invariant forall u :: u in adj <==> u in scc[..i]
      invariant forall u, v | u in adj :: v in adj[u] <==> (u, v) in Inside(g, scc)
    {
      var list := Neighbours(g, inScc, scc[i]);
      adj := adj[scc[i] := list];
      assert scc[..i + 1] == scc[..i] + [scc[i]];
    }
    assert scc[..|scc|] == scc;
  }

  // ---------- what the outcome means ----------

  ghost predicate IsLeast(nodes: seq<int>, s: int)
  {
    s in nodes && forall x | x in nodes :: s <= x
  }

  /** From the least node one can come to a cycle without leaving the set. */
  ghost predicate CycleAhead(g: Preds, nodes: seq<int>)
  {
    exists s, c :: IsLeast(nodes, s) && Reaches(Inside(g, nodes), s, c) && OnCycle(Inside(g, nodes), c)
  }

  /** Along a trail the places in the finished list fall. */
  lemma {:induction false} FallingPlaces(adj: map<int, seq<int>>, arcs: set<(int, int)>, done: seq<int>, p: seq<int>,
                                         i: nat)
      returns (j: nat)
    requires ListsOf(adj, arcs) && Finished(adj, done) && Trail(arcs, p) && i < |done| && done[i] == p[0]
    ensures j + |p| <= i + 1 && done[j] == p[|p| - 1]
    decreases |p|
  {
    if |p| == 1 {
      j := i;
    } else {
      assert (p[0], p[0 + 1]) in arcs;
      InList(adj, arcs, p[0], p[1]);
      assert p[1] in done[..i];
      var k :| 0 <= k < i && done[..i][k] == p[1];
      Part(arcs, p, 1, |p|);
      j := FallingPlaces(adj, arcs, done, p[1..], k);
    }
  }

  lemma NothingAhead(adj: map<int, seq<int>>, g: Preds, nodes: seq<int>, done: seq<int>, s: int)
    requires ListsOf(adj, Inside(g, nodes)) && Finished(adj, done) && IsLeast(nodes, s) && s in done
    ensures !CycleAhead(g, nodes)
  {
    var arcs := Inside(g, nodes);
    forall s', c ensures !(IsLeast(nodes, s') && Reaches(arcs, s', c) && OnCycle(arcs, c)) {
      if IsLeast(nodes, s') && Reaches(arcs, s', c) && OnCycle(arcs, c) {
        assert s' == s;
        var p :| TrailFromTo(arcs, p, s, c);
        var loop :| Closed(arcs, loop) && loop[0] == c;
        var i :| 0 <= i < |done| && done[i] == s;
        var j := FallingPlaces(adj, arcs, done, p, i);
        var k := FallingPlaces(adj, arcs, done, loop, j);
      }
    }
  }

  /** The part of the stack from v up, closed with v. */
  lemma LoopOf(arcs: set<(int, int)>, stack: seq<int>, pos: nat, v: int)
    requires Trail(arcs, stack) && Distinct(stack) && pos < |stack| && stack[pos] == v
      && (stack[|stack| - 1], v) in arcs
    ensures Closed(arcs, stack[pos..] + [v]) && OnCycle(arcs, v) && Reaches(arcs, stack[0], v)
    ensures Distinct((stack[pos..] + [v])[1..]) && Distinct((stack[pos..] + [v])[..|stack| - pos])
  {
    var part := stack[pos..];
    var cycle := part + [v];
    Part(arcs, stack, pos, |stack|);
    Join(arcs, part, [stack[|stack| - 1], v]);
    assert cycle == part + [stack[|stack| - 1], v][1..];
    assert cycle[..|stack| - pos] == part;
    DistinctEnds(part, v);
    assert Closed(arcs, cycle) && cycle[0] == v;
    Part(arcs, stack, 0, pos + 1);
    assert TrailFromTo(arcs, stack[..pos + 1], stack[0], v);
  }

  lemma CycleFound(adj: map<int, seq<int>>, g: Preds, nodes: seq<int>, st: State, v: int)
    requires ListsOf(adj, Inside(g, nodes)) && StackShape(adj, st) && st.stack != [] && IsLeast(nodes, st.stack[0])
    requires v in At(adj, Top(st)) && v in st.onStack
    ensures v in st.stackPos && 0 <= st.stackPos[v] < |st.stack|
    ensures IsCycle(g, nodes, st.stack[st.stackPos[v]..] + [v]) && CycleAhead(g, nodes)
  {
    var pos :| 0 <= pos < |st.stack| && st.stack[pos] == v;
    assert st.stackPos[v] == pos;
    StackTrail(adj, Inside(g, nodes), st);
    LoopOf(Inside(g, nodes), st.stack, pos, v);
    assert (st.stack[pos..] + [v])[..|st.stack| - pos] == (st.stack[pos..] + [v])[..|st.stack[pos..] + [v]| - 1];
  }

  lemma StackTrail(adj: map<int, seq<int>>, arcs: set<(int, int)>, st: State)
    requires ListsOf(adj, arcs) && StackShape(adj, st) && st.stack != []
    ensures Trail(arcs, st.stack)
  {
    forall i | 0 <= i < |st.stack| - 1 ensures (st.stack[i], st.stack[i + 1]) in arcs {
      InList(adj, arcs, st.stack[i], st.stack[i + 1]);
    }
  }

  /** A closed walk against the arcs that stays inside the nodes and repeats none but its end. */
  ghost predicate IsCycle(g: Preds, nodes: seq<int>, cycle: seq<int>)
  {
    Closed(Inside(g, nodes), cycle) && Distinct(cycle[1..]) && Distinct(cycle[..|cycle| - 1])
  }

  lemma DistinctEnds(part: seq<int>, v: int)
    requires Distinct(part) && part != [] && part[0] == v
    ensures Distinct((part + [v])[1..])
  {
  }

  // ---------- the loop ----------

  ghost function OnIt(stack: seq<int>): set<int>
  {
    set n | n in stack
  }

  /** What no turn has met yet. */
  ghost function Left(nodes: set<int>, st: State): set<int>
  {
    nodes - st.visited - OnIt(st.stack)
  }

  ghost function Rest(adj: map<int, seq<int>>, st: State): int
  {
    if st.stack == [] then 0 else |At(adj, Top(st))| - Next(st, Top(st))
  }

  ghost predicate Smaller(adj: map<int, seq<int>>, nodes: set<int>, st': State, st: State)
  {
    || Left(nodes, st') < Left(nodes, st)
    || (Left(nodes, st') == Left(nodes, st) && |st'.stack| < |st.stack|)
    || (Left(nodes, st') == Left(nodes, st) && |st'.stack| == |st.stack| && 0 <= Rest(adj, st') < Rest(adj, st))
  }

  lemma VisitLeft(nodes: set<int>, st: State)
    requires st.stack != []
    ensures Left(nodes, Visited(st)) == Left(nodes, st)
  {
  }

  lemma PopLeft(nodes: set<int>, st: State)
    requires st.stack != [] && Top(st) in st.visited
    ensures Left(nodes, Popped(st)) == Left(nodes, st)
  {
    assert st.stack == Popped(st).stack + [Top(st)];
  }

  lemma PushLeft(nodes: set<int>, st: State, v: int)
    requires st.stack != [] && v in nodes - st.visited && v !in st.stack
    ensures Left(nodes, Pushed(Advanced(st), v)) < Left(nodes, st)
  {
    assert v in Left(nodes, st) && v in (st.stack + [v]);
  }

  /** One turn with a visited node on top: a cycle is met, a node is pushed, an entry is passed, or the top is done. */
  method Turn(adj: map<int, seq<int>>, before: State, ghost nodes: set<int>, ghost done: seq<int>)
      returns (st: State, hit: bool, v: int, ghost done': seq<int>)
    requires Inv(adj, nodes, before, done) && before.stack != [] && Top(before) in before.visited
    ensures hit ==> before.stack == st.stack && StackShape(adj, st) && v in At(adj, Top(st)) && v in st.onStack
    ensures !hit ==> Inv(adj, nodes, st, done') && Smaller(adj, nodes, st, before)
    ensures !hit ==> if st.stack == [] then Top(before) in done' && |before.stack| == 1
      else st.stack[0] == before.stack[0]
  {
    st, done' := before, done;
    var u := Top(st);
    var neighbors := At(adj, u);
    var idx := Next(st, u);
    assert Worked(adj, st, done, |st.stack| - 1);
    if idx < |neighbors| {
      v := neighbors[idx];
      st := Advanced(st);
      if v in st.onStack {
        return st, true, v, done';
      }
      if v !in st.visited {
        PushStep(adj, nodes, before, done, v);
        PushLeft(nodes, before, v);
        st := Pushed(st, v);
      } else {
        AdvanceStep(adj, nodes, before, done);
      }
    } else {
      PopStep(adj, nodes, st, done);
      PopLeft(nodes, st);
      done' := done + [u];
      st := Popped(st);
      v := u;
    }
    return st, false, v, done';
  }

  method FindOneCycleInScc(g: Preds, scc: seq<int>) returns (cycle: seq<int>)
    ensures cycle != [] <==> CycleAhead(g, scc)
    ensures cycle != [] ==> IsCycle(g, scc, cycle)
  {
    var sorted := SortNodes(scc);
    var adj := BuildAdj(g, scc);
    ghost var nodes := set n | n in scc;
    ghost var done: seq<int> := [];
    if |sorted| == 0 {
      return [];
    }
    var start := sorted[0];
    var st := State({}, {}, map[start := 0], [start], map[]);
    while |st.stack| > 0
      invariant Inv(adj, nodes, st, done)
      invariant if st.stack == [] then start in done else st.stack[0] == start
      decreases Left(nodes, st), |st.stack|, Rest(adj, st)
    {
      if Top(st) !in st.visited {
        VisitStep(adj, nodes, st, done);
        VisitLeft(nodes, st);
        st := Visited(st);
      }
      var hit, v;
      st, hit, v, done := Turn(adj, st, nodes, done);
      if hit {
        CycleFound(adj, g, scc, st, v);
        return st.stack[st.stackPos[v]..] + [v];
      }
    }
    NothingAhead(adj, g, scc, done, start);
    return [];
  }

  method SortNodes(scc: seq<int>) returns (sorted: seq<int>)
    ensures |sorted| == |scc| && forall n :: n in sorted <==> n in scc
    ensures sorted != [] ==> IsLeast(scc, sorted[0])
  {
    sorted := Sorting.Sort(Sorting.ByNumber(), scc);
    Sorting.SortKeeps(Sorting.ByNumber(), scc);
    Sorting.SortAscends(Sorting.ByNumber(), scc);
    forall n | n in scc ensures sorted[0] <= n {
      var i :| 0 <= i < |sorted| && sorted[i] == n;
    }
  }
}
