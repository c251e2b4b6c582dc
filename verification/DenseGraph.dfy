/**
 Dense adjacency lists, pkg/analysis/betweenness_approx.go: node IDs become indices, and the lists of incoming
 arcs are made from those of outgoing arcs.
 */
module DenseGraph {
  import opened Sums
  import opened Paths
  import Sorting

  /** The nodes each node has arcs to, in the order the graph iterates them. */
  type Graph = map<int, seq<int>>

  function From(g: Graph, id: int): seq<int>
  {
    if id in g then g[id] else []
  }

  method BuildDenseIndex(ids: seq<int>) returns (index: map<int, nat>)
    requires Distinct(ids)
    ensures Index(ids, index)
  {
    index := map[];
    for i := 0 to |ids|
      invariant Index(ids[..i], index)
    {
      index := index[ids[i] := i];
      assert ids[..i + 1] == ids[..i] + [ids[i]];
    }
    assert ids[..|ids|] == ids;
  }

  /** One list of outgoing arcs: the indices of the targets that have one, ascending. */
  ghost predicate Outgoing(g: Graph, ids: seq<int>, v: nat, list: seq<nat>)
    requires v < |ids|
  {
    && Distinct(list) && Sorting.Ascending(Sorting.ByNumber(), list)
    && forall w: nat :: w in list <==> w < |ids| && ids[w] in From(g, ids[v])
  }

  /** The indices of the first i targets that have one. */
  ghost predicate Met(ids: seq<int>, to: seq<int>, i: nat, list: seq<nat>)
    requires i <= |to|
  {
    Distinct(list) && forall w: nat :: w in list <==> w < |ids| && ids[w] in to[..i]
  }

  lemma MeetOne(ids: seq<int>, index: map<int, nat>, to: seq<int>, i: nat, list: seq<nat>)
    requires Index(ids, index) && Distinct(to) && i < |to| && Met(ids, to, i, list)
    ensures Met(ids, to, i + 1, if to[i] in index then list + [index[to[i]]] else list)
  {
    var t := to[i];
    assert to[..i + 1] == to[..i] + [t];
    assert t !in to[..i];
    if t in index {
      var n := index[t];
      assert n !in list;
      forall w: nat ensures w in list + [n] <==> w < |ids| && ids[w] in to[..i + 1] {
        assert w < |ids| && ids[w] == t ==> w == n;
      }
    } else {
      forall w: nat | w < |ids| ensures ids[w] != t {
      }
    }
  }

  method Neighbors(g: Graph, ids: seq<int>, index: map<int, nat>, v: nat) returns (neighbors: seq<nat>)
    requires Index(ids, index) && v < |ids| && Distinct(From(g, ids[v]))
    ensures Outgoing(g, ids, v, neighbors)
  {
    var to := From(g, ids[v]);
    neighbors := [];
    for i := 0 to |to|
      invariant Met(ids, to, i, neighbors)
    {
      MeetOne(ids, index, to, i, neighbors);
      if to[i] in index {
        neighbors := neighbors + [index[to[i]]];
      }
    }
    assert to[..|to|] == to;
    Sorting.SortKeeps(Sorting.ByNumber(), neighbors);
    Sorting.SortDistinct(Sorting.ByNumber(), neighbors);
    Sorting.SortAscends(Sorting.ByNumber(), neighbors);
    neighbors := Sorting.Sort(Sorting.ByNumber(), neighbors);
  }

  /** Node v is listed as a source of w once the lists of the first i nodes, and k entries of list i, are in. */
  ghost predicate Entered(outgoing: Adjacency, i: nat, k: nat, v: nat, w: nat)
  {
    && v < |outgoing|
    && ((v < i && w in outgoing[v]) || (v == i && k <= |outgoing[i]| && w in outgoing[i][..k]))
  }

  ghost predicate Incoming(outgoing: Adjacency, incoming: Adjacency, i: nat, k: nat)
  {
    && |incoming| == |outgoing|
    && forall w: nat | w < |outgoing| ::
      Distinct(incoming[w]) && forall v: nat :: v in incoming[w] <==> Entered(outgoing, i, k, v, w)
  }

  lemma EnterOne(outgoing: Adjacency, incoming: Adjacency, i: nat, k: nat, w: nat)
    requires Simple(outgoing) && Incoming(outgoing, incoming, i, k) && i < |outgoing| && k < |outgoing[i]|
      && w == outgoing[i][k]
    ensures w < |outgoing| && Incoming(outgoing, incoming[w := incoming[w] + [i]], i, k + 1)
  {
    var more := incoming[w := incoming[w] + [i]];
    assert outgoing[i][..k + 1] == outgoing[i][..k] + [w];
    assert w !in outgoing[i][..k];
    assert !Entered(outgoing, i, k, i, w);
    forall x: nat, v: nat | x < |outgoing| ensures v in more[x] <==> Entered(outgoing, i, k + 1, v, x) {
      assert v in incoming[x] <==> Entered(outgoing, i, k, v, x);
    }
    assert i !in incoming[w];
  }

  lemma EnterNext(outgoing: Adjacency, incoming: Adjacency, i: nat)
    requires i < |outgoing| && Incoming(outgoing, incoming, i, |outgoing[i]|)
    ensures Incoming(outgoing, incoming, i + 1, 0)
  {
    forall v: nat, w: nat ensures Entered(outgoing, i + 1, 0, v, w) <==> Entered(outgoing, i, |outgoing[i]|, v, w) {
      assert outgoing[i][..|outgoing[i]|] == outgoing[i];
    }
  }

  /** Arcs turned round, each once. */
  ghost predicate Transposed(outgoing: Adjacency, incoming: Adjacency)
  {
    && Simple(incoming) && |incoming| == |outgoing|
    && (forall v: nat, w: nat :: Edge(incoming, w, v) <==> Edge(outgoing, v, w))
    && forall w: nat | w < |incoming| :: Sorting.Ascending(Sorting.ByNumber(), incoming[w])
  }

  method Transpose(outgoing: Adjacency) returns (incoming: Adjacency)
    requires Simple(outgoing)
    ensures Transposed(outgoing, incoming)
  {
    incoming := seq(|outgoing|, _ => []);
    for i := 0 to |outgoing|
      invariant Incoming(outgoing, incoming, i, 0)
    {
      for k := 0 to |outgoing[i]|
        invariant Incoming(outgoing, incoming, i, k)
      {
        EnterOne(outgoing, incoming, i, k, outgoing[i][k]);
        var w := outgoing[i][k];
        incoming := incoming[w := incoming[w] + [i]];
      }
      EnterNext(outgoing, incoming, i);
    }
    incoming := SortAll(outgoing, incoming);
  }

  method SortAll(ghost outgoing: Adjacency, lists: Adjacency) returns (incoming: Adjacency)
    requires Incoming(outgoing, lists, |outgoing|, 0)
    ensures Transposed(outgoing, incoming)
  {
    incoming := lists;
    for w := 0 to |lists|
      invariant |incoming| == |lists| && forall x | w <= x < |lists| :: incoming[x] == lists[x]
      invariant forall x | 0 <= x < w :: incoming[x] == Sorting.Sort(Sorting.ByNumber(), lists[x])
    {
      incoming := incoming[w := Sorting.Sort(Sorting.ByNumber(), incoming[w])];
    }
    forall w: nat | w < |lists|
      ensures Distinct(incoming[w]) && Sorting.Ascending(Sorting.ByNumber(), incoming[w])
      ensures forall v: nat :: v in incoming[w] <==> v < |outgoing| && w in outgoing[v]
    {
      Sorting.SortKeeps(Sorting.ByNumber(), lists[w]);
      Sorting.SortDistinct(Sorting.ByNumber(), lists[w]);
      Sorting.SortAscends(Sorting.ByNumber(), lists[w]);
      forall v: nat ensures v in lists[w] <==> v < |outgoing| && w in outgoing[v] {
        assert v in lists[w] <==> Entered(outgoing, |outgoing|, 0, v, w);
      }
    }
    ListsTransposed(outgoing, incoming);
  }

  ghost predicate BothWays(outgoing: Adjacency, incoming: Adjacency, v: nat, w: nat)
  {
    w < |incoming| ==> (v in incoming[w] <==> v < |outgoing| && w in outgoing[v])
  }

  lemma ListsTransposed(outgoing: Adjacency, incoming: Adjacency)
    requires |incoming| == |outgoing|
    requires forall w: nat | w < |incoming| ::
      Distinct(incoming[w]) && Sorting.Ascending(Sorting.ByNumber(), incoming[w])
    requires forall v: nat, w: nat :: BothWays(outgoing, incoming, v, w)
    ensures Transposed(outgoing, incoming)
  {
    forall w: nat, i: nat | w < |incoming| && i < |incoming[w]| ensures incoming[w][i] < |outgoing| {
      var v := incoming[w][i];
      assert v in incoming[w];
      assert BothWays(outgoing, incoming, v, w);
    }
    forall v: nat, w: nat ensures Edge(incoming, w, v) <==> Edge(outgoing, v, w) {
      assert BothWays(outgoing, incoming, v, w);
    }
  }

  /** The arcs of the graph between indexed nodes, without repetition in either direction. */
  method BuildCachedAdjacency(g: Graph, ids: seq<int>, index: map<int, nat>)
      returns (outgoing: Adjacency, incoming: Adjacency)
    requires Index(ids, index) && forall v | v in ids :: Distinct(From(g, v))
    ensures |outgoing| == |ids| && Simple(outgoing) && forall v | 0 <= v < |ids| :: Outgoing(g, ids, v, outgoing[v])
    ensures Transposed(outgoing, incoming)
    ensures forall v: nat, w: nat :: Edge(outgoing, v, w) <==>
      v < |ids| && w < |ids| && ids[v] in g && ids[w] in g[ids[v]]
  {
    outgoing := [];
    for v := 0 to |ids|
      invariant |outgoing| == v && forall u | 0 <= u < v :: Outgoing(g, ids, u, outgoing[u])
    {
      var neighbors := Neighbors(g, ids, index, v);
      outgoing := outgoing + [neighbors];
    }
    forall v, i | 0 <= v < |outgoing| && 0 <= i < |outgoing[v]| ensures outgoing[v][i] < |outgoing| {
      assert Outgoing(g, ids, v, outgoing[v]);
      assert outgoing[v][i] in outgoing[v];
    }
    incoming := Transpose(outgoing);
    forall v: nat, w: nat ensures Edge(outgoing, v, w) <==>
      v < |ids| && w < |ids| && ids[v] in g && ids[w] in g[ids[v]]
    {
      assert v < |ids| ==> Outgoing(g, ids, v, outgoing[v]);
    }
  }
}
