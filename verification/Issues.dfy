/** Issues as the graph code sees them, and the order of their IDs. */
module Issues {

  datatype Option<+T> = None | Some(value: T)

  /** A dependency on another issue; kind is the dependency type, "" in old data. */
  datatype Dependency = Dependency(target: string, kind: string)

  /** Dependencies are pointers in the source, so entries may be absent. */
  datatype Issue = Issue(id: string, status: string, deps: seq<Option<Dependency>>)

  predicate IsClosedLike(status: string) {
    status == "closed" || status == "tombstone"
  }

  /** The strict test used by the planning code: the type must be spelled out. */
  predicate IsBlocks(dep: Option<Dependency>) {
    dep.Some? && dep.value.kind == "blocks"
  }

  /** The tolerant test used by the cycle guard: an empty type blocks too. */
  predicate IsBlocking(dep: Option<Dependency>) {
    dep.Some? && (dep.value.kind == "" || dep.value.kind == "blocks")
  }

  /** The analyzer's index: every issue under its own, nonempty ID. */
  ghost predicate Indexed(m: map<string, Issue>)
  {
    "" !in m && forall id | id in m :: m[id].id == id
  }

  predicate IsOpen(m: map<string, Issue>, id: string) {
    id in m && !IsClosedLike(m[id].status)
  }

  /** Lexicographic order on IDs, as Go compares strings. */
  predicate Less(a: string, b: string)
  {
    if b == "" then false
    else if a == "" then true
    else a[0] < b[0] || (a[0] == b[0] && Less(a[1..], b[1..]))
  }

  lemma LessIrreflexive(a: string)
    ensures !Less(a, a)
  {
  }

  lemma {:induction false} LessTransitive(a: string, b: string, c: string)
    requires Less(a, b) && Less(b, c)
    ensures Less(a, c)
  {
    if a != "" && a[0] == b[0] && b[0] == c[0] {
      LessTransitive(a[1..], b[1..], c[1..]);
    }
  }

  lemma {:induction false} LessTotal(a: string, b: string)
    ensures a == b || Less(a, b) || Less(b, a)
  {
    if a != "" && b != "" && a[0] == b[0] {
      LessTotal(a[1..], b[1..]);
      assert a == [a[0]] + a[1..] && b == [b[0]] + b[1..];
    }
  }

  /** They differ first at place k: a ends there, or its character is the smaller one. */
  ghost predicate FirstBelow(a: string, b: string, k: nat)
  {
    && k <= |a| && k < |b| && a[..k] == b[..k]
    && (k == |a| || a[k] < b[k])
  }

  lemma {:induction false} LessMeaning(a: string, b: string)
    ensures Less(a, b) <==> exists k: nat :: FirstBelow(a, b, k)
  {
    if a == "" {
      assert b != "" ==> FirstBelow(a, b, 0);
    } else if b != "" {
      LessMeaning(a[1..], b[1..]);
      if a[0] < b[0] {
        assert FirstBelow(a, b, 0);
      } else if Less(a, b) {
        var k: nat :| FirstBelow(a[1..], b[1..], k);
        assert a[..k + 1] == [a[0]] + a[1..][..k] && b[..k + 1] == [b[0]] + b[1..][..k];
        assert FirstBelow(a, b, k + 1);
      }
      if k: nat :| FirstBelow(a, b, k) && k > 0 {
        assert a[..k][0] == b[..k][0] && a[..k][1..] == a[1..][..k - 1] && b[..k][1..] == b[1..][..k - 1];
        assert FirstBelow(a[1..], b[1..], k - 1);
      }
    }
  }
}
