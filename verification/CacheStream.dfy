/**
 The bytes that ComputeDataHash of pkg/analysis/cache.go feeds to the hash: every field followed by a zero byte,
 labels, dependencies and comments sorted, and a byte one after each issue. Strings are Go strings, byte by byte;
 timestamps are the text the formatter makes of them.
 */
module CacheStream {
  import opened Decimals
  import opened Issues
  import Sorting

  const NUL: char := '\U{0}'
  const MARK: char := '\U{1}'

  datatype Fields = Fields(
    id: string, title: string, description: string, notes: string, design: string, acceptance: string,
    assignee: string, sourceRepo: string, externalRef: Option<string>, status: string, issueType: string,
    priority: int, estimated: Option<int>, createdAt: string, updatedAt: string, closedAt: Option<string>
  )
  datatype Dep = Dep(dependsOn: string, kind: string, createdAt: string, createdBy: string)
  datatype Comment = Comment(id: string, author: string, text: string, createdAt: string)
  datatype Record = Record(fields: Fields, labels: seq<string>, deps: seq<Option<Dep>>, comments: seq<Option<Comment>>)

  ghost predicate UniqueIds(issues: seq<Record>)
  {
    forall i, j | 0 <= i < j < |issues| :: issues[i].fields.id != issues[j].fields.id
  }

  lemma ItoaShape(n: int)
    ensures Itoa(n) != "" && NulFree(Itoa(n)) && 'T' !in Itoa(n)
  {
    ItoaCharacters(n);
  }

  predicate NulFree(s: string)
  {
    forall i | 0 <= i < |s| :: s[i] != NUL
  }

  // ---------- orders ----------

  /** Dictionary order on lists of strings. */
  predicate KeyLess(x: seq<string>, y: seq<string>)
  {
    y != [] && (x == [] || Less(x[0], y[0]) || (x[0] == y[0] && KeyLess(x[1..], y[1..])))
  }

  lemma {:induction false} KeyTotal(x: seq<string>, y: seq<string>)
    ensures x == y || KeyLess(x, y) || KeyLess(y, x)
    ensures !(KeyLess(x, y) && KeyLess(y, x))
  {
    if x != [] && y != [] {
      LessTotal(x[0], y[0]);
      LessIrreflexive(x[0]);
      if Less(x[0], y[0]) && Less(y[0], x[0]) {
        LessTransitive(x[0], y[0], x[0]);
      }
      if x[0] == y[0] {
        KeyTotal(x[1..], y[1..]);
        assert x == [x[0]] + x[1..] && y == [y[0]] + y[1..];
      }
    }
  }

  lemma {:induction false} KeyTransitive(x: seq<string>, y: seq<string>, z: seq<string>)
    requires KeyLess(x, y) && KeyLess(y, z)
    ensures KeyLess(x, z)
  {
    if x != [] {
      if Less(x[0], y[0]) && Less(y[0], z[0]) {
        LessTransitive(x[0], y[0], z[0]);
      } else if x[0] == y[0] && y[0] == z[0] {
        if KeyLess(x[1..], y[1..]) && KeyLess(y[1..], z[1..]) {
          KeyTransitive(x[1..], y[1..], z[1..]);
        }
      }
    }
  }

  function DepKey(d: Dep): seq<string>
  {
    [d.dependsOn, d.kind, d.createdAt, d.createdBy]
  }

  /** Comments are compared by time before author and text. */
  function CommentKey(c: Comment): seq<string>
  {
    [c.id, c.createdAt, c.author, c.text]
  }

  function ByDepKey(): (Dep, Dep) -> bool
  {
    (a: Dep, b: Dep) => KeyLess(DepKey(a), DepKey(b))
  }

  function ByCommentKey(): (Comment, Comment) -> bool
  {
    (a: Comment, b: Comment) => KeyLess(CommentKey(a), CommentKey(b))
  }

  function ByIssueId(): (Record, Record) -> bool
  {
    (a: Record, b: Record) => Less(a.fields.id, b.fields.id)
  }

  lemma OrdersTotal()
    ensures Sorting.TotalOrder(ByDepKey()) && Sorting.TotalOrder(ByCommentKey())
  {
    forall a: Dep, b: Dep
      ensures !(ByDepKey()(a, b) && ByDepKey()(b, a)) && (a == b || ByDepKey()(a, b) || ByDepKey()(b, a))
    {
      KeyTotal(DepKey(a), DepKey(b));
      var x, y := DepKey(a), DepKey(b);
      assert x == y ==> x[0] == y[0] && x[1] == y[1] && x[2] == y[2] && x[3] == y[3];
    }
    forall a: Dep, b: Dep, c: Dep | ByDepKey()(a, b) && ByDepKey()(b, c) ensures ByDepKey()(a, c) {
      KeyTransitive(DepKey(a), DepKey(b), DepKey(c));
    }
    forall a: Comment, b: Comment
      ensures !(ByCommentKey()(a, b) && ByCommentKey()(b, a))
        && (a == b || ByCommentKey()(a, b) || ByCommentKey()(b, a))
    {
      KeyTotal(CommentKey(a), CommentKey(b));
      var x, y := CommentKey(a), CommentKey(b);
      assert x == y ==> x[0] == y[0] && x[1] == y[1] && x[2] == y[2] && x[3] == y[3];
    }
    forall a: Comment, b: Comment, c: Comment | ByCommentKey()(a, b) && ByCommentKey()(b, c)
      ensures ByCommentKey()(a, c)
    {
      KeyTransitive(CommentKey(a), CommentKey(b), CommentKey(c));
    }
  }

  lemma ByIssueIdOrders()
    ensures Sorting.WeakOrder(ByIssueId())
  {
    Sorting.ByIdTotal();
    forall a: string, b: string, c: string | !Less(a, b) && !Less(b, c) ensures !Less(a, c) {
      assert Sorting.ById()(a, b) == Less(a, b) && Sorting.ById()(b, c) == Less(b, c)
        && Sorting.ById()(a, c) == Less(a, c);
    }
    forall a: string, b: string ensures !(Less(a, b) && Less(b, a)) {
      assert Sorting.ById()(a, b) == Less(a, b) && Sorting.ById()(b, a) == Less(b, a);
    }
  }

  // ---------- what is written ----------

  /** Fields one after the other, a zero byte behind each. */
  ghost function Bytes(tokens: seq<string>): string
  {
    if tokens == [] then "" else tokens[0] + [NUL] + Bytes(tokens[1..])
  }

  lemma Associative(x: string, y: string, z: string)
    ensures (x + y) + z == x + (y + z)
  {
  }

  lemma {:induction false} BytesConcat(a: seq<string>, b: seq<string>)
    ensures Bytes(a + b) == Bytes(a) + Bytes(b)
  {
    if a == [] {
      assert a + b == b;
    } else {
      BytesConcat(a[1..], b);
      assert (a + b)[1..] == a[1..] + b;
      Associative(a[0] + [NUL], Bytes(a[1..]), Bytes(b));
    }
  }

  function Head(f: Fields): seq<string>
  {
    [f.id, f.title, f.description, f.notes, f.design, f.acceptance, f.assignee, f.sourceRepo,
     if f.externalRef.Some? then f.externalRef.value else "", f.status, f.issueType, Itoa(f.priority),
     if f.estimated.Some? then Itoa(f.estimated.value) else "", f.createdAt, f.updatedAt,
     if f.closedAt.Some? then f.closedAt.value else ""]
  }

  function Present<T>(xs: seq<Option<T>>): seq<T>
  {
    if xs == [] then []
    else (if xs[0].Some? then [xs[0].value] else []) + Present(xs[1..])
  }

  ghost function GroupBytes(groups: seq<seq<string>>): string
  {
    if groups == [] then "" else Bytes(groups[0]) + GroupBytes(groups[1..])
  }

  lemma {:induction false} GroupBytesSnoc(groups: seq<seq<string>>, g: seq<string>)
    ensures GroupBytes(groups + [g]) == GroupBytes(groups) + Bytes(g)
  {
    if groups == [] {
      assert groups + [g] == [g] && [g][1..] == [];
    } else {
      GroupBytesSnoc(groups[1..], g);
      assert (groups + [g])[1..] == groups[1..] + [g];
      Associative(Bytes(groups[0]), GroupBytes(groups[1..]), Bytes(g));
    }
  }

  /** The fields of a comment in the order they are written. */
  function CommentFields(c: Comment): seq<string>
  {
    [c.id, c.author, c.text, c.createdAt]
  }

  function LabelGroups(labels: seq<string>): (g: seq<seq<string>>)
    ensures |g| == |labels| && forall i | 0 <= i < |g| :: g[i] == [labels[i]]
  {
    seq(|labels|, i requires 0 <= i < |labels| => [labels[i]])
  }

  function DepGroups(deps: seq<Dep>): (g: seq<seq<string>>)
    ensures |g| == |deps| && forall i | 0 <= i < |g| :: g[i] == DepKey(deps[i])
  {
    seq(|deps|, i requires 0 <= i < |deps| => DepKey(deps[i]))
  }

  function CommentGroups(comments: seq<Comment>): (g: seq<seq<string>>)
    ensures |g| == |comments| && forall i | 0 <= i < |g| :: g[i] == CommentFields(comments[i])
  {
    seq(|comments|, i requires 0 <= i < |comments| => CommentFields(comments[i]))
  }

  ghost function Labels(r: Record): seq<string> { Sorting.Sort(Sorting.ById(), r.labels) }
  ghost function Deps(r: Record): seq<Dep> { Sorting.Sort(ByDepKey(), Present(r.deps)) }
  ghost function Comments(r: Record): seq<Comment> { Sorting.Sort(ByCommentKey(), Present(r.comments)) }

  /** One issue without the byte that ends it. */
  ghost function Written(r: Record): string
  {
    Bytes(Head(r.fields)) + GroupBytes(LabelGroups(Labels(r))) + [NUL]
    + GroupBytes(DepGroups(Deps(r))) + [NUL] + GroupBytes(CommentGroups(Comments(r)))
  }

  ghost function StreamOf(sorted: seq<Record>): string
  {
    if sorted == [] then "" else Written(sorted[0]) + [MARK] + StreamOf(sorted[1..])
  }

  lemma {:induction false} StreamSnoc(sorted: seq<Record>, r: Record)
    ensures StreamOf(sorted + [r]) == StreamOf(sorted) + (Written(r) + [MARK])
  {
    if sorted == [] {
      assert sorted + [r] == [r] && [r][1..] == [];
    } else {
      StreamSnoc(sorted[1..], r);
      assert (sorted + [r])[1..] == sorted[1..] + [r];
      Associative(Written(sorted[0]) + [MARK], StreamOf(sorted[1..]), Written(r) + [MARK]);
    }
  }

  lemma StreamNext(sorted: seq<Record>, i: nat)
    requires i < |sorted|
    ensures StreamOf(sorted[..i + 1]) == StreamOf(sorted[..i]) + (Written(sorted[i]) + [MARK])
  {
    StreamSnoc(sorted[..i], sorted[i]);
    assert sorted[..i + 1] == sorted[..i] + [sorted[i]];
  }

  lemma StreamWhole(sorted: seq<Record>)
    ensures StreamOf(sorted[..|sorted|]) == StreamOf(sorted)
  {
    assert sorted[..|sorted|] == sorted;
  }

  /** What the hash is taken of. */
  ghost function Stream(issues: seq<Record>): string
  {
    StreamOf(Sorting.Sort(ByIssueId(), issues))
  }

  // ---------- the layout, without the functions that produce it ----------

  /** Target, then type, then creation time, then author. */
  ghost predicate DepSooner(a: Dep, b: Dep)
  {
    if a.dependsOn != b.dependsOn then Less(a.dependsOn, b.dependsOn)
    else if a.kind != b.kind then Less(a.kind, b.kind)
    else if a.createdAt != b.createdAt then Less(a.createdAt, b.createdAt)
    else Less(a.createdBy, b.createdBy)
  }

  /** ID, then creation time, then author, then text. */
  ghost predicate CommentSooner(a: Comment, b: Comment)
  {
    if a.id != b.id then Less(a.id, b.id)
    else if a.createdAt != b.createdAt then Less(a.createdAt, b.createdAt)
    else if a.author != b.author then Less(a.author, b.author)
    else Less(a.text, b.text)
  }

  lemma KeyLessFour(x: seq<string>, y: seq<string>)
    requires |x| == |y| == 4
    ensures KeyLess(x, y) <==>
      if x[0] != y[0] then Less(x[0], y[0])
      else if x[1] != y[1] then Less(x[1], y[1])
      else if x[2] != y[2] then Less(x[2], y[2])
      else Less(x[3], y[3])
  {
    forall i | 0 <= i < 4 {
      LessIrreflexive(x[i]);
    }
    assert KeyLess(x, y) <==> Less(x[0], y[0]) || (x[0] == y[0] && KeyLess(x[1..], y[1..]));
    var x1, y1 := x[1..], y[1..];
    assert KeyLess(x1, y1) <==> Less(x1[0], y1[0]) || (x1[0] == y1[0] && KeyLess(x1[1..], y1[1..]));
    var x2, y2 := x1[1..], y1[1..];
    assert KeyLess(x2, y2) <==> Less(x2[0], y2[0]) || (x2[0] == y2[0] && KeyLess(x2[1..], y2[1..]));
    var x3, y3 := x2[1..], y2[1..];
    assert KeyLess(x3, y3) <==> Less(x3[0], y3[0]) || (x3[0] == y3[0] && KeyLess(x3[1..], y3[1..]));
  }

  lemma SoonerIs()
    ensures forall a: Dep, b: Dep :: ByDepKey()(a, b) <==> DepSooner(a, b)
    ensures forall a: Comment, b: Comment :: ByCommentKey()(a, b) <==> CommentSooner(a, b)
  {
    forall a: Dep, b: Dep ensures ByDepKey()(a, b) <==> DepSooner(a, b) {
      KeyLessFour(DepKey(a), DepKey(b));
    }
    forall a: Comment, b: Comment ensures ByCommentKey()(a, b) <==> CommentSooner(a, b) {
      KeyLessFour(CommentKey(a), CommentKey(b));
    }
  }

  lemma OneInFront<T>(x: T, xs: seq<T>)
    ensures multiset([x] + xs) == multiset(xs) + multiset{x}
  {
  }

  /** Absent entries are left out, and nothing else. */
  lemma {:induction false} PresentCount<T(!new)>(xs: seq<Option<T>>, x: T)
    ensures multiset(Present(xs))[x] == multiset(xs)[Some(x)]
  {
    if xs != [] {
      var rest := xs[1..];
      PresentCount(rest, x);
      assert xs == [xs[0]] + rest;
      OneInFront(xs[0], rest);
      if xs[0].Some? {
        OneInFront(xs[0].value, Present(rest));
      } else {
        assert [] + Present(rest) == Present(rest);
      }
    }
  }

  lemma PresentSame<T(!new)>(xs: seq<Option<T>>, ys: seq<Option<T>>)
    ensures multiset(Present(xs)) == multiset(Present(ys)) <==>
      forall x :: multiset(xs)[Some(x)] == multiset(ys)[Some(x)]
  {
    forall x ensures multiset(Present(xs))[x] == multiset(xs)[Some(x)] {
      PresentCount(xs, x);
    }
    forall x ensures multiset(Present(ys))[x] == multiset(ys)[Some(x)] {
      PresentCount(ys, x);
    }
    if forall x :: multiset(xs)[Some(x)] == multiset(ys)[Some(x)] {
      forall x ensures multiset(Present(xs))[x] == multiset(Present(ys))[x] {
        assert multiset(xs)[Some(x)] == multiset(ys)[Some(x)];
      }
    } else {
      var x :| multiset(xs)[Some(x)] != multiset(ys)[Some(x)];
      assert multiset(Present(xs))[x] != multiset(Present(ys))[x];
    }
  }

  /** ys holds the present entries of xs, each as often. */
  ghost predicate Gathers<T(!new)>(xs: seq<Option<T>>, ys: seq<T>)
  {
    forall x :: multiset(ys)[x] == multiset(xs)[Some(x)]
  }

  lemma GatheredSame<T(!new)>(xs: seq<Option<T>>, ys: seq<T>)
    requires Gathers(xs, ys)
    ensures multiset(ys) == multiset(Present(xs))
  {
    forall x ensures multiset(ys)[x] == multiset(Present(xs))[x] {
      PresentCount(xs, x);
    }
  }

  lemma OnlyArrangement<T(!new)>(lt: (T, T) -> bool, xs: seq<T>, ys: seq<T>)
    requires Sorting.TotalOrder(lt) && multiset(xs) == multiset(ys) && Sorting.Ascending(lt, ys)
    ensures Sorting.Sort(lt, xs) == ys
  {
    Sorting.SortKeeps(lt, xs);
    Sorting.TotalIsWeak(lt);
    Sorting.SortAscends(lt, xs);
    Sorting.AscendingUnique(lt, ys, Sorting.Sort(lt, xs));
  }

  /** The three lists of an issue, sorted, whatever sorted them. */
  ghost predicate Arranged(r: Record, labels: seq<string>, deps: seq<Dep>, comments: seq<Comment>)
  {
    && multiset(labels) == multiset(r.labels) && Gathers(r.deps, deps) && Gathers(r.comments, comments)
    && (forall i, j | 0 <= i < j < |labels| :: !Less(labels[j], labels[i]))
    && (forall i, j | 0 <= i < j < |deps| :: !DepSooner(deps[j], deps[i]))
    && forall i, j | 0 <= i < j < |comments| :: !CommentSooner(comments[j], comments[i])
  }

  lemma ArrangedIs(r: Record, labels: seq<string>, deps: seq<Dep>, comments: seq<Comment>)
    requires Arranged(r, labels, deps, comments)
    ensures Labels(r) == labels && Deps(r) == deps && Comments(r) == comments
  {
    SoonerIs();
    OrdersTotal();
    Sorting.ByIdTotal();
    GatheredSame(r.deps, deps);
    GatheredSame(r.comments, comments);
    OnlyArrangement(Sorting.ById(), r.labels, labels);
    OnlyArrangement(ByDepKey(), Present(r.deps), deps);
    OnlyArrangement(ByCommentKey(), Present(r.comments), comments);
  }

  /** The bytes of one issue, field by field. */
  lemma Layout(r: Record, labels: seq<string>, deps: seq<Dep>, comments: seq<Comment>)
    requires Arranged(r, labels, deps, comments)
    ensures var f := r.fields;
      Written(r) == Bytes([f.id, f.title, f.description, f.notes, f.design, f.acceptance, f.assignee, f.sourceRepo,
        if f.externalRef.Some? then f.externalRef.value else "", f.status, f.issueType, Itoa(f.priority),
        if f.estimated.Some? then Itoa(f.estimated.value) else "", f.createdAt, f.updatedAt,
        if f.closedAt.Some? then f.closedAt.value else ""])
      + GroupBytes(seq(|labels|, i requires 0 <= i < |labels| => [labels[i]])) + [0 as char]
      + GroupBytes(seq(|deps|, i requires 0 <= i < |deps| =>
          [deps[i].dependsOn, deps[i].kind, deps[i].createdAt, deps[i].createdBy])) + [0 as char]
      + GroupBytes(seq(|comments|, i requires 0 <= i < |comments| =>
          [comments[i].id, comments[i].author, comments[i].text, comments[i].createdAt]))
  {
    ArrangedIs(r, labels, deps, comments);
    var ls := seq(|labels|, i requires 0 <= i < |labels| => [labels[i]]);
    var ds := seq(|deps|, i requires 0 <= i < |deps| =>
      [deps[i].dependsOn, deps[i].kind, deps[i].createdAt, deps[i].createdBy]);
    var cs := seq(|comments|, i requires 0 <= i < |comments| =>
      [comments[i].id, comments[i].author, comments[i].text, comments[i].createdAt]);
    assert LabelGroups(labels) == ls && DepGroups(deps) == ds && CommentGroups(comments) == cs;
  }

  // ---------- writing it ----------

  method WriteAll(h: string, tokens: seq<string>) returns (w: string)
    ensures w == h + Bytes(tokens)
  {
    w := h;
    for i := 0 to |tokens|
      invariant w == h + Bytes(tokens[..i])
    {
      w := w + tokens[i];
      w := w + [NUL];
      BytesConcat(tokens[..i], [tokens[i]]);
      assert tokens[..i + 1] == tokens[..i] + [tokens[i]];
    }
    assert tokens[..|tokens|] == tokens;
  }

  method WriteGroups(h: string, groups: seq<seq<string>>) returns (w: string)
    ensures w == h + GroupBytes(groups)
  {
    w := h;
    for i := 0 to |groups|
      invariant w == h + GroupBytes(groups[..i])
    {
      w := WriteAll(w, groups[i]);
      GroupBytesSnoc(groups[..i], groups[i]);
      assert groups[..i + 1] == groups[..i] + [groups[i]];
    }
    assert groups[..|groups|] == groups;
  }

  method SkipAbsent<T>(xs: seq<Option<T>>) returns (ys: seq<T>)
    ensures ys == Present(xs)
  {
    ys := [];
    for i := 0 to |xs|
      invariant Present(xs) == ys + Present(xs[i..])
    {
      if xs[i].Some? {
        ys := ys + [xs[i].value];
      }
    }
    assert xs[|xs|..] == [];
  }

  lemma Regroup(h: string, a: string, b: string, c: string, d: string, e: string, f: string, g: string)
    ensures h + a + b + c + d + e + f + g == h + ((a + b + c + d + e + f) + g)
  {
    Associative(h, a, b);
    Associative(h, a + b, c);
    Associative(h, a + b + c, d);
    Associative(h, a + b + c + d, e);
    Associative(h, a + b + c + d + e, f);
    Associative(h, a + b + c + d + e + f, g);
  }

  method WriteIssue(h: string, r: Record) returns (w: string)
    ensures w == h + (Written(r) + [MARK])
  {
    w := WriteAll(h, Head(r.fields));
    w := WriteGroups(w, LabelGroups(Sorting.Sort(Sorting.ById(), r.labels)));
    w := w + [NUL];
    var deps := SkipAbsent(r.deps);
    w := WriteGroups(w, DepGroups(Sorting.Sort(ByDepKey(), deps)));
    w := w + [NUL];
    var comments := SkipAbsent(r.comments);
    w := WriteGroups(w, CommentGroups(Sorting.Sort(ByCommentKey(), comments)));
    w := w + [MARK];
    Regroup(h, Bytes(Head(r.fields)), GroupBytes(LabelGroups(Labels(r))), [NUL], GroupBytes(DepGroups(Deps(r))), [NUL],
      GroupBytes(CommentGroups(Comments(r))), [MARK]);
  }

  /** The issues in the order of their IDs. */
  ghost predicate ById(issues: seq<Record>, sorted: seq<Record>)
  {
    && multiset(sorted) == multiset(issues)
    && forall i, j | 0 <= i < j < |sorted| :: !Less(sorted[j].fields.id, sorted[i].fields.id)
  }

  /** An empty list has a key of its own and no stream. */
  method ComputeDataHash(issues: seq<Record>, hash: string -> string) returns (key: string)
    ensures key == if issues == [] then "empty" else hash(Stream(issues))
    ensures issues != [] ==> exists sorted :: ById(issues, sorted) && key == hash(StreamOf(sorted))
  {
    if |issues| == 0 {
      return "empty";
    }
    var sorted := Sorting.Sort(ByIssueId(), issues);
    var h := "";
    for i := 0 to |sorted|
      invariant h == StreamOf(sorted[..i])
    {
      StreamNext(sorted, i);
      h := WriteIssue(h, sorted[i]);
    }
    StreamWhole(sorted);
    Sorting.SortKeeps(ByIssueId(), issues);
    ByIssueIdOrders();
    Sorting.SortAscends(ByIssueId(), issues);
    assert ById(issues, sorted);
    return hash(h);
  }
}
