/**
 The stream behind the cache key as a list of tokens: the fields one after the other, an empty token behind the labels
 and behind the dependencies, and the byte between issues glued to the ID that follows it.
 */
module KeyTokens {
  import opened Issues
  import opened CacheStream
  import Sorting

  ghost predicate AllNulFree(xs: seq<string>)
  {
    forall i | 0 <= i < |xs| :: NulFree(xs[i])
  }

  /** No zero byte in any field. */
  ghost predicate ZeroFree(r: Record)
  {
    && AllNulFree(Head(r.fields))
    && (forall l | l in r.labels :: NulFree(l))
    && (forall d | Some(d) in r.deps :: AllNulFree(DepKey(d)))
    && (forall c | Some(c) in r.comments :: AllNulFree(CommentFields(c)))
  }

  ghost predicate AllZeroFree(rs: seq<Record>)
  {
    forall i | 0 <= i < |rs| :: ZeroFree(rs[i])
  }

  // ---------- the tokens ----------

  ghost function Flat(groups: seq<seq<string>>): seq<string>
  {
    if groups == [] then [] else groups[0] + Flat(groups[1..])
  }

  /** An issue behind its ID, with what comes after it. */
  ghost function Body(r: Record, after: seq<string>): seq<string>
  {
    Head(r.fields)[1..] + (Flat(LabelGroups(Labels(r))) + ([""] + (Flat(DepGroups(Deps(r))) + ([""]
      + (Flat(CommentGroups(Comments(r))) + after)))))
  }

  ghost function Tokens(rs: seq<Record>): seq<string>
  {
    if rs == [] then [] else [[MARK] + rs[0].fields.id] + Body(rs[0], Tokens(rs[1..]))
  }

  // ---------- tokens and bytes ----------

  lemma {:induction false} GroupBytesFlat(groups: seq<seq<string>>)
    ensures GroupBytes(groups) == Bytes(Flat(groups))
  {
    if groups != [] {
      GroupBytesFlat(groups[1..]);
      BytesConcat(groups[0], Flat(groups[1..]));
    }
  }

  /** Bytes of tokens in front of a marked list. */
  lemma Push(x: seq<string>, y: seq<string>)
    ensures Bytes(x) + (Bytes(y) + [MARK]) == Bytes(x + y) + [MARK]
  {
    BytesConcat(x, y);
    Associative(Bytes(x), Bytes(y), [MARK]);
  }

  lemma Nest(a: string, b: string, c: string, d: string, e: string, f: string, g: string, h: string)
    ensures a + b + c + d + e + f + g + h == a + (b + (c + (d + (e + (f + (g + h))))))
  {
    Associative(a + b + c + d + e + f, g, h);
    Associative(a + b + c + d + e, f, g + h);
    Associative(a + b + c + d, e, f + (g + h));
    Associative(a + b + c, d, e + (f + (g + h)));
    Associative(a + b, c, d + (e + (f + (g + h))));
    Associative(a, b, c + (d + (e + (f + (g + h)))));
  }

  lemma SingleEmpty()
    ensures Bytes([""]) == [NUL]
  {
    assert [""][1..] == [];
  }

  lemma PushParts(h: seq<string>, l: seq<string>, d: seq<string>, c: seq<string>, after: seq<string>)
    ensures Bytes(h) + (Bytes(l) + ([NUL] + (Bytes(d) + ([NUL] + (Bytes(c) + (Bytes(after) + [MARK])))))) ==
      Bytes(h + (l + ([""] + (d + ([""] + (c + after)))))) + [MARK]
  {
    SingleEmpty();
    Push(c, after);
    Push([""], c + after);
    Push(d, [""] + (c + after));
    Push([""], d + ([""] + (c + after)));
    Push(l, [""] + (d + ([""] + (c + after))));
    Push(h, l + ([""] + (d + ([""] + (c + after)))));
  }

  lemma HeadFirst(r: Record, after: seq<string>)
    ensures [r.fields.id] + Body(r, after) == Head(r.fields) + (Flat(LabelGroups(Labels(r))) + ([""]
      + (Flat(DepGroups(Deps(r))) + ([""] + (Flat(CommentGroups(Comments(r))) + after)))))
  {
    assert Head(r.fields) == [r.fields.id] + Head(r.fields)[1..];
  }

  /** One issue, when what comes after it is a marked list. */
  lemma WrittenTokens(r: Record, x: string, after: seq<string>)
    requires [MARK] + x == Bytes(after) + [MARK]
    ensures Written(r) + [MARK] + x == Bytes([r.fields.id] + Body(r, after)) + [MARK]
  {
    var l, d, c := Flat(LabelGroups(Labels(r))), Flat(DepGroups(Deps(r))), Flat(CommentGroups(Comments(r)));
    GroupBytesFlat(LabelGroups(Labels(r)));
    GroupBytesFlat(DepGroups(Deps(r)));
    GroupBytesFlat(CommentGroups(Comments(r)));
    Nest(Bytes(Head(r.fields)), Bytes(l), [NUL], Bytes(d), [NUL], Bytes(c), [MARK], x);
    PushParts(Head(r.fields), l, d, c, after);
    HeadFirst(r, after);
  }

  /** The byte between issues can be read as the start of the token behind it. */
  lemma MarkMoves(t: string, rest: seq<string>)
    ensures [MARK] + (Bytes([t] + rest) + [MARK]) == Bytes([[MARK] + t] + rest) + [MARK]
  {
    assert ([t] + rest)[1..] == rest && ([[MARK] + t] + rest)[1..] == rest;
    Associative([MARK], Bytes([t] + rest), [MARK]);
    Associative([MARK], t + [NUL], Bytes(rest));
    Associative([MARK], t, [NUL]);
  }

  lemma {:induction false} StreamTokens(rs: seq<Record>)
    ensures [MARK] + StreamOf(rs) == Bytes(Tokens(rs)) + [MARK]
  {
    if rs == [] {
      assert [MARK] + "" == "" + [MARK];
    } else {
      StreamTokens(rs[1..]);
      WrittenTokens(rs[0], StreamOf(rs[1..]), Tokens(rs[1..]));
      MarkMoves(rs[0].fields.id, Body(rs[0], Tokens(rs[1..])));
    }
  }

  // ---------- bytes give back the tokens ----------

  lemma TokenSplit(s: string, t: string, a: string, b: string)
    requires NulFree(s) && NulFree(t) && s + [NUL] + a == t + [NUL] + b
    ensures s == t && a == b
  {
    var w := s + [NUL] + a;
    assert w[|s|] == NUL && w[|t|] == NUL;
    assert (forall i | 0 <= i < |s| :: w[i] == s[i]) && (forall i | 0 <= i < |t| :: w[i] == t[i]);
    assert |s| == |t|;
    assert w[..|s|] == s && w[..|t|] == t;
    assert w[|s| + 1..] == a && w[|t| + 1..] == b;
  }

  /** A nonempty list of tokens has a zero byte, the mark alone has none. */
  lemma NotOnlyMark(x: seq<string>)
    requires x != []
    ensures Bytes(x) + [MARK] != [MARK]
  {
    assert (Bytes(x) + [MARK])[|x[0]|] == NUL;
  }

  lemma {:induction false} BytesInjective(x: seq<string>, y: seq<string>)
    requires AllNulFree(x) && AllNulFree(y) && Bytes(x) + [MARK] == Bytes(y) + [MARK]
    ensures x == y
  {
    if x != [] {
      NotOnlyMark(x);
    }
    if y != [] {
      NotOnlyMark(y);
    }
    if x != [] && y != [] {
      Associative(x[0] + [NUL], Bytes(x[1..]), [MARK]);
      Associative(y[0] + [NUL], Bytes(y[1..]), [MARK]);
      TokenSplit(x[0], y[0], Bytes(x[1..]) + [MARK], Bytes(y[1..]) + [MARK]);
      BytesInjective(x[1..], y[1..]);
      assert x == [x[0]] + x[1..] && y == [y[0]] + y[1..];
    } else {
      assert Bytes([]) + [MARK] == [MARK];
    }
  }

  // ---------- the groups of an issue ----------

  /** Lists of n tokens. */
  ghost predicate Groups(n: nat, gs: seq<seq<string>>)
  {
    n > 0 && forall i | 0 <= i < |gs| :: |gs[i]| == n
  }

  ghost predicate Clean(gs: seq<seq<string>>)
  {
    forall i | 0 <= i < |gs| :: AllNulFree(gs[i])
  }

  lemma {:induction false} PresentMember<T(!new)>(xs: seq<Option<T>>)
    ensures forall x :: x in Present(xs) <==> Some(x) in xs
  {
    if xs != [] {
      PresentMember(xs[1..]);
      assert xs == [xs[0]] + xs[1..];
    }
  }

  /** Sorting keeps the members. */
  lemma SortedMembers(r: Record)
    ensures forall l :: l in Labels(r) <==> l in r.labels
    ensures forall d :: d in Deps(r) <==> Some(d) in r.deps
    ensures forall c :: c in Comments(r) <==> Some(c) in r.comments
  {
    Sorting.SortKeeps(Sorting.ById(), r.labels);
    Sorting.SortKeeps(ByDepKey(), Present(r.deps));
    Sorting.SortKeeps(ByCommentKey(), Present(r.comments));
    PresentMember(r.deps);
    PresentMember(r.comments);
  }

  lemma GroupsOf(r: Record)
    ensures Groups(1, LabelGroups(Labels(r))) && Groups(4, DepGroups(Deps(r))) && Groups(4, CommentGroups(Comments(r)))
  {
  }

  lemma GroupsClean(r: Record)
    requires ZeroFree(r)
    ensures Clean(LabelGroups(Labels(r))) && Clean(DepGroups(Deps(r))) && Clean(CommentGroups(Comments(r)))
  {
    SortedMembers(r);
    forall i | 0 <= i < |Labels(r)| ensures NulFree(Labels(r)[i]) {
      assert Labels(r)[i] in Labels(r);
    }
    forall i | 0 <= i < |Deps(r)| ensures AllNulFree(DepKey(Deps(r)[i])) {
      assert Deps(r)[i] in Deps(r);
    }
    forall i | 0 <= i < |Comments(r)| ensures AllNulFree(CommentFields(Comments(r)[i])) {
      assert Comments(r)[i] in Comments(r);
    }
  }

  lemma {:induction false} FlatNulFree(gs: seq<seq<string>>)
    requires Clean(gs)
    ensures AllNulFree(Flat(gs))
  {
    if gs != [] {
      FlatNulFree(gs[1..]);
    }
  }

  lemma BothNulFree(x: seq<string>, y: seq<string>)
    requires AllNulFree(x) && AllNulFree(y)
    ensures AllNulFree(x + y)
  {
  }

  lemma BodyNulFree(r: Record, after: seq<string>)
    requires ZeroFree(r) && AllNulFree(after)
    ensures AllNulFree(Body(r, after))
  {
    GroupsClean(r);
    var l, d, c := Flat(LabelGroups(Labels(r))), Flat(DepGroups(Deps(r))), Flat(CommentGroups(Comments(r)));
    FlatNulFree(LabelGroups(Labels(r)));
    FlatNulFree(DepGroups(Deps(r)));
    FlatNulFree(CommentGroups(Comments(r)));
    BothNulFree(c, after);
    BothNulFree([""], c + after);
    BothNulFree(d, [""] + (c + after));
    BothNulFree([""], d + ([""] + (c + after)));
    BothNulFree(l, [""] + (d + ([""] + (c + after))));
    BothNulFree(Head(r.fields)[1..], l + ([""] + (d + ([""] + (c + after)))));
  }

  lemma {:induction false} TokensNulFree(rs: seq<Record>)
    requires AllZeroFree(rs)
    ensures AllNulFree(Tokens(rs))
  {
    if rs != [] {
      TokensNulFree(rs[1..]);
      BodyNulFree(rs[0], Tokens(rs[1..]));
      assert NulFree(Head(rs[0].fields)[0]);
      BothNulFree([[MARK] + rs[0].fields.id], Body(rs[0], Tokens(rs[1..])));
    }
  }

  /** Without zero bytes the stream is the list of tokens. */
  lemma StreamIsTokens(a: seq<Record>, b: seq<Record>)
    requires AllZeroFree(a) && AllZeroFree(b)
    ensures StreamOf(a) == StreamOf(b) <==> Tokens(a) == Tokens(b)
  {
    StreamTokens(a);
    StreamTokens(b);
    if StreamOf(a) == StreamOf(b) {
      TokensNulFree(a);
      TokensNulFree(b);
      BytesInjective(Tokens(a), Tokens(b));
    }
    if Tokens(a) == Tokens(b) {
      assert ([MARK] + StreamOf(a))[1..] == StreamOf(a);
      assert ([MARK] + StreamOf(b))[1..] == StreamOf(b);
    }
  }

  // ---------- reading an issue back ----------

  lemma SameLengths(x: seq<string>, y: seq<string>, a: seq<string>, b: seq<string>)
    requires |x| == |y| && x + a == y + b
    ensures x == y && a == b
  {
    assert (x + a)[..|x|] == x && (y + b)[..|y|] == y;
    assert (x + a)[|x|..] == a && (y + b)[|y|..] == b;
  }

  lemma FlatStart(n: nat, gs: seq<seq<string>>, a: seq<string>)
    requires Groups(n, gs) && gs != []
    ensures Flat(gs) + a == gs[0] + (Flat(gs[1..]) + a) && |Flat(gs) + a| > 0 && (Flat(gs) + a)[0] == gs[0][0]
  {
    assert (gs[0] + Flat(gs[1..])) + a == gs[0] + (Flat(gs[1..]) + a);
  }

  /** The first groups of two lists are equal, and so is what comes after them. */
  lemma Peel(n: nat, g: seq<seq<string>>, h: seq<seq<string>>, a: seq<string>, b: seq<string>)
    requires Groups(n, g) && Groups(n, h) && g != [] && h != [] && Flat(g) + a == Flat(h) + b
    ensures g[0] == h[0] && Flat(g[1..]) + a == Flat(h[1..]) + b
    ensures g[1..] == h[1..] ==> g == h
  {
    FlatStart(n, g, a);
    FlatStart(n, h, b);
    SameLengths(g[0], h[0], Flat(g[1..]) + a, Flat(h[1..]) + b);
    assert g == [g[0]] + g[1..] && h == [h[0]] + h[1..];
  }

  /** Lists whose first token is not empty. */
  ghost predicate Started(n: nat, gs: seq<seq<string>>)
  {
    Groups(n, gs) && forall i | 0 <= i < |gs| :: gs[i][0] != ""
  }

  /** A list of started groups that an empty token ends. */
  lemma {:induction false} GroupsSplit(n: nat, g: seq<seq<string>>, h: seq<seq<string>>, a: seq<string>, b: seq<string>)
    requires Started(n, g) && Started(n, h) && Flat(g) + ([""] + a) == Flat(h) + ([""] + b)
    ensures g == h && a == b
  {
    if g != [] {
      FlatStart(n, g, [""] + a);
    }
    if h != [] {
      FlatStart(n, h, [""] + b);
    }
    if g != [] && h != [] {
      Peel(n, g, h, [""] + a, [""] + b);
      GroupsSplit(n, g[1..], h[1..], a, b);
    } else {
      assert (Flat([]) + ([""] + a))[0] == "" && (Flat([]) + ([""] + b))[0] == "";
      assert g == h == [];
      assert Flat(g) + ([""] + a) == [""] + a && Flat(h) + ([""] + b) == [""] + b;
      SameLengths([""], [""], a, b);
    }
  }

  ghost predicate NoEmptyLabel(r: Record)
  {
    forall l | l in r.labels :: l != ""
  }

  lemma LabelsStarted(r: Record)
    requires NoEmptyLabel(r)
    ensures Started(1, LabelGroups(Labels(r)))
  {
    SortedMembers(r);
    forall i | 0 <= i < |Labels(r)| ensures Labels(r)[i] != "" {
      assert Labels(r)[i] in Labels(r);
    }
  }

  /** The dependencies of an issue, the empty token behind them, its comments, and what comes after it. */
  ghost function DepsOn(r: Record, after: seq<string>): seq<string>
  {
    Flat(DepGroups(Deps(r))) + ([""] + (Flat(CommentGroups(Comments(r))) + after))
  }

  /** Everything up to the dependencies is read back. */
  lemma FirstIssue(r: Record, s: Record, a: seq<string>, b: seq<string>)
    requires NoEmptyLabel(r) && NoEmptyLabel(s)
    requires [[MARK] + r.fields.id] + Body(r, a) == [[MARK] + s.fields.id] + Body(s, b)
    ensures Head(r.fields) == Head(s.fields) && LabelGroups(Labels(r)) == LabelGroups(Labels(s))
    ensures DepsOn(r, a) == DepsOn(s, b)
  {
    LabelsStarted(r);
    LabelsStarted(s);
    SameLengths([[MARK] + r.fields.id], [[MARK] + s.fields.id], Body(r, a), Body(s, b));
    SameMarked(r.fields.id, s.fields.id);
    var la, lb := Flat(LabelGroups(Labels(r))) + ([""] + DepsOn(r, a)),
      Flat(LabelGroups(Labels(s))) + ([""] + DepsOn(s, b));
    SameLengths(Head(r.fields)[1..], Head(s.fields)[1..], la, lb);
    assert Head(r.fields) == [r.fields.id] + Head(r.fields)[1..]
      && Head(s.fields) == [s.fields.id] + Head(s.fields)[1..];
    GroupsSplit(1, LabelGroups(Labels(r)), LabelGroups(Labels(s)), DepsOn(r, a), DepsOn(s, b));
  }

  lemma SameMarked(x: string, y: string)
    requires [[MARK] + x] == [[MARK] + y]
    ensures x == y
  {
    assert [[MARK] + x][0] == [[MARK] + y][0];
    assert ([MARK] + x)[1..] == x && ([MARK] + y)[1..] == y;
  }

  // ---------- where tokens stand ----------

  lemma {:induction false} FlatAt(n: nat, gs: seq<seq<string>>, i: nat, j: nat)
    requires Groups(n, gs) && i < |gs| && j < n
    ensures |Flat(gs)| == n * |gs| && 0 <= n * i + j < |Flat(gs)| && Flat(gs)[n * i + j] == gs[i][j]
  {
    FlatLength(n, gs);
    if i > 0 {
      FlatAt(n, gs[1..], i - 1, j);
      assert n * i + j == n + (n * (i - 1) + j);
    }
  }

  lemma {:induction false} FlatLength(n: nat, gs: seq<seq<string>>)
    requires Groups(n, gs)
    ensures |Flat(gs)| == n * |gs|
  {
    if gs != [] {
      FlatLength(n, gs[1..]);
      assert n * |gs| == n + n * (|gs| - 1);
    }
  }

  /** Fifteen fields behind an ID, then the rest. */
  lemma Place(id: string, fields: seq<string>, rest: seq<string>, j: nat)
    requires |fields| == 15 && j < 15 + |rest|
    ensures |[id] + (fields + rest)| == 16 + |rest|
    ensures ([id] + (fields + rest))[1 + j] == if j < 15 then fields[j] else rest[j - 15]
  {
  }

  /** What stands behind the fields. */
  ghost function AfterFields(r: Record, after: seq<string>): seq<string>
  {
    Flat(LabelGroups(Labels(r))) + ([""] + DepsOn(r, after))
  }

  /** The fields of the first issue behind its ID. */
  lemma FieldAt(rs: seq<Record>, j: nat)
    requires rs != [] && 1 <= j < 16
    ensures |Tokens(rs)| >= 18 && Tokens(rs)[j] == Head(rs[0].fields)[j]
  {
    var head, rest := Head(rs[0].fields), AfterFields(rs[0], Tokens(rs[1..]));
    assert |rest| >= 2;
    Place([MARK] + rs[0].fields.id, head[1..], rest, j - 1);
  }

  lemma RestAt(rs: seq<Record>, j: nat)
    requires rs != [] && j < |AfterFields(rs[0], Tokens(rs[1..]))|
    ensures 16 + j < |Tokens(rs)| && Tokens(rs)[16 + j] == AfterFields(rs[0], Tokens(rs[1..]))[j]
  {
    Place([MARK] + rs[0].fields.id, Head(rs[0].fields)[1..], AfterFields(rs[0], Tokens(rs[1..])), 15 + j);
  }

  /** What stands behind the fields: the labels and an empty token. */
  lemma LabelAt(rs: seq<Record>, j: nat)
    requires rs != [] && j <= |Labels(rs[0])|
    ensures 16 + j < |Tokens(rs)| && Tokens(rs)[16 + j] == if j < |Labels(rs[0])| then Labels(rs[0])[j] else ""
  {
    GroupsOf(rs[0]);
    var g := LabelGroups(Labels(rs[0]));
    FlatLength(1, g);
    if j < |g| {
      FlatAt(1, g, j, 0);
    }
    RestAt(rs, j);
  }

  lemma NoLabelFields(r: Record, after: seq<string>)
    requires Labels(r) == []
    ensures AfterFields(r, after) == [""] + DepsOn(r, after)
  {
    assert LabelGroups(Labels(r)) == [];
    assert [] + ([""] + DepsOn(r, after)) == [""] + DepsOn(r, after);
  }

  lemma Ended(x: seq<string>, rest: seq<string>, j: nat)
    requires j <= |x|
    ensures j < |x + ([""] + rest)| && (x + ([""] + rest))[j] == if j < |x| then x[j] else ""
  {
  }

  lemma DepPlace(r: Record, after: seq<string>, j: nat)
    requires Labels(r) == [] && j <= |Flat(DepGroups(Deps(r)))|
    ensures 1 + j < |AfterFields(r, after)|
    ensures AfterFields(r, after)[1 + j] == if j < |Flat(DepGroups(Deps(r)))| then Flat(DepGroups(Deps(r)))[j] else ""
  {
    NoLabelFields(r, after);
    Ended(Flat(DepGroups(Deps(r))), Flat(CommentGroups(Comments(r))) + after, j);
  }

  /** Without labels the dependencies follow. */
  lemma DepAt(rs: seq<Record>, j: nat)
    requires rs != [] && Labels(rs[0]) == [] && j < 4
    requires j == 0 || Deps(rs[0]) != []
    ensures 17 + j < |Tokens(rs)|
    ensures Tokens(rs)[17 + j] == if Deps(rs[0]) != [] then DepKey(Deps(rs[0])[0])[j] else ""
  {
    GroupsOf(rs[0]);
    var g := DepGroups(Deps(rs[0]));
    FlatLength(4, g);
    if g != [] {
      FlatAt(4, g, 0, j);
    }
    DepPlace(rs[0], Tokens(rs[1..]), j);
    RestAt(rs, 1 + j);
  }
}
