/**
 When the stream behind the cache key does not determine the issues: the exact conditions, and the collisions that
 show them to be needed.
 */
module KeyCollisions {
  import opened Issues
  import opened Decimals
  import opened CacheStream
  import opened KeyTokens
  import opened CacheKey
  import Sorting

  // ---------- free statuses ----------

  /**
   The texts that may occur: comment IDs by issue ID, dependency types with the byte of the issue's end in front by
   issue ID, statuses, times. Other dependency types, and everything else, are free.
   */
  datatype Texts = Texts(comments: iset<(string, string)>, kinds: iset<(string, string)>, statuses: iset<string>,
                         times: iset<string>)

  predicate Marked(s: string)
  {
    s != "" && s[0] == MARK
  }

  /** Real times, at least one of them. */
  ghost predicate TimesReal(x: Texts)
  {
    (exists t :: t in x.times) && forall t | t in x.times :: NulFree(t) && Timed(t) && !Marked(t)
  }

  /** As Validate has it, but with the status taken from a given set. */
  ghost predicate Drawn(x: Texts, r: Record)
  {
    && r.fields.id != "" && r.fields.title != "" && r.fields.issueType != "" && Int64(r.fields.priority)
    && r.fields.status in x.statuses && r.fields.status != "" && TimesHold(r, t => t in x.times)
    && (forall c | Some(c) in r.comments :: (r.fields.id, c.id) in x.comments)
    && forall d | Some(d) in r.deps && Marked(d.kind) :: (r.fields.id, d.kind) in x.kinds
  }

  ghost predicate Over(x: Texts, issues: seq<Record>)
  {
    Fit(issues) && forall r | r in issues :: Drawn(x, r)
  }

  /** Equal streams for equal issues only, and for all of them. */
  ghost predicate Identifies(x: Texts)
  {
    forall a, b | Over(x, a) && Over(x, b) :: Stream(a) == Stream(b) <==> Same(a, b)
  }

  ghost predicate Collide(x: Texts, a: seq<Record>, b: seq<Record>)
  {
    Over(x, a) && Over(x, b) && Stream(a) == Stream(b) && !Same(a, b)
  }

  ghost predicate RiskyPair(p: (string, string))
  {
    p.0 != "" && NulFree(p.0) && NulFree(p.1) && Risky(p.0, p.1)
  }

  ghost predicate NoneRisky(x: Texts)
  {
    forall p | p in x.comments + x.kinds :: !RiskyPair(p)
  }

  ghost predicate AllAbove(x: Texts)
  {
    forall s | s in x.statuses && s != "" && NulFree(s) :: AboveNumbers(s)
  }

  lemma PlainText(r: Record)
    requires ZeroFree(r)
    ensures NulFree(r.fields.id) && NulFree(r.fields.status)
  {
    assert NulFree(Head(r.fields)[0]) && NulFree(Head(r.fields)[9]);
  }

  lemma DrawnSafe(x: Texts, r: Record)
    requires Drawn(x, r) && Plain(r) && NoneRisky(x)
    ensures Safe(r)
  {
    PlainText(r);
    forall c | Some(c) in r.comments ensures !Risky(r.fields.id, c.id) {
      assert NulFree(CommentFields(c)[0]);
      assert !RiskyPair((r.fields.id, c.id));
    }
    forall d | Some(d) in r.deps ensures !Risky(r.fields.id, d.kind) {
      assert NulFree(DepKey(d)[1]);
      assert Marked(d.kind) ==> !RiskyPair((r.fields.id, d.kind));
    }
  }

  lemma DrawnProper(x: Texts, r: Record)
    requires Drawn(x, r) && Plain(r) && AllAbove(x) && TimesReal(x)
    ensures Proper(r)
  {
    PlainText(r);
    assert AboveNumbers(r.fields.status);
    TimesWeaken(r, t => t in x.times, Timed);
  }

  lemma TimesWeaken(r: Record, p: string -> bool, q: string -> bool)
    requires TimesHold(r, p) && forall t | p(t) :: q(t)
    ensures TimesHold(r, q)
  {
  }

  lemma Sufficient(x: Texts, a: seq<Record>, b: seq<Record>)
    requires TimesReal(x) && (NoneRisky(x) || AllAbove(x)) && Over(x, a) && Over(x, b)
    ensures Stream(a) == Stream(b) <==> Same(a, b)
  {
    var safe := NoneRisky(x);
    forall r | r in a || r in b ensures Told(safe, r) {
      if safe {
        DrawnSafe(x, r);
      } else {
        DrawnProper(x, r);
      }
    }
    ToldIdentifies(safe, a, b);
  }

  // ---------- the collision ----------

  /**
   A risky text MARK + y on issue low, as a comment ID or as the type of a dependency on nothing; a status, a number
   that reaches it as text, and a time.
   */
  datatype Clash = Clash(low: string, y: string, asKind: bool, status: string, number: int, time: string)

  /** The issue with the risky text, or without it. */
  ghost function Holder(k: Clash, deps: seq<Option<Dep>>, comments: seq<Option<Comment>>): Record
  {
    Record(Fields(k.low, "a", "", "", "", "", "", "", None, k.status, "k", 0, None, k.time, k.time, None),
      [], deps, comments)
  }

  ghost function Remark(k: Clash): Comment
  {
    Comment([MARK] + k.y, "a", "", k.time)
  }

  ghost function Link(k: Clash): Dep
  {
    Dep("", [MARK] + k.y, k.time, "")
  }

  /** Two comments, or two dependencies. */
  ghost function Laden(k: Clash): Record
  {
    if k.asKind then Holder(k, [Some(Link(k)), Some(Link(k))], [])
      else Holder(k, [], [Some(Remark(k)), Some(Remark(k))])
  }

  ghost function Bare(k: Clash): Record
  {
    Holder(k, [], [])
  }

  /** The risky text and the three tokens behind it: of the comment, or of the dependency and the empty token behind. */
  ghost function Piece(k: Clash): (p: seq<string>)
    ensures |p| == 4
  {
    if k.asKind then [[MARK] + k.y, k.time, "", ""] else [[MARK] + k.y, "a", "", k.time]
  }

  /** The issue behind it. */
  ghost function Behind(k: Clash): Record
  {
    Record(Fields(k.low + "z", k.status, "k", "0", "", k.time, k.time, "", Some(k.status), k.status, k.status,
      k.number, None, k.time, k.time, Some(k.time)), [], [], [])
  }

  /** What the risky text and the issue behind it look like when they are taken for one issue. */
  ghost function Phantom(k: Clash): Record
  {
    var p := Piece(k);
    Record(Fields(k.y, p[1], p[2], p[3], p[0], p[1], p[2], p[3], Some([MARK] + (k.low + "z")), k.status, "k", 0, None,
      k.time, k.time, None),
      [k.status, k.status, k.status, Itoa(k.number)], [Some(Dep(k.time, k.time, k.time, ""))], [])
  }

  /** Two lists that differ and have one stream. */
  ghost function Left(k: Clash): seq<Record>
  {
    [Laden(k), Behind(k)]
  }

  ghost function Right(k: Clash): seq<Record>
  {
    [Bare(k), Phantom(k)]
  }

  // The tokens that both streams hold after those of the first issue, in three pieces.

  ghost function RiskyTokens(k: Clash): seq<string>
  {
    Piece(k) + Piece(k)
  }

  ghost function Middle(k: Clash): seq<string>
  {
    [[MARK] + (k.low + "z"), k.status, "k", "0", "", k.time, k.time, ""]
  }

  ghost function Ending(k: Clash): seq<string>
  {
    [k.status, k.status, k.status, Itoa(k.number), "", k.time, k.time, k.time, "", ""]
  }

  /** Issues without labels. */
  lemma NoLabels(r: Record, after: seq<string>)
    requires r.labels == []
    ensures Body(r, after) == Head(r.fields)[1..] + ([""] + DepsOn(r, after))
  {
    assert LabelGroups(Labels(r)) == [];
    assert [] + ([""] + DepsOn(r, after)) == [""] + DepsOn(r, after);
  }

  /** Issues without labels, dependencies and comments. */
  lemma NoGroups(r: Record, after: seq<string>)
    requires r.labels == [] && r.deps == [] && r.comments == []
    ensures Body(r, after) == Head(r.fields)[1..] + (["", ""] + after)
  {
    NoLabels(r, after);
    assert DepGroups(Deps(r)) == [] && CommentGroups(Comments(r)) == [];
    assert [] + after == after;
    assert [""] + ([] + ([""] + after)) == ["", ""] + after;
  }

  lemma TwoTokens(p: Record, q: Record)
    ensures Tokens([p, q]) == [[MARK] + p.fields.id] + Body(p, [[MARK] + q.fields.id] + Body(q, []))
  {
    assert [p, q][1..] == [q] && [q][1..] == [];
    assert Tokens([q]) == [[MARK] + q.fields.id] + Body(q, Tokens([]));
  }

  /** What both lists begin with. */
  ghost function Front(k: Clash): seq<string>
  {
    [[MARK] + k.low] + (Head(Bare(k).fields)[1..] + ["", ""])
  }

  lemma Fronted(x: string, h: seq<string>, e: seq<string>, after: seq<string>)
    ensures [x] + (h + (e + after)) == ([x] + (h + e)) + after
  {
  }

  lemma FlatTwo(g: seq<string>)
    ensures Flat([g, g]) == g + g
  {
    assert [g, g][1..] == [g] && [g][1..] == [];
    assert Flat([g]) == g;
  }

  /** The second issue's first comment ID, or dependency type, stands where an issue's end and the next ID would. */
  lemma LadenDeps(k: Clash, after: seq<string>)
    ensures [""] + DepsOn(Laden(k), after) == ["", ""] + (RiskyTokens(k) + after)
  {
    if k.asKind {
      var d := Link(k);
      PresentTwo(d);
      KeyTotal(DepKey(d), DepKey(d));
      SortTwo(ByDepKey(), d, d);
      assert DepGroups([d, d]) == [DepKey(d), DepKey(d)];
      FlatTwo(DepKey(d));
      assert CommentGroups(Comments(Laden(k))) == [];
      assert [""] + ((DepKey(d) + DepKey(d)) + ([""] + ([] + after))) == ["", ""] + ((Piece(k) + Piece(k)) + after);
    } else {
      var c := Remark(k);
      PresentTwo(c);
      KeyTotal(CommentKey(c), CommentKey(c));
      SortTwo(ByCommentKey(), c, c);
      assert CommentGroups([c, c]) == [CommentFields(c), CommentFields(c)];
      FlatTwo(CommentFields(c));
      assert DepGroups(Deps(Laden(k))) == [];
      assert [""] + ([] + ([""] + ((Piece(k) + Piece(k)) + after))) == ["", ""] + ((Piece(k) + Piece(k)) + after);
    }
  }

  lemma PresentTwo<T(!new)>(x: T)
    ensures Present([Some(x), Some(x)]) == [x, x]
  {
    assert [Some(x), Some(x)][1..] == [Some(x)] && [Some(x)][1..] == [];
    assert Present([Some(x)]) == [x];
  }

  lemma SortTwo<T(!new)>(lt: (T, T) -> bool, p: T, q: T)
    requires !lt(q, p)
    ensures Sorting.Sort(lt, [p, q]) == [p, q]
  {
    assert [p, q][1..] == [q] && [q][1..] == [];
    assert Sorting.Sort(lt, [q]) == [q];
  }

  lemma LessZ(low: string)
    ensures Less(low, low + "z")
  {
    if low != "" {
      LessZ(low[1..]);
      assert (low + "z")[1..] == low[1..] + "z";
    }
  }

  lemma BehindTokens(k: Clash)
    ensures [[MARK] + (k.low + "z")] + Body(Behind(k), []) == Middle(k) + Ending(k)
  {
    NoGroups(Behind(k), []);
    BehindHead(k);
    Fronted([MARK] + (k.low + "z"), Head(Behind(k).fields)[1..], ["", ""], []);
  }

  lemma HeadSplit(f: Fields)
    ensures Head(f)[1..8] == [f.title, f.description, f.notes, f.design, f.acceptance, f.assignee, f.sourceRepo]
    ensures var ref := if f.externalRef.Some? then f.externalRef.value else "";
      var minutes := if f.estimated.Some? then Itoa(f.estimated.value) else "";
      var closed := if f.closedAt.Some? then f.closedAt.value else "";
      Head(f)[8..] == [ref, f.status, f.issueType, Itoa(f.priority), minutes, f.createdAt, f.updatedAt, closed]
  {
  }

  lemma BehindHead(k: Clash)
    ensures [[MARK] + (k.low + "z")] + (Head(Behind(k).fields)[1..] + ["", ""]) == Middle(k) + Ending(k)
  {
    ItoaSmall();
    HeadSplit(Behind(k).fields);
    Joined([MARK] + (k.low + "z"), Head(Behind(k).fields), Middle(k), ["", ""], Ending(k));
  }

  lemma Joined(x: string, h: seq<string>, m: seq<string>, tail: seq<string>, e: seq<string>)
    requires |h| == 16 && |m| == 8 && m[0] == x && h[1..8] == m[1..] && h[8..] + tail == e
    ensures [x] + (h[1..] + tail) == m + e
  {
    assert h[1..] == h[1..8] + h[8..];
    assert m == [x] + m[1..];
    assert (m[1..] + h[8..]) + tail == m[1..] + (h[8..] + tail);
  }

  lemma LeftTokens(k: Clash)
    ensures Tokens(Left(k)) == Front(k) + (RiskyTokens(k) + (Middle(k) + Ending(k)))
  {
    TwoTokens(Laden(k), Behind(k));
    BehindTokens(k);
    NoLabels(Laden(k), Middle(k) + Ending(k));
    LadenDeps(k, Middle(k) + Ending(k));
    Fronted([MARK] + k.low, Head(Bare(k).fields)[1..], ["", ""], RiskyTokens(k) + (Middle(k) + Ending(k)));
  }

  lemma ItoaSmall()
    ensures Itoa(0) == "0"
  {
  }

  /** Already in order. */
  lemma PhantomLabels(k: Clash)
    requires !Less(Itoa(k.number), k.status)
    ensures Labels(Phantom(k)) == [k.status, k.status, k.status, Itoa(k.number)]
  {
    var s, n, lt := k.status, Itoa(k.number), Sorting.ById();
    LessIrreflexive(s);
    SortTwo(lt, s, n);
    SortFront(lt, s, [s, n]);
    SortFront(lt, s, [s, s, n]);
  }

  lemma SortFront<T(!new)>(lt: (T, T) -> bool, x: T, xs: seq<T>)
    requires Sorting.Sort(lt, xs) == xs && (xs != [] ==> !lt(xs[0], x))
    ensures Sorting.Sort(lt, [x] + xs) == [x] + xs
  {
    assert ([x] + xs)[1..] == xs;
  }

  lemma FlatOnes(xs: seq<string>)
    requires |xs| == 4
    ensures Flat(LabelGroups(xs)) == xs
  {
    var g := LabelGroups(xs);
    assert g == [[xs[0]], [xs[1]], [xs[2]], [xs[3]]];
    assert g[1..][1..] == [[xs[2]], [xs[3]]] && g[1..][1..][1..] == [[xs[3]]] && g[1..][1..][1..][1..] == [];
    assert Flat([[xs[3]]]) == [xs[3]];
    assert Flat(g[1..][1..]) == [xs[2], xs[3]];
    assert Flat(g[1..]) == [xs[1], xs[2], xs[3]];
  }

  lemma OneDep(r: Record, d: Dep)
    requires r.deps == [Some(d)]
    ensures Flat(DepGroups(Deps(r))) == DepKey(d)
  {
    assert r.deps[1..] == [];
    assert Present(r.deps) == [d] && [d][1..] == [];
    assert Sorting.Sort(ByDepKey(), [d]) == [d];
    var g := DepGroups([d]);
    assert g == [DepKey(d)] && g[1..] == [];
  }

  lemma PhantomBody(k: Clash)
    requires !Less(Itoa(k.number), k.status)
    ensures Body(Phantom(k), []) == Head(Phantom(k).fields)[1..] + Ending(k)
  {
    PhantomLabels(k);
    FlatOnes(Labels(Phantom(k)));
    OneDep(Phantom(k), Dep(k.time, k.time, k.time, ""));
    assert CommentGroups(Comments(Phantom(k))) == [];
    EndingParts(k);
  }

  lemma EndingParts(k: Clash)
    ensures [k.status, k.status, k.status, Itoa(k.number)]
      + ([""] + ([k.time, k.time, k.time, ""] + ([""] + ([] + [])))) == Ending(k)
  {
  }

  lemma PhantomHead(k: Clash)
    ensures [[MARK] + k.y] + (Head(Phantom(k).fields)[1..] + Ending(k)) == RiskyTokens(k) + (Middle(k) + Ending(k))
  {
    ItoaSmall();
    HeadSplit(Phantom(k).fields);
    Joined([MARK] + k.y, Head(Phantom(k).fields), RiskyTokens(k), Ending(k), Middle(k) + Ending(k));
  }

  lemma RightTokens(k: Clash)
    requires !Less(Itoa(k.number), k.status)
    ensures Tokens(Right(k)) == Front(k) + (RiskyTokens(k) + (Middle(k) + Ending(k)))
  {
    var after := RiskyTokens(k) + (Middle(k) + Ending(k));
    TwoTokens(Bare(k), Phantom(k));
    PhantomBody(k);
    PhantomHead(k);
    NoGroups(Bare(k), after);
    Fronted([MARK] + k.low, Head(Bare(k).fields)[1..], ["", ""], after);
  }

  ghost predicate ClashText(k: Clash)
  {
    k.low != "" && NulFree(k.low) && NulFree(k.y) && k.status != "" && NulFree(k.status) && NulFree(k.time)
      && k.time != ""
  }

  ghost predicate ClashOver(x: Texts, k: Clash)
  {
    && ClashText(k) && Less(k.low, k.y) && (k.low, [MARK] + k.y) in (if k.asKind then x.kinds else x.comments)
    && k.status in x.statuses && Int64(k.number) && !Less(Itoa(k.number), k.status) && k.time in x.times && TimesReal(x)
  }

  ghost predicate TextNulFree(f: Fields)
  {
    && NulFree(f.id) && NulFree(f.title) && NulFree(f.description) && NulFree(f.notes) && NulFree(f.design)
    && NulFree(f.acceptance) && NulFree(f.assignee) && NulFree(f.sourceRepo)
      && (f.externalRef.Some? ==> NulFree(f.externalRef.value))
    && NulFree(f.status) && NulFree(f.issueType) && NulFree(f.createdAt) && NulFree(f.updatedAt)
    && (f.closedAt.Some? ==> NulFree(f.closedAt.value))
  }

  lemma HeadNulFree(f: Fields)
    requires TextNulFree(f)
    ensures AllNulFree(Head(f))
  {
    ItoaShape(f.priority);
    if f.estimated.Some? {
      ItoaShape(f.estimated.value);
    }
  }

  lemma HolderPlain(k: Clash, deps: seq<Option<Dep>>, comments: seq<Option<Comment>>)
    requires ClashText(k) && (forall d | Some(d) in deps :: d == Link(k))
      && (forall c | Some(c) in comments :: c == Remark(k))
    ensures Plain(Holder(k, deps, comments))
  {
    HeadNulFree(Holder(k, deps, comments).fields);
    PieceNulFree(k);
  }

  lemma PieceNulFree(k: Clash)
    requires ClashText(k)
    ensures AllNulFree(CommentFields(Remark(k))) && AllNulFree(DepKey(Link(k))) && AllNulFree(Piece(k))
  {
  }

  lemma LadenFine(x: Texts, k: Clash)
    requires ClashOver(x, k)
    ensures Plain(Laden(k)) && Drawn(x, Laden(k)) && Plain(Bare(k)) && Drawn(x, Bare(k))
  {
    HolderPlain(k, [Some(Link(k)), Some(Link(k))], []);
    HolderPlain(k, [], [Some(Remark(k)), Some(Remark(k))]);
    HolderPlain(k, [], []);
  }

  lemma BehindFine(x: Texts, k: Clash)
    requires ClashOver(x, k)
    ensures Plain(Behind(k)) && Drawn(x, Behind(k))
  {
    HeadNulFree(Behind(k).fields);
  }

  lemma PhantomPlain(k: Clash)
    requires ClashText(k)
    ensures Plain(Phantom(k))
  {
    PieceNulFree(k);
    var p := Piece(k);
    assert NulFree(p[0]) && NulFree(p[1]) && NulFree(p[2]) && NulFree(p[3]);
    HeadNulFree(Phantom(k).fields);
    ItoaShape(k.number);
    PhantomDepNulFree(k.time);
  }

  lemma PhantomDepNulFree(t: string)
    requires NulFree(t)
    ensures AllNulFree(DepKey(Dep(t, t, t, "")))
  {
  }

  lemma PhantomDrawn(x: Texts, k: Clash)
    requires ClashOver(x, k)
    ensures Drawn(x, Phantom(k))
  {
    assert !Marked(k.time);
  }

  lemma SidesOrdered(k: Clash)
    requires Less(k.low, k.y)
    ensures InOrder(Left(k)) == Left(k) && UniqueIds(Left(k))
    ensures InOrder(Right(k)) == Right(k) && UniqueIds(Right(k))
  {
    LessZ(k.low);
    LessIrreflexive(k.low);
    if Less(k.low + "z", k.low) {
      LessTransitive(k.low, k.low + "z", k.low);
    }
    if Less(k.y, k.low) {
      LessTransitive(k.low, k.y, k.low);
    }
    SortTwo(ByIssueId(), Left(k)[0], Left(k)[1]);
    SortTwo(ByIssueId(), Right(k)[0], Right(k)[1]);
  }

  lemma LadenContent(k: Clash)
    ensures ContentOf(Laden(k)) != ContentOf(Bare(k))
  {
    var c, d := ContentOf(Laden(k)), ContentOf(Bare(k));
    if k.asKind {
      PresentTwo(Link(k));
      assert Link(k) in c.deps && Link(k) !in d.deps;
    } else {
      PresentTwo(Remark(k));
      assert Remark(k) in c.comments && Remark(k) !in d.comments;
    }
  }

  lemma PairContents(p: Record, q: Record)
    ensures Contents([p, q]) == [ContentOf(p), ContentOf(q)]
  {
  }

  lemma NotRearranged<T>(c: T, d: T, e: T, f: T)
    requires c != e && c != f
    ensures multiset([c, d]) != multiset([e, f])
  {
    assert multiset([c, d])[c] > 0 && multiset([e, f])[c] == 0;
  }

  lemma FirstDiffers(p: Record, q: Record, r: Record, s: Record)
    requires ContentOf(p) != ContentOf(r) && ContentOf(p) != ContentOf(s)
    ensures !Same([p, q], [r, s])
  {
    PairContents(p, q);
    PairContents(r, s);
    NotRearranged(ContentOf(p), ContentOf(q), ContentOf(r), ContentOf(s));
  }

  lemma SidesDiffer(k: Clash)
    requires Less(k.low, k.y)
    ensures !Same(Left(k), Right(k))
  {
    LessIrreflexive(k.low);
    LadenContent(k);
    OtherId(k);
    FirstDiffers(Laden(k), Behind(k), Bare(k), Phantom(k));
  }

  lemma OtherId(k: Clash)
    requires k.low != k.y
    ensures ContentOf(Laden(k)) != ContentOf(Phantom(k))
  {
    assert ContentOf(Laden(k)).fields.id == k.low && ContentOf(Phantom(k)).fields.id == k.y;
  }

  lemma TwoOver(x: Texts, p: Record, q: Record)
    requires Plain(p) && Drawn(x, p) && Plain(q) && Drawn(x, q) && p.fields.id != q.fields.id
    ensures Over(x, [p, q])
  {
  }

  lemma SidesOver(x: Texts, k: Clash)
    requires ClashOver(x, k)
    ensures Over(x, Left(k)) && Over(x, Right(k))
  {
    SidesOrdered(k);
    assert Left(k)[0].fields.id != Left(k)[1].fields.id && Right(k)[0].fields.id != Right(k)[1].fields.id;
    LadenFine(x, k);
    BehindFine(x, k);
    PhantomPlain(k);
    PhantomDrawn(x, k);
    TwoOver(x, Left(k)[0], Left(k)[1]);
    TwoOver(x, Right(k)[0], Right(k)[1]);
  }

  lemma SidesStream(k: Clash)
    requires Less(k.low, k.y) && !Less(Itoa(k.number), k.status)
    requires AllZeroFree(Left(k)) && AllZeroFree(Right(k))
    ensures Stream(Left(k)) == Stream(Right(k))
  {
    SidesOrdered(k);
    LeftTokens(k);
    RightTokens(k);
    StreamIsTokens(Left(k), Right(k));
  }

  lemma OverZeroFree(x: Texts, issues: seq<Record>)
    requires Over(x, issues)
    ensures AllZeroFree(issues)
  {
    forall i | 0 <= i < |issues| ensures ZeroFree(issues[i]) {
      assert Plain(issues[i]);
    }
  }

  lemma ClashCollides(x: Texts, k: Clash)
    requires ClashOver(x, k)
    ensures exists a, b :: Collide(x, a, b)
  {
    SidesOver(x, k);
    OverZeroFree(x, Left(k));
    OverZeroFree(x, Right(k));
    SidesStream(k);
    SidesDiffer(k);
    assert Collide(x, Left(k), Right(k));
  }

  /**
   A risky comment ID, or a risky dependency type, and a status that some priority reaches make two different lists of
   issues share a stream.
   */
  lemma RiskyCollides(x: Texts, low: string, text: string, asKind: bool, status: string)
    requires TimesReal(x) && (low, text) in (if asKind then x.kinds else x.comments) && status in x.statuses
    requires RiskyPair((low, text)) && status != "" && NulFree(status) && !AboveNumbers(status)
    ensures exists a, b :: Collide(x, a, b)
  {
    var time :| time in x.times;
    var n := Reaching(status);
    RiskyText(low, text);
    ClashCollides(x, Clash(low, text[1..], asKind, status, n, time));
  }

  lemma Reaching(status: string) returns (n: int)
    requires !AboveNumbers(status)
    ensures Int64(n) && !Less(Itoa(n), status)
  {
    n :| Int64(n) && !Less(Itoa(n), status);
  }

  lemma RiskyText(low: string, text: string)
    requires RiskyPair((low, text))
    ensures low != "" && NulFree(low) && text != "" && text == [MARK] + text[1..]
    ensures Less(low, text[1..]) && NulFree(text[1..])
  {
    forall i | 0 <= i < |text[1..]| ensures text[1..][i] != NUL {
      assert text[1..][i] == text[i + 1];
    }
  }

  /**
   With free statuses: identified exactly when no comment ID and no dependency type is risky or no status is at or below
   a number.
   */
  lemma IdentifiesIff(x: Texts)
    requires TimesReal(x)
    ensures Identifies(x) <==> NoneRisky(x) || AllAbove(x)
  {
    if NoneRisky(x) || AllAbove(x) {
      forall a, b | Over(x, a) && Over(x, b) ensures Stream(a) == Stream(b) <==> Same(a, b) {
        Sufficient(x, a, b);
      }
    } else {
      var p :| p in x.comments + x.kinds && RiskyPair(p);
      var s :| s in x.statuses && s != "" && NulFree(s) && !AboveNumbers(s);
      assert p == (p.0, p.1);
      RiskyCollides(x, p.0, p.1, p in x.kinds, s);
    }
  }
}
