/**
 Does the byte stream behind the cache key determine the issues? Lists are ended by an empty token or not at all, and
 the byte between issues is an ordinary character, so a comment or a dependency can pass for the next issue. This module
 says exactly when the stream identifies the issues: for those that model.Issue.Validate accepts, and with free
 statuses.
 */
module CacheKey {
  import opened Issues
  import opened Decimals
  import opened CacheStream
  import opened KeyTokens
  import Sorting

  // ---------- what the key is meant to identify ----------

  /** An issue up to the order of labels, dependencies and comments; a missing external reference counts as empty. */
  datatype Content = Content(fields: Fields, labels: multiset<string>, deps: multiset<Dep>, comments: multiset<Comment>)

  ghost function Normal(f: Fields): Fields
  {
    f.(externalRef := Some(if f.externalRef.Some? then f.externalRef.value else ""))
  }

  ghost function ContentOf(r: Record): Content
  {
    Content(Normal(r.fields), multiset(r.labels), multiset(Present(r.deps)), multiset(Present(r.comments)))
  }

  ghost function Contents(issues: seq<Record>): (cs: seq<Content>)
    ensures |cs| == |issues| && forall i | 0 <= i < |cs| :: cs[i] == ContentOf(issues[i])
  {
    seq(|issues|, i requires 0 <= i < |issues| => ContentOf(issues[i]))
  }

  /** Equal up to order. */
  ghost predicate Same(a: seq<Record>, b: seq<Record>)
  {
    multiset(Contents(a)) == multiset(Contents(b))
  }

  /** Equal contents on the records: field by field, and every label, dependency and comment as often. */
  lemma ContentMeaning(r: Record, s: Record)
    ensures ContentOf(r) == ContentOf(s) <==>
      var f, g := r.fields, s.fields;
      && f.id == g.id && f.title == g.title && f.description == g.description && f.notes == g.notes
      && f.design == g.design && f.acceptance == g.acceptance && f.assignee == g.assignee
      && f.sourceRepo == g.sourceRepo && f.status == g.status && f.issueType == g.issueType
      && f.priority == g.priority && f.estimated == g.estimated && f.createdAt == g.createdAt
      && f.updatedAt == g.updatedAt && f.closedAt == g.closedAt
      && (f.externalRef == g.externalRef || (f.externalRef in {None, Some("")} && g.externalRef in {None, Some("")}))
      && multiset(r.labels) == multiset(s.labels)
      && (forall d :: multiset(r.deps)[Some(d)] == multiset(s.deps)[Some(d)])
      && forall c :: multiset(r.comments)[Some(c)] == multiset(s.comments)[Some(c)]
  {
    PresentSame(r.deps, s.deps);
    PresentSame(r.comments, s.comments);
  }

  ghost predicate TimesHold(r: Record, ok: string -> bool)
  {
    && ok(r.fields.createdAt) && ok(r.fields.updatedAt) && (r.fields.closedAt.Some? ==> ok(r.fields.closedAt.value))
    && (forall d | Some(d) in r.deps :: ok(d.createdAt))
    && forall c | Some(c) in r.comments :: ok(c.createdAt)
  }

  predicate NotEmpty(s: string)
  {
    s != ""
  }

  /** No zero byte in a field and no empty label; a formatted time is never empty. */
  ghost predicate Plain(r: Record)
  {
    ZeroFree(r) && NoEmptyLabel(r) && TimesHold(r, NotEmpty)
  }

  /** Lists the theorems are about: different IDs and plain issues. */
  ghost predicate Fit(issues: seq<Record>)
  {
    UniqueIds(issues) && forall r | r in issues :: Plain(r)
  }

  // ---------- why nothing is confused ----------

  /** A text that, at the end of an issue, can pass for the byte that ends it and the ID of a later one. */
  predicate Risky(issueId: string, text: string)
  {
    text != "" && text[0] == MARK && Less(issueId, text[1..])
  }

  ghost predicate Targeted(r: Record)
  {
    forall d | Some(d) in r.deps :: d.dependsOn != ""
  }

  /** No comment ID is risky, and no dependency type either, unless no dependency has an empty target. */
  ghost predicate Safe(r: Record)
  {
    && (forall c | Some(c) in r.comments :: !Risky(r.fields.id, c.id))
    && (Targeted(r) || forall d | Some(d) in r.deps :: !Risky(r.fields.id, d.kind))
  }

  /** Larger as text than every priority, whatever it is. */
  ghost predicate AboveNumbers(s: string)
  {
    forall n | Int64(n) :: Less(Itoa(n), s)
  }

  /** It is enough to look at the number whose text is the largest. */
  lemma AboveIff(s: string)
    ensures AboveNumbers(s) <==> Less(Itoa(LARGEST_TEXT), s)
  {
    var largest := LARGEST_TEXT;
    assert AboveNumbers(s) ==> Less(Itoa(largest), s);
    if Less(Itoa(largest), s) {
      forall n | Int64(n) ensures Less(Itoa(n), s) {
        LargestText(n);
        LessTotal(Itoa(largest), Itoa(n));
        if Itoa(n) != Itoa(largest) {
          LessTransitive(Itoa(n), Itoa(largest), s);
        }
      }
    }
  }

  /** A time has a T between date and time, and begins with a year, not with a letter. */
  ghost predicate Timed(s: string)
  {
    'T' in s && !AboveNumbers(s)
  }

  /** Real times, a type, and a status that no number reaches. */
  ghost predicate Proper(r: Record)
  {
    TimesHold(r, Timed) && r.fields.issueType != "" && AboveNumbers(r.fields.status) && Int64(r.fields.priority)
  }

  /** Either reason will do. */
  ghost predicate Told(safe: bool, r: Record)
  {
    if safe then Safe(r) else Proper(r)
  }

  /** Comments that can be told from issues. */
  ghost predicate ToldGroups(safe: bool, id: string, gs: seq<seq<string>>)
  {
    && Groups(4, gs)
    && forall i | 0 <= i < |gs| :: gs[i][3] != "" && if safe then !Risky(id, gs[i][0]) else Timed(gs[i][3])
  }

  /** Dependencies whose types, or times, tell them from issues. */
  ghost predicate Tame(safe: bool, id: string, gs: seq<seq<string>>)
  {
    Groups(4, gs) && forall i | 0 <= i < |gs| :: if safe then !Risky(id, gs[i][1]) else Timed(gs[i][2])
  }

  ghost predicate ToldDeps(safe: bool, id: string, gs: seq<seq<string>>)
  {
    Tame(safe, id, gs) || (safe && Started(4, gs))
  }

  /** Issues in strictly ascending order that can be told apart. */
  ghost predicate Ladder(safe: bool, rs: seq<Record>)
  {
    && (forall i | 0 <= i < |rs| :: Plain(rs[i]) && Told(safe, rs[i]))
    && forall i | 0 <= i < |rs| - 1 :: Less(rs[i].fields.id, rs[i + 1].fields.id)
  }

  /** The issues that can stand behind one with this ID. */
  ghost predicate Follow(id: string, rest: seq<Record>)
  {
    rest != [] ==> Less(id, rest[0].fields.id)
  }

  lemma LadderRest(safe: bool, rs: seq<Record>)
    requires Ladder(safe, rs) && rs != []
    ensures Ladder(safe, rs[1..]) && Follow(rs[0].fields.id, rs[1..])
  {
    if |rs| > 1 {
      assert Less(rs[0].fields.id, rs[0 + 1].fields.id);
    }
    forall i | 0 <= i < |rs[1..]| - 1 ensures Less(rs[1..][i].fields.id, rs[1..][i + 1].fields.id) {
      assert Less(rs[i + 1].fields.id, rs[i + 1 + 1].fields.id);
    }
  }

  lemma GroupsTold(safe: bool, r: Record)
    requires Plain(r) && Told(safe, r)
    ensures ToldGroups(safe, r.fields.id, CommentGroups(Comments(r)))
  {
    SortedMembers(r);
    forall i | 0 <= i < |Comments(r)|
      ensures var c := Comments(r)[i];
        c.createdAt != "" && if safe then !Risky(r.fields.id, c.id) else Timed(c.createdAt)
    {
      assert Comments(r)[i] in Comments(r);
    }
  }

  lemma DepsTold(safe: bool, r: Record)
    requires Told(safe, r)
    ensures ToldDeps(safe, r.fields.id, DepGroups(Deps(r)))
  {
    SortedMembers(r);
    if safe && Targeted(r) {
      forall i | 0 <= i < |Deps(r)| ensures Deps(r)[i].dependsOn != "" {
        assert Deps(r)[i] in Deps(r);
      }
    } else {
      forall i | 0 <= i < |Deps(r)|
        ensures var d := Deps(r)[i]; if safe then !Risky(r.fields.id, d.kind) else Timed(d.createdAt)
      {
        assert Deps(r)[i] in Deps(r);
      }
    }
  }

  // ---------- comments against issues ----------

  /** Status, type and priority, where the fields of an issue have them. */
  ghost predicate FieldsAt(x: seq<string>, i: nat)
  {
    i + 2 < |x| && AboveNumbers(x[i]) && x[i + 1] != "" && exists n :: Int64(n) && x[i + 2] == Itoa(n)
  }

  /**
   What is known of the tokens of a proper issue: its fields are where they belong, and no fields stand behind them.
   */
  ghost predicate IssueShape(x: seq<string>)
  {
    |x| >= 18 && FieldsAt(x, 9) && !Timed(x[11]) && (x[15] == "" || Timed(x[15])) && !FieldsAt(x, 17)
  }

  lemma FrontShape(rs: seq<Record>)
    requires rs != [] && Proper(rs[0])
    ensures var x := Tokens(rs); |x| >= 18 && FieldsAt(x, 9) && !Timed(x[11]) && (x[15] == "" || Timed(x[15]))
  {
    FieldAt(rs, 9);
    FieldAt(rs, 10);
    FieldAt(rs, 11);
    FieldAt(rs, 15);
    ItoaShape(rs[0].fields.priority);
  }

  lemma NotNumber(s: string)
    requires Timed(s) || s == ""
    ensures !exists n :: s == Itoa(n)
  {
    forall n ensures s != Itoa(n) {
      ItoaShape(n);
    }
  }

  lemma NothingAbove()
    ensures !AboveNumbers("")
  {
    assert !Less(Itoa(0), "");
  }

  /** An empty token or a time in the wrong place. */
  lemma Interrupted(x: seq<string>, i: nat)
    requires 17 <= i <= 19 && i < |x| && (x[i] == "" || (i == 19 && Timed(x[i])))
    ensures !FieldsAt(x, 17)
  {
    if i == 17 {
      NothingAbove();
    } else if i == 19 {
      NotNumber(x[19]);
    }
  }

  /** A priority would be the time of a dependency. */
  lemma OnlyDeps(rs: seq<Record>)
    requires rs != [] && TimesHold(rs[0], Timed) && Labels(rs[0]) == [] && Deps(rs[0]) != []
    ensures !FieldsAt(Tokens(rs), 17)
  {
    DepsTimed(rs[0]);
    DepAt(rs, 2);
    Interrupted(Tokens(rs), 19);
  }

  /** A status would be empty. */
  lemma NoDeps(rs: seq<Record>)
    requires rs != [] && Labels(rs[0]) == [] && Deps(rs[0]) == []
    ensures !FieldsAt(Tokens(rs), 17)
  {
    DepAt(rs, 0);
    Interrupted(Tokens(rs), 17);
  }

  lemma DepsTimed(r: Record)
    requires TimesHold(r, Timed)
    ensures forall i | 0 <= i < |Deps(r)| :: Timed(DepKey(Deps(r)[i])[2])
  {
    SortedMembers(r);
    forall i | 0 <= i < |Deps(r)| ensures Timed(DepKey(Deps(r)[i])[2]) {
      assert Deps(r)[i] in Deps(r);
    }
  }

  /** With one to three labels, one of the three would be empty. */
  lemma FewLabels(rs: seq<Record>)
    requires rs != [] && 1 <= |Labels(rs[0])| <= 3
    ensures !FieldsAt(Tokens(rs), 17)
  {
    LabelAt(rs, |Labels(rs[0])|);
    Interrupted(Tokens(rs), 16 + |Labels(rs[0])|);
  }

  /** With more labels, all three would be labels in ascending order. */
  lemma ManyLabels(rs: seq<Record>)
    requires rs != [] && |Labels(rs[0])| > 3
    ensures !FieldsAt(Tokens(rs), 17)
  {
    var r := rs[0];
    LabelAt(rs, 1);
    LabelAt(rs, 3);
    Sorting.ByIdTotal();
    Sorting.SortAscends(Sorting.ById(), r.labels);
    assert !Sorting.ById()(Labels(r)[3], Labels(r)[1]);
    forall n | Int64(n) && Labels(r)[3] == Itoa(n) ensures !AboveNumbers(Labels(r)[1]) {
    }
  }

  lemma ProperShape(rs: seq<Record>)
    requires rs != [] && Proper(rs[0])
    ensures IssueShape(Tokens(rs))
  {
    FrontShape(rs);
    var n := |Labels(rs[0])|;
    if n > 3 {
      ManyLabels(rs);
    } else if n > 0 {
      FewLabels(rs);
    } else if Deps(rs[0]) != [] {
      OnlyDeps(rs);
    } else {
      NoDeps(rs);
    }
  }

  lemma FieldsMove(h: seq<string>, y: seq<string>, i: nat)
    requires FieldsAt(y, i)
    ensures FieldsAt(h + y, |h| + i)
  {
    assert (h + y)[|h| + i] == y[i] && (h + y)[|h| + i + 1] == y[i + 1] && (h + y)[|h| + i + 2] == y[i + 2];
  }

  /** Four tokens, eight, or more of which one is a time in the place of a status or of a priority. */
  ghost predicate Late(h: seq<string>)
  {
    |h| == 4 || |h| == 8 || (|h| >= 12 && (Timed(h[9]) || Timed(h[11])))
  }

  /**
   The tokens of an issue are not the end of another followed by the tokens of issues. Four tokens would make a closing
   time a number, eight would put status, type and priority behind the fields, more would make a status or a priority
   a time.
   */
  lemma Overlap(x: seq<string>, h: seq<string>, y: seq<string>)
    requires IssueShape(x) && (y == [] || IssueShape(y))
    requires Late(h)
    ensures x != h + y
  {
    NotNumber(x[15]);
    if |h| == 4 && y != [] {
      assert (h + y)[15] == y[11];
    } else if |h| == 8 && y != [] {
      FieldsMove(h, y, 9);
    } else if |h| >= 12 {
      assert (h + y)[if Timed(h[9]) then 9 else 11] == h[if Timed(h[9]) then 9 else 11];
    }
  }

  lemma NoOverlapSafe(id: string, a: seq<Record>, h: seq<seq<string>>, b: seq<Record>)
    requires a != [] && Follow(id, a) && ToldGroups(true, id, h) && h != []
    ensures Tokens(a) != Flat(h) + Tokens(b)
  {
    FlatStart(4, h, Tokens(b));
    assert !Risky(id, h[0][0]);
    RiskyStart(id, a, h[0][0]);
  }

  lemma FirstShape(rs: seq<Record>)
    requires Ladder(false, rs)
    ensures if rs == [] then Tokens(rs) == [] else IssueShape(Tokens(rs))
  {
    if rs != [] {
      ProperShape(rs);
    }
  }

  lemma ThirdTimed(id: string, h: seq<seq<string>>)
    requires ToldGroups(false, id, h) && h != []
    ensures Late(Flat(h))
  {
    FlatLength(4, h);
    if |h| >= 3 {
      FlatAt(4, h, 2, 3);
    }
  }

  lemma OverlapTold(id: string, x: seq<string>, h: seq<seq<string>>, y: seq<string>)
    requires IssueShape(x) && (y == [] || IssueShape(y)) && ToldGroups(false, id, h) && h != []
    ensures x != Flat(h) + y
  {
    ThirdTimed(id, h);
    Overlap(x, Flat(h), y);
  }

  lemma NoOverlapProper(id: string, a: seq<Record>, h: seq<seq<string>>, b: seq<Record>)
    requires Ladder(false, a) && Ladder(false, b) && a != [] && ToldGroups(false, id, h) && h != []
    ensures Tokens(a) != Flat(h) + Tokens(b)
  {
    FirstShape(a);
    FirstShape(b);
    OverlapTold(id, Tokens(a), h, Tokens(b));
  }

  /** Where one list of comments has ended, another does not go on. */
  lemma NoOverlap(safe: bool, id: string, a: seq<Record>, h: seq<seq<string>>, b: seq<Record>)
    requires Ladder(safe, a) && Ladder(safe, b) && Follow(id, a) && ToldGroups(safe, id, h) && h != []
    ensures Tokens(a) != Flat(h) + Tokens(b)
  {
    if a == [] {
      FlatStart(4, h, Tokens(b));
    } else if safe {
      NoOverlapSafe(id, a, h, b);
    } else {
      NoOverlapProper(id, a, h, b);
    }
  }

  lemma RiskyStart(id: string, a: seq<Record>, commentId: string)
    requires a != [] && Follow(id, a) && !Risky(id, commentId)
    ensures Tokens(a)[0] != commentId
  {
    assert Tokens(a)[0] == [MARK] + a[0].fields.id;
    assert ([MARK] + a[0].fields.id)[1..] == a[0].fields.id;
  }

  lemma NothingBefore(x: seq<string>)
    ensures Flat([]) + x == x
  {
  }

  lemma ToldRest(safe: bool, id: string, gs: seq<seq<string>>)
    requires ToldGroups(safe, id, gs) && gs != []
    ensures ToldGroups(safe, id, gs[1..])
  {
  }

  lemma EndTogether(safe: bool, id: string, g: seq<seq<string>>, h: seq<seq<string>>, a: seq<Record>, b: seq<Record>)
    requires ToldGroups(safe, id, g) && ToldGroups(safe, id, h) && Ladder(safe, a) && Ladder(safe, b)
    requires Follow(id, a) && Follow(id, b) && Flat(g) + Tokens(a) == Flat(h) + Tokens(b) && (g == [] || h == [])
    ensures g == h && Tokens(a) == Tokens(b)
  {
    NothingBefore(Tokens(a));
    NothingBefore(Tokens(b));
    if h != [] {
      NoOverlap(safe, id, a, h, b);
    } else if g != [] {
      NoOverlap(safe, id, b, g, a);
    }
  }

  lemma {:induction false} CommentsSplit(safe: bool, id: string, g: seq<seq<string>>, h: seq<seq<string>>,
                                         a: seq<Record>, b: seq<Record>)
    requires ToldGroups(safe, id, g) && ToldGroups(safe, id, h) && Ladder(safe, a) && Ladder(safe, b)
    requires Follow(id, a) && Follow(id, b) && Flat(g) + Tokens(a) == Flat(h) + Tokens(b)
    ensures g == h && Tokens(a) == Tokens(b)
  {
    if g == [] || h == [] {
      EndTogether(safe, id, g, h, a, b);
    } else {
      ToldRest(safe, id, g);
      ToldRest(safe, id, h);
      Peel(4, g, h, Tokens(a), Tokens(b));
      CommentsSplit(safe, id, g[1..], h[1..], a, b);
    }
  }

  // ---------- dependencies against comments and issues ----------

  /** What is left of an issue when its first remaining dependency has lost its target. */
  ghost function Remains(lead: seq<string>, g: seq<seq<string>>, after: seq<string>): seq<string>
  {
    lead + (Flat(g) + ([""] + after))
  }

  lemma RemainsLength(lead: seq<string>, g: seq<seq<string>>, c: seq<string>)
    requires |lead| == 3 && Groups(4, g)
    ensures |Remains(lead, g, c)| == 4 + 4 * |g| + |c|
  {
    FlatLength(4, g);
  }

  lemma SecondTime(lead: seq<string>, g: seq<seq<string>>, c: seq<string>)
    requires |lead| == 3 && Groups(4, g) && |g| >= 2
    ensures |Remains(lead, g, c)| >= 12 && Remains(lead, g, c)[9] == g[1][2]
  {
    RemainsLength(lead, g, c);
    FlatAt(4, g, 1, 2);
    assert Remains(lead, g, c)[9] == (Flat(g) + ([""] + c))[6] == Flat(g)[6];
  }

  lemma CommentTime(lead: seq<string>, g: seq<seq<string>>, cg: seq<seq<string>>)
    requires |lead| == 3 && Groups(4, g) && Groups(4, cg) && |g| <= 1 && |g| + |cg| >= 2
    ensures |Remains(lead, g, Flat(cg))| >= 12 && Remains(lead, g, Flat(cg))[11] == cg[1 - |g|][3]
  {
    var x, c := Flat(g), Flat(cg);
    RemainsLength(lead, g, c);
    FlatLength(4, g);
    FlatAt(4, cg, 1 - |g|, 3);
    assert Remains(lead, g, c)[11] == (x + ([""] + c))[8] == ([""] + c)[8 - |x|] == c[7 - |x|];
  }

  lemma LateAt(h: seq<string>, i: nat)
    requires |h| >= 12 && (i == 9 || i == 11) && Timed(h[i])
    ensures Late(h)
  {
  }

  lemma TailTimed(id: string, lead: seq<string>, g: seq<seq<string>>, cg: seq<seq<string>>)
    requires |lead| == 3 && Tame(false, id, g) && ToldGroups(false, id, cg)
    ensures Late(Remains(lead, g, Flat(cg)))
  {
    var h := Remains(lead, g, Flat(cg));
    if |g| >= 2 {
      SecondTime(lead, g, Flat(cg));
      LateAt(h, 9);
    } else if |g| + |cg| >= 2 {
      CommentTime(lead, g, cg);
      LateAt(h, 11);
    } else {
      RemainsLength(lead, g, Flat(cg));
      FlatLength(4, cg);
    }
  }

  lemma RemainsEnd(lead: seq<string>, g: seq<seq<string>>, c: seq<string>, y: seq<string>)
    ensures Remains(lead, g, c + y) == Remains(lead, g, c) + y
  {
    assert Flat(g) + ([""] + (c + y)) == (Flat(g) + ([""] + c)) + y;
  }

  /** The first dependency with its target taken off, and the target of the next one. */
  lemma RemainsNext(lead: seq<string>, g: seq<seq<string>>, after: seq<string>)
    requires Groups(4, g) && g != []
    ensures Remains(lead, g, after) == (lead + [g[0][0]]) + Remains(g[0][1..], g[1..], after)
  {
    FlatStart(4, g, [""] + after);
    assert g[0] == [g[0][0]] + g[0][1..];
    Regroup(lead, g[0][0], g[0][1..], Flat(g[1..]) + ([""] + after));
  }

  lemma Regroup(lead: seq<string>, x: string, y: seq<string>, z: seq<string>)
    ensures lead + (([x] + y) + z) == (lead + [x]) + (y + z)
  {
  }

  lemma RemainsFirst(lead: seq<string>, g: seq<seq<string>>, c: seq<string>)
    requires lead != []
    ensures Remains(lead, g, c) != [] && Remains(lead, g, c)[0] == lead[0]
  {
  }

  lemma NotTheRest(safe: bool, id: string, lead: seq<string>, g: seq<seq<string>>, cg: seq<seq<string>>, a: seq<Record>,
                   b: seq<Record>)
    requires |lead| == 3 && (safe ==> !Risky(id, lead[0])) && Tame(safe, id, g) && ToldGroups(safe, id, cg)
    requires Ladder(safe, a) && Ladder(safe, b) && Follow(id, b)
    ensures Remains(lead, g, Flat(cg) + Tokens(a)) != Tokens(b)
  {
    RemainsFirst(lead, g, Flat(cg) + Tokens(a));
    if b == [] {
    } else if safe {
      RiskyStart(id, b, lead[0]);
    } else {
      FirstShape(a);
      FirstShape(b);
      TailTimed(id, lead, g, cg);
      Overlap(Tokens(b), Remains(lead, g, Flat(cg)), Tokens(a));
      RemainsEnd(lead, g, Flat(cg), Tokens(a));
    }
  }

  lemma TameRest(safe: bool, id: string, g: seq<seq<string>>)
    requires Tame(safe, id, g) && g != []
    ensures Tame(safe, id, g[1..]) && |g[0][1..]| == 3 && (safe ==> !Risky(id, g[0][1..][0]))
  {
  }

  /** Where one list of dependencies has ended, another does not go on with an empty target. */
  lemma {:induction false} NoMoreDeps(safe: bool, id: string, lead: seq<string>, g: seq<seq<string>>,
                                      cg: seq<seq<string>>, a: seq<Record>, ch: seq<seq<string>>, b: seq<Record>)
    requires |lead| == 3 && (safe ==> !Risky(id, lead[0])) && Tame(safe, id, g)
    requires ToldGroups(safe, id, cg) && ToldGroups(safe, id, ch)
    requires Ladder(safe, a) && Ladder(safe, b) && Follow(id, b)
    ensures Remains(lead, g, Flat(cg) + Tokens(a)) != Flat(ch) + Tokens(b)
    decreases |ch|
  {
    if ch == [] {
      NotTheRest(safe, id, lead, g, cg, a, b);
      NothingBefore(Tokens(b));
    } else {
      FlatStart(4, ch, Tokens(b));
      var x, y := Remains(lead, g, Flat(cg) + Tokens(a)), ch[0] + (Flat(ch[1..]) + Tokens(b));
      assert y[3] == ch[0][3] != "";
      if g == [] {
        assert x[3] == "";
      } else {
        RemainsNext(lead, g, Flat(cg) + Tokens(a));
        TameRest(safe, id, g);
        NoMoreDeps(safe, id, g[0][1..], g[1..], cg, a, ch[1..], b);
        if x == y {
          SameLengths(lead + [g[0][0]], ch[0], Remains(g[0][1..], g[1..], Flat(cg) + Tokens(a)),
            Flat(ch[1..]) + Tokens(b));
        }
      }
    }
  }

  lemma TargetOff(g: seq<seq<string>>, c: seq<string>, d: seq<string>)
    requires Groups(4, g) && g != [] && Flat(g) + ([""] + c) == [""] + d
    ensures g[0][0] == "" && Remains(g[0][1..], g[1..], c) == d
  {
    FlatStart(4, g, [""] + c);
    assert ([""] + d)[0] == "";
    RemainsNext([], g, c);
    NothingBefore(Flat(g) + ([""] + c));
    SameLengths([] + [g[0][0]], [""], Remains(g[0][1..], g[1..], c), d);
  }

  lemma DepsEnd(safe: bool, id: string, g: seq<seq<string>>, cg: seq<seq<string>>, a: seq<Record>, ch: seq<seq<string>>,
                b: seq<Record>)
    requires g != [] && ToldDeps(safe, id, g) && ToldGroups(safe, id, cg) && ToldGroups(safe, id, ch)
    requires Ladder(safe, a) && Ladder(safe, b) && Follow(id, b)
    ensures Flat(g) + ([""] + (Flat(cg) + Tokens(a))) != [""] + (Flat(ch) + Tokens(b))
  {
    var c, d := Flat(cg) + Tokens(a), Flat(ch) + Tokens(b);
    if Flat(g) + ([""] + c) == [""] + d {
      TargetOff(g, c, d);
      TameRest(safe, id, g);
      NoMoreDeps(safe, id, g[0][1..], g[1..], cg, a, ch, b);
    }
  }

  lemma DepsRest(safe: bool, id: string, gs: seq<seq<string>>)
    requires ToldDeps(safe, id, gs) && gs != []
    ensures ToldDeps(safe, id, gs[1..])
  {
  }

  /** Both lists of dependencies end at the same empty token. */
  lemma {:induction false} DepsSplit(safe: bool, id: string, g: seq<seq<string>>, cg: seq<seq<string>>, a: seq<Record>,
                                     h: seq<seq<string>>, ch: seq<seq<string>>, b: seq<Record>)
    requires ToldDeps(safe, id, g) && ToldDeps(safe, id, h) && ToldGroups(safe, id, cg) && ToldGroups(safe, id, ch)
    requires Ladder(safe, a) && Ladder(safe, b) && Follow(id, a) && Follow(id, b)
    requires Flat(g) + ([""] + (Flat(cg) + Tokens(a))) == Flat(h) + ([""] + (Flat(ch) + Tokens(b)))
    ensures g == h && Flat(cg) + Tokens(a) == Flat(ch) + Tokens(b)
    decreases |g|
  {
    var ca, cb := Flat(cg) + Tokens(a), Flat(ch) + Tokens(b);
    NothingBefore([""] + ca);
    NothingBefore([""] + cb);
    if g == [] && h == [] {
      SameLengths([""], [""], ca, cb);
    } else if g == [] {
      DepsEnd(safe, id, h, ch, b, cg, a);
    } else if h == [] {
      DepsEnd(safe, id, g, cg, a, ch, b);
    } else {
      DepsRest(safe, id, g);
      DepsRest(safe, id, h);
      Peel(4, g, h, [""] + ca, [""] + cb);
      DepsSplit(safe, id, g[1..], cg, a, h[1..], ch, b);
    }
  }

  // ---------- reading a stream back ----------

  lemma HeadUnique(f: Fields, g: Fields)
    requires f.closedAt != Some("") && g.closedAt != Some("")
    ensures Head(f) == Head(g) <==> Normal(f) == Normal(g)
  {
    if Head(f) == Head(g) {
      var x, y := Head(f), Head(g);
      assert forall i | 0 <= i < 16 :: x[i] == y[i];
      assert x[0] == y[0] && x[1] == y[1] && x[2] == y[2] && x[3] == y[3] && x[4] == y[4] && x[5] == y[5];
      assert x[6] == y[6] && x[7] == y[7] && x[8] == y[8] && x[9] == y[9] && x[10] == y[10] && x[11] == y[11];
      assert x[12] == y[12] && x[13] == y[13] && x[14] == y[14] && x[15] == y[15];
      ItoaInjective(f.priority, g.priority);
      EstimateUnique(f, g);
    }
  }

  lemma EstimateUnique(f: Fields, g: Fields)
    requires (if f.estimated.Some? then Itoa(f.estimated.value) else "") ==
      (if g.estimated.Some? then Itoa(g.estimated.value) else "")
    ensures f.estimated == g.estimated
  {
    if f.estimated.Some? {
      ItoaShape(f.estimated.value);
    }
    if g.estimated.Some? {
      ItoaShape(g.estimated.value);
    }
    if f.estimated.Some? && g.estimated.Some? {
      ItoaInjective(f.estimated.value, g.estimated.value);
    }
  }

  lemma GroupsContent(r: Record, s: Record)
    requires LabelGroups(Labels(r)) == LabelGroups(Labels(s)) && DepGroups(Deps(r)) == DepGroups(Deps(s))
    requires CommentGroups(Comments(r)) == CommentGroups(Comments(s)) && Normal(r.fields) == Normal(s.fields)
    ensures ContentOf(r) == ContentOf(s)
  {
    assert Labels(r) == Labels(s) by {
      forall i | 0 <= i < |Labels(r)| ensures Labels(r)[i] == Labels(s)[i] {
        assert LabelGroups(Labels(r))[i][0] == LabelGroups(Labels(s))[i][0];
      }
    }
    assert Deps(r) == Deps(s) by {
      forall i | 0 <= i < |Deps(r)| ensures Deps(r)[i] == Deps(s)[i] {
        var x, y := DepKey(Deps(r)[i]), DepKey(Deps(s)[i]);
        assert x == DepGroups(Deps(r))[i] && y == DepGroups(Deps(s))[i];
        assert x[0] == y[0] && x[1] == y[1] && x[2] == y[2] && x[3] == y[3];
      }
    }
    assert Comments(r) == Comments(s) by {
      forall i | 0 <= i < |Comments(r)| ensures Comments(r)[i] == Comments(s)[i] {
        var x, y := CommentFields(Comments(r)[i]), CommentFields(Comments(s)[i]);
        assert x == CommentGroups(Comments(r))[i] && y == CommentGroups(Comments(s))[i];
        assert x[0] == y[0] && x[1] == y[1] && x[2] == y[2] && x[3] == y[3];
      }
    }
    SortedContent(r);
    SortedContent(s);
  }

  lemma SortedContent(r: Record)
    ensures multiset(Labels(r)) == multiset(r.labels) && multiset(Deps(r)) == multiset(Present(r.deps))
    ensures multiset(Comments(r)) == multiset(Present(r.comments))
  {
    Sorting.SortKeeps(Sorting.ById(), r.labels);
    Sorting.SortKeeps(ByDepKey(), Present(r.deps));
    Sorting.SortKeeps(ByCommentKey(), Present(r.comments));
  }

  lemma FirstSame(safe: bool, a: seq<Record>, b: seq<Record>)
    requires Ladder(safe, a) && Ladder(safe, b) && a != [] && b != [] && Tokens(a) == Tokens(b)
    ensures ContentOf(a[0]) == ContentOf(b[0]) && Tokens(a[1..]) == Tokens(b[1..])
  {
    var r, s := a[0], b[0];
    FirstIssue(r, s, Tokens(a[1..]), Tokens(b[1..]));
    LadderRest(safe, a);
    LadderRest(safe, b);
    GroupsTold(safe, r);
    GroupsTold(safe, s);
    DepsTold(safe, r);
    DepsTold(safe, s);
    assert Head(r.fields)[0] == Head(s.fields)[0];
    DepsSplit(safe, r.fields.id, DepGroups(Deps(r)), CommentGroups(Comments(r)), a[1..],
      DepGroups(Deps(s)), CommentGroups(Comments(s)), b[1..]);
    CommentsSplit(safe, r.fields.id, CommentGroups(Comments(r)), CommentGroups(Comments(s)), a[1..], b[1..]);
    HeadUnique(r.fields, s.fields);
    GroupsContent(r, s);
  }

  lemma ContentsSplit(a: seq<Record>)
    requires a != []
    ensures Contents(a) == [ContentOf(a[0])] + Contents(a[1..])
  {
  }

  lemma {:induction false} TokensUnique(safe: bool, a: seq<Record>, b: seq<Record>)
    requires Ladder(safe, a) && Ladder(safe, b) && Tokens(a) == Tokens(b)
    ensures Contents(a) == Contents(b)
  {
    if a != [] && b != [] {
      FirstSame(safe, a, b);
      LadderRest(safe, a);
      LadderRest(safe, b);
      TokensUnique(safe, a[1..], b[1..]);
      ContentsSplit(a);
      ContentsSplit(b);
    }
  }

  // ---------- writing equal contents ----------

  lemma SameWritten(r: Record, s: Record)
    requires ContentOf(r) == ContentOf(s) && r.fields.closedAt != Some("") && s.fields.closedAt != Some("")
    ensures Written(r) == Written(s)
  {
    OrdersTotal();
    Sorting.ByIdTotal();
    Sorting.SortCanonical(Sorting.ById(), r.labels, s.labels);
    Sorting.SortCanonical(ByDepKey(), Present(r.deps), Present(s.deps));
    Sorting.SortCanonical(ByCommentKey(), Present(r.comments), Present(s.comments));
    HeadUnique(r.fields, s.fields);
  }

  lemma {:induction false} SameStream(a: seq<Record>, b: seq<Record>)
    requires Contents(a) == Contents(b)
    requires forall i | 0 <= i < |a| :: a[i].fields.closedAt != Some("")
    requires forall i | 0 <= i < |b| :: b[i].fields.closedAt != Some("")
    ensures StreamOf(a) == StreamOf(b)
  {
    assert |a| == |Contents(a)| == |Contents(b)| == |b|;
    if a != [] {
      assert Contents(a)[0] == Contents(b)[0];
      SameWritten(a[0], b[0]);
      assert Contents(a[1..]) == Contents(a)[1..] && Contents(b[1..]) == Contents(b)[1..];
      SameStream(a[1..], b[1..]);
    }
  }

  // ---------- sorting by ID ----------

  function ByContentId(): (Content, Content) -> bool
  {
    (a: Content, b: Content) => Less(a.fields.id, b.fields.id)
  }

  lemma ContentsMultiset(a: seq<Record>, b: seq<Record>)
    requires multiset(a) == multiset(b)
    ensures multiset(Contents(a)) == multiset(Contents(b))
  {
    var f := (r: Record) => ContentOf(r);
    Sorting.MappedMultiset(f, a, b);
    assert Contents(a) == Sorting.Mapped(f, a) && Contents(b) == Sorting.Mapped(f, b);
  }

  /** The issues in the order they are written. */
  ghost function InOrder(issues: seq<Record>): seq<Record>
  {
    Sorting.Sort(ByIssueId(), issues)
  }

  lemma OrderedIds(issues: seq<Record>)
    requires UniqueIds(issues)
    ensures UniqueIds(InOrder(issues))
    ensures forall i, j | 0 <= i < j < |InOrder(issues)| ::
      Less(InOrder(issues)[i].fields.id, InOrder(issues)[j].fields.id)
  {
    var sorted := InOrder(issues);
    ByIssueIdOrders();
    Sorting.SortKeeps(ByIssueId(), issues);
    Sorting.SortAscends(ByIssueId(), issues);
    Sorting.DistinctCounts(issues);
    Sorting.DistinctCounts(sorted);
    forall i, j | 0 <= i < j < |sorted| ensures sorted[i].fields.id != sorted[j].fields.id {
      assert sorted[i] in issues && sorted[j] in issues && sorted[i] != sorted[j];
    }
    forall i, j | 0 <= i < j < |sorted| ensures Less(sorted[i].fields.id, sorted[j].fields.id) {
      assert !ByIssueId()(sorted[j], sorted[i]);
      LessTotal(sorted[i].fields.id, sorted[j].fields.id);
    }
  }

  lemma OrderedContents(issues: seq<Record>)
    requires UniqueIds(issues)
    ensures multiset(Contents(InOrder(issues))) == multiset(Contents(issues))
    ensures Sorting.Ascending(ByContentId(), Contents(InOrder(issues)))
    ensures Sorting.Separates(ByContentId(), Contents(InOrder(issues)))
  {
    var sorted := InOrder(issues);
    Sorting.SortKeeps(ByIssueId(), issues);
    ContentsMultiset(sorted, issues);
    OrderedIds(issues);
    forall i, j | 0 <= i < j < |sorted| ensures !ByContentId()(Contents(sorted)[j], Contents(sorted)[i]) {
      var x, y := sorted[i].fields.id, sorted[j].fields.id;
      if Less(y, x) {
        LessTransitive(x, y, x);
        LessIrreflexive(x);
      }
    }
    forall c, d | c in Contents(sorted) && d in Contents(sorted)
      ensures c == d || ByContentId()(c, d) || ByContentId()(d, c)
    {
      var i :| 0 <= i < |sorted| && Contents(sorted)[i] == c;
      var j :| 0 <= j < |sorted| && Contents(sorted)[j] == d;
    }
  }

  // ---------- what the stream identifies ----------

  lemma LadderOf(safe: bool, issues: seq<Record>)
    requires Fit(issues) && forall r | r in issues :: Told(safe, r)
    ensures Ladder(safe, InOrder(issues))
  {
    var sorted := InOrder(issues);
    Sorting.SortKeeps(ByIssueId(), issues);
    OrderedIds(issues);
    forall i | 0 <= i < |sorted| ensures Plain(sorted[i]) && Told(safe, sorted[i]) {
      assert sorted[i] in issues;
    }
  }

  lemma ToldIdentifies(safe: bool, a: seq<Record>, b: seq<Record>)
    requires Fit(a) && Fit(b) && (forall r | r in a :: Told(safe, r)) && (forall r | r in b :: Told(safe, r))
    ensures Stream(a) == Stream(b) <==> Same(a, b)
  {
    LadderOf(safe, a);
    LadderOf(safe, b);
    SameIffOrdered(a, b);
    if Same(a, b) {
      SameStream(InOrder(a), InOrder(b));
    }
    if Stream(a) == Stream(b) {
      StreamIsTokens(InOrder(a), InOrder(b));
      TokensUnique(safe, InOrder(a), InOrder(b));
    }
  }

  /** Equal up to order are lists that are equal in the order of their IDs. */
  lemma SameIffOrdered(a: seq<Record>, b: seq<Record>)
    requires UniqueIds(a) && UniqueIds(b)
    ensures Same(a, b) <==> Contents(InOrder(a)) == Contents(InOrder(b))
  {
    OrderedContents(a);
    OrderedContents(b);
    if Same(a, b) {
      Sorting.AscendingUnique(ByContentId(), Contents(InOrder(a)), Contents(InOrder(b)));
    }
  }

  /** Without risky comment IDs two lists have the same stream exactly when they are the same up to order. */
  lemma SafeIdentifies(a: seq<Record>, b: seq<Record>)
    requires Fit(a) && Fit(b) && (forall r | r in a :: Safe(r)) && (forall r | r in b :: Safe(r))
    ensures Stream(a) == Stream(b) <==> Same(a, b)
  {
    ToldIdentifies(true, a, b);
  }

  /** The statuses model.Status.IsValid knows. */
  predicate KnownStatus(s: string)
  {
    s in ["open", "in_progress", "blocked", "deferred", "pinned", "hooked", "review", "closed", "tombstone"]
  }

  /** What model.Issue.Validate demands, times aside, and that times are times and the priority fits its integer. */
  ghost predicate Validated(r: Record)
  {
    && r.fields.id != "" && r.fields.title != "" && KnownStatus(r.fields.status) && r.fields.issueType != ""
    && Int64(r.fields.priority) && TimesHold(r, Timed)
  }

  lemma KnownAbove(s: string)
    requires KnownStatus(s)
    ensures AboveNumbers(s)
  {
    assert s != "" && s[0] in "oibdphrct";
    forall n | Int64(n) ensures Less(Itoa(n), s) {
      LetterAbove(n, s);
    }
  }

  lemma LetterAbove(n: int, s: string)
    requires s != "" && s[0] >= 'a'
    ensures Less(Itoa(n), s)
  {
    ItoaCharacters(n);
    assert Itoa(n)[0] in "-0123456789";
  }

  /** Validated issues are identified whatever their comment IDs are. */
  lemma ValidatedIdentifies(a: seq<Record>, b: seq<Record>)
    requires Fit(a) && Fit(b) && (forall r | r in a :: Validated(r)) && (forall r | r in b :: Validated(r))
    ensures Stream(a) == Stream(b) <==> Same(a, b)
  {
    forall r | r in a || r in b ensures Told(false, r) {
      KnownAbove(r.fields.status);
    }
    ToldIdentifies(false, a, b);
  }
}
