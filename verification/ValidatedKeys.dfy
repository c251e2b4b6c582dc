/**
 The cache key of issues that model.Issue.Validate accepts: the stream identifies them exactly when no field has a zero
 byte and no label is empty, neither of which validation rules out.
 */
module ValidatedKeys {
  import opened Issues
  import opened Decimals
  import opened CacheStream
  import opened KeyTokens
  import opened CacheKey
  import opened KeyCollisions
  import Sorting

  /** Validated issues; zero bytes and empty labels only where they are allowed. */
  ghost predicate ValidList(zeros: bool, empties: bool, issues: seq<Record>)
  {
    UniqueIds(issues) && forall r | r in issues ::
      Validated(r) && (zeros || ZeroFree(r)) && (empties || NoEmptyLabel(r))
  }

  ghost predicate ValidIdentified(zeros: bool, empties: bool)
  {
    forall a, b | ValidList(zeros, empties, a) && ValidList(zeros, empties, b) :: Stream(a) == Stream(b) <==> Same(a, b)
  }

  /** Different lists with one stream. */
  ghost predicate Confused(zeros: bool, empties: bool, a: seq<Record>, b: seq<Record>)
  {
    ValidList(zeros, empties, a) && ValidList(zeros, empties, b) && Stream(a) == Stream(b) && !Same(a, b)
  }

  lemma Refuted(zeros: bool, empties: bool, a: seq<Record>, b: seq<Record>)
    requires Confused(zeros, empties, a, b)
    ensures !ValidIdentified(zeros, empties)
  {
  }

  lemma OneValid(zeros: bool, empties: bool, r: Record)
    requires Validated(r) && (zeros || ZeroFree(r)) && (empties || NoEmptyLabel(r))
    ensures ValidList(zeros, empties, [r])
  {
  }

  /** An issue with a title and a description, at time t. */
  ghost function Task(t: string, title: string, description: string, labels: seq<string>,
                      deps: seq<Option<Dep>>): Record
  {
    Record(Fields("a", title, description, "", "", "", "", "", None, "open", "task", 0, None, t, t, None),
      labels, deps, [])
  }

  lemma TaskValid(t: string, title: string, description: string, labels: seq<string>, deps: seq<Option<Dep>>)
    requires Timed(t) && title != "" && forall d | Some(d) in deps :: d.createdAt == t
    ensures Validated(Task(t, title, description, labels, deps))
  {
  }

  lemma SortOne<T(!new)>(lt: (T, T) -> bool, x: T)
    ensures Sorting.Sort(lt, [x]) == [x]
  {
    assert [x][1..] == [];
    assert Sorting.Sort(lt, []) == [];
  }

  lemma OneStream(r: Record)
    ensures Stream([r]) == Written(r) + [MARK]
  {
    SortOne(ByIssueId(), r);
    assert [r][1..] == [] && StreamOf([]) == "";
    assert Written(r) + [MARK] + "" == Written(r) + [MARK];
  }

  lemma OneTokens(r: Record)
    ensures Tokens([r]) == [[MARK] + r.fields.id] + Body(r, [])
  {
    assert [r][1..] == [] && Tokens([]) == [];
  }

  lemma SameOneStream(r: Record, s: Record)
    requires ZeroFree(r) && ZeroFree(s) && r.fields.id == s.fields.id && Body(r, []) == Body(s, [])
    ensures Stream([r]) == Stream([s])
  {
    OneTokens(r);
    OneTokens(s);
    SortOne(ByIssueId(), r);
    SortOne(ByIssueId(), s);
    StreamIsTokens([r], [s]);
  }

  lemma OneContents(r: Record)
    ensures Contents([r]) == [ContentOf(r)]
  {
  }

  lemma OnesDiffer(r: Record, s: Record)
    requires ContentOf(r) != ContentOf(s)
    ensures !Same([r], [s])
  {
    OneContents(r);
    OneContents(s);
    NotEqualAlone(ContentOf(r), ContentOf(s));
  }

  lemma NotEqualAlone<T>(x: T, y: T)
    requires x != y
    ensures multiset([x]) != multiset([y])
  {
    assert multiset([x])[x] > 0 && multiset([y])[x] == 0;
  }

  // ---------- empty labels ----------

  /** An empty label reads like the end of the labels, and the three labels behind it like a dependency. */
  ghost function Labelled(t: string): Record
  {
    Task(t, "a", "", ["", t, t, t], [])
  }

  ghost function Depending(t: string): Record
  {
    Task(t, "a", "", [], [Some(Dep(t, t, t, ""))])
  }

  lemma LabelsSorted(t: string)
    ensures Sorting.Sort(Sorting.ById(), ["", t, t, t]) == ["", t, t, t]
  {
    var lt := Sorting.ById();
    LessIrreflexive(t);
    SortTwo(lt, t, t);
    SortFront(lt, t, [t, t]);
    SortFront(lt, "", [t, t, t]);
    assert [t] + [t, t] == [t, t, t] && [""] + [t, t, t] == ["", t, t, t];
  }

  lemma LabelledBody(t: string)
    ensures Body(Labelled(t), []) == Head(Labelled(t).fields)[1..] + ["", t, t, t, "", ""]
  {
    var r := Labelled(t);
    LabelsSorted(t);
    FlatOnes(Labels(r));
    assert DepGroups(Deps(r)) == [] && CommentGroups(Comments(r)) == [];
    assert ["", t, t, t] + ([""] + ([] + ([""] + ([] + [])))) == ["", t, t, t, "", ""];
  }

  lemma DependingBody(t: string)
    ensures Body(Depending(t), []) == Head(Depending(t).fields)[1..] + ["", t, t, t, "", ""]
  {
    var r := Depending(t);
    NoLabels(r, []);
    OneDep(r, Dep(t, t, t, ""));
    assert CommentGroups(Comments(r)) == [];
    assert [""] + ([t, t, t, ""] + ([""] + ([] + []))) == ["", t, t, t, "", ""];
  }

  lemma TaskZeroFree(t: string, title: string, labels: seq<string>, deps: seq<Option<Dep>>)
    requires NulFree(t) && NulFree(title) && forall l | l in labels :: NulFree(l)
    requires forall d | Some(d) in deps :: AllNulFree(DepKey(d))
    ensures ZeroFree(Task(t, title, "", labels, deps))
  {
    HeadNulFree(Task(t, title, "", labels, deps).fields);
  }

  lemma BothZeroFree(t: string)
    requires NulFree(t)
    ensures ZeroFree(Labelled(t)) && ZeroFree(Depending(t))
  {
    PhantomDepNulFree(t);
    TaskZeroFree(t, "a", ["", t, t, t], []);
    TaskZeroFree(t, "a", [], [Some(Dep(t, t, t, ""))]);
  }

  lemma LabelCounts(t: string)
    ensures ContentOf(Labelled(t)) != ContentOf(Depending(t))
  {
    assert "" in ContentOf(Labelled(t)).labels && "" !in ContentOf(Depending(t)).labels;
  }

  lemma BothValid(t: string)
    requires Timed(t) && NulFree(t)
    ensures ValidList(false, true, [Labelled(t)]) && ValidList(false, true, [Depending(t)])
  {
    TaskValid(t, "a", "", ["", t, t, t], []);
    TaskValid(t, "a", "", [], [Some(Dep(t, t, t, ""))]);
    BothZeroFree(t);
    OneValid(false, true, Labelled(t));
    OneValid(false, true, Depending(t));
  }

  lemma BothStreams(t: string)
    requires NulFree(t)
    ensures Stream([Labelled(t)]) == Stream([Depending(t)])
  {
    BothZeroFree(t);
    LabelledBody(t);
    DependingBody(t);
    SameOneStream(Labelled(t), Depending(t));
  }

  /** Validated issues without zero bytes that differ and have one stream; one of them has an empty label. */
  lemma EmptyLabelCollides(t: string)
    requires Timed(t) && NulFree(t)
    ensures Confused(false, true, [Labelled(t)], [Depending(t)])
  {
    BothValid(t);
    BothStreams(t);
    LabelCounts(t);
    OnesDiffer(Labelled(t), Depending(t));
  }

  // ---------- zero bytes ----------

  lemma HeadBytes(f: Fields)
    ensures Bytes(Head(f)) == f.id + [NUL] + (f.title + [NUL] + (f.description + [NUL] + Bytes(Head(f)[3..])))
  {
    var h := Head(f);
    assert Bytes(h) == f.id + [NUL] + Bytes(h[1..]);
    assert h[1..][0] == f.title && h[1..][1..] == h[2..];
    assert h[2..][0] == f.description && h[2..][1..] == h[3..];
  }

  lemma Shift(x: string, y: string, z: string, rest: string)
    ensures x + [NUL] + ((y + [NUL] + z) + [NUL] + rest) == (x + [NUL] + y) + [NUL] + (z + [NUL] + rest)
  {
  }

  lemma RestOfHead(f: Fields, title: string, description: string)
    ensures Head(f.(title := title, description := description))[3..] == Head(f)[3..]
  {
  }

  /** A zero byte inside a field reads like the end of the field. */
  lemma SameHead(f: Fields, x: string, y: string, z: string)
    ensures Bytes(Head(f.(title := x, description := y + [NUL] + z))) ==
      Bytes(Head(f.(title := x + [NUL] + y, description := z)))
  {
    HeadBytes(f.(title := x, description := y + [NUL] + z));
    HeadBytes(f.(title := x + [NUL] + y, description := z));
    RestOfHead(f, x, y + [NUL] + z);
    RestOfHead(f, x + [NUL] + y, z);
    Shift(x, y, z, Bytes(Head(f)[3..]));
  }

  lemma SameWriting(r: Record, s: Record)
    requires Bytes(Head(r.fields)) == Bytes(Head(s.fields)) && r.labels == s.labels && r.deps == s.deps
    requires r.comments == s.comments
    ensures Stream([r]) == Stream([s])
  {
    OneStream(r);
    OneStream(s);
    assert Written(r) == Written(s);
  }

  lemma TitleCounts(r: Record, s: Record)
    requires r.fields.title != s.fields.title
    ensures ContentOf(r) != ContentOf(s)
  {
    assert ContentOf(r).fields.title == r.fields.title && ContentOf(s).fields.title == s.fields.title;
  }

  /** Whatever the texts are: a zero byte between title and description may belong to either. */
  lemma ZeroByteCollides(t: string, x: string, y: string, z: string)
    requires Timed(t) && x != ""
    ensures Confused(true, false, [Task(t, x, y + [NUL] + z, [], [])], [Task(t, x + [NUL] + y, z, [], [])])
  {
    var r, s := Task(t, x, y + [NUL] + z, [], []), Task(t, x + [NUL] + y, z, [], []);
    TaskValid(t, x, y + [NUL] + z, [], []);
    TaskValid(t, x + [NUL] + y, z, [], []);
    OneValid(true, false, r);
    OneValid(true, false, s);
    SameHead(r.fields, x, y, z);
    SameWriting(r, s);
    assert |s.fields.title| > |r.fields.title|;
    TitleCounts(r, s);
    OnesDiffer(r, s);
  }

  // ---------- exactly when ----------

  lemma LowStart(t: string)
    requires t != "" && t[0] < '9'
    ensures !AboveNumbers(t)
  {
    assert Itoa(9) == "9";
    assert !Less(Itoa(9), t);
  }

  lemma TimeText(date: string, clock: string)
    requires date != "" && date[0] < '9' && NulFree(date) && NulFree(clock)
    ensures Timed(date + "T" + clock) && NulFree(date + "T" + clock)
  {
    assert (date + "T" + clock)[|date|] == 'T';
    LowStart(date + "T" + clock);
  }

  lemma SomeTime() returns (t: string)
    ensures Timed(t) && NulFree(t)
  {
    TimeText("2024-05-01", "12:00:00Z");
    t := "2024-05-01" + "T" + "12:00:00Z";
  }

  lemma ValidFit(issues: seq<Record>)
    requires ValidList(false, false, issues)
    ensures Fit(issues)
  {
    forall r | r in issues ensures Plain(r) {
      TimesWeaken(r, Timed, NotEmpty);
    }
  }

  /** Validated issues are identified exactly when neither zero bytes nor empty labels are allowed. */
  lemma ValidatedIff(zeros: bool, empties: bool)
    ensures ValidIdentified(zeros, empties) <==> !zeros && !empties
  {
    if zeros {
      var t := SomeTime();
      ZeroByteCollides(t, "a", "", "");
      Refuted(zeros, empties, [Task(t, "a", "" + [NUL] + "", [], [])], [Task(t, "a" + [NUL] + "", "", [], [])]);
    } else if empties {
      var t := SomeTime();
      EmptyLabelCollides(t);
      Refuted(zeros, empties, [Labelled(t)], [Depending(t)]);
    } else {
      forall a, b | ValidList(zeros, empties, a) && ValidList(zeros, empties, b)
        ensures Stream(a) == Stream(b) <==> Same(a, b)
      {
        ValidFit(a);
        ValidFit(b);
        ValidatedIdentifies(a, b);
      }
    }
  }
}
