/** generate_suggestions_files.py: for every repository of a fixed mapping it
    writes a Markdown checklist, a heading line, a blank line and one
    unchecked item per suggestion, to `suggestions/<repo>.md`. The file
    handle is a string buffer that each `write` appends to; the file system
    is a map from paths to contents. */
module Checklist {
  import opened Text
  import opened PdfLayout

  const SuggestionsDir: string := "suggestions"

  /** The heading text after `"# "`; U+2013 is an en dash. */
  const HeadingSuffix: string := " \U{2013} Suggestions"

  const ItemMark: string := "- [ ] "

  /** The first line of a file, without its newline. */
  function HeadingLine(repo: string): string {
    "# " + repo + HeadingSuffix
  }

  /** The first `write`: the heading line and a blank line. */
  function Heading(repo: string): string {
    HeadingLine(repo) + "\n\n"
  }

  /** One checklist line, without its newline. */
  function ItemLine(s: string): string {
    ItemMark + s
  }

  /** The `write` of one suggestion. */
  function Item(s: string): string {
    ItemLine(s) + "\n"
  }

  /** All suggestion lines, in list order. */
  function Items(ss: seq<string>): string {
    if ss == [] then [] else Item(ss[0]) + Items(ss[1..])
  }

  /** What the file holds once the loop over its suggestions is done. */
  function Content(repo: string, ss: seq<string>): string {
    Heading(repo) + Items(ss)
  }

  /** Appending a suggestion appends its line. */
  lemma {:induction false} ItemsSnoc(ss: seq<string>, s: string)
    ensures Items(ss + [s]) == Items(ss) + Item(s)
  {
    if ss == [] {
      assert [s][1..] == [];
    } else {
      ItemsSnoc(ss[1..], s);
      assert (ss + [s])[1..] == ss[1..] + [s];
    }
  }

  /** One file: the heading is written, then each suggestion in turn. */
  method WriteSuggestionFile(repo: string, ss: seq<string>) returns (buffer: string)
    ensures buffer == Content(repo, ss)
  {
    buffer := [];
    buffer := buffer + Heading(repo);
    for i := 0 to |ss|
      invariant buffer == Heading(repo) + Items(ss[..i])
    {
      ItemsSnoc(ss[..i], ss[i]);
      assert ss[..i + 1] == ss[..i] + [ss[i]];
      buffer := buffer + Item(ss[i]);
    }
    assert ss[..|ss|] == ss;
  }

  /** The checklist lines: one `"- [ ] s"` per suggestion. */
  function ItemLines(ss: seq<string>): seq<string> {
    if ss == [] then [] else [ItemLine(ss[0])] + ItemLines(ss[1..])
  }

  /** Every checklist line is an unchecked item holding its suggestion. */
  lemma {:induction false} ItemLinesSpec(ss: seq<string>)
    ensures |ItemLines(ss)| == |ss|
    ensures forall i :: 0 <= i < |ss| ==>
      StartsWith(ItemLines(ss)[i], ItemMark) && ItemLines(ss)[i][|ItemMark|..] == ss[i]
  {
    if ss != [] {
      ItemLinesSpec(ss[1..]);
      var l := ItemLine(ss[0]);
      assert l[..|ItemMark|] == ItemMark && l[|ItemMark|..] == ss[0];
    }
  }

  /** A suggestion text is single-line when it holds no newline. */
  predicate SingleLines(ss: seq<string>) {
    forall i :: 0 <= i < |ss| ==> '\n' !in ss[i]
  }

  /** The suggestion lines end with a newline each, so splitting them gives
      the lines and a last empty piece. */
  lemma {:induction false} ItemsLines(ss: seq<string>)
    requires SingleLines(ss)
    ensures Split(Items(ss)) == ItemLines(ss) + [""]
  {
    if ss != [] {
      ItemsLines(ss[1..]);
      var l := ItemLine(ss[0]);
      assert '\n' !in ItemMark && '\n' !in ss[0];
      assert '\n' !in l;
      SplitNoNewline(l);
      assert Items(ss) == l + "\n" + Items(ss[1..]);
      SplitConcat(l, Items(ss[1..]));
    }
  }

  /** Read back line by line, a file is its heading line, a blank line, one
      line per suggestion in order, and the empty piece after the final
      newline. */
  lemma ContentLines(repo: string, ss: seq<string>)
    requires '\n' !in repo && SingleLines(ss)
    ensures Split(Content(repo, ss)) == [HeadingLine(repo), ""] + ItemLines(ss) + [""]
  {
    var h := HeadingLine(repo);
    assert '\n' !in HeadingSuffix;
    assert '\n' !in h;
    var rest := Items(ss);
    assert Content(repo, ss) == h + "\n" + ("\n" + rest);
    ItemsLines(ss);
    SplitNoNewline(h);
    assert ("\n" + rest)[0] == '\n' && ("\n" + rest)[1..] == rest;
    SplitConcat(h, "\n" + rest);
  }

  /** Whatever the repository name and the suggestions, a file ends with a
      newline. */
  lemma ContentEndsWithNewline(repo: string, ss: seq<string>)
    ensures var c := Content(repo, ss); |c| > 0 && c[|c| - 1] == '\n'
  {
    if ss != [] {
      ItemsSnoc(ss[..|ss| - 1], ss[|ss| - 1]);
      assert ss[..|ss| - 1] + [ss[|ss| - 1]] == ss;
    }
  }

  /** For a name and suggestions without newlines, a file ends with a newline
      and holds exactly two newlines more than it has suggestions. */
  lemma ContentShape(repo: string, ss: seq<string>)
    requires '\n' !in repo && SingleLines(ss)
    ensures var c := Content(repo, ss); |c| > 0 && c[|c| - 1] == '\n'
    ensures CountChar(Content(repo, ss), '\n') == |ss| + 2
  {
    var c := Content(repo, ss);
    ContentLines(repo, ss);
    ItemLinesSpec(ss);
    assert |Split(c)| == |ss| + 3;
    JoinSplit(c);
    var ls := Split(c);
    LastPieceEmpty(c);
  }

  /** When the last piece of a split is empty the text ends with a newline. */
  lemma {:induction false} LastPieceEmpty(s: string)
    requires |Split(s)| >= 2 && Split(s)[|Split(s)| - 1] == []
    ensures |s| > 0 && s[|s| - 1] == '\n'
  {
    var r := Split(s);
    var rest := Split(s[1..]);
    if s[0] == '\n' {
      if |rest| >= 2 {
        LastPieceEmpty(s[1..]);
      } else {
        assert |s[1..]| == 0 by {
          assert rest == [[]];
          JoinSplit(s[1..]);
        }
      }
    } else {
      assert |rest| >= 2 && rest[|rest| - 1] == r[|r| - 1];
      LastPieceEmpty(s[1..]);
    }
  }

  /** `os.path.join(a, b)` on POSIX: an absolute `b` replaces `a`, otherwise a
      `/` is put between them unless `a` is empty or already ends with one. */
  function PathJoin(a: string, b: string): string {
    if StartsWith(b, "/") then b
    else if a == [] || a[|a| - 1] == '/' then a + b
    else a + "/" + b
  }

  /** The file of one repository. */
  function PathFor(repo: string): string {
    PathJoin(SuggestionsDir, repo + ".md")
  }

  /** A repository name that is not an absolute path gives
      `suggestions/<repo>.md`, and different such names give different
      paths. */
  lemma PathForSpec(repo: string, other: string)
    requires !StartsWith(repo, "/") && !StartsWith(other, "/")
    ensures PathFor(repo) == "suggestions/" + repo + ".md"
    ensures PathFor(repo) == PathFor(other) ==> repo == other
  {
    RelativeJoin(repo);
    RelativeJoin(other);
    if PathFor(repo) == PathFor(other) {
      var p := PathFor(repo);
      var n := |"suggestions/"|;
      assert repo == p[n..|p| - 3];
      assert other == p[n..|p| - 3];
    }
  }

  lemma RelativeJoin(repo: string)
    requires !StartsWith(repo, "/")
    ensures PathFor(repo) == "suggestions/" + repo + ".md"
  {
    var b := repo + ".md";
    if repo == [] {
      assert b[..1] == ".";
    } else {
      assert b[..1] == repo[..1];
    }
    assert SuggestionsDir[|SuggestionsDir| - 1] != '/';
    assert SuggestionsDir + "/" + b == "suggestions/" + repo + ".md";
  }

  /** The files the loop leaves behind, for the mapping's entries in
      insertion order: a later entry for the same path overwrites. */
  function Files(entries: seq<(string, seq<string>)>): map<string, string> {
    if entries == [] then map[]
    else
      var last := entries[|entries| - 1];
      Files(entries[..|entries| - 1])[PathFor(last.0) := Content(last.0, last.1)]
  }

  /** The loop over the mapping: one file written per entry. */
  method GenerateAll(entries: seq<(string, seq<string>)>) returns (files: map<string, string>)
    ensures files == Files(entries)
  {
    files := map[];
    for i := 0 to |entries|
      invariant files == Files(entries[..i])
    {
      var (repo, ss) := entries[i];
      var content := WriteSuggestionFile(repo, ss);
      assert entries[..i + 1][..i] == entries[..i];
      files := files[PathFor(repo) := content];
    }
    assert entries[..|entries|] == entries;
  }

  /** Repository names are distinct and none is an absolute path. */
  predicate DistinctRelative(entries: seq<(string, seq<string>)>) {
    (forall i :: 0 <= i < |entries| ==> !StartsWith(entries[i].0, "/"))
    && (forall i, j :: 0 <= i < j < |entries| ==> entries[i].0 != entries[j].0)
  }

  /** With distinct relative names, one file per repository: there are as
      many files as entries, and each entry's path holds that repository's
      checklist. */
  lemma {:induction false} FilesSpec(entries: seq<(string, seq<string>)>)
    requires DistinctRelative(entries)
    ensures |Files(entries)| == |entries|
    ensures forall i :: 0 <= i < |entries| ==>
      PathFor(entries[i].0) in Files(entries)
      && Files(entries)[PathFor(entries[i].0)] == Content(entries[i].0, entries[i].1)
  {
    if entries != [] {
      var n := |entries| - 1;
      var init := entries[..n];
      var last := entries[n];
      assert DistinctRelative(init) by {
        forall i | 0 <= i < n ensures init[i] == entries[i] { }
      }
      FilesSpec(init);
      var prev := Files(init);
      var p := PathFor(last.0);
      assert p !in prev by {
        forall i | 0 <= i < n ensures PathFor(init[i].0) != p {
          assert init[i] == entries[i];
          PathForSpec(init[i].0, last.0);
        }
        PathsOfFiles(init);
      }
      forall i | 0 <= i < |entries|
        ensures PathFor(entries[i].0) in Files(entries)
        ensures Files(entries)[PathFor(entries[i].0)] == Content(entries[i].0, entries[i].1)
      {
        if i < n {
          assert entries[i] == init[i];
          PathForSpec(init[i].0, last.0);
        }
      }
    }
  }

  /** Every file written belongs to some entry. */
  lemma {:induction false} PathsOfFiles(entries: seq<(string, seq<string>)>)
    ensures forall p :: p in Files(entries) ==> exists i :: 0 <= i < |entries| && p == PathFor(entries[i].0)
  {
    if entries != [] {
      var init := entries[..|entries| - 1];
      PathsOfFiles(init);
      forall p | p in Files(entries)
        ensures exists i :: 0 <= i < |entries| && p == PathFor(entries[i].0)
      {
        if p == PathFor(entries[|entries| - 1].0) {
        } else {
          assert p in Files(init);
          var i :| 0 <= i < |init| && p == PathFor(init[i].0);
          assert entries[i] == init[i];
        }
      }
    }
  }

  /** The mapping of repository names to their suggestions, in insertion
      order. */
  const RepoSuggestions: seq<(string, seq<string>)> := [
    ("AI_Job_Application_Agent", [
      "Add a 'Results' section to the README with key metrics or demo screenshots",
      "Improve README with Overview, Features, Setup, and How to Run",
      "Add license and release badges",
      "Consider deploying a live demo via Streamlit"
    ]),
    ("Automatic_Ticket_Classifier", [
      "Add an Overview and Results section to README",
      "Document preprocessing steps clearly",
      "Include example inputs and outputs"
    ]),
    ("Credit_Card_Fraud_Detection", [
      "Include key evaluation metrics in README (Precision, Recall, F1-score)",
      "Add code comments and docstrings",
      "Describe dataset and imbalance-handling approach"
    ]),
    ("Gesture_Recognition", [
      "Document the model architecture used",
      "Include training sample images or visualizations",
      "Add environment setup and usage instructions"
    ]),
    ("Github_Agent", [
      "Clarify project goal in README",
      "Add demo output screenshots or expected terminal result",
      "Document OpenAI and GitHub token usage (safely)"
    ]),
    ("HelpmateAI_RAG_QA_System", [
      "Add architecture diagram and description",
      "List embedding models and reranking strategies used",
      "Include performance on sample queries"
    ]),
    ("Lending_Club_CaseStudy", [
      "Summarize business problem and solution approach",
      "Include feature engineering steps in README",
      "Highlight key model performance results"
    ]),
    ("Linear_Regression_BikeDemand", [
      "Add dataset visualization or time series plot",
      "Explain model assumptions and limitations",
      "Describe prediction accuracy (R\U{B2}, RMSE)"
    ]),
    ("numpy", [
      "Consider archiving if this is a test or fork",
      "If intentional: Add purpose and README clarity"
    ]),
    ("portfolio", [
      "Convert into an actual portfolio site or structured index of your projects",
      "Include thumbnails and links to key repos",
      "Add summary about your role, skills, and motivations"
    ]),
    ("Telecom_Churn_Case_study", [
      "Clarify business objective and dataset",
      "Add model insights and churn impact interpretation",
      "Document how to replicate results"
    ])
  ]

  /** The script's own mapping has eleven distinct repository names, none an
      absolute path, so it leaves eleven files behind, each holding the
      checklist of its repository. */
  lemma RepoSuggestionsFiles()
    ensures DistinctRelative(RepoSuggestions)
    ensures |Files(RepoSuggestions)| == |RepoSuggestions| == 11
  {
    RepoNamesDistinctRelative();
    FilesSpec(RepoSuggestions);
  }

  lemma RepoNamesDistinctRelative()
    ensures DistinctRelative(RepoSuggestions)
  {
    var es := RepoSuggestions;
    forall i | 0 <= i < |es| ensures NameIndex(es[i].0) == i && !StartsWith(es[i].0, "/") {
      NameIndexOfEntry(i);
      NameIndexNotAbsolute(es[i].0);
    }
  }

  lemma NameIndexNotAbsolute(name: string)
    requires NameIndex(name) >= 0
    ensures !StartsWith(name, "/")
  {
    assert name[..1] == [name[0]];
  }

  /** Tells the eleven repository names apart by first letter and length. */
  function NameIndex(name: string): int {
    if name == [] then -1
    else
      var key := (name[0], |name|);
      if key == ('A', 24) then 0 else if key == ('A', 27) then 1
      else if key == ('C', 27) then 2 else if key == ('G', 19) then 3
      else if key == ('G', 12) then 4 else if key == ('H', 24) then 5
      else if key == ('L', 22) then 6 else if key == ('L', 28) then 7
      else if key == ('n', 5) then 8 else if key == ('p', 9) then 9
      else if key == ('T', 24) then 10 else -1
  }

  lemma NameIndexOfEntry(i: nat)
    requires i < |RepoSuggestions|
    ensures NameIndex(RepoSuggestions[i].0) == i
  {
  }

  /** A suggestion the layout keeps as it is: non-empty, on one line,
      without asterisks and not ending in whitespace. */
  predicate Clean(s: string) {
    s != [] && '\n' !in s && '*' !in s && !IsSpace(s[|s| - 1])
  }

  /** The flowables of the checklist lines: one bullet each, whose text is
      the bullet sign, the unchecked box and the suggestion. */
  function BulletBlocks(ss: seq<string>): seq<Flowable> {
    if ss == [] then []
    else [Paragraph(BulletMark + "[ ] " + ss[0], CustomBullet), Spacer(1, 4)] + BulletBlocks(ss[1..])
  }

  /** A clean suggestion's line is a bullet. */
  lemma ItemLayout(s: string)
    requires Clean(s)
    ensures LayoutLines([ItemLine(s)]) == [Paragraph(BulletMark + "[ ] " + s, CustomBullet), Spacer(1, 4)]
  {
    var l := ItemLine(s);
    assert l == "- " + ("[ ] " + s);
    assert l[0] == '-' && l[|l| - 1] == s[|s| - 1];
    assert '*' !in ItemMark;
    NormalizeClean(l);
    BulletLine("[ ] " + s);
    LayoutSingle(l);
    assert BulletMark + ("[ ] " + s) == BulletMark + "[ ] " + s;
  }

  lemma {:induction false} ItemsLayout(ss: seq<string>)
    requires forall i :: 0 <= i < |ss| ==> Clean(ss[i])
    ensures LayoutLines(ItemLines(ss)) == BulletBlocks(ss)
  {
    if ss != [] {
      ItemsLayout(ss[1..]);
      ItemLayout(ss[0]);
      LayoutLinesConcat([ItemLine(ss[0])], ItemLines(ss[1..]));
    }
  }

  /** The heading line is a title naming the repository. */
  lemma HeadingLayout(repo: string)
    requires '*' !in repo && '#' !in repo
    ensures LayoutLines([HeadingLine(repo)]) == [Paragraph(repo + HeadingSuffix, CustomBold), Spacer(1, 10)]
  {
    var h := HeadingLine(repo);
    var t := repo + HeadingSuffix;
    assert '*' !in HeadingSuffix && '#' !in HeadingSuffix;
    assert h == "# " + t;
    assert h[0] == '#' && h[|h| - 1] == 's';
    NormalizeClean(h);
    TitleLine(t);
    RemoveAllAbsent(t, "# ");
    LayoutSingle(h);
  }

  /** An empty line is a spacer of 10. */
  lemma BlankLayout()
    ensures LayoutLines([""]) == [Spacer(1, 10)]
  {
    assert Normalize("") == "";
    LayoutSingle("");
  }

  /** Fed to the PDF export, a checklist gives a title naming the
      repository, the spacer of the title, the spacer of the blank line, one
      bullet per suggestion and a final spacer for the empty last line. */
  lemma ChecklistLayout(repo: string, ss: seq<string>)
    requires '\n' !in repo && '*' !in repo && '#' !in repo
    requires forall i :: 0 <= i < |ss| ==> Clean(ss[i])
    ensures Layout(Content(repo, ss)) ==
      [Paragraph(repo + HeadingSuffix, CustomBold), Spacer(1, 10), Spacer(1, 10)]
      + BulletBlocks(ss) + [Spacer(1, 10)]
  {
    var h := HeadingLine(repo);
    var items := ItemLines(ss);
    CleanLines(ss);
    ContentLayout(repo, ss);
    ItemsLayout(ss);
    HeadingLayout(repo);
    BlankLayout();
    Assemble(LayoutLines([h]), LayoutLines([""]), LayoutLines(items),
             Paragraph(repo + HeadingSuffix, CustomBold), BulletBlocks(ss));
  }

  /** Clean suggestions are single lines. */
  lemma CleanLines(ss: seq<string>)
    requires forall i :: 0 <= i < |ss| ==> Clean(ss[i])
    ensures SingleLines(ss)
  {
  }

  lemma Assemble(a: seq<Flowable>, b: seq<Flowable>, c: seq<Flowable>, title: Flowable, bullets: seq<Flowable>)
    requires a == [title, Spacer(1, 10)] && b == [Spacer(1, 10)] && c == bullets
    ensures a + (b + (c + b)) == [title, Spacer(1, 10), Spacer(1, 10)] + bullets + [Spacer(1, 10)]
  {
  }

  /** The layout of a file is the layouts of its lines, in order. */
  lemma ContentLayout(repo: string, ss: seq<string>)
    requires '\n' !in repo && SingleLines(ss)
    ensures Layout(Content(repo, ss)) == LayoutLines([HeadingLine(repo)])
      + (LayoutLines([""]) + (LayoutLines(ItemLines(ss)) + LayoutLines([""])))
  {
    ContentLines(repo, ss);
    LayoutOfParts(HeadingLine(repo), ItemLines(ss));
  }

  /** The layout of heading, blank, items and final empty line, part by part. */
  lemma LayoutOfParts(h: string, items: seq<string>)
    ensures LayoutLines([h, ""] + items + [""])
         == LayoutLines([h]) + (LayoutLines([""]) + (LayoutLines(items) + LayoutLines([""])))
  {
    assert [h, ""] + items + [""] == [h] + ([""] + (items + [""]));
    LayoutLinesConcat(items, [""]);
    LayoutLinesConcat([""], items + [""]);
    LayoutLinesConcat([h], [""] + (items + [""]));
  }

}
