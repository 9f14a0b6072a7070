/** The line classifier of `generate_pdf` (app.py): the suggestion text is cut
    into lines, each line is normalised and put into one of six kinds, and
    each kind contributes a fixed list of layout elements ("flowables"). The
    layout engine itself is not modelled: a paragraph is its text and style,
    a spacer its width and height. */
module PdfLayout {
  import opened Text

  /** The three paragraph styles the function registers. */
  datatype Style = CustomBold | CustomBody | CustomBullet

  /** reportlab's `Paragraph(text, style)` and `Spacer(width, height)`. */
  datatype Flowable = Paragraph(text: string, style: Style) | Spacer(width: int, height: int)

  /** The six kinds of line, in the order the classifier tries them. */
  datatype Kind = Title | Section | Ordered | Bullet | Blank | Body

  const BulletMark: string := "\U{2022} "

  /** Each raw line is stripped of surrounding whitespace, then every `"**"`
      is deleted; whitespace uncovered by the deletion stays. */
  function Normalize(raw: string): string {
    RemoveAll(Strip(raw), "**")
  }

  predicate IsDigit(c: char) {
    '0' <= c <= '9'
  }

  /** Length of the run of ASCII digits at the start of `s`. */
  function LeadingDigits(s: string): (n: nat)
    ensures n <= |s|
    ensures forall k :: 0 <= k < n ==> IsDigit(s[k])
    ensures n < |s| ==> !IsDigit(s[n])
  {
    if s != [] && IsDigit(s[0]) then 1 + LeadingDigits(s[1..]) else 0
  }

  /** `re.match(r"^\d+\.", s)` succeeds: the greedy digit run is followed by a dot. */
  predicate IsOrderedItem(s: string) {
    var n := LeadingDigits(s);
    1 <= n < |s| && s[n] == '.'
  }

  /** The guard of each kind on its own, without the first-match order. */
  predicate Matches(k: Kind, line: string) {
    match k
    case Title => StartsWith(line, "# ")
    case Section => StartsWith(line, "## ")
    case Ordered => IsOrderedItem(line)
    case Bullet => StartsWith(line, "- ")
    case Blank => line == []
    case Body => !StartsWith(line, "# ") && !StartsWith(line, "## ")
                 && !IsOrderedItem(line) && !StartsWith(line, "- ") && line != []
  }

  /** The `if`/`elif` chain: the first guard that holds decides the kind. */
  function Classify(line: string): Kind {
    if StartsWith(line, "# ") then Title
    else if StartsWith(line, "## ") then Section
    else if IsOrderedItem(line) then Ordered
    else if StartsWith(line, "- ") then Bullet
    else if line == [] then Blank
    else Body
  }

  /** The flowables one normalised line contributes. */
  function LineBlocks(line: string): seq<Flowable> {
    match Classify(line)
    case Title => [Paragraph(RemoveAll(line, "# "), CustomBold), Spacer(1, 10)]
    case Section => [Paragraph(RemoveAll(line, "## "), CustomBold), Spacer(1, 8)]
    case Ordered => [Paragraph(line, CustomBold), Spacer(1, 8)]
    case Bullet => [Paragraph(BulletMark + line[2..], CustomBullet), Spacer(1, 4)]
    case Blank => [Spacer(1, 10)]
    case Body => [Paragraph(line, CustomBody), Spacer(1, 6)]
  }

  /** The flowables of a sequence of raw lines, in order. */
  function LayoutLines(lines: seq<string>): seq<Flowable> {
    FlatMap(RawLineBlocks, lines)
  }

  function RawLineBlocks(raw: string): seq<Flowable> {
    LineBlocks(Normalize(raw))
  }

  function FlatMap<T, U>(f: T -> seq<U>, xs: seq<T>): seq<U> {
    if xs == [] then [] else FlatMap(f, xs[..|xs| - 1]) + f(xs[|xs| - 1])
  }

  lemma {:induction false} FlatMapConcat<T, U>(f: T -> seq<U>, a: seq<T>, b: seq<T>)
    ensures FlatMap(f, a + b) == FlatMap(f, a) + FlatMap(f, b)
    decreases |b|
  {
    if b != [] {
      FlatMapConcat(f, a, b[..|b| - 1]);
      assert (a + b)[..|a + b| - 1] == a + b[..|b| - 1];
    } else {
      assert a + b == a;
    }
  }

  /** The flowables `generate_pdf` hands to the layout engine for `text`. */
  function Layout(text: string): seq<Flowable> {
    LayoutLines(Split(text))
  }

  /** `generate_pdf`'s loop: one pass over the lines, appending to a list. */
  method GeneratePdf(text: string) returns (flowables: seq<Flowable>)
    ensures flowables == Layout(text)
  {
    flowables := [];
    var lines := Split(text);
    for i := 0 to |lines|
      invariant flowables == LayoutLines(lines[..i])
    {
      LayoutLinesStep(lines, i);
      var rawLine := Strip(lines[i]);
      var line := RemoveAll(rawLine, "**");
      assert line == Normalize(lines[i]);
      if StartsWith(line, "# ") {
        flowables := flowables + [Paragraph(RemoveAll(line, "# "), CustomBold)];
        flowables := flowables + [Spacer(1, 10)];
      } else if StartsWith(line, "## ") {
        flowables := flowables + [Paragraph(RemoveAll(line, "## "), CustomBold)];
        flowables := flowables + [Spacer(1, 8)];
      } else if IsOrderedItem(line) {
        flowables := flowables + [Paragraph(line, CustomBold)];
        flowables := flowables + [Spacer(1, 8)];
      } else if StartsWith(line, "- ") {
        flowables := flowables + [Paragraph(BulletMark + line[2..], CustomBullet)];
        flowables := flowables + [Spacer(1, 4)];
      } else if line == [] {
        flowables := flowables + [Spacer(1, 10)];
      } else {
        flowables := flowables + [Paragraph(line, CustomBody)];
        flowables := flowables + [Spacer(1, 6)];
      }
    }
    assert lines[..|lines|] == lines;
  }

  /** Taking one more line appends that line's flowables. */
  lemma LayoutLinesStep(lines: seq<string>, i: nat)
    requires i < |lines|
    ensures LayoutLines(lines[..i + 1]) == LayoutLines(lines[..i]) + LineBlocks(Normalize(lines[i]))
  {
    assert lines[..i + 1][..i] == lines[..i];
  }

  /** `re.match` backtracks over `\d+`, so it succeeds exactly when SOME
      non-empty run of leading digits is followed by a dot; the greedy test
      above agrees with that in both directions. */
  lemma OrderedItemIsRegexMatch(s: string)
    ensures IsOrderedItem(s) <==>
      exists k :: 1 <= k < |s| && s[k] == '.' && forall j :: 0 <= j < k ==> IsDigit(s[j])
  {
    if k :| 1 <= k < |s| && s[k] == '.' && forall j :: 0 <= j < k ==> IsDigit(s[j]) {
      LeadingDigitsAtLeast(s, k);
    }
  }

  /** The greedy run covers every run of leading digits. */
  lemma {:induction false} LeadingDigitsAtLeast(s: string, k: nat)
    requires k <= |s| && forall j :: 0 <= j < k ==> IsDigit(s[j])
    ensures LeadingDigits(s) >= k
  {
    if k > 0 {
      LeadingDigitsAtLeast(s[1..], k - 1);
    }
  }

  /** At most one guard holds for any line, so the first-match order of the
      chain never decides between two kinds: the kind of a line is the one
      kind whose guard it satisfies. */
  lemma ClassifyIsUnique(line: string, k: Kind)
    ensures Classify(line) == k <==> Matches(k, line)
  {
    if IsOrderedItem(line) {
      assert IsDigit(line[0]);
    }
    if StartsWith(line, "## ") {
      assert line[1] == '#';
    }
  }

  /** Number of raw lines that normalise to the empty line. */
  function BlankLines(lines: seq<string>): nat {
    if lines == [] then 0
    else BlankLines(lines[..|lines| - 1]) + (if Normalize(lines[|lines| - 1]) == [] then 1 else 0)
  }

  /** Number of spacers in a list of flowables. */
  function Spacers(fs: seq<Flowable>): nat {
    if fs == [] then 0
    else Spacers(fs[..|fs| - 1]) + (if fs[|fs| - 1].Spacer? then 1 else 0)
  }

  lemma {:induction false} SpacersConcat(a: seq<Flowable>, b: seq<Flowable>)
    ensures Spacers(a + b) == Spacers(a) + Spacers(b)
    decreases |b|
  {
    if b == [] {
      assert a + b == a;
    } else {
      SpacersConcat(a, b[..|b| - 1]);
      assert (a + b)[..|a + b| - 1] == a + b[..|b| - 1];
    }
  }

  /** One line gives one spacer, preceded by a paragraph unless the line is empty. */
  lemma LineBlocksShape(line: string)
    ensures |LineBlocks(line)| == (if line == [] then 1 else 2)
    ensures Spacers(LineBlocks(line)) == 1
    ensures line != [] ==> LineBlocks(line)[0].Paragraph? && LineBlocks(line)[1].Spacer?
  {
    var b := LineBlocks(line);
    if line == [] {
      assert Classify(line) == Blank;
      assert b[..0] == [];
    } else {
      assert Classify(line) != Blank;
      assert b[0].Paragraph? && b[1].Spacer?;
      assert b[..1][..0] == [];
      assert Spacers(b[..1]) == 0;
    }
  }

  /** Every non-blank line yields one paragraph and one spacer, a blank line
      only a spacer: 2 * (non-blank lines) + (blank lines) flowables, and
      exactly one spacer per line. */
  lemma {:induction false} LayoutLinesSize(lines: seq<string>)
    ensures |LayoutLines(lines)| == 2 * (|lines| - BlankLines(lines)) + BlankLines(lines)
    ensures Spacers(LayoutLines(lines)) == |lines|
  {
    if lines != [] {
      var init := lines[..|lines| - 1];
      var line := Normalize(lines[|lines| - 1]);
      LayoutLinesSize(init);
      SpacersConcat(LayoutLines(init), LineBlocks(line));
      LineBlocksShape(line);
    }
  }

  /** The text is cut on `"\n"` only: the layout holds exactly one spacer per
      line, that is one more than the number of newlines. */
  lemma LayoutSpacersCountLines(text: string)
    ensures Spacers(Layout(text)) == CountChar(text, '\n') + 1
    ensures |Layout(text)| == 2 * (|Split(text)| - BlankLines(Split(text))) + BlankLines(Split(text))
  {
    LayoutLinesSize(Split(text));
  }

  lemma {:induction false} LayoutLinesConcat(a: seq<string>, b: seq<string>)
    ensures LayoutLines(a + b) == LayoutLines(a) + LayoutLines(b)
    decreases |b|
  {
    FlatMapConcat(RawLineBlocks, a, b);
  }

  /** One line on its own gives its own flowables. */
  lemma LayoutSingle(raw: string)
    ensures LayoutLines([raw]) == LineBlocks(Normalize(raw))
  {
    assert [raw][..0] == [];
    assert FlatMap(RawLineBlocks, [raw]) == FlatMap(RawLineBlocks, []) + RawLineBlocks(raw);
  }

  /** Empty text is one empty line: a single spacer of height 10. */
  lemma LayoutEmpty()
    ensures Layout("") == [Spacer(1, 10)]
  {
    assert Split("") == [""];
    LayoutSingle("");
    assert Normalize("") == "";
  }

  /** A trailing newline adds one empty line, hence one trailing spacer. */
  lemma LayoutTrailingNewline(text: string)
    ensures Layout(text + "\n") == Layout(text) + [Spacer(1, 10)]
  {
    SplitSnoc(text);
    var lines := Split(text) + [""];
    assert lines[..|lines| - 1] == Split(text);
    assert Normalize("") == "";
  }

  /** A line is plain when, once normalised, it falls through every guard of
      the chain to body text (`"#tag"`, `"-x"` and `"2024 was good"` among
      them). */
  predicate Plain(raw: string) {
    Classify(Normalize(raw)) == Body
  }

  /** Text made only of plain lines yields one body paragraph per line, in
      order, each followed by a spacer of 6. */
  lemma {:induction false} PlainLinesAreBody(lines: seq<string>)
    requires forall i :: 0 <= i < |lines| ==> Plain(lines[i])
    ensures |LayoutLines(lines)| == 2 * |lines|
    ensures forall i :: 0 <= i < |lines| ==>
      LayoutLines(lines)[2 * i] == Paragraph(Normalize(lines[i]), CustomBody)
      && LayoutLines(lines)[2 * i + 1] == Spacer(1, 6)
  {
    if lines != [] {
      var init := lines[..|lines| - 1];
      PlainLinesAreBody(init);
      var line := Normalize(lines[|lines| - 1]);
      PlainIsBody(lines[|lines| - 1]);
      var r := LayoutLines(lines);
      assert lines == init + [lines[|lines| - 1]];
      LayoutLinesConcat(init, [lines[|lines| - 1]]);
      LayoutSingle(lines[|lines| - 1]);
      assert r == LayoutLines(init) + [Paragraph(line, CustomBody), Spacer(1, 6)];
      forall i | 0 <= i < |lines|
        ensures r[2 * i] == Paragraph(Normalize(lines[i]), CustomBody) && r[2 * i + 1] == Spacer(1, 6)
      {
        if i < |init| { assert init[i] == lines[i]; }
      }
    }
  }

  /** A plain line is a body paragraph followed by a spacer of 6. */
  lemma PlainIsBody(raw: string)
    requires Plain(raw)
    ensures LineBlocks(Normalize(raw)) == [Paragraph(Normalize(raw), CustomBody), Spacer(1, 6)]
  {
    var line := Normalize(raw);
    assert Classify(line) == Body;
  }

  /** Text without a newline is a single line. */
  lemma LayoutOneLine(raw: string)
    requires '\n' !in raw
    ensures Layout(raw) == LineBlocks(Normalize(raw))
  {
    SplitNoNewline(raw);
    LayoutSingle(raw);
  }

  /** A line already trimmed and free of asterisks is left unchanged. */
  lemma NormalizeClean(raw: string)
    requires Trimmed(raw) && '*' !in raw
    ensures Normalize(raw) == raw
  {
    StripTrimmed(raw);
    RemoveAllAbsent(raw, "**");
  }

  /** A `"# "` line is a title whose text drops every `"# "` in the line. */
  lemma TitleLine(t: string)
    ensures LineBlocks("# " + t) == [Paragraph(RemoveAll(t, "# "), CustomBold), Spacer(1, 10)]
  {
    var line := "# " + t;
    assert line[..2] == "# ";
    RemoveAllLeading("# ", t);
  }

  /** A `"## "` line is a section: every `"## "` in it is removed, and a
      spacer of 8 follows. */
  lemma SectionLine(t: string)
    ensures LineBlocks("## " + t) == [Paragraph(RemoveAll(t, "## "), CustomBold), Spacer(1, 8)]
  {
    var line := "## " + t;
    assert line[..3] == "## " && line[1] == '#';
    RemoveAllLeading("## ", t);
  }

  /** A `"- "` line is a bullet: the marker is replaced by a bullet sign. */
  lemma BulletLine(t: string)
    ensures LineBlocks("- " + t) == [Paragraph(BulletMark + t, CustomBullet), Spacer(1, 4)]
  {
    var line := "- " + t;
    assert line[..2] == "- " && line[2..] == t;
    assert LeadingDigits(line) == 0;
  }

  /** A line starting with digits and a dot is an ordered item, kept whole. */
  lemma OrderedLine(line: string, n: nat)
    requires 1 <= n < |line| && line[n] == '.'
    requires forall j :: 0 <= j < n ==> IsDigit(line[j])
    ensures LineBlocks(line) == [Paragraph(line, CustomBold), Spacer(1, 8)]
  {
    OrderedItemIsRegexMatch(line);
    assert IsDigit(line[0]);
  }

  /** A non-empty line whose first character is none of `#`, `-` or a digit
      is body text. */
  lemma BodyLine(line: string)
    requires line != [] && line[0] != '#' && line[0] != '-' && !IsDigit(line[0])
    ensures LineBlocks(line) == [Paragraph(line, CustomBody), Spacer(1, 6)]
  {
    assert LeadingDigits(line) == 0;
  }

  /** Emphasis markers around a heading are deleted before classifying. */
  lemma BoldTitle(t: string)
    requires '*' !in t && '#' !in t
    ensures Normalize("**# " + t + "**") == "# " + t
    ensures LineBlocks(Normalize("**# " + t + "**")) == [Paragraph(t, CustomBold), Spacer(1, 10)]
  {
    var raw := "**# " + t + "**";
    assert raw[0] == '*' && raw[|raw| - 1] == '*';
    StripTrimmed(raw);
    assert raw == "**" + (("# " + t) + "**");
    RemoveAllLeading("**", ("# " + t) + "**");
    RemoveAllSkip("# " + t, "**", "**");
    assert "**" == "**" + [];
    RemoveAllLeading("**", []);
    assert ("# " + t) + [] == "# " + t;
    TitleLine(t);
    RemoveAllAbsent(t, "# ");
  }

  /** `k` emphasis markers in a row, `"**"` repeated `k` times. */
  function Markers(k: nat): string {
    if k == 0 then [] else "**" + Markers(k - 1)
  }

  /** A line made of `"**"` pairs only, once stripped, is a blank line. */
  lemma {:induction false} OnlyMarkersIsBlank(raw: string, k: nat)
    requires Strip(raw) == Markers(k)
    ensures Normalize(raw) == []
    ensures LineBlocks(Normalize(raw)) == [Spacer(1, 10)]
  {
    MarkersVanish(k);
  }

  lemma {:induction false} MarkersVanish(k: nat)
    ensures RemoveAll(Markers(k), "**") == []
  {
    if k > 0 {
      MarkersVanish(k - 1);
      RemoveAllLeading("**", Markers(k - 1));
    }
  }

  /** `replace` scans left to right without overlaps: an odd run of stars
      keeps its last one, so `"***"` becomes `"*"`. */
  lemma {:induction false} OddRunKeepsOneStar(k: nat)
    ensures RemoveAll(Markers(k) + "*", "**") == "*"
  {
    if k > 0 {
      OddRunKeepsOneStar(k - 1);
      assert Markers(k) + "*" == "**" + (Markers(k - 1) + "*");
      RemoveAllLeading("**", Markers(k - 1) + "*");
    }
  }

  /** Whitespace uncovered by deleting a leading `"**"` is not stripped
      again: the line stays body text with a leading space. */
  lemma MarkerThenSpaceIsBody(t: string)
    requires t != [] && '*' !in t && !IsSpace(t[|t| - 1])
    ensures Normalize("** " + t) == " " + t
    ensures LineBlocks(Normalize("** " + t)) == [Paragraph(" " + t, CustomBody), Spacer(1, 6)]
  {
    var raw := "** " + t;
    assert raw[0] == '*' && raw[|raw| - 1] == t[|t| - 1];
    StripTrimmed(raw);
    assert raw == "**" + (" " + t);
    RemoveAllLeading("**", " " + t);
    RemoveAllAbsent(" " + t, "**");
    BodyLine(" " + t);
  }

  /** Title text loses every `"# "` in the line, not just the leading one. */
  lemma TitleRemovesEveryMarker(a: string, b: string)
    requires '#' !in a && '#' !in b
    ensures LineBlocks("# " + a + "# " + b) == [Paragraph(a + b, CustomBold), Spacer(1, 10)]
  {
    assert "# " + a + "# " + b == "# " + (a + ("# " + b));
    TitleLine(a + ("# " + b));
    RemoveAllSkip(a, "# " + b, "# ");
    RemoveAllLeading("# ", b);
    RemoveAllAbsent(b, "# ");
  }

  /** `replace` removes a second `"## "` inside a section heading too. */
  lemma SectionRemovesEveryMarker(a: string, b: string)
    requires '#' !in a && '#' !in b
    ensures LineBlocks("## " + a + "## " + b) == [Paragraph(a + b, CustomBold), Spacer(1, 8)]
  {
    assert "## " + a + "## " + b == "## " + (a + ("## " + b));
    SectionLine(a + ("## " + b));
    RemoveAllSkip(a, "## " + b, "## ");
    RemoveAllLeading("## ", b);
    RemoveAllAbsent(b, "## ");
  }
}
