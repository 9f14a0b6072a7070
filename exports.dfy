/** The download step of the app (app.py): the four export formats, their
    labels, MIME types and file extensions, the file name offered to the
    browser, and the payload each format produces from the suggestion text. */
module Exports {
  import opened Wrappers
  import opened Text
  import opened Utf8
  import opened PdfLayout

  datatype Format = Markdown | PlainText | Word | Pdf

  /** The choices of the format select box, in the order it lists them. */
  const Labels: seq<string> := ["Markdown (.md)", "Text (.txt)", "Word (.docx)", "PDF (.pdf)"]

  function Label(f: Format): string {
    match f
    case Markdown => Labels[0]
    case PlainText => Labels[1]
    case Word => Labels[2]
    case Pdf => Labels[3]
  }

  /** The `if`/`elif` chain on the selected choice. A choice outside the four
      matches no branch: the code would then fail with `NameError` on the
      unbound `file_data` (app.py:206), which the select box makes
      unreachable; here it is `None`. */
  function FormatOf(choice: string): Option<Format> {
    if choice == "Markdown (.md)" then Some(Markdown)
    else if choice == "Text (.txt)" then Some(PlainText)
    else if choice == "Word (.docx)" then Some(Word)
    else if choice == "PDF (.pdf)" then Some(Pdf)
    else None
  }

  function MimeType(f: Format): string {
    match f
    case Markdown => "text/markdown"
    case PlainText => "text/plain"
    case Word => "application/vnd.openxmlformats-officedocument.wordprocessingml.document"
    case Pdf => "application/pdf"
  }

  function Extension(f: Format): string {
    match f
    case Markdown => "md"
    case PlainText => "txt"
    case Word => "docx"
    case Pdf => "pdf"
  }

  /** The four labels select the four formats one-to-one, in both
      directions: each choice selects its own format, and a choice selects a
      format only if it is that format's choice. */
  lemma FormatOfLabel(choice: string, f: Format)
    ensures FormatOf(choice) == Some(f) <==> choice == Label(f)
  {
  }

  /** The labels are exactly the select box's choices, and all four differ. */
  lemma LabelsListed(f: Format)
    ensures Label(f) in Labels
    ensures forall g :: Label(g) == Label(f) ==> g == f
  {
    forall g | Label(g) == Label(f) ensures g == f {
      FormatOfLabel(Label(f), f);
      FormatOfLabel(Label(g), g);
    }
  }

  /** Distinct formats have distinct MIME types and distinct extensions. */
  lemma TableInjective(f: Format, g: Format)
    ensures MimeType(f) == MimeType(g) ==> f == g
    ensures Extension(f) == Extension(g) ==> f == g
  {
    MimeTypeRoundTrip(f);
    MimeTypeRoundTrip(g);
    ExtensionRoundTrip(f);
    ExtensionRoundTrip(g);
  }

  /** The MIME type back to its format. */
  function FormatOfMimeType(m: string): Option<Format> {
    if m == MimeType(Markdown) then Some(Markdown)
    else if m == MimeType(PlainText) then Some(PlainText)
    else if m == MimeType(Word) then Some(Word)
    else if m == MimeType(Pdf) then Some(Pdf)
    else None
  }

  /** Each MIME type reads back as its own format. */
  lemma MimeTypeRoundTrip(f: Format)
    ensures FormatOfMimeType(MimeType(f)) == Some(f)
  {
  }

  /** `github_username or 'my'`: an empty user name is falsy. */
  function Owner(username: string): (r: string)
    ensures r != []
    ensures username != [] ==> r == username
    ensures username == [] ==> r == "my"
  {
    if username == [] then "my" else username
  }

  const NameStem: string := "_portfolio_suggestions"

  /** The file name of the download. */
  function FileName(username: string, f: Format): string {
    Owner(username) + NameStem + "." + Extension(f)
  }

  /** The text after the last `'.'` of `s` (all of `s` if there is none). */
  function AfterLastDot(s: string): (r: string)
    ensures '.' !in r
    ensures |r| <= |s| && r == s[|s| - |r|..]
  {
    if s == [] then []
    else if s[|s| - 1] == '.' then []
    else AfterLastDot(s[..|s| - 1]) + [s[|s| - 1]]
  }

  lemma {:induction false} AfterLastDotAppend(a: string, b: string)
    requires '.' !in b
    ensures AfterLastDot(a + "." + b) == b
    decreases |b|
  {
    var s := a + "." + b;
    if b == [] {
      assert s[|s| - 1] == '.';
    } else {
      var b' := b[..|b| - 1];
      assert s[..|s| - 1] == a + "." + b';
      assert s[|s| - 1] == b[|b| - 1];
      AfterLastDotAppend(a, b');
      assert b' + [b[|b| - 1]] == b;
    }
  }

  /** The extension back to its format. */
  function FormatOfExtension(ext: string): Option<Format> {
    if ext == "md" then Some(Markdown)
    else if ext == "txt" then Some(PlainText)
    else if ext == "docx" then Some(Word)
    else if ext == "pdf" then Some(Pdf)
    else None
  }

  /** Each extension reads back as its own format, and holds no dot. */
  lemma ExtensionRoundTrip(f: Format)
    ensures FormatOfExtension(Extension(f)) == Some(f)
    ensures '.' !in Extension(f)
  {
  }

  /** Whatever the user name, the file name's extension, the text after its
      last dot, gives back the chosen format, and the name starts with the
      user name, or with `"my"` when that is empty. */
  lemma FileNameFormat(username: string, f: Format)
    ensures FormatOfExtension(AfterLastDot(FileName(username, f))) == Some(f)
    ensures StartsWith(FileName(username, f), Owner(username))
    ensures username == [] ==> StartsWith(FileName(username, f), "my")
  {
    var owner, ext := Owner(username), Extension(f);
    ExtensionRoundTrip(f);
    assert FileName(username, f) == (owner + NameStem) + "." + ext;
    AfterLastDotAppend(owner + NameStem, ext);
    PrefixOfConcat(owner, NameStem + "." + ext);
  }

  lemma PrefixOfConcat(a: string, b: string)
    ensures StartsWith(a + b, a)
  {
    assert (a + b)[..|a|] == a;
  }

  /** Two downloads with the same file name were offered for the same owner
      and the same format. */
  lemma FileNameInjective(u: string, f: Format, v: string, g: Format)
    requires FileName(u, f) == FileName(v, g)
    ensures f == g && Owner(u) == Owner(v)
  {
    ExtensionRoundTrip(f);
    ExtensionRoundTrip(g);
    assert FileName(u, f) == (Owner(u) + NameStem) + "." + Extension(f);
    assert FileName(v, g) == (Owner(v) + NameStem) + "." + Extension(g);
    DotSplitInjective(Owner(u) + NameStem, Extension(f), Owner(v) + NameStem, Extension(g));
    SameSuffix(Owner(u), Owner(v), NameStem);
  }

  /** A name cut at its last dot determines both parts. */
  lemma DotSplitInjective(a: string, e: string, b: string, d: string)
    requires '.' !in e && '.' !in d
    requires a + "." + e == b + "." + d
    ensures a == b && e == d
  {
    var s := a + "." + e;
    AfterLastDotAppend(a, e);
    AfterLastDotAppend(b, d);
    assert e == d;
    assert |a| == |b|;
    assert a == s[..|a|];
    assert b == s[..|b|];
  }

  lemma SameSuffix(a: string, b: string, c: string)
    requires a + c == b + c
    ensures a == b
  {
    assert |a| == |b|;
    assert a == (a + c)[..|a|];
    assert b == (b + c)[..|b|];
  }

  /** `generate_txt` and `generate_markdown`: the UTF-8 bytes of the text,
      which decode back to the text unchanged. */
  function ExportText(text: string): (bytes: seq<byte>)
    ensures Decode(bytes) == Some(text)
    ensures |text| <= |bytes| <= 4 * |text|
  {
    DecodeEncode(text);
    EncodeLength(text);
    Encode(text)
  }

  /** The elements of the Word document `generate_docx` means to build. */
  datatype DocxBlock = Heading(text: string, level: int) | DocParagraph(text: string)

  const DocxTitle: string := "GitHub Portfolio Suggestions"

  /** One paragraph per raw line, neither stripped nor cleaned of `"**"`. */
  function DocxParagraphs(lines: seq<string>): seq<DocxBlock> {
    if lines == [] then []
    else DocxParagraphs(lines[..|lines| - 1]) + [DocParagraph(lines[|lines| - 1])]
  }

  /** The document: a level-1 heading, then the paragraphs. */
  function DocxBlocks(text: string): seq<DocxBlock> {
    [Heading(DocxTitle, 1)] + DocxParagraphs(Split(text))
  }

  lemma {:induction false} DocxParagraphsText(lines: seq<string>)
    ensures |DocxParagraphs(lines)| == |lines|
    ensures forall i :: 0 <= i < |lines| ==> DocxParagraphs(lines)[i] == DocParagraph(lines[i])
  {
    if lines != [] {
      DocxParagraphsText(lines[..|lines| - 1]);
    }
  }

  /** The paragraph texts, in order. */
  function ParagraphTexts(blocks: seq<DocxBlock>): seq<string> {
    if blocks == [] then []
    else ParagraphTexts(blocks[..|blocks| - 1]) + [blocks[|blocks| - 1].text]
  }

  /** The document keeps the text verbatim: after the heading there is one
      paragraph per line, and the paragraphs joined with newlines are the
      text again. */
  lemma DocxKeepsText(text: string)
    ensures var blocks := DocxBlocks(text);
      |blocks| == CountChar(text, '\n') + 2
      && blocks[0] == Heading(DocxTitle, 1)
      && Join(ParagraphTexts(blocks[1..]), "\n") == text
  {
    var lines := Split(text);
    var blocks := DocxBlocks(text);
    DocxParagraphsText(lines);
    assert blocks[1..] == DocxParagraphs(lines);
    ParagraphTextsOf(lines);
    JoinSplit(text);
  }

  lemma {:induction false} ParagraphTextsOf(lines: seq<string>)
    ensures ParagraphTexts(DocxParagraphs(lines)) == lines
  {
    if lines != [] {
      var init := lines[..|lines| - 1];
      ParagraphTextsOf(init);
      var ps := DocxParagraphs(lines);
      assert ps[..|ps| - 1] == DocxParagraphs(init);
      assert init + [lines[|lines| - 1]] == lines;
    }
  }

  /** The names the module app.py binds through its imports; `Document`
      (python-docx) is not among them. */
  const AppGlobals: set<string> :=
    {"st", "openai", "requests", "os", "BytesIO", "SimpleDocTemplate", "Paragraph",
     "Spacer", "getSampleStyleSheet", "ParagraphStyle", "letter", "re"}

  /** `generate_docx` as written: its first statement calls `Document()`,
      which Python looks up in the module's names when the function runs. */
  function GenerateDocxAsWritten(globals: set<string>, text: string): Result<seq<DocxBlock>> {
    if "Document" !in globals then Err(NameError("Document"))
    else Ok(DocxBlocks(text))
  }

  /** As the app's imports stand, every Word download fails, whatever the
      text; with `Document` imported it would produce the intended document. */
  lemma DocxAsWrittenFails(text: string)
    ensures GenerateDocxAsWritten(AppGlobals, text) == Err(NameError("Document"))
    ensures GenerateDocxAsWritten(AppGlobals + {"Document"}, text) == Ok(DocxBlocks(text))
  {
    assert "Document" !in AppGlobals;
  }

  /** `generate_docx` with `Document` imported: the heading, then one
      paragraph appended per line. */
  method GenerateDocx(text: string) returns (blocks: seq<DocxBlock>)
    ensures blocks == DocxBlocks(text)
  {
    blocks := [Heading(DocxTitle, 1)];
    var lines := Split(text);
    for i := 0 to |lines|
      invariant blocks == [Heading(DocxTitle, 1)] + DocxParagraphs(lines[..i])
    {
      assert lines[..i + 1][..i] == lines[..i];
      blocks := blocks + [DocParagraph(lines[i])];
    }
    assert lines[..|lines|] == lines;
  }

  /** The data handed to the download button. The PDF bytes are reportlab's
      rendering of the flowables, so the flowables stand for them. */
  datatype Payload = Bytes(bytes: seq<byte>) | WordDocument(blocks: seq<DocxBlock>)
                   | PdfDocument(flowables: seq<Flowable>)

  datatype Download = Download(data: Payload, mime: string, fileName: string)

  /** The payload of each format. The Word payload is the document of the
      corrected `generate_docx`; as written that call fails (see
      `GenerateDocxAsWritten`). */
  function PayloadOf(f: Format, text: string): Payload {
    match f
    case Markdown => Bytes(ExportText(text))
    case PlainText => Bytes(ExportText(text))
    case Word => WordDocument(DocxBlocks(text))
    case Pdf => PdfDocument(Layout(text))
  }

  /** What the download button receives for the selected choice. */
  function PrepareDownload(choice: string, username: string, text: string): Option<Download> {
    match FormatOf(choice)
    case None => None
    case Some(f) => Some(Download(PayloadOf(f, text), MimeType(f), FileName(username, f)))
  }

  /** The text, Markdown and Word payloads give back the text they were made
      from: the text and Markdown bytes decode to it, the Word paragraphs join
      to it, and only the text and Markdown formats carry raw bytes. The PDF
      payload is the stripped, classified layout and gives back no text. */
  lemma PayloadKeepsText(f: Format, text: string)
    ensures var p := PayloadOf(f, text);
      (p.Bytes? <==> (f == Markdown || f == PlainText))
      && (p.Bytes? ==> Decode(p.bytes) == Some(text))
      && (p.WordDocument? ==> Join(ParagraphTexts(p.blocks[1..]), "\n") == text)
  {
    DocxKeepsText(text);
  }

  /** Each listed label yields a download of its own format, with that
      format's MIME type and a file name whose extension reads back as that
      format. */
  lemma PrepareDownloadSpec(f: Format, username: string, text: string)
    ensures var d := PrepareDownload(Label(f), username, text);
      d.Some? && d.value.data == PayloadOf(f, text) && d.value.mime == MimeType(f)
      && d.value.fileName == FileName(username, f)
      && FormatOfExtension(AfterLastDot(d.value.fileName)) == Some(f)
  {
    FormatOfLabel(Label(f), f);
    FileNameFormat(username, f);
  }

  /** A label that is not one of the four yields no download. */
  lemma PrepareDownloadRejects(choice: string, username: string, text: string)
    ensures PrepareDownload(choice, username, text).Some? <==> choice in Labels
  {
    if FormatOf(choice).Some? {
      FormatOfLabel(choice, FormatOf(choice).value);
    }
  }

  /** The Markdown and text downloads carry the same bytes. */
  lemma MarkdownEqualsText(username: string, text: string)
    ensures PrepareDownload(Label(Markdown), username, text).value.data
         == PrepareDownload(Label(PlainText), username, text).value.data
  {
  }

  const ButtonPrefix: string := "\U{1F4BE} Download Suggestions as "

  /** `choice.split()[0]`: the first whitespace-separated word. For a blank
      choice this gives `""` where Python raises `IndexError`; none of the
      four labels is blank, so that case never arises. */
  function FirstWord(s: string): (r: string)
    ensures forall i :: 0 <= i < |r| ==> !IsSpace(r[i])
  {
    TakeWord(LStrip(s))
  }

  function TakeWord(s: string): (r: string)
    ensures |r| <= |s| && r == s[..|r|]
    ensures forall i :: 0 <= i < |r| ==> !IsSpace(r[i])
    ensures |r| < |s| ==> IsSpace(s[|r|])
  {
    if s == [] || IsSpace(s[0]) then [] else [s[0]] + TakeWord(s[1..])
  }

  /** The caption of the download button. */
  function ButtonCaption(choice: string): string {
    ButtonPrefix + FirstWord(choice)
  }

  /** The caption names the format by the first word of its label. */
  lemma ButtonCaptionMarkdown()
    ensures ButtonCaption(Label(Markdown)) == ButtonPrefix + "Markdown"
  {
    assert Label(Markdown) == "Markdown" + " " + "(.md)";
    WordBeforeSpace("Markdown", "(.md)");
  }

  lemma ButtonCaptionText()
    ensures ButtonCaption(Label(PlainText)) == ButtonPrefix + "Text"
  {
    assert Label(PlainText) == "Text" + " " + "(.txt)";
    WordBeforeSpace("Text", "(.txt)");
  }

  lemma ButtonCaptionWord()
    ensures ButtonCaption(Label(Word)) == ButtonPrefix + "Word"
  {
    assert Label(Word) == "Word" + " " + "(.docx)";
    WordBeforeSpace("Word", "(.docx)");
  }

  lemma ButtonCaptionPdf()
    ensures ButtonCaption(Label(Pdf)) == ButtonPrefix + "PDF"
  {
    assert Label(Pdf) == "PDF" + " " + "(.pdf)";
    WordBeforeSpace("PDF", "(.pdf)");
  }

  /** A choice of the form `w + " " + rest`, `w` a non-empty word, has `w` as
      its first word. */
  lemma {:induction false} WordBeforeSpace(w: string, rest: string)
    requires w != [] && forall i :: 0 <= i < |w| ==> !IsSpace(w[i])
    ensures FirstWord(w + " " + rest) == w
  {
    var s := w + " " + rest;
    assert LStrip(s) == s;
    TakeWordPrefix(w, " " + rest);
    assert s == w + (" " + rest);
  }

  lemma {:induction false} TakeWordPrefix(w: string, t: string)
    requires forall i :: 0 <= i < |w| ==> !IsSpace(w[i])
    requires t != [] && IsSpace(t[0])
    ensures TakeWord(w + t) == w
  {
    if w == [] {
      assert w + t == t;
    } else {
      assert (w + t)[1..] == w[1..] + t;
      assert (w + t)[0] == w[0];
      TakeWordPrefix(w[1..], t);
      assert [w[0]] + w[1..] == w;
    }
  }
}
