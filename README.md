# GitHub portfolio reviewer: export and checklist model

This project is a Dafny model of the parts of the GitHub portfolio reviewer
that format text. The model covers six pieces:

- **Prompt.** The app and the command-line script each build a prompt. The
  prompt is a fixed introduction, one `name: description` line per
  repository, and a fixed request (module `Prompt`).
- **PDF layout.** `generate_pdf` splits the suggestion text into lines. It
  strips each line, deletes every `**`, and sorts the line into one of six
  kinds: title, section, ordered item, bullet, blank or body. Each non-blank
  kind adds a paragraph and then a spacer; a blank line adds only a spacer
  of 10 (module `PdfLayout`). The method `GeneratePdf`
  keeps the source's loop and its `if`/`elif` chain. It is proved equal to
  the function `Layout`.
- **Text and Markdown downloads.** These downloads are the UTF-8 bytes of the
  text (module `Utf8`, and `ExportText` in `Exports`).
- **Download step.** This covers the four labels of the select box, their
  MIME types and extensions, the offered file name and the button caption.
  It also covers the Word document, which as written fails (see Findings),
  and the payload of each format (module `Exports`).
- **Checklist files.** `generate_suggestions_files.py` writes one Markdown
  checklist file per repository into `suggestions/`. The writer is a buffer
  that the source's `write` calls append to (`WriteSuggestionFile`). A loop
  over the mapping (`GenerateAll`) produces a map from path to contents
  (module `Checklist`). `ChecklistLayout` proves how such a file comes out
  when the app's PDF layout reads it.
- **Python string operations.** The model uses Python's `str.strip`,
  `split("\n")`, `"\n".join` and `replace(pat, "")`. Each is written out
  with its Python meaning (module `Text`).

Two behaviours of the code are worth stating plainly:

- **Title and section prefixes.** `line.replace("# ", "")` and
  `line.replace("## ", "")` (app.py:107, 111) delete every `"# "` or
  `"## "` in the line, not only the prefix. `TitleLine`,
  `TitleRemovesEveryMarker`, `SectionLine` and `SectionRemovesEveryMarker`
  state this.
- **Emphasis markers in the Markdown download.** `generate_markdown`
  (app.py:146-147) encodes the raw text, so `**` stays in the Markdown
  download. `MarkdownEqualsText` states that the Markdown and text downloads
  carry the same bytes.

## Model

| member | source | states |
|---|---|---|
| Text.Strip | app.py:103 | `str.strip()`: whitespace is cut from both ends; its contract is stated by `Text.StripSpec` |
| Text.Split | app.py:102 | `split("\n")`: one piece more than there are newlines; the pieces are stated by `Text.SplitPieces`, `Text.JoinSplit` and `Text.SplitConcat` |
| Text.Join | app.py:47 | `"\n".join`: inverse of `Split`, as `Text.JoinSplit` and `Text.SplitJoin` state |
| Text.RemoveAll | app.py:104-111 | `replace(pat, "")` scanning left to right without overlaps; stated by the `Text.RemoveAll…` and `Text.RemoveDoubleStar…` lemmas, and by `PdfLayout.OddRunKeepsOneStar` (`"***"` becomes `"*"`) |
| Text.StripSpec | app.py:103 | `strip()` removes only whitespace from either end. Its result is trimmed, and it is empty exactly when the line is all whitespace |
| Text.SplitConcat | app.py:102 | splitting at a newline splits the two sides independently |
| Text.SplitNoNewline | app.py:102 | a string without a newline splits into itself alone |
| Text.SplitSnoc | app.py:102 | a trailing newline adds one empty last piece |
| Text.SplitPieces | app.py:102 | no piece of a split contains a newline |
| Text.JoinSplit | app.py:102 | joining the pieces with newlines gives back the text |
| Text.SplitJoin | app.py:47 | splitting newline-free entries joined with newlines gives back the entries |
| Text.RemoveAllAbsent | app.py:104 | `replace` leaves a string unchanged when the pattern's first character does not occur |
| Text.RemoveAllLeading | app.py:107 | a leading occurrence of the pattern is deleted |
| Text.RemoveAllSkip | app.py:104 | a prefix without the pattern's first character passes through `replace` untouched |
| Text.RemoveDoubleStarLeavesNone | app.py:104 | after deleting every `**` no `**` remains, and a first character that is not `*` is kept |
| Text.RemoveDoubleStarKeepsOthers | app.py:104 | deleting `**` keeps every character other than `*`, in order |
| Text.RemoveDoubleStarFixed | app.py:104 | text without `**` is left unchanged |
| Text.RemoveDoubleStarIdempotent | app.py:104 | deleting `**` twice is the same as deleting it once |
| PdfLayout.Normalize | app.py:103-104 | strip, then delete every `**`; stated by `PdfLayout.NormalizeClean`, `PdfLayout.MarkersVanish` and `PdfLayout.MarkerThenSpaceIsBody` |
| PdfLayout.IsOrderedItem | app.py:114 | the greedy `^\d+\.` test; equal to the backtracking regex by `PdfLayout.OrderedItemIsRegexMatch` |
| PdfLayout.Classify | app.py:106-127 | the first-match chain; its kind is the unique guard that holds, by `PdfLayout.ClassifyIsUnique` |
| PdfLayout.LineBlocks | app.py:106-127 | the flowables of one kind; stated per kind by `PdfLayout.TitleLine`, `PdfLayout.SectionLine`, `PdfLayout.OrderedLine`, `PdfLayout.BulletLine`, `PdfLayout.BodyLine` and `PdfLayout.LayoutEmpty` |
| PdfLayout.Layout | app.py:102-127 | the flowables of the whole text; `PdfLayout.GeneratePdf` is proved equal to it, and its size and order are stated by `PdfLayout.LayoutLinesSize` and `PdfLayout.LayoutLinesConcat` |
| PdfLayout.SectionLine | app.py:110-112 | a `"## "` line is a bold paragraph with every `"## "` removed, then a spacer of 8 |
| PdfLayout.SectionRemovesEveryMarker | app.py:110-112 | a second `"## "` inside a section heading is removed too |
| PdfLayout.GeneratePdf | app.py:100-127 | the loop over the lines, with its `if`/`elif` chain, produces exactly `Layout(text)` |
| PdfLayout.LeadingDigits | app.py:114 | the greedy run of leading ASCII digits: all digits, followed by a non-digit or the end |
| PdfLayout.OrderedItemIsRegexMatch | app.py:114 | the greedy test agrees with backtracking `^\d+\.` in both directions |
| PdfLayout.ClassifyIsUnique | app.py:106-127 | a line gets kind k exactly when it satisfies k's guard; the guards never overlap |
| PdfLayout.LineBlocksShape | app.py:106-127 | each line adds exactly one spacer; a blank line adds one flowable, any other line a paragraph followed by its spacer |
| PdfLayout.LayoutLinesSize | app.py:102-127 | the layout has one spacer per line, and two flowables per non-blank line plus one per blank line |
| PdfLayout.LayoutSpacersCountLines | app.py:102-127 | the number of spacers is one more than the number of newlines in the text |
| PdfLayout.LayoutLinesConcat | app.py:102-127 | the layout of consecutive lines is the concatenation of their layouts |
| PdfLayout.FlatMapConcat | app.py:102-127 | appending one line's flowables at a time distributes over concatenation of the lines |
| PdfLayout.LayoutEmpty | app.py:102-123 | empty text is one blank line: a single spacer of height 10 |
| PdfLayout.LayoutTrailingNewline | app.py:102-123 | a trailing newline adds exactly one trailing spacer of height 10 |
| PdfLayout.PlainLinesAreBody | app.py:125-127 | lines that all classify as body text give, in order, one body paragraph per line with its normalised text, each followed by a spacer of 6 |
| PdfLayout.PlainIsBody | app.py:125-127 | any line that classifies as body text is a body paragraph and a spacer of 6 |
| PdfLayout.LayoutOneLine | app.py:102-104 | text without a newline is laid out as its one normalised line |
| PdfLayout.NormalizeClean | app.py:103-104 | a trimmed line without asterisks is not changed by normalisation |
| PdfLayout.TitleLine | app.py:106-108 | a `"# "` line is a bold paragraph with every `"# "` removed, then a spacer of 10 |
| PdfLayout.BulletLine | app.py:118-120 | a `"- "` line is a bullet paragraph `"• "` plus the rest, then a spacer of 4 |
| PdfLayout.OrderedLine | app.py:114-116 | digits then a dot give a bold paragraph with the line kept whole, then a spacer of 8 |
| PdfLayout.BodyLine | app.py:125-127 | a non-empty line starting with none of `#`, `-` or a digit is a body paragraph, then a spacer of 6 |
| PdfLayout.BoldTitle | app.py:103-108 | `**# t**` loses its markers and becomes the title `t` |
| PdfLayout.OnlyMarkersIsBlank | app.py:103-123 | a line of only `**` markers (and whitespace around them) is a blank line |
| PdfLayout.MarkersVanish | app.py:104 | any run of `**` markers is deleted entirely |
| PdfLayout.OddRunKeepsOneStar | app.py:104 | an odd run of stars keeps exactly its last star (`"***"` becomes `"*"`), because occurrences are deleted left to right without overlapping |
| PdfLayout.MarkerThenSpaceIsBody | app.py:103-127 | deleting `**` can uncover a leading space, which stays, and the line is body text |
| PdfLayout.TitleRemovesEveryMarker | app.py:106-108 | a second `"# "` inside a title is removed too |
| Utf8.Encode | app.py:143-147 | `s.encode("utf-8")`, the whole of `generate_txt` and `generate_markdown`; stated by `Utf8.DecodeEncode`, `Utf8.EncodeInjective`, `Utf8.EncodeAppend` and `Utf8.EncodeLength` |
| Utf8.EncodeChar | app.py:144 | one character takes 1 to 4 bytes, depending on its code point, and every byte after the first is a continuation byte |
| Utf8.DecodeChar | app.py:144 | a decoded character used between one and four bytes, as many as its encoding takes |
| Utf8.DecodeEncodeChar | app.py:144 | decoding one encoded character, whatever follows, gives it back with its byte count |
| Utf8.DecodeEncode | app.py:143-147 | the bytes of any text decode back to that text |
| Utf8.EncodeInjective | app.py:143-147 | different texts never give the same bytes |
| Utf8.EncodeAppend | app.py:144 | encoding distributes over concatenation |
| Utf8.EncodeLength | app.py:144 | the bytes number between one and four times the characters |
| Utf8.EncodeAscii | app.py:144 | ASCII text encodes byte for byte |
| Exports.ExportText | app.py:143-147 | the download bytes decode back to the text, and number between one and four per character |
| Exports.MarkdownEqualsText | app.py:143-147 | the Markdown and text downloads carry the same bytes |
| Exports.FormatOf | app.py:184-202 | the `if`/`elif` chain on the choice; stated by `Exports.FormatOfLabel` and `Exports.PrepareDownloadRejects` |
| Exports.MimeType | app.py:184-202 | the MIME type of each format; distinct per format by `Exports.TableInjective` |
| Exports.Extension | app.py:184-202 | the extension of each format; read back by `Exports.ExtensionRoundTrip` |
| Exports.FileName | app.py:207 | `{username or 'my'}_portfolio_suggestions.{ext}`; stated by `Exports.FileNameFormat` and `Exports.FileNameInjective` |
| Exports.ButtonCaption | app.py:205 | the button label built from the first word of the choice; stated by the `Exports.ButtonCaption…` lemmas |
| Exports.DocxBlocks | app.py:133-137 | the intended Word document; stated by `Exports.DocxKeepsText` |
| Exports.GenerateDocxAsWritten | app.py:133-134 | `generate_docx` as written; stated by `Exports.DocxAsWrittenFails` |
| Exports.PayloadOf | app.py:184-202 | the data each format hands to the button; stated by `Exports.PayloadKeepsText` |
| Exports.PrepareDownload | app.py:184-209 | the data, MIME type and file name for a choice; stated by `Exports.PrepareDownloadSpec` and `Exports.PrepareDownloadRejects` |
| Exports.Labels | app.py:177-182 | the four choices of the select box, in order; stated by `Exports.LabelsListed` and `Exports.FormatOfLabel` |
| Exports.Label | app.py:177-182 | the choice that selects each format; stated by `Exports.LabelsListed` and `Exports.FormatOfLabel` |
| Exports.FormatOfLabel | app.py:184-202 | a choice selects format f exactly when it is f's label |
| Exports.LabelsListed | app.py:177-182 | every label is one of the select box's choices, and no two formats share one |
| Exports.TableInjective | app.py:184-202 | distinct formats have distinct MIME types and distinct extensions |
| Exports.MimeTypeRoundTrip | app.py:184-202 | each MIME type reads back as its own format |
| Exports.ExtensionRoundTrip | app.py:184-202 | each extension reads back as its own format and contains no dot |
| Exports.Owner | app.py:207 | `github_username or 'my'`: an empty user name becomes exactly `"my"`, a non-empty one is kept as it is |
| Exports.AfterLastDot | app.py:207 | the text after the last dot is a dot-free suffix |
| Exports.AfterLastDotAppend | app.py:207 | the text after the last dot of `a + "." + e`, with `e` dot-free, is `e` |
| Exports.FileNameFormat | app.py:207 | the file name's extension gives back the chosen format, and the name starts with the user name, or with `my` when that is empty |
| Exports.FileNameInjective | app.py:207 | equal file names mean the same owner and the same format |
| Exports.DotSplitInjective | app.py:207 | a name cut at its last dot determines both parts |
| Exports.DocxParagraphsText | app.py:136-137 | one paragraph per raw line, holding that line unchanged |
| Exports.ParagraphTextsOf | app.py:136-137 | the paragraph texts are the lines, in order |
| Exports.DocxKeepsText | app.py:133-137 | the document is the heading, then one paragraph per line; the paragraphs joined with newlines give back the text |
| Exports.DocxAsWrittenFails | app.py:133-134 | with the app's imports, every Word download fails with a `NameError` on `Document`; with `Document` imported it yields the intended document |
| Exports.GenerateDocx | app.py:133-141 | the corrected loop builds exactly the heading and one paragraph per line |
| Exports.PayloadKeepsText | app.py:184-202 | only the text and Markdown formats carry raw bytes; those bytes decode to the text, and the Word paragraphs join back to it |
| Exports.PrepareDownloadSpec | app.py:184-209 | each label yields its format's payload, its MIME type, the file name `FileName(username, f)`, and that name's extension reads back as the format |
| Exports.PrepareDownloadRejects | app.py:184-202 | a download is produced exactly when the choice is one of the four labels |
| Exports.FirstWord | app.py:205 | the first word of the choice contains no whitespace |
| Exports.TakeWord | app.py:205 | the word is a prefix, free of whitespace, ending at the first whitespace character or at the end |
| Exports.WordBeforeSpace | app.py:205 | the first word of `w + " " + rest` is `w` |
| Exports.TakeWordPrefix | app.py:205 | the word of `w + t`, where `t` starts with whitespace, is `w` |
| Exports.ButtonCaptionMarkdown | app.py:205 | the Markdown button reads "Download Suggestions as Markdown" |
| Exports.ButtonCaptionText | app.py:205 | the text button reads "Download Suggestions as Text" |
| Exports.ButtonCaptionWord | app.py:205 | the Word button reads "Download Suggestions as Word" |
| Exports.ButtonCaptionPdf | app.py:205 | the PDF button reads "Download Suggestions as PDF" |
| Prompt.Entries | app.py:39-42 | the list comprehension; stated by `Prompt.EntriesSpec` |
| Prompt.BuildPrompt | app.py:44-49 | introduction, blank line, entries joined by newlines, blank line, request; stated by `Prompt.PromptLines` |
| Prompt.AppPrompt | app.py:44-49 | the app's prompt; stated by `Prompt.AppPromptLines` |
| Prompt.ScriptPrompt | analyze_github_profile.py:25-30 | the script's prompt; stated by `Prompt.ScriptPromptLines` |
| Prompt.DescriptionText | app.py:40 | a missing or empty description becomes "No description"; any other is kept |
| Prompt.Describe | app.py:40 | each entry starts with the repository name and `": "` |
| Prompt.EntriesSpec | app.py:39-42 | one entry per repository, in input order |
| Prompt.DescribeSingleLine | app.py:40 | a record without newlines gives a one-line entry |
| Prompt.EntriesSingleLine | app.py:39-42 | records without newlines give one-line entries, one per repository |
| Prompt.PromptLines | app.py:44-49 | read line by line, the prompt is the introduction, a blank line, the entries in order, a blank line and the request |
| Prompt.PromptLinesSingle | app.py:44-49 | with a one-line introduction and request, the prompt's lines are exactly those, around the entries |
| Prompt.PromptWithoutRepositories | app.py:44-49 | with no repositories, three blank lines separate the introduction from the request |
| Prompt.AppPromptLines | app.py:44-49 | the app's prompt has the repository lines between its introduction and its request |
| Prompt.ScriptPromptLines | analyze_github_profile.py:25-30 | the script's prompt has the repository lines between its own introduction and request |
| Checklist.Heading | generate_suggestions_files.py:70 | the heading write `# {repo} – Suggestions` and a blank line; its lines are stated by `Checklist.ContentLines` |
| Checklist.Item | generate_suggestions_files.py:72 | one item write `- [ ] {s}` and its newline; stated by `Checklist.ItemLinesSpec` and `Checklist.ItemsSnoc` |
| Checklist.Items | generate_suggestions_files.py:71-72 | the writes of the loop over the suggestions; stated by `Checklist.ItemsSnoc`, `Checklist.ItemsLines` and `Checklist.ContentLines` |
| Checklist.WriteSuggestionFile | generate_suggestions_files.py:69-72 | the successive writes leave the heading, a blank line and one `- [ ] s` line per suggestion |
| Checklist.ItemsSnoc | generate_suggestions_files.py:71-72 | writing one more suggestion appends its line |
| Checklist.ItemLinesSpec | generate_suggestions_files.py:71-72 | one checklist line per suggestion: `- [ ] ` followed by the suggestion |
| Checklist.ItemsLines | generate_suggestions_files.py:71-72 | read back line by line, the suggestion lines are the checklist lines, then an empty piece |
| Checklist.ContentLines | generate_suggestions_files.py:70-72 | a file reads as the heading line, a blank line, the checklist lines in order, and an empty last piece |
| Checklist.Content | generate_suggestions_files.py:70-72 | what the writes leave in a file; stated by `Checklist.ContentLines`, `Checklist.ContentShape` and `Checklist.ContentEndsWithNewline` |
| Checklist.ContentEndsWithNewline | generate_suggestions_files.py:70-72 | every file ends with a newline, whatever the name and the suggestions |
| Checklist.PathJoin | generate_suggestions_files.py:68 | POSIX `os.path.join`; stated by `Checklist.RelativeJoin` |
| Checklist.PathFor | generate_suggestions_files.py:4-68 | the file of one repository; stated by `Checklist.PathForSpec` |
| Checklist.Files | generate_suggestions_files.py:67-72 | the files left behind, later writes overwriting; stated by `Checklist.FilesSpec` and `Checklist.PathsOfFiles` |
| Checklist.ContentShape | generate_suggestions_files.py:70-72 | for newline-free names and suggestions, a file ends with a newline and has two more newlines than suggestions |
| Checklist.LastPieceEmpty | generate_suggestions_files.py:72 | an empty last piece of the split means the text ends with a newline |
| Checklist.PathForSpec | generate_suggestions_files.py:4-68 | a relative repository name gives `suggestions/<repo>.md`, and different names give different paths |
| Checklist.RelativeJoin | generate_suggestions_files.py:68 | joining the folder with a relative name puts one `/` between them |
| Checklist.GenerateAll | generate_suggestions_files.py:67-72 | the loop over the mapping leaves exactly `Files(entries)` |
| Checklist.FilesSpec | generate_suggestions_files.py:67-72 | with distinct relative names, there are as many files as entries, and each entry's path holds its checklist |
| Checklist.PathsOfFiles | generate_suggestions_files.py:67-68 | every file written belongs to some entry |
| Checklist.RepoSuggestions | generate_suggestions_files.py:8-64 | the script's mapping from repository to suggestions, in source order; its names are stated by `Checklist.RepoNamesDistinctRelative` and its files by `Checklist.RepoSuggestionsFiles` |
| Checklist.RepoNamesDistinctRelative | generate_suggestions_files.py:8-64 | the script's eleven repository names are distinct, and none is an absolute path |
| Checklist.RepoSuggestionsFiles | generate_suggestions_files.py:8-72 | the script leaves exactly eleven files behind |
| Checklist.ItemLayout | generate_suggestions_files.py:72 | a clean suggestion's line becomes the bullet `"• [ ] " + s` and a spacer of 4 in the app's PDF layout |
| Checklist.ItemsLayout | generate_suggestions_files.py:71-72 | the checklist lines become one bullet per suggestion, in order |
| Checklist.HeadingLayout | generate_suggestions_files.py:70 | the heading line becomes the title `"<repo> – Suggestions"` and a spacer of 10 |
| Checklist.BlankLayout | generate_suggestions_files.py:70 | the blank line becomes one spacer of 10 |
| Checklist.ContentLayout | generate_suggestions_files.py:70-72 | the layout of a file is the layouts of its lines, in order |
| Checklist.ChecklistLayout | generate_suggestions_files.py:70-72 | fed to the PDF export, a file gives its title, two spacers, one bullet per suggestion and a final spacer |

## Left out

- The Streamlit page, its widgets, the spinner and the session state (app.py:151-176, 213-214) are user interface. The model starts from the selected choice, the user name and the stored text.
- `load_openai_key` (app.py:8-13) and the credential constants of analyze_github_profile.py read local files.
- `get_github_repos` (app.py:17-32) and `get_repos` in analyze_github_profile.py call the GitHub API over the network. The model takes the repository records as input.
- The chat completion call (app.py:51-58, analyze_github_profile.py:31-38) goes to a remote model. Only the prompt it is given is modelled.
- reportlab's rendering of the flowables into PDF bytes (app.py:67-98, 129-131) is left out. reportlab's `Paragraph` also parses its text as markup and can raise on malformed markup; that error is not modelled. The styles' fonts, sizes and margins are reduced to the three style names. The PDF payload is the list of flowables.
- python-docx's serialisation of the document (app.py:138-141) is left out. The Word payload is the list of heading and paragraphs.
- The `BytesIO` wrappers and `getvalue()` (app.py:144, 147, 206) are left out. A payload is its bytes.
- Directory creation, opening files and printing in generate_suggestions_files.py (lines 5, 69, 73, 75) are left out. A file is a string buffer, and the folder is a map from path to contents. POSIX is assumed: `os.path.join` uses `/`, and writing in text mode does not translate newlines.
- PdfLayout.OrderedItemIsRegexMatch, PdfLayout.IsOrderedItem, PdfLayout.LeadingDigits: `\d` is read as ASCII `0`-`9`. Python's `re` on `str` also matches other Unicode decimal digits, so a line starting with, say, Arabic-Indic digits and a dot is not treated as an ordered item here.
- Exports.PrepareDownloadSpec, Exports.PayloadKeepsText, Exports.PayloadOf, Exports.PrepareDownload: the Word payload is the document of the corrected `generate_docx`. As written, choosing "Word (.docx)" raises `NameError` at app.py:134 and no download button appears (see Findings and `Exports.DocxAsWrittenFails`).
- Exports.ExportText: Dafny characters are Unicode scalar values, so a Python string holding a lone surrogate cannot be expressed. For such a string Python's `encode("utf-8")` raises an error, and that error path is not modelled.
- Prompt.AppPromptLines, Prompt.ScriptPromptLines: the model does not prove that the fixed introduction and request texts contain no newline. That would need character-level facts about long literals, so these lemmas state the prompt's lines in terms of `Split` of those texts.
- Checklist.ChecklistLayout: the layout is stated for repository names without newline, `*` or `#`, and for suggestions that are non-empty, single-line, free of `*` and do not end in whitespace. For the script's own suggestions this is not proved character by character.
- The mapping's suggestion texts are reproduced as data in `RepoSuggestions`. Only facts about the eleven repository names are proved.

## Findings

| source | as written | input that shows it | evidently intended | confidence | as-written member | corrected member |
|---|---|---|---|---|---|---|
| app.py:133-134 | `generate_docx` calls `Document()`, but app.py never imports python-docx's `Document` (its imports are on lines 1-4 and 60-64) | choosing "Word (.docx)" with any suggestion text | a Word document with the heading and one paragraph per line | not executed | Exports.DocxAsWrittenFails | Exports.GenerateDocx |
