/** The prompt sent to the language model (app.py, `get_portfolio_suggestions`):
    a fixed introduction, one `"name: description"` line per repository and a
    fixed request. analyze_github_profile.py builds the same prompt with
    other wording, so both are one builder given two fixed texts. */
module Prompt {
  import opened Wrappers
  import opened Text

  /** The two fields of a repository record the prompt reads. GitHub gives
      `null` for a missing description. */
  datatype Repository = Repository(name: string, description: Option<string>)

  const NoDescription: string := "No description"

  /** `repo['description'] or 'No description'`: both `None` and the empty
      string are falsy. */
  function DescriptionText(description: Option<string>): (r: string)
    ensures r != []
    ensures description.Some? && description.value != [] ==> r == description.value
    ensures description == None || description == Some([]) ==> r == NoDescription
  {
    match description
    case None => NoDescription
    case Some(d) => if d == [] then NoDescription else d
  }

  /** One entry of the list comprehension. */
  function Describe(repo: Repository): (r: string)
    ensures StartsWith(r, repo.name + ": ")
  {
    var r := repo.name + ": " + DescriptionText(repo.description);
    assert r[..|repo.name + ": "|] == repo.name + ": ";
    r
  }

  /** The comprehension over the repositories, in their order. */
  function Entries(repos: seq<Repository>): seq<string> {
    if repos == [] then [] else [Describe(repos[0])] + Entries(repos[1..])
  }

  /** One entry per repository, in input order. */
  lemma {:induction false} EntriesSpec(repos: seq<Repository>)
    ensures |Entries(repos)| == |repos|
    ensures forall i :: 0 <= i < |repos| ==> Entries(repos)[i] == Describe(repos[i])
  {
    if repos != [] {
      EntriesSpec(repos[1..]);
    }
  }

  /** The introduction, a blank line, the entries, a blank line, the request. */
  function BuildPrompt(intro: string, request: string, repos: seq<Repository>): string {
    intro + "\n\n" + Join(Entries(repos), "\n") + "\n\n" + request
  }

  const AppIntro: string :=
    "You are an expert GitHub portfolio reviewer. "
    + "Here is a list of public repositories and their descriptions:"
  const AppRequest: string :=
    "Suggest specific, actionable ways to improve the GitHub portfolio for recruiters."

  const ScriptIntro: string :=
    "You are an expert GitHub portfolio reviewer. "
    + "Here is a list of my public repositories and their descriptions:"
  const ScriptRequest: string :=
    "Suggest specific, actionable ways I can improve my GitHub portfolio for recruiters."

  /** The prompt of the app. */
  function AppPrompt(repos: seq<Repository>): string {
    BuildPrompt(AppIntro, AppRequest, repos)
  }

  /** The prompt of the command-line script. */
  function ScriptPrompt(repos: seq<Repository>): string {
    BuildPrompt(ScriptIntro, ScriptRequest, repos)
  }

  /** A record is single-line when neither field holds a newline. */
  predicate SingleLine(repo: Repository) {
    '\n' !in repo.name && (repo.description.Some? ==> '\n' !in repo.description.value)
  }

  lemma DescribeSingleLine(repo: Repository)
    requires SingleLine(repo)
    ensures '\n' !in Describe(repo)
  {
    var d := DescriptionText(repo.description);
    assert '\n' !in d;
    assert '\n' !in ": ";
  }

  /** Read line by line, a prompt over single-line records is the lines of
      the introduction, a blank line, one line per repository in input
      order, a blank line and the lines of the request. */
  lemma PromptLines(intro: string, request: string, repos: seq<Repository>)
    requires |repos| > 0
    requires forall i :: 0 <= i < |repos| ==> SingleLine(repos[i])
    ensures Split(BuildPrompt(intro, request, repos))
            == Split(intro) + [""] + Entries(repos) + [""] + Split(request)
  {
    var es := Entries(repos);
    EntriesSingleLine(repos);
    var body := Join(es, "\n");
    var tail := "\n" + request;
    var mid := body + "\n" + tail;
    var p := BuildPrompt(intro, request, repos);
    assert p == intro + "\n" + ("\n" + mid);
    SplitJoin(es);
    BlankThen(request);
    SplitConcat(body, tail);
    BlankThen(mid);
    SplitConcat(intro, "\n" + mid);
    Assoc(Split(intro), [""], es, [""], Split(request));
  }

  /** Entries of single-line records are single lines. */
  lemma EntriesSingleLine(repos: seq<Repository>)
    requires forall i :: 0 <= i < |repos| ==> SingleLine(repos[i])
    ensures |Entries(repos)| == |repos|
    ensures forall k :: 0 <= k < |Entries(repos)| ==> '\n' !in Entries(repos)[k]
  {
    EntriesSpec(repos);
    forall k | 0 <= k < |repos| ensures '\n' !in Entries(repos)[k] {
      DescribeSingleLine(repos[k]);
    }
  }

  /** A leading newline puts a blank line first. */
  lemma BlankThen(t: string)
    ensures Split("\n" + t) == [""] + Split(t)
  {
    assert ("\n" + t)[0] == '\n' && ("\n" + t)[1..] == t;
  }

  lemma Assoc<T>(a: seq<T>, b: seq<T>, c: seq<T>, d: seq<T>, e: seq<T>)
    ensures a + (b + (c + (d + e))) == a + b + c + d + e
  {
  }

  /** When the introduction and the request are single lines, the prompt
      reads: introduction, blank, the entries, blank, request. */
  lemma PromptLinesSingle(intro: string, request: string, repos: seq<Repository>)
    requires '\n' !in intro && '\n' !in request
    requires |repos| > 0
    requires forall i :: 0 <= i < |repos| ==> SingleLine(repos[i])
    ensures Split(BuildPrompt(intro, request, repos)) == [intro, ""] + Entries(repos) + ["", request]
  {
    PromptLines(intro, request, repos);
    SplitNoNewline(intro);
    SplitNoNewline(request);
    Frame(Split(intro), Split(request), intro, request, Entries(repos));
  }

  lemma Frame(a: seq<string>, b: seq<string>, x: string, y: string, es: seq<string>)
    requires a == [x] && b == [y]
    ensures a + [""] + es + [""] + b == [x, ""] + es + ["", y]
  {
  }

  /** With no repositories the entries vanish: the introduction and the
      request are separated by three blank lines. */
  lemma PromptWithoutRepositories(intro: string, request: string)
    ensures Split(BuildPrompt(intro, request, [])) == Split(intro) + ["", "", ""] + Split(request)
  {
    var p := BuildPrompt(intro, request, []);
    var t1 := "\n" + request;
    var t2 := "\n" + t1;
    assert p == intro + "\n" + ("\n" + t2);
    BlankThen(request);
    BlankThen(t1);
    BlankThen(t2);
    SplitConcat(intro, "\n" + t2);
  }

  /** The app's prompt: its introduction, a blank line, the repository
      lines, a blank line and its request. */
  lemma AppPromptLines(repos: seq<Repository>)
    requires |repos| > 0
    requires forall i :: 0 <= i < |repos| ==> SingleLine(repos[i])
    ensures Split(AppPrompt(repos)) == Split(AppIntro) + [""] + Entries(repos) + [""] + Split(AppRequest)
  {
    PromptLines(AppIntro, AppRequest, repos);
  }

  /** The script's prompt has the same repository lines in the same place
      relative to its own introduction and request. */
  lemma ScriptPromptLines(repos: seq<Repository>)
    requires |repos| > 0
    requires forall i :: 0 <= i < |repos| ==> SingleLine(repos[i])
    ensures Split(ScriptPrompt(repos)) == Split(ScriptIntro) + [""] + Entries(repos) + [""] + Split(ScriptRequest)
  {
    PromptLines(ScriptIntro, ScriptRequest, repos);
  }
}
