/**
 * The analysis orchestrator (`ReportAnalyzer`): input validation, placeholder
 * substitution, the call to the model collaborator with an abort signal, the
 * choice between rendering, a cancellation notice and an error, and the
 * reset of the analysis state on every exit.
 */
module Analyzer {
  import opened Wrappers
  import opened Text
  import opened ResponseParser
  import opened Render
  import opened Form

  const Placeholder: string := "{{COMPANY_REPORT}}"

  /** The placeholder is a non-empty word with no surrounding whitespace. */
  lemma PlaceholderTrimmed()
    ensures Placeholder != [] && IsTrimmed(Placeholder)
  {
  }

  const PromptRequired: string := "Please enter an analysis prompt."
  const ReportRequired: string := "Please paste a company report to analyze."
  const PlaceholderRequired: string :=
    "The prompt must contain the placeholder {{COMPANY_REPORT}} where the report content will be inserted."
  const CancelledNotice: string := "Analysis was cancelled."
  const FailurePrefix: string := "Failed to analyze the report: "

  /**
   * The message `validateInputs` shows, or `None` when the inputs are valid.
   * The checks run in order: trimmed prompt non-empty, trimmed report
   * non-empty, prompt contains the placeholder; so the placeholder message is
   * given only when both fields are non-empty.
   */
  function ValidationError(prompt: string, report: string): (e: Option<string>)
    ensures e.None? <==> Trim(prompt) != "" && Trim(report) != "" && Contains(prompt, Placeholder)
    ensures e == Some(PromptRequired) <==> Trim(prompt) == ""
    ensures e == Some(ReportRequired) <==> Trim(prompt) != "" && Trim(report) == ""
    ensures e == Some(PlaceholderRequired) <==>
              Trim(prompt) != "" && Trim(report) != "" && !Contains(prompt, Placeholder)
  {
    PlaceholderTrimmed();
    TrimKeepsContains(prompt, Placeholder);
    var p, r := Trim(prompt), Trim(report);
    if p == "" then Some(PromptRequired)
    else if r == "" then Some(ReportRequired)
    else if !Contains(p, Placeholder) then Some(PlaceholderRequired)
    else None
  }

  /** The prompt sent to the model: the first placeholder of the trimmed prompt replaced by the trimmed report. */
  function FinalPrompt(prompt: string, report: string): string {
    ReplaceFirst(Trim(prompt), Placeholder, Trim(report))
  }

  /**
   * For valid inputs the expansion of the trimmed report stands where the
   * first placeholder was; the text before it holds no placeholder, and
   * everything after it, later placeholders included, is kept as it was.
   */
  lemma FinalPromptSubstitutes(prompt: string, report: string)
    requires ValidationError(prompt, report).None?
    ensures var p := Trim(prompt);
      exists k ::
      && OccursAt(p, Placeholder, k)
      && (forall j :: 0 <= j < k ==> !OccursAt(p, Placeholder, j))
      && FinalPrompt(prompt, report) ==
         p[..k] + Substitution(Trim(report), Placeholder, p[..k], p[k + |Placeholder|..]) + p[k + |Placeholder|..]
  {
    PlaceholderTrimmed();
    TrimKeepsContains(prompt, Placeholder);
    ReplaceFirstOccurrence(Trim(prompt), Placeholder, Trim(report));
  }

  /** A report without `$` is inserted literally. */
  lemma FinalPromptLiteral(prompt: string, report: string)
    requires ValidationError(prompt, report).None? && '$' !in report
    ensures var p := Trim(prompt);
      exists k ::
      && OccursAt(p, Placeholder, k)
      && (forall j :: 0 <= j < k ==> !OccursAt(p, Placeholder, j))
      && FinalPrompt(prompt, report) == p[..k] + Trim(report) + p[k + |Placeholder|..]
  {
    PlaceholderTrimmed();
    TrimKeepsContains(prompt, Placeholder);
    TrimKeepsCharAbsent(report, '$');
    ReplaceFirstLiteral(Trim(prompt), Placeholder, Trim(report));
  }

  /**
   * A report containing `$&` re-inserts the placeholder itself: `a $& b`
   * reaches the model as `a {{COMPANY_REPORT}} b`.
   */
  lemma DollarAmpersandEchoesPlaceholder(before: string, after: string)
    ensures Substitution("a $& b", Placeholder, before, after) == "a " + Placeholder + " b"
  {
    assert "a $& b" == "a " + "$&" + " b";
    SubstitutionEchoesMatch("a ", " b", Placeholder, before, after);
  }

  /** What the model collaborator answers: the response text, or an error with its name and message. */
  datatype Reply = Answer(text: string) | Thrown(name: string, message: string)

  /** What the results container shows. */
  datatype View =
    | Intro                  // the initial placeholder text
    | Blank                  // emptied while an analysis runs
    | ErrorBox(message: string)
    | Analysis(html: string)

  /** The message shown for an error thrown by the call. */
  function ErrorNotice(name: string, message: string): string {
    if name == "AbortError" then CancelledNotice else FailurePrefix + message
  }

  /** Whether the reply is displayed: an answer that arrives while the signal is not aborted. */
  predicate Displays(reply: Reply, aborted: bool) {
    reply.Answer? && !aborted
  }

  /**
   * The results container once an analysis that got `reply` is over: the
   * rendered answer, the emptied container if the answer came after an
   * abort, or the error notice.
   */
  function ViewAfter(reply: Reply, aborted: bool): (v: View)
    ensures Displays(reply, aborted) <==> v.Analysis?
    ensures v.Analysis? ==> v.html == ResultsHtml(reply.text)
    ensures reply.Thrown? ==> v == ErrorBox(ErrorNotice(reply.name, reply.message))
    ensures reply.Answer? && aborted ==> v == Blank
  {
    match reply
    case Answer(text) => if aborted then Blank else Analysis(ResultsHtml(text))
    case Thrown(name, message) => ErrorBox(ErrorNotice(name, message))
  }

  /** An abort error is reported as a cancellation, any other error with its message. */
  lemma ErrorNoticeCases(name: string, message: string)
    ensures name == "AbortError" ==> ErrorNotice(name, message) == CancelledNotice
    ensures name != "AbortError" ==>
              StartsWith(ErrorNotice(name, message), FailurePrefix) &&
              ErrorNotice(name, message)[|FailurePrefix|..] == message
  {
    if name != "AbortError" {
      assert (FailurePrefix + message)[..|FailurePrefix|] == FailurePrefix;
    }
  }

  /** The abort controller of one analysis; its signal is the `aborted` flag. */
  class AbortController {
    var aborted: bool

    constructor ()
      ensures !aborted
    {
      aborted := false;
    }
  }

  class ReportAnalyzer {
    const promptField: TextField
    const reportField: TextField
    var isAnalyzing: bool
    var currentAnalysisController: AbortController?
    var view: View
    var downloadVisible: bool

    constructor (promptField: TextField, reportField: TextField)
      ensures this.promptField == promptField && this.reportField == reportField
      ensures !isAnalyzing && currentAnalysisController == null
      ensures view == Intro && !downloadVisible
    {
      this.promptField := promptField;
      this.reportField := reportField;
      isAnalyzing := false;
      currentAnalysisController := null;
      view := Intro;
      downloadVisible := false;
    }

    /** `clearFields`: empty the report, restore the initial view, hide the download section. */
    method ClearFields()
      modifies reportField, this`view, this`downloadVisible
      ensures reportField.value == "" && view == Intro && !downloadVisible
    {
      reportField.value := "";
      view := Intro;
      downloadVisible := false;
    }

    /** `validateInputs`: on failure the message is shown and false returned; on success nothing changes. */
    method ValidateInputs() returns (ok: bool)
      modifies this`view
      ensures ok <==> ValidationError(promptField.value, reportField.value).None?
      ensures ok ==> view == old(view)
      ensures !ok ==> view == ErrorBox(ValidationError(promptField.value, reportField.value).value)
    {
      var prompt := Trim(promptField.value);
      var report := Trim(reportField.value);
      TrimKeepsContains(promptField.value, Placeholder);
      if prompt == "" {
        view := ErrorBox(PromptRequired);
        return false;
      }
      if report == "" {
        view := ErrorBox(ReportRequired);
        return false;
      }
      if !Contains(prompt, Placeholder) {
        view := ErrorBox(PlaceholderRequired);
        return false;
      }
      return true;
    }

    method ShowLoading()
      modifies this`view, this`isAnalyzing
      ensures view == Blank && isAnalyzing
    {
      view := Blank;
      isAnalyzing := true;
    }

    /** `hideLoading`: the analysis is over and its controller forgotten. */
    method HideLoading()
      modifies this`isAnalyzing, this`currentAnalysisController
      ensures !isAnalyzing && currentAnalysisController == null
    {
      isAnalyzing := false;
      currentAnalysisController := null;
    }

    method ShowError(message: string)
      modifies this`view
      ensures view == ErrorBox(message)
    {
      view := ErrorBox(message);
    }

    /** `stopAnalysis`: abort only while an analysis runs and a controller exists. */
    method StopAnalysis()
      modifies currentAnalysisController
      ensures old(isAnalyzing) && currentAnalysisController != null ==> currentAnalysisController.aborted
      ensures !(old(isAnalyzing) && currentAnalysisController != null) ==>
                currentAnalysisController == null || currentAnalysisController.aborted == old(currentAnalysisController.aborted)
    {
      if isAnalyzing && currentAnalysisController != null {
        currentAnalysisController.aborted := true;
      }
    }

    /** `displayStructuredResults`: the shown sections in the fixed tag order; the download section becomes visible. */
    method DisplayStructuredResults(sections: map<string, string>)
      modifies this`view, this`downloadVisible
      ensures view == Analysis(StructuredHtml(sections)) && downloadVisible
    {
      var rendered := "";
      var i := 0;
      while i < |SectionTags|
        invariant 0 <= i <= |SectionTags|
        invariant rendered == RenderedSections(sections, SectionTags[..i])
      {
        var key := SectionTags[i];
        RenderedSectionsStep(sections, SectionTags, i);
        if Shown(sections, key) {
          rendered := rendered + SectionHtml(key, sections[key]);
        }
        i := i + 1;
      }
      assert SectionTags[..|SectionTags|] == SectionTags;
      view := Analysis(ResultsOpen + rendered + DivClose);
      downloadVisible := true;
    }

    /** `displayRawResults`: the formatted raw response; the download section becomes visible. */
    method DisplayRawResults(response: string)
      modifies this`view, this`downloadVisible
      ensures view == Analysis(RawHtml(response)) && downloadVisible
    {
      view := Analysis(RawHtml(response));
      downloadVisible := true;
    }

    /** `displayResults`: structured when the parse has at least one key, raw otherwise. */
    method DisplayResults(response: string)
      modifies this`view, this`downloadVisible
      ensures view == Analysis(ResultsHtml(response)) && downloadVisible
    {
      var sections := ParseAnalysisResponse(response);
      if |sections| > 0 {
        DisplayStructuredResults(sections);
      } else {
        DisplayRawResults(response);
      }
    }

    /**
     * The part of `analyzeReport` after the call returns: an answer is
     * displayed unless the signal was aborted; a thrown error is shown as the
     * cancellation notice or the failure message.
     */
    method ShowReply(reply: Reply, aborted: bool)
      modifies this`view, this`downloadVisible
      ensures reply.Answer? && aborted ==> view == old(view) && downloadVisible == old(downloadVisible)
      ensures !(reply.Answer? && aborted) ==> view == ViewAfter(reply, aborted)
      ensures downloadVisible == (Displays(reply, aborted) || old(downloadVisible))
    {
      match reply {
        case Answer(text) =>
          if !aborted {
            DisplayResults(text);
          }
        case Thrown(name, message) =>
          if name == "AbortError" {
            ShowError(CancelledNotice);
          } else {
            ShowError(FailurePrefix + message);
          }
      }
    }

    /**
     * `analyzeReport`. `complete` is the model collaborator; `stopPressed`
     * says whether the user pressed Stop while the call was in flight.
     * Returns the prompt that was sent, if any.
     */
    method AnalyzeReport(complete: string -> Reply, stopPressed: bool) returns (sent: Option<string>)
      modifies this`view, this`isAnalyzing, this`currentAnalysisController, this`downloadVisible
      ensures var err := ValidationError(promptField.value, reportField.value);
        err.Some? ==>
          && sent.None? && view == ErrorBox(err.value)
          && isAnalyzing == old(isAnalyzing) && currentAnalysisController == old(currentAnalysisController)
          && downloadVisible == old(downloadVisible)
      ensures ValidationError(promptField.value, reportField.value).None? ==>
          && sent == Some(FinalPrompt(promptField.value, reportField.value))
          && !isAnalyzing && currentAnalysisController == null
          && view == ViewAfter(complete(sent.value), stopPressed)
          && downloadVisible == (Displays(complete(sent.value), stopPressed) || old(downloadVisible))
    {
      var ok := ValidateInputs();
      if !ok {
        return None;
      }
      var finalPrompt := FinalPrompt(promptField.value, reportField.value);
      Run(complete, finalPrompt, stopPressed);
      return Some(finalPrompt);
    }

    /**
     * The `try`/`finally` of `analyzeReport` for a valid input: a fresh abort
     * controller, the loading state, the call, the reply shown, and the
     * analysis state reset.
     */
    method Run(complete: string -> Reply, finalPrompt: string, stopPressed: bool)
      modifies this`view, this`isAnalyzing, this`currentAnalysisController, this`downloadVisible
      ensures !isAnalyzing && currentAnalysisController == null
      ensures view == ViewAfter(complete(finalPrompt), stopPressed)
      ensures downloadVisible == (Displays(complete(finalPrompt), stopPressed) || old(downloadVisible))
    {
      var controller := new AbortController();
      currentAnalysisController := controller;
      ShowLoading();
      var reply := complete(finalPrompt);
      if stopPressed {
        StopAnalysis();
      }
      ShowReply(reply, controller.aborted);
      HideLoading();
    }
  }
}
