/**
 * The server's two endpoints: `/api/claude`, which forwards a prompt to the
 * model provider and chooses the status and error message of its answer,
 * and `/api/download-html`, which wraps analysis markup in a fixed report
 * page. The provider is a collaborator given as a function.
 */
module Proxy {
  import opened Wrappers
  import opened Text

  /** What the JSON body of a failed upstream answer yielded: nothing parseable, or its `error.message` and `message` fields. */
  datatype ErrorBody = Unparseable | Parsed(errorMessage: Option<string>, message: Option<string>)

  /**
   * The provider's answer to one request: the request failed outright (the
   * thrown message), or a response with its status, status text, the error
   * body a failed response carries, and for a successful one the text of
   * `content[0]` or the message thrown while reading it.
   */
  datatype Upstream =
    | Unreachable(thrown: string)
    | Response(status: nat, statusText: string, errorBody: ErrorBody, content: Result<string>)

  /** The JSON or HTML body the server sends. */
  datatype Body = ErrorJson(error: string) | ContentJson(content: string) | Html(page: string)

  datatype Reply = Reply(status: nat, body: Body)

  const PromptRequired: string := "Prompt is required"
  const Overloaded: string := "Claude API is currently overloaded. Please try again in a few minutes."
  const RateLimited: string := "Rate limit exceeded. Please wait a moment before trying again."
  const ContentRequired: string := "Analysis content is required"

  /** JavaScript truthiness of an optional string: present and non-empty. */
  predicate Truthy(s: Option<string>) { s.Some? && s.value != "" }

  /** `response.ok`: a status in 200..299. */
  predicate IsOk(status: nat) { 200 <= status <= 299 }

  /** `HTTP <status>: <statusText>`. */
  function StatusLine(status: nat, statusText: string): string {
    "HTTP " + NatToString(status) + ": " + statusText
  }

  /** The message of a failed upstream response, before the 529 and 429 overrides. */
  function BodyMessage(status: nat, statusText: string, body: ErrorBody): string {
    if body.Parsed? && Truthy(body.errorMessage) then body.errorMessage.value
    else if body.Parsed? && Truthy(body.message) then body.message.value
    else StatusLine(status, statusText)
  }

  /** The message of a failed upstream response. */
  function FailureMessage(status: nat, statusText: string, body: ErrorBody): string {
    if status == 529 then Overloaded
    else if status == 429 then RateLimited
    else BodyMessage(status, statusText, body)
  }

  /** The reply of `/api/claude` for a prompt that passed the check and the provider's answer to it. */
  function ForwardedReply(answer: Upstream): Reply {
    match answer
    case Unreachable(thrown) => Reply(500, ErrorJson(thrown))
    case Response(status, statusText, body, content) =>
      if !IsOk(status) then Reply(status, ErrorJson(FailureMessage(status, statusText, body)))
      else match content
        case Ok(text) => Reply(200, ContentJson(text))
        case Err(thrown) => Reply(500, ErrorJson(thrown))
  }

  /**
   * The `/api/claude` handler. `upstream` answers a forwarded prompt;
   * `forwarded` is the prompt sent to it, if any.
   */
  method HandleClaude(prompt: Option<string>, upstream: string -> Upstream)
    returns (reply: Reply, forwarded: Option<string>)
    ensures !Truthy(prompt) ==> reply == Reply(400, ErrorJson(PromptRequired)) && forwarded.None?
    ensures Truthy(prompt) ==> forwarded == prompt && reply == ForwardedReply(upstream(prompt.value))
  {
    if !(prompt.Some? && prompt.value != "") {
      return Reply(400, ErrorJson(PromptRequired)), None;
    }
    forwarded := prompt;
    var response := upstream(prompt.value);
    if response.Unreachable? {
      return Reply(500, ErrorJson(response.thrown)), forwarded;
    }
    if !(200 <= response.status <= 299) {
      var errorMessage := "HTTP " + NatToString(response.status) + ": " + response.statusText;
      var errorData := response.errorBody;
      if errorData.Parsed? {
        if errorData.errorMessage.Some? && errorData.errorMessage.value != "" {
          errorMessage := errorData.errorMessage.value;
        } else if errorData.message.Some? && errorData.message.value != "" {
          errorMessage := errorData.message.value;
        }
      }
      if response.status == 529 {
        errorMessage := Overloaded;
      } else if response.status == 429 {
        errorMessage := RateLimited;
      }
      return Reply(response.status, ErrorJson(errorMessage)), forwarded;
    }
    match response.content {
      case Ok(text) => reply := Reply(200, ContentJson(text));
      case Err(thrown) => reply := Reply(500, ErrorJson(thrown));
    }
  }

  /** A failed upstream response is answered with its own status and an error body. */
  lemma StatusPassThrough(status: nat, statusText: string, body: ErrorBody, content: Result<string>)
    requires !IsOk(status)
    ensures ForwardedReply(Response(status, statusText, body, content)).status == status
    ensures ForwardedReply(Response(status, statusText, body, content)).body.ErrorJson?
  {
  }

  /**
   * Outside 529 and 429, the message is `error.message` if present, else
   * `message`, else the status line; the status line is also used when the
   * body does not parse.
   */
  lemma MessagePrecedence(status: nat, statusText: string, body: ErrorBody)
    requires status != 529 && status != 429
    ensures body.Parsed? && Truthy(body.errorMessage) ==>
              FailureMessage(status, statusText, body) == body.errorMessage.value
    ensures body.Parsed? && !Truthy(body.errorMessage) && Truthy(body.message) ==>
              FailureMessage(status, statusText, body) == body.message.value
    ensures (body.Unparseable? || (!Truthy(body.errorMessage) && !Truthy(body.message))) ==>
              FailureMessage(status, statusText, body) == StatusLine(status, statusText)
  {
  }

  /** 529 and 429 have fixed messages whatever the body said. */
  lemma StatusOverrides(statusText: string, body1: ErrorBody, body2: ErrorBody)
    ensures FailureMessage(529, statusText, body1) == Overloaded
    ensures FailureMessage(429, statusText, body2) == RateLimited
    ensures !IsOk(529) && !IsOk(429)
  {
  }

  /** The status line names the status in decimal, recoverable from the line. */
  lemma StatusLineNamesStatus(status: nat, statusText: string)
    ensures var line := StatusLine(status, statusText);
      var digits := NatToString(status);
      StartsWith(line, "HTTP ") && line[5..5 + |digits|] == digits && DecimalValue(digits) == status
  {
    var digits := NatToString(status);
    var line := StatusLine(status, statusText);
    assert line == "HTTP " + digits + ": " + statusText;
    assert line[5..5 + |digits|] == digits;
    DecimalRoundTrip(status);
  }

  /** A successful upstream response yields `{content}` with status 200 exactly when its text was read. */
  lemma SuccessReply(status: nat, statusText: string, body: ErrorBody, content: Result<string>)
    requires IsOk(status)
    ensures var r := ForwardedReply(Response(status, statusText, body, content));
      (content.Ok? <==> r.status == 200) &&
      (content.Ok? ==> r.body == ContentJson(content.value)) &&
      (content.Err? ==> r == Reply(500, ErrorJson(content.message)))
  {
  }

  // ---------------------------------------------------------------------------
  // the download endpoint

  /** The report page up to the analysis markup (the stylesheet is not part of this model). */
  const PagePrefix: string :=
    "\n<!DOCTYPE html>\n<html lang=\"en\">\n<head>\n<meta charset=\"UTF-8\">\n" +
    "<meta name=\"viewport\" content=\"width=device-width, initial-scale=1.0\">\n" +
    "<title>Report Analysis</title>\n</head>\n<body>\n<div class=\"header\">\n<h1>Report Analysis</h1>\n</div>\n" +
    "<div class=\"analysis-content\">\n"

  /** The page between the analysis markup and the generation date. */
  const PageMiddle: string := "\n</div>\n<div class=\"footer\">\n<p>Generated on "

  /** The page after the generation time. */
  const PageSuffix: string := "</p>\n</div>\n</body>\n</html>"

  /** The report page for `analysisContent`, generated on `date` at `time`. */
  function ReportPage(analysisContent: string, date: string, time: string): string {
    PagePrefix + analysisContent + PageMiddle + date + " at " + time + PageSuffix
  }

  /** The `/api/download-html` handler; `date` and `time` are the server's local date and time. */
  function DownloadHtml(analysisContent: Option<string>, date: string, time: string): (r: Reply)
    ensures !Truthy(analysisContent) <==> r == Reply(400, ErrorJson(ContentRequired))
    ensures Truthy(analysisContent) ==> r == Reply(200, Html(ReportPage(analysisContent.value, date, time)))
  {
    if !Truthy(analysisContent) then Reply(400, ErrorJson(ContentRequired))
    else Reply(200, Html(ReportPage(analysisContent.value, date, time)))
  }

  /** The analysis markup sits verbatim right after the fixed prefix, and the page ends with the fixed suffix. */
  lemma ReportPageRoundTrip(analysisContent: string, date: string, time: string)
    ensures var page := ReportPage(analysisContent, date, time);
      StartsWith(page, PagePrefix) &&
      page[|PagePrefix|..|PagePrefix| + |analysisContent|] == analysisContent &&
      StartsWith(page[|PagePrefix| + |analysisContent|..], PageMiddle) &&
      EndsWith(page, PageSuffix)
  {
    PageLayout(PagePrefix, analysisContent, PageMiddle, date, time, PageSuffix);
  }

  /** The layout of a page built as `prefix + content + middle + date + " at " + time + suffix`. */
  lemma PageLayout(prefix: string, content: string, middle: string, date: string, time: string, suffix: string)
    ensures var page := prefix + content + middle + date + " at " + time + suffix;
      StartsWith(page, prefix) &&
      page[|prefix|..|prefix| + |content|] == content &&
      StartsWith(page[|prefix| + |content|..], middle) &&
      EndsWith(page, suffix)
  {
    var page := prefix + content + middle + date + " at " + time + suffix;
    var n := |prefix| + |content|;
    assert page == prefix + content + (middle + date + " at " + time + suffix);
    assert page[..|prefix|] == prefix;
    assert page[|prefix|..n] == content;
    assert page[n..] == middle + date + " at " + time + suffix;
    assert page[n..][..|middle|] == middle;
    assert page[|page| - |suffix|..] == suffix;
  }

  /** Two report pages of the same date and time are equal exactly when their analysis markup is. */
  lemma ReportPageInjective(c1: string, c2: string, date: string, time: string)
    ensures ReportPage(c1, date, time) == ReportPage(c2, date, time) ==> c1 == c2
  {
    PageLayout(PagePrefix, c1, PageMiddle, date, time, PageSuffix);
    PageLayout(PagePrefix, c2, PageMiddle, date, time, PageSuffix);
    PageLength(c1, c2, date, time);
  }

  /** Pages of the same date and time differ in length as their analysis markup does. */
  lemma PageLength(c1: string, c2: string, date: string, time: string)
    ensures |ReportPage(c1, date, time)| - |c1| == |ReportPage(c2, date, time)| - |c2|
  {
  }
}
