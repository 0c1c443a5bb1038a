/**
 * Company-name extraction and the download filename (`extractCompanyName`,
 * `generateFilename`). Each regular-expression pattern is a collaborator
 * that, applied to a text, yields its first capture or nothing; the
 * selection among the captures, their normalisation and the filename are
 * modelled exactly.
 */
module CompanyName {
  import opened Wrappers
  import opened Text

  /** A pattern: the capture group `match[1]` of its first match in a text, if any. */
  type Pattern = string -> Option<string>

  const Fallback: string := "Company"

  // ---------------------------------------------------------------------------
  // character classes of the clean-up regular expressions

  /** Kept by `replace(/[^\w\s-]/g, '')`. */
  predicate IsKept(c: char) { IsWordChar(c) || IsSpace(c) || c == '-' }

  /** A character of a clean filename part: lower-case ASCII letter, digit, `_` or `-`. */
  predicate IsCleanChar(c: char) { IsLower(c) || IsDigit(c) || c == '_' || c == '-' }

  // ---------------------------------------------------------------------------
  // text transformations

  /**
   * `replace(/<[^>]*>/g, ' ')`: every `<` that has a `>` after it, up to the
   * first such `>`, becomes one space.
   */
  function StripTags(s: string): (r: string)
    ensures !('<' in s) ==> r == s
    ensures forall i, j :: 0 <= i < j < |r| && r[i] == '<' ==> r[j] != '>'
    decreases |s|
  {
    if s == [] then []
    else if s[0] == '<' then
      match IndexOf(s, ">", 1)
      case Some(k) => " " + StripTags(s[k + 1..])
      case None =>
        assert forall j :: 1 <= j < |s| ==> s[j] != '>' by {
          forall j | 1 <= j < |s| ensures s[j] != '>' {
            assert !OccursAt(s, ">", j);
            assert s[j..j + 1] == [s[j]];
          }
        }
        s
    else [s[0]] + StripTags(s[1..])
  }

  /** Text before the first `<` is kept as it is. */
  lemma {:induction false} StripTagsPlain(a: string, b: string)
    requires '<' !in a
    ensures StripTags(a + b) == a + StripTags(b)
    decreases |a|
  {
    if a != [] {
      assert (a + b)[0] == a[0];
      assert (a + b)[1..] == a[1..] + b;
      StripTagsPlain(a[1..], b);
      assert [a[0]] + a[1..] == a;
    } else {
      assert a + b == b;
    }
  }

  /** A tag, from `<` to the first `>` after it, becomes one space. */
  lemma StripTagsTag(t: string, b: string)
    requires '>' !in t
    ensures StripTags("<" + t + ">" + b) == " " + StripTags(b)
  {
    var s := "<" + t + ">" + b;
    var k := |t| + 1;
    assert OccursAt(s, ">", k) by { assert s[k..k + 1] == [s[k]]; }
    forall j | 1 <= j < k ensures !OccursAt(s, ">", j) {
      assert s[j] == t[j - 1];
      assert s[j..j + 1] == [s[j]];
    }
    assert IndexOf(s, ">", 1) == Some(k);
    assert s[k + 1..] == b;
  }

  /** A `<` with no `>` after it starts text that is kept as it is. */
  lemma StripTagsUnclosed(t: string)
    requires '>' !in t
    ensures StripTags("<" + t) == "<" + t
  {
    var s := "<" + t;
    assert IndexOf(s, ">", 1).None? by {
      forall j | 1 <= j ensures !OccursAt(s, ">", j) {
        if j + 1 <= |s| {
          assert s[j] == t[j - 1];
          assert s[j..j + 1] == [s[j]];
        }
      }
    }
  }

  /** `replace(/\s+/g, c)`: every maximal run of whitespace becomes the single character `c`. */
  function ReplaceSpaceRuns(s: string, c: char): (r: string)
    ensures forall i :: 0 <= i < |r| ==> r[i] == c || !IsSpace(r[i])
    ensures (forall i :: 0 <= i < |s| ==> IsKept(s[i])) ==> forall i :: 0 <= i < |r| ==> r[i] == c || IsKept(r[i])
    ensures r == [] <==> s == []
    ensures AllSpace(s) ==> r == [] || r == [c]
    decreases |s|
  {
    if s == [] then []
    else if IsSpace(s[0]) then
      var n := LeadingSpaces(s);
      var rest := ReplaceSpaceRuns(s[n..], c);
      assert n == |s| || !IsSpace(s[n..][0]);
      [c] + rest
    else [s[0]] + ReplaceSpaceRuns(s[1..], c)
  }

  /** `replace(/[^\w\s-]/g, '')`. */
  function DeleteUnkept(s: string): (r: string)
    ensures |r| <= |s|
    ensures forall i :: 0 <= i < |r| ==> IsKept(r[i])
    ensures (forall i :: 0 <= i < |s| ==> IsKept(s[i])) ==> r == s
  {
    if s == [] then []
    else if IsKept(s[0]) then [s[0]] + DeleteUnkept(s[1..])
    else DeleteUnkept(s[1..])
  }

  /** Deleting is done character by character, so the kept characters survive in order. */
  lemma {:induction false} DeleteUnkeptAppend(a: string, b: string)
    ensures DeleteUnkept(a + b) == DeleteUnkept(a) + DeleteUnkept(b)
    decreases |a|
  {
    if a == [] {
      assert a + b == b;
    } else {
      assert (a + b)[0] == a[0];
      assert (a + b)[1..] == a[1..] + b;
      DeleteUnkeptAppend(a[1..], b);
    }
  }

  /** One character is kept exactly when it is a word character, whitespace or `-`. */
  lemma DeleteUnkeptChar(c: char)
    ensures IsKept(c) ==> DeleteUnkept([c]) == [c]
    ensures !IsKept(c) ==> DeleteUnkept([c]) == []
  {
    assert [c][1..] == [];
  }

  /** No two whitespace characters are adjacent. */
  predicate SingleSpaced(s: string) {
    forall i :: 0 <= i && i + 1 < |s| ==> !IsSpace(s[i]) || !IsSpace(s[i + 1])
  }

  /** On single-spaced text, collapsing whitespace runs only replaces each whitespace character by `c`. */
  lemma {:induction false} ReplaceSpaceRunsSingle(s: string, c: char)
    requires SingleSpaced(s)
    ensures |ReplaceSpaceRuns(s, c)| == |s|
    ensures forall i :: 0 <= i < |s| ==> ReplaceSpaceRuns(s, c)[i] == if IsSpace(s[i]) then c else s[i]
    decreases |s|
  {
    if s != [] {
      var rest := s[1..];
      assert SingleSpaced(rest) by {
        forall i | 0 <= i && i + 1 < |rest| ensures !IsSpace(rest[i]) || !IsSpace(rest[i + 1]) {
          assert rest[i] == s[i + 1] && rest[i + 1] == s[i + 2];
        }
      }
      ReplaceSpaceRunsSingle(rest, c);
      if IsSpace(s[0]) {
        var n := LeadingSpaces(s);
        assert n == 1;
      }
      var r := ReplaceSpaceRuns(s, c);
      forall i | 0 <= i < |s| ensures r[i] == if IsSpace(s[i]) then c else s[i] {
        if i > 0 { assert s[i] == rest[i - 1]; }
      }
    }
  }

  /**
   * A name that is already clean (trimmed, single-spaced, whitespace only as
   * plain spaces, only word characters, spaces and `-`) is kept as it is.
   */
  predicate IsCleanName(s: string) {
    && IsTrimmed(s) && SingleSpaced(s)
    && (forall i :: 0 <= i < |s| ==> IsKept(s[i]))
    && (forall i :: 0 <= i < |s| ==> IsSpace(s[i]) ==> s[i] == ' ')
  }

  /** Normalising a clean capture gives the capture back. */
  lemma NormalizeKeepsClean(capture: string)
    requires IsCleanName(capture)
    ensures Normalize(capture) == capture
  {
    TrimNoop(capture);
    ReplaceSpaceRunsSingle(capture, ' ');
    var collapsed := ReplaceSpaceRuns(capture, ' ');
    assert collapsed == capture;
    TrimNoop(DeleteUnkept(collapsed));
  }

  /** Collapsing whitespace runs keeps every character that is not whitespace. */
  lemma {:induction false} ReplaceSpaceRunsKeeps(s: string, c: char, x: char)
    requires x in s && !IsSpace(x)
    ensures x in ReplaceSpaceRuns(s, c)
    decreases |s|
  {
    if s[0] == x {
      assert ReplaceSpaceRuns(s, c)[0] == x;
    } else if IsSpace(s[0]) {
      var n := LeadingSpaces(s);
      var i :| 0 <= i < |s| && s[i] == x;
      assert n <= i && s[n..][i - n] == x;
      ReplaceSpaceRunsKeeps(s[n..], c, x);
    } else {
      var i :| 0 <= i < |s| && s[i] == x;
      assert s[1..][i - 1] == x;
      ReplaceSpaceRunsKeeps(s[1..], c, x);
    }
  }

  /** Deleting `[^\w\s-]` keeps every word character, whitespace character and `-`. */
  lemma {:induction false} DeleteUnkeptKeeps(s: string, x: char)
    requires x in s && IsKept(x)
    ensures x in DeleteUnkept(s)
    decreases |s|
  {
    if s[0] != x {
      var i :| 0 <= i < |s| && s[i] == x;
      assert s[1..][i - 1] == x;
      DeleteUnkeptKeeps(s[1..], x);
    }
  }

  /** Every word character and `-` of the capture survives the clean-up, so only a capture without one normalises to nothing. */
  lemma NormalizeKeepsWordChars(capture: string, x: char)
    requires x in capture && (IsWordChar(x) || x == '-')
    ensures x in Normalize(capture)
  {
    assert !IsSpace(x) && IsKept(x);
    TrimKeepsNonSpace(capture, x);
    ReplaceSpaceRunsKeeps(Trim(capture), ' ', x);
    DeleteUnkeptKeeps(ReplaceSpaceRuns(Trim(capture), ' '), x);
    TrimKeepsNonSpace(DeleteUnkept(ReplaceSpaceRuns(Trim(capture), ' ')), x);
  }

  /** The clean-up applied to each capture: trim, collapse whitespace, delete `[^\w\s-]`, trim. */
  function Normalize(capture: string): (n: string)
    ensures IsTrimmed(n) && |n| <= |capture|
    ensures forall i :: 0 <= i < |n| ==> IsKept(n[i])
  {
    var collapsed := ReplaceSpaceRuns(Trim(capture), ' ');
    ReplaceSpaceRunsLength(Trim(capture), ' ');
    var kept := DeleteUnkept(collapsed);
    TrimKeepsChars(kept);
    Trim(kept)
  }

  /** Collapsing whitespace runs never lengthens a text. */
  lemma {:induction false} ReplaceSpaceRunsLength(s: string, c: char)
    ensures |ReplaceSpaceRuns(s, c)| <= |s|
    decreases |s|
  {
    if s == [] {
    } else if IsSpace(s[0]) {
      ReplaceSpaceRunsLength(s[LeadingSpaces(s)..], c);
    } else {
      ReplaceSpaceRunsLength(s[1..], c);
    }
  }

  /** Trimming a text of kept characters leaves kept characters. */
  lemma TrimKeepsChars(s: string)
    requires forall i :: 0 <= i < |s| ==> IsKept(s[i])
    ensures forall i :: 0 <= i < |Trim(s)| ==> IsKept(Trim(s)[i])
  {
    if Trim(s) != [] {
      var a := LeadingSpaces(s);
      forall i | 0 <= i < |Trim(s)| ensures IsKept(Trim(s)[i]) {
        assert Trim(s)[i] == s[a + i];
      }
    }
  }

  /** `companyName.length > 2 && companyName.length < 50`. */
  predicate Acceptable(name: string) { 2 < |name| < 50 }

  /** The name a capture proposes: `match && match[1]`, normalised. */
  function Candidate(capture: Option<string>): (n: Option<string>)
    ensures n.Some? <==> capture.Some? && capture.value != ""
  {
    if capture.Some? && capture.value != "" then Some(Normalize(capture.value)) else None
  }

  /** The candidates of the patterns on one text, in pattern order. */
  function Candidates(patterns: seq<Pattern>, text: string): (ns: seq<Option<string>>)
    ensures |ns| == |patterns|
    ensures forall i :: 0 <= i < |patterns| ==> ns[i] == Candidate(patterns[i](text))
  {
    seq(|patterns|, i requires 0 <= i < |patterns| => Candidate(patterns[i](text)))
  }

  /** A candidate that is present and passes the length test. */
  predicate Accepts(n: Option<string>) { n.Some? && Acceptable(n.value) }

  /** The position of the first accepted candidate. */
  function FirstAccepted(ns: seq<Option<string>>): (r: Option<nat>)
    ensures r.None? <==> forall i :: 0 <= i < |ns| ==> !Accepts(ns[i])
    ensures r.Some? ==> r.value < |ns| && Accepts(ns[r.value]) && forall j :: 0 <= j < r.value ==> !Accepts(ns[j])
  {
    if ns == [] then None
    else if Accepts(ns[0]) then Some(0)
    else
      var r := FirstAccepted(ns[1..]);
      assert forall j :: 1 <= j < |ns| ==> ns[j] == ns[1..][j - 1];
      match r
      case None => None
      case Some(i) => Some(i + 1)
  }

  /** The first accepted candidate's name, if any. */
  function FirstAcceptable(ns: seq<Option<string>>): Option<string> {
    match FirstAccepted(ns)
    case None => None
    case Some(i) => ns[i]
  }

  /** The text the analysis patterns are matched against: tags replaced by spaces, lower-cased. */
  function AnalysisText(analysisContent: string): string {
    ToLower(StripTags(analysisContent))
  }

  /** The name `extractCompanyName` returns. */
  function CompanyNameOf(analysisContent: string, report: string,
                         analysisPatterns: seq<Pattern>, reportPatterns: seq<Pattern>): string
  {
    match FirstAcceptable(Candidates(analysisPatterns, AnalysisText(analysisContent)))
    case Some(name) => name
    case None =>
      var reportContent := Trim(report);
      if reportContent == "" then Fallback
      else
        match FirstAcceptable(Candidates(reportPatterns, ToLower(reportContent)))
        case Some(name) => name
        case None => Fallback
  }

  /**
   * One pattern loop of `extractCompanyName`: the patterns in order, returning
   * the first normalised capture that passes the length test.
   */
  method TryPatterns(patterns: seq<Pattern>, text: string) returns (found: Option<string>)
    ensures found == FirstAcceptable(Candidates(patterns, text))
  {
    ghost var ns := Candidates(patterns, text);
    var i := 0;
    while i < |patterns|
      invariant 0 <= i <= |patterns|
      invariant FirstAcceptable(ns) == FirstAcceptable(ns[i..])
    {
      SkipCapture(ns, i);
      var m := patterns[i](text);
      if m.Some? && m.value != "" {
        var companyName := Normalize(m.value);
        if Acceptable(companyName) {
          return Some(companyName);
        }
      }
      i := i + 1;
    }
    return None;
  }

  /**
   * `extractCompanyName`: the analysis patterns on the tag-stripped,
   * lower-cased analysis; then, only when the trimmed report is non-empty,
   * the report patterns on the lower-cased trimmed report; otherwise
   * `"Company"`.
   */
  method ExtractCompanyName(analysisContent: string, report: string,
                            analysisPatterns: seq<Pattern>, reportPatterns: seq<Pattern>)
    returns (name: string)
    ensures name == CompanyNameOf(analysisContent, report, analysisPatterns, reportPatterns)
  {
    var textContent := ToLower(StripTags(analysisContent));
    var found := TryPatterns(analysisPatterns, textContent);
    if found.Some? {
      return found.value;
    }
    var reportContent := Trim(report);
    if reportContent != "" {
      var reportText := ToLower(reportContent);
      found := TryPatterns(reportPatterns, reportText);
      if found.Some? {
        return found.value;
      }
    }
    return Fallback;
  }

  /** A candidate that is not accepted can be skipped; an accepted one is the answer. */
  lemma SkipCapture(ns: seq<Option<string>>, i: nat)
    requires i < |ns|
    ensures !Accepts(ns[i]) ==> FirstAcceptable(ns[i..]) == FirstAcceptable(ns[i + 1..])
    ensures Accepts(ns[i]) ==> FirstAcceptable(ns[i..]) == ns[i]
  {
    assert ns[i..][0] == ns[i];
    assert ns[i..][1..] == ns[i + 1..];
    if !Accepts(ns[i]) {
      match FirstAccepted(ns[i + 1..])
      case None =>
      case Some(n) => assert ns[i..][n + 1] == ns[i + 1..][n];
    }
  }

  /** A name chosen among candidates is 3..49 characters, trimmed, and made of kept characters. */
  lemma FirstAcceptableShape(patterns: seq<Pattern>, text: string)
    ensures var r := FirstAcceptable(Candidates(patterns, text));
      r.Some? ==> Acceptable(r.value) && IsTrimmed(r.value) && forall i :: 0 <= i < |r.value| ==> IsKept(r.value[i])
  {
    var ns := Candidates(patterns, text);
    match FirstAccepted(ns)
    case None =>
    case Some(i) =>
      assert ns[i] == Candidate(patterns[i](text));
  }

  /**
   * Every extracted name is 3..49 characters long, trimmed, and made of word
   * characters, whitespace and `-`.
   */
  lemma CompanyNameShape(analysisContent: string, report: string,
                         analysisPatterns: seq<Pattern>, reportPatterns: seq<Pattern>)
    ensures var name := CompanyNameOf(analysisContent, report, analysisPatterns, reportPatterns);
      Acceptable(name) && IsTrimmed(name) && forall i :: 0 <= i < |name| ==> IsKept(name[i])
  {
    FirstAcceptableShape(analysisPatterns, AnalysisText(analysisContent));
    FirstAcceptableShape(reportPatterns, ToLower(Trim(report)));
    assert forall i :: 0 <= i < |Fallback| ==> IsWordChar(Fallback[i]);
  }

  /** An accepted analysis candidate decides the name: the report and its patterns are not consulted. */
  lemma AnalysisTakesPrecedence(analysisContent: string, report1: string, report2: string,
                                analysisPatterns: seq<Pattern>, reportPatterns1: seq<Pattern>,
                                reportPatterns2: seq<Pattern>)
    requires exists i :: 0 <= i < |analysisPatterns| &&
                         Accepts(Candidate(analysisPatterns[i](AnalysisText(analysisContent))))
    ensures CompanyNameOf(analysisContent, report1, analysisPatterns, reportPatterns1) ==
            CompanyNameOf(analysisContent, report2, analysisPatterns, reportPatterns2)
  {
    var ns := Candidates(analysisPatterns, AnalysisText(analysisContent));
    var i :| 0 <= i < |analysisPatterns| && Accepts(Candidate(analysisPatterns[i](AnalysisText(analysisContent))));
    assert Accepts(ns[i]);
  }

  /** A blank report means the report patterns are never consulted. */
  lemma BlankReportIgnoresPatterns(analysisContent: string, report: string,
                                   analysisPatterns: seq<Pattern>, reportPatterns: seq<Pattern>)
    requires AllSpace(report)
    ensures CompanyNameOf(analysisContent, report, analysisPatterns, reportPatterns) ==
            CompanyNameOf(analysisContent, report, analysisPatterns, [])
  {
  }

  /** With no accepted candidate from any consulted text, the name is exactly `"Company"`. */
  lemma FallbackWhenNothingAccepted(analysisContent: string, report: string,
                                    analysisPatterns: seq<Pattern>, reportPatterns: seq<Pattern>)
    requires forall i :: 0 <= i < |analysisPatterns| ==>
               !Accepts(Candidate(analysisPatterns[i](AnalysisText(analysisContent))))
    requires forall i :: 0 <= i < |reportPatterns| ==>
               !Accepts(Candidate(reportPatterns[i](ToLower(Trim(report)))))
    ensures CompanyNameOf(analysisContent, report, analysisPatterns, reportPatterns) == Fallback
  {
    var ns := Candidates(analysisPatterns, AnalysisText(analysisContent));
    assert forall i :: 0 <= i < |ns| ==> !Accepts(ns[i]);
    var ms := Candidates(reportPatterns, ToLower(Trim(report)));
    assert forall i :: 0 <= i < |ms| ==> !Accepts(ms[i]);
  }

  // ---------------------------------------------------------------------------
  // filename

  /** `companyName.replace(/[^\w\s-]/g, '').replace(/\s+/g, '-').toLowerCase()`. */
  function CleanCompanyName(name: string): (clean: string)
    ensures forall i :: 0 <= i < |clean| ==> IsCleanChar(clean[i])
  {
    var kept := DeleteUnkept(name);
    var hyphenated := ReplaceSpaceRuns(kept, '-');
    ToLower(hyphenated)
  }

  /**
   * A name of kept characters without adjacent whitespace is cleaned
   * character by character: each whitespace character becomes `-` and every
   * other character is lower-cased.
   */
  lemma CleanSingleSpaced(name: string)
    requires SingleSpaced(name) && forall i :: 0 <= i < |name| ==> IsKept(name[i])
    ensures |CleanCompanyName(name)| == |name|
    ensures forall i :: 0 <= i < |name| ==>
              CleanCompanyName(name)[i] == if IsSpace(name[i]) then '-' else LowerChar(name[i])
  {
    assert DeleteUnkept(name) == name;
    ReplaceSpaceRunsSingle(name, '-');
  }

  const ReportInfix: string := "-Report-"

  /** `generateFilename`: `date` is the `YYYY-MM-DD` part of the current time. */
  function GenerateFilename(companyName: string, date: string): string {
    CleanCompanyName(companyName) + ReportInfix + date + ".html"
  }

  /**
   * The clean name is recoverable from the filename: it is everything before
   * the first `-Report-`, since a clean name has no upper-case `R`.
   */
  lemma FilenameRecoversName(companyName: string, date: string)
    ensures var f := GenerateFilename(companyName, date);
      IndexOf(f, ReportInfix, 0) == Some(|CleanCompanyName(companyName)|) &&
      f[..|CleanCompanyName(companyName)|] == CleanCompanyName(companyName) &&
      EndsWith(f, ".html")
  {
    var clean := CleanCompanyName(companyName);
    var rest := date + ".html";
    var f := clean + ReportInfix + rest;
    assert f == GenerateFilename(companyName, date);
    InfixFirstAfter(clean, rest);
    assert f[..|clean|] == clean;
    assert f[|f| - 5..] == ".html";
  }

  /** The first `-Report-` after a clean name is the one right after it. */
  lemma InfixFirstAfter(clean: string, rest: string)
    requires forall i :: 0 <= i < |clean| ==> IsCleanChar(clean[i])
    ensures IndexOf(clean + ReportInfix + rest, ReportInfix, 0) == Some(|clean|)
  {
    var f := clean + ReportInfix + rest;
    assert OccursAt(f, ReportInfix, |clean|) by {
      assert f[|clean|..|clean| + |ReportInfix|] == ReportInfix;
    }
    forall k | 0 <= k < |clean| ensures !OccursAt(f, ReportInfix, k) {
      NoInfixInside(clean, rest, k);
    }
    FirstOccurrence(f, ReportInfix, |clean|);
  }

  /** `-Report-` cannot start inside a clean name: its `R` is not a clean character. */
  lemma NoInfixInside(clean: string, rest: string, k: nat)
    requires forall i :: 0 <= i < |clean| ==> IsCleanChar(clean[i])
    requires k < |clean|
    ensures !OccursAt(clean + ReportInfix + rest, ReportInfix, k)
  {
    var f := clean + ReportInfix + rest;
    if k + |ReportInfix| <= |f| {
      assert f[k..k + |ReportInfix|][1] == f[k + 1];
      if k + 1 < |clean| {
        assert f[k + 1] == clean[k + 1];
      } else {
        assert f[k + 1] == ReportInfix[0];
      }
      assert f[k + 1] != ReportInfix[1];
    }
  }
}
