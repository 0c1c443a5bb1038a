# ReportAnalyzer, modelled in Dafny

ReportAnalyzer is a browser tool with a small Node server behind it. The
user writes an analysis prompt that contains the placeholder
`{{COMPANY_REPORT}}` and pastes a company report. The tool sends the prompt,
with the report in place of the placeholder, to a language model through the
server's `/api/claude` proxy. The model's answer is rendered as a results
view:

- When the answer holds XML-like section tags (`<executive_summary>` …
  `<conclusion>`), each section is shown under its title, with paragraphs and
  bullet lists formatted.
- Otherwise the whole answer is shown as plain paragraphs.

The rendered view can be downloaded as a report page built by the server's
`/api/download-html` endpoint. The file name is derived from a company name
guessed from the analysis or the report.

A PDF helper extracts text from a PDF page by page with OCR. The text can
then be saved as a `.txt` file or moved into the report field.

The model is split into modules that follow the program's structure:

| file | module | what it models |
|---|---|---|
| `wrappers.dfy` | `Wrappers` | `Option` for `null`/`undefined`, `Result` for operations that throw |
| `text.dfy` | `Text` | the JavaScript string operations used: `trim`, `indexOf`/`includes`, `split`/`join`, `replace` of a first occurrence, `toLowerCase`, `\s`, `\w`, decimal printing |
| `parser.dfy` | `ResponseParser` | `parseAnalysisResponse`: the leftmost, lazy match of `<tag>(.*?)</tag>` per section tag |
| `render.dfy` | `Render` | `getSectionTitle`, `formatSectionContent`, `formatTextContent`, and the structured and raw result markup |
| `form.dfy` | `Form` | the page's text fields, which both the analyzer and the extractor write |
| `analyzer.dfy` | `Analyzer` | the `ReportAnalyzer` class: validation, prompt substitution, the analysis with its abort controller, the views it leaves behind |
| `company.dfy` | `CompanyName` | `extractCompanyName` and `generateFilename` |
| `extractor.dfy` | `PdfExtractor` | the `PDFTextExtractor` class: file checks, the page loop with its cancellation checkpoints, error categories, save, use, set and clear |
| `proxy.dfy` | `Proxy` | the server's `/api/claude` and `/api/download-html` handlers |

The model's form follows each part of the source:

- **Parts that hold state are classes.** `ReportAnalyzer`,
  `AbortController`, `PDFTextExtractor` and the text fields are classes whose
  methods update their fields. DOM updates become fields: `view` holds what
  the results container shows, `status` the extractor's status line and
  `downloads` the files offered for download.
- **Loops are `while` loops with invariants.** This covers the section loop
  of `displayStructuredResults`, the pattern loops of `extractCompanyName`
  and the page loop of `extractTextFromPDF`. Each method is proved equal to a
  specification function, and the properties are proved about that function.
- **Pure code becomes functions and lemmas.** This covers parsing,
  formatting, titles, filenames, error categories and the server's reply
  choice.

Collaborators the program does not own are function-valued parameters:

- the language model's `complete`;
- the upstream provider;
- the PDF loader, page renderer and OCR engine;
- the moments at which the user presses Cancel;
- each company-name regular expression, as a function from a text to its
  first capture.

Some behaviours of the source are worth knowing. Each is stated by a member
of the model:

- A response that holds a section tag with an empty body is rendered
  structured, and that section is not shown. If every section found is
  empty, the view is an empty results box, not the raw answer
  (`EmptyBodiesRenderNothing`, `ResultsHtml`).
- The file chooser accepts a file when its type is exactly
  `application/pdf` or its name ends in `.pdf`. The extractor accepts any
  type that mentions `pdf` (`ChooserAccepts` and `IsPdfFile` in
  `extractor.dfy`).
- The extractor records the file's base name before it checks the file, so a
  rejected file still changes the name a later save uses
  (`ExtractTextFromPdf`).
- The base name removes the first `.pdf`, case-sensitively, wherever it
  stands: `a.pdf.b.pdf` becomes `a.b.pdf` (`BaseName`).
- The 50 MiB size limit is inclusive (`SizeLimitInclusive`).
- The report is inserted with `replace`, so `$` patterns in it are expanded.
  A report that contains `$&` puts the placeholder itself back into the
  prompt (`DollarAmpersandEchoesPlaceholder`). A report without `$` is
  inserted literally (`FinalPromptLiteral`).

## Model

| member | source | states |
|---|---|---|
| Text.Trim | script.js:126-127 | the trimmed text is the original with its leading and trailing whitespace cut off; it is empty exactly when the original is all whitespace, and it has no whitespace at either end |
| Text.TrimNoop | script.js:257 | trimming text that already has no whitespace at its ends leaves it unchanged |
| Text.TrimIdempotent | script.js:361 | trimming twice is the same as trimming once |
| Text.LeadingSpaces | script.js:126 | counts exactly the whitespace run at the start: every character before the count is whitespace, the one at the count is not |
| Text.TrailingSpaces | script.js:126 | counts exactly the whitespace run at the end: every character in it is whitespace, the one before it is not |
| Text.IndexOf | script.js:139 | the result is an occurrence at or after the start position with none between; no result means there is no occurrence at or after it |
| Text.FirstOccurrence | script.js:139 | an occurrence with no earlier occurrence is exactly what `indexOf` finds |
| Text.ContainsIff | script.js:139 | `includes` holds exactly when the pattern occurs at some position |
| Text.OccursInSlice | script.js:254-257 | an occurrence inside a slice is an occurrence in the whole text, shifted by the slice's start |
| Text.OccursInEnclosingSlice | script.js:126-139 | an occurrence that lies inside a slice is an occurrence in that slice |
| Text.NoOccurrenceInSlice | script.js:254-257 | a pattern absent from a text is absent from every slice of it |
| Text.TrimKeepsAbsence | script.js:257 | trimming never creates an occurrence of a pattern |
| Text.TrimKeepsContains | script.js:126-139 | for a pattern without whitespace at its ends, such as the placeholder, the trimmed and the untrimmed prompt contain it alike |
| Text.ContainedBeforeTrim | script.js:126-139 | what the trimmed text contains, the untrimmed text contains |
| Text.ContainedAfterTrim | script.js:126-139 | a pattern with no whitespace at its ends that occurs in the text survives trimming |
| Text.Split | script.js:360 | `split` yields at least one piece; joining the pieces with the separator gives back the input, and no piece contains the separator; there is exactly one piece when the separator is absent, otherwise the first piece ends at the leftmost occurrence and the others are the split of the text after it |
| Text.JoinPartsAbsence | script.js:360 | a pattern absent from a joined text is absent from every part |
| Text.JoinAllSpace | script.js:360-362 | a text joined with a whitespace separator is all whitespace exactly when every part is |
| Text.SplitNoSeparator | script.js:360 | a text without the separator splits into itself alone |
| Text.ReplaceFirst | script.js:208 | `replace` with a string pattern changes only the first occurrence, into the replacement with its `$` patterns expanded, and leaves the text unchanged when there is none |
| Text.Substitution | script.js:208 | the expansion of a replacement: `$$` gives `$`, `$&` the matched text, dollar-backtick the text before the match, dollar-quote the text after it, anything else is copied; a replacement without `$` is used as it is |
| Text.SubstitutionEchoesMatch | script.js:208 | a `$&` between two `$`-free texts is replaced by the matched text |
| Text.ReplaceFirstLiteral | script.js:208 | a replacement without `$` is put literally in place of the first occurrence, which has no occurrence before it |
| Text.TrimKeepsNonSpace | script.js:416-419 | trimming keeps every character that is not whitespace |
| Text.TrimKeepsCharAbsent | script.js:206-208 | trimming adds no character that was not there |
| Text.ToLower | script.js:400 | lower-casing keeps the length and lower-cases each character |
| Text.NatToString | script.js:645 | a number prints as a non-empty string of decimal digits without a leading zero |
| Text.DecimalRoundTrip | server.js:60 | reading the printed digits back gives the number |
| ResponseParser.SectionBounds | script.js:254-255 | the match exists exactly when some `<tag>` is followed by a `</tag>`; when it exists, it is the first `<tag>` and the first `</tag>` after it |
| ResponseParser.NoOpenNoSection | script.js:254-256 | with no `<tag>` there is no match |
| ResponseParser.NoCloseNoSection | script.js:254-256 | with no `</tag>` after the first `<tag>` there is no match, even if a later `<tag>` exists |
| ResponseParser.FirstMatchUnique | script.js:254 | the leftmost, lazy match is unique |
| ResponseParser.BodyHasNoClose | script.js:254-257 | the captured body, trimmed, never contains the closing tag |
| ResponseParser.ParseSection | script.js:254-257 | a section is found exactly when its tag pair occurs; its value is trimmed and holds no closing tag |
| ResponseParser.ParseSectionValue | script.js:254-257 | whenever a first `<tag>` and the first `</tag>` after it are given, the section is the trimmed text between them |
| ResponseParser.BoundsOfFirstMatch | script.js:254-255 | any first match is the one the parser locates |
| ResponseParser.SectionAtBounds | script.js:255-257 | at the located bounds the section is the trimmed text between the tags |
| ResponseParser.ParseAnalysisResponse | script.js:238-262 | the keys are among the seven tags; a tag is a key exactly when its pair occurs; each value is that tag's section, trimmed, without its closing tag |
| ResponseParser.StructuredIff | script.js:286-288 | the parse has at least one key exactly when some tag's section occurs |
| Render.UnderscoresToSpaces | script.js:277 | same length; exactly the underscores become spaces |
| Render.CapitalizeWords | script.js:277 | the length is kept |
| Render.FallbackTitle | script.js:277 | same length as the key; underscores become spaces, the first letter of each word is upper-cased, everything else is kept; no underscore remains |
| Render.TableTitleClean | script.js:268-276 | no title in the table contains an underscore |
| Render.GetSectionTitle | script.js:267-278 | a key in the table gets its table title; any other key gets its fallback title, of its own length; no title contains an underscore |
| Render.NonBlankTrimmed | script.js:361-362 | no more pieces than given, each non-empty and trimmed |
| Render.NonBlankTrimmedEmpty | script.js:361-362 | nothing remains exactly when every piece trims to nothing |
| Render.NonBlankTrimmedAbsence | script.js:360-362 | a pattern absent from every piece is absent from every kept piece |
| Render.NonBlankTrimmedCons | script.js:361-362 | filtering is done piece by piece: filtering a list is filtering its head and its tail and concatenating |
| Render.NonBlankTrimmedUnfold | script.js:361-362 | the first piece is kept, trimmed, exactly when it is not blank |
| Render.Paragraphs | script.js:359-362 | the paragraphs are non-empty, trimmed and free of blank lines; there are none exactly when the text is all whitespace |
| Render.ParagraphsAbsence | script.js:359-362 | a pattern absent from a text is absent from all its paragraphs |
| Render.SplitAtBlankLine | script.js:360 | a piece with no blank line that does not end in a newline is split off at the blank line after it |
| Render.NoBlankLineInside | script.js:360 | no blank line begins inside such a piece |
| Render.ParagraphsAtBlankLine | script.js:359-362 | the paragraphs of `a` + blank line + `b` are those of `a` followed by those of `b` |
| Render.ItemText | script.js:370 | a list item has no whitespace at either end |
| Render.ListItems | script.js:368-370 | at most one item per line; no items exactly when no line is a marker line |
| Render.IsMarkerLine | script.js:369 | the list filter: the trimmed line starts with `-` or `*`; Render.ListItemsAtMarkers states that the items come exactly from these lines, in order |
| Render.RenderItems | script.js:370-373 | the joined list markup: each item wrapped in `<li>` and `</li>`, in item order, with nothing between; Render.RenderBlock puts it inside `<ul>` after the intro paragraph |
| Render.ListItemsUnfold | script.js:368-370 | a marker line yields one item and any other line none |
| Render.ListItemsTrimmed | script.js:368-370 | every list item is trimmed |
| Render.TruePositions | script.js:369 | the positions where the flags hold, strictly increasing, each one a flagged position and every flagged position among them |
| Render.MarkerLines | script.js:369 | one flag per line, set exactly for the marker lines |
| Render.ListItemsAtMarkers | script.js:368-370 | from any line on, there is one list item per marker line, in order, and each item is that line's item text |
| Render.ListItemsOfLines | script.js:368-370 | the list items of a paragraph's later lines are the item texts of its marker lines, one each, in order |
| Render.SplitHead | script.js:366-367 | the intro (first line) followed by a newline is a prefix of the paragraph |
| Render.FirstLineStart | script.js:366-369 | a text that starts with a character other than a newline has a first line starting with it |
| Render.SplitLinesUnfold | script.js:366 | the lines are the part before the first newline followed by the lines of the rest |
| Render.LineAfterNewline | script.js:365-369 | a newline followed by a marker makes some line after the first start with that marker |
| Render.PairInRest | script.js:365-366 | after an earlier newline the pair still occurs in the rest, shifted |
| Render.NewlineOfMarker | script.js:365-366 | a paragraph with `\n-` or `\n*` has a newline, so it has a second line |
| Render.ListParagraphHasItem | script.js:365-370 | a paragraph detected as a list always yields at least one item |
| Render.MarkerAtStart | script.js:369 | a line that starts with `-` or `*` passes the marker filter |
| Render.SectionBlock | script.js:363-376 | a paragraph becomes a bullet list exactly when it contains `\n-` or `\n*`: its intro is its first line and it has at least one item, one per later marker line; any other paragraph is kept verbatim |
| Render.RenderBlock | script.js:373-375 | every block renders to non-empty markup |
| Render.RenderBlocks | script.js:378 | the joined markup is empty exactly when there are no blocks |
| Render.RenderBlocksAppend | script.js:378 | joining distributes over concatenation of block lists |
| Render.SectionBlocks | script.js:357-378 | one block per paragraph, in order |
| Render.SectionBlocksOf | script.js:363-377 | one section block per paragraph, in order |
| Render.SectionBlocksOfAppend | script.js:363-377 | the blocks of concatenated paragraph lists are the concatenated blocks |
| Render.TextBlocks | script.js:386-393 | one plain paragraph per paragraph, in order |
| Render.TextBlocksOf | script.js:391 | one plain paragraph block per paragraph, in order |
| Render.TextBlocksOfAppend | script.js:391 | the blocks of concatenated paragraph lists are the concatenated blocks |
| Render.FormatSectionContent | script.js:357-381 | the formatted body is empty exactly when the body is all whitespace |
| Render.FormatTextContent | script.js:386-393 | the formatted text is empty exactly when the text is all whitespace |
| Render.SectionFormatWithoutMarkers | script.js:357-393 | a body without a newline followed by a marker is formatted exactly like raw text |
| Render.FormatTextOfParagraphs | script.js:386-393 | formatting depends only on the paragraphs, and concatenated paragraphs give concatenated markup |
| Render.FormatSectionOfParagraphs | script.js:357-381 | the same for section bodies |
| Render.FormatTextAtBlankLine | script.js:386-393 | raw formatting distributes over a blank line that ends the first paragraph |
| Render.FormatSectionAtBlankLine | script.js:357-381 | section formatting distributes over a blank line that ends the first paragraph |
| Render.RenderedSectionsStep | script.js:318-329 | one more key in the loop appends that key's section exactly when it is shown |
| Render.SectionHtml | script.js:320-327 | one section's markup: its title from `getSectionTitle` and its body from `formatSectionContent`; which sections appear is stated by Render.RenderedInKeyOrder |
| Render.StructuredHtml | script.js:304-332 | the structured view: the results box around the shown sections in the fixed tag order, as Render.RenderedInKeyOrder states |
| Render.RawHtml | script.js:339-350 | the raw view: the results box with one `Analysis Results` section holding the formatted response, empty exactly when Render.FormatTextContent says so |
| Render.ResultsHtml | script.js:283-294 | the structured view when the parse found at least one tag, the raw view otherwise |
| Render.ShownPositions | script.js:318-319 | the selected positions increase strictly and are exactly the positions whose section is present and non-empty |
| Render.SectionsAtPrefix | script.js:318-329 | positions within a prefix render the same against the prefix |
| Render.RenderedInKeyOrder | script.js:308-329 | the structured view emits exactly the shown sections, each once, in the fixed tag order, however the map was built |
| Render.RenderedSections | script.js:318-329 | the markup `forEach` over the tag order accumulates: for each key in order, its section if shown; Analyzer.ReportAnalyzer.DisplayStructuredResults keeps its loop equal to this, and Render.RenderedInKeyOrder states which sections it holds |
| Render.Shown | script.js:319 | `if (sections[key])`: the key is present and its body is non-empty, so an empty section is skipped |
| Render.ShownSectionsStep | script.js:318-329 | one more key adds its section at the end exactly when it is shown |
| Render.SectionsAtSnoc | script.js:318-329 | rendering one more position appends that position's section |
| Render.EmptyBodiesRenderNothing | script.js:319 | when every found section is empty, no section is emitted |
| Form.TextField.constructor | script.js:51-52 | a field starts with the value given |
| Analyzer.ValidationError | script.js:125-145 | the checks run in order (trimmed prompt non-empty, trimmed report non-empty, placeholder present), each message given exactly in its case; no message exactly when all three hold |
| Analyzer.FinalPromptSubstitutes | script.js:206-208 | for valid inputs, the expansion of the trimmed report, its `$` patterns applied, replaces the first placeholder of the trimmed prompt; the text before it has no placeholder, and everything after it is kept, later placeholders included |
| Analyzer.FinalPrompt | script.js:206-208 | the prompt sent: the trimmed prompt with its first placeholder replaced by the trimmed report, as Analyzer.FinalPromptSubstitutes and Analyzer.FinalPromptLiteral state |
| Analyzer.FinalPromptLiteral | script.js:206-208 | a report without `$` is inserted literally in place of the first placeholder |
| Analyzer.DollarAmpersandEchoesPlaceholder | script.js:208 | a report containing `$&` puts the placeholder itself back: `a $& b` becomes `a {{COMPANY_REPORT}} b` |
| Analyzer.ViewAfter | script.js:211-228 | an answer is displayed exactly when it arrives while the signal is not aborted, and is then the results view; an answer after an abort leaves the container empty; a thrown error leaves the error box with its notice |
| Analyzer.Displays | script.js:211-214 | the reply is displayed when it is an answer and the signal was not aborted by the time it arrived; Analyzer.ViewAfter and Analyzer.ReportAnalyzer.ShowReply state what is shown in each case |
| Analyzer.ErrorNotice | script.js:222-228 | the notice for a thrown error, as Analyzer.ErrorNoticeCases states |
| Analyzer.ErrorNoticeCases | script.js:222-228 | an `AbortError` is reported as a cancellation; any other error as the failure prefix followed by its message |
| Analyzer.AbortController.constructor | script.js:198 | a new controller is not aborted |
| Analyzer.ReportAnalyzer.constructor | script.js:50-72 | no analysis runs, no controller exists, the intro text is shown and the download section is hidden |
| Analyzer.ReportAnalyzer.ClearFields | script.js:116-120 | the report field is empty, the intro text is back and the download section is hidden |
| Analyzer.ReportAnalyzer.ValidateInputs | script.js:125-145 | succeeds exactly when validation finds no error; on failure the view is that error's box, on success the view is unchanged |
| Analyzer.ReportAnalyzer.ShowLoading | script.js:150-158 | the results are emptied and an analysis is running |
| Analyzer.ReportAnalyzer.HideLoading | script.js:163-171 | no analysis is running and the controller is forgotten |
| Analyzer.ReportAnalyzer.ShowError | script.js:176-182 | the view is an error box with the message |
| Analyzer.ReportAnalyzer.StopAnalysis | script.js:537-542 | aborts the controller exactly when an analysis is running and a controller exists; otherwise nothing changes |
| Analyzer.ReportAnalyzer.DisplayStructuredResults | script.js:304-334 | the view is the structured markup of the sections in the fixed tag order, and the download section is visible |
| Analyzer.ReportAnalyzer.DisplayRawResults | script.js:339-352 | the view is the formatted raw response, and the download section is visible |
| Analyzer.ReportAnalyzer.DisplayResults | script.js:283-299 | the view is the results view the response calls for, and the download section is visible |
| Analyzer.ReportAnalyzer.ShowReply | script.js:211-228 | an answer after an abort changes nothing; otherwise the view is the one the reply calls for; the download section becomes visible exactly when an answer is displayed |
| Analyzer.ReportAnalyzer.AnalyzeReport | script.js:191-233 | invalid input shows its error and sends nothing; valid input sends the substituted prompt, ends with no analysis running and no controller, and leaves the view the reply calls for |
| Analyzer.ReportAnalyzer.Run | script.js:197-232 | whatever the reply, the analysis state is reset at the end, and the view is the one the reply and the abort flag call for |
| CompanyName.StripTags | script.js:400 | text without `<` is unchanged; in the result no `<` is followed anywhere by a `>` |
| CompanyName.StripTagsPlain | script.js:400 | text before the first `<` is kept as it is |
| CompanyName.StripTagsTag | script.js:400 | a `<` with the first `>` after it, and everything between, becomes one space |
| CompanyName.StripTagsUnclosed | script.js:400 | a `<` with no `>` after it is kept, with the rest of the text |
| CompanyName.ReplaceSpaceRuns | script.js:417 | no whitespace remains except as the replacement; it adds no characters outside the kept class; empty exactly when the input is; an all-whitespace input collapses to at most one replacement |
| CompanyName.ReplaceSpaceRunsLength | script.js:417 | collapsing whitespace runs never lengthens the text |
| CompanyName.DeleteUnkept | script.js:418 | the result is no longer than the input, made only of word characters, whitespace and `-`, and text already made of them is unchanged |
| CompanyName.DeleteUnkeptAppend | script.js:418 | deleting works character by character: the result for a concatenation is the concatenation of the results |
| CompanyName.DeleteUnkeptChar | script.js:418 | one character is kept exactly when it is a word character, whitespace or `-` |
| CompanyName.DeleteUnkeptKeeps | script.js:418 | every word character, whitespace character and `-` of the text survives |
| CompanyName.ReplaceSpaceRunsSingle | script.js:417 | on text with no two adjacent whitespace characters, each whitespace character is replaced by the given one and every other character is kept in place |
| CompanyName.ReplaceSpaceRunsKeeps | script.js:417 | every character that is not whitespace survives |
| CompanyName.Normalize | script.js:416-419 | a normalised capture is trimmed, no longer than the capture, and made only of word characters, whitespace and `-` |
| CompanyName.NormalizeKeepsClean | script.js:416-419 | a capture that is already trimmed, single-spaced with plain spaces and made of word characters, spaces and `-` is returned unchanged |
| CompanyName.NormalizeKeepsWordChars | script.js:416-419 | every word character and `-` of the capture is in the result, so only a capture with none of them normalises to the empty text |
| CompanyName.TrimKeepsChars | script.js:419 | trimming keeps the character class |
| CompanyName.Candidate | script.js:415-416 | a capture proposes a name exactly when there is a non-empty capture group |
| CompanyName.Candidates | script.js:413-414 | one candidate per pattern, in pattern order, each from that pattern's capture on the text |
| CompanyName.FirstAccepted | script.js:413-425 | the first candidate of length 3..49 if one exists, with none before it accepted; nothing exactly when none is accepted |
| CompanyName.TryPatterns | script.js:413-425 | the loop returns the first accepted normalised capture, or nothing |
| CompanyName.ExtractCompanyName | script.js:398-453 | the analysis patterns on the tag-stripped, lower-cased analysis first; then, only when the trimmed report is non-empty, the report patterns on it lower-cased; else `Company` |
| CompanyName.CompanyNameOf | script.js:398-453 | the name `extractCompanyName` returns; its choice is stated by CompanyName.ExtractCompanyName, CompanyName.AnalysisTakesPrecedence, CompanyName.BlankReportIgnoresPatterns and CompanyName.FallbackWhenNothingAccepted |
| CompanyName.SkipCapture | script.js:413-425 | a rejected candidate can be skipped, and an accepted one is the answer |
| CompanyName.FirstAcceptableShape | script.js:416-423 | a chosen name is 3..49 characters, trimmed, and made of word characters, whitespace and `-` |
| CompanyName.CompanyNameShape | script.js:398-453 | every extracted name, the fallback included, is 3..49 characters, trimmed, and made of word characters, whitespace and `-` |
| CompanyName.AnalysisTakesPrecedence | script.js:413-428 | once an analysis pattern yields an accepted name, the report and its patterns do not matter |
| CompanyName.AnalysisText | script.js:400 | the text the analysis patterns run on: every tag replaced by a space, then lower-cased; CompanyName.CompanyNameOf matches the analysis patterns against it |
| CompanyName.Acceptable | script.js:421 | the length test of a candidate name, strictly more than 2 and strictly fewer than 50 characters; the same test stands at script.js:445, and CompanyName.FirstAcceptableShape states that every chosen name passes it |
| CompanyName.BlankReportIgnoresPatterns | script.js:428-429 | a blank report means the report patterns are never consulted |
| CompanyName.FallbackWhenNothingAccepted | script.js:452 | with no accepted candidate from either text, the name is exactly `Company` |
| CompanyName.CleanCompanyName | script.js:461-464 | the cleaned name is made only of lower-case letters, digits, `_` and `-` |
| CompanyName.CleanSingleSpaced | script.js:461-464 | a name of kept characters with no two adjacent whitespace characters is cleaned in place: each whitespace character becomes `-` and every other character is lower-cased |
| CompanyName.GenerateFilename | script.js:458-467 | the cleaned name, `-Report-`, the date and `.html`; CompanyName.FilenameRecoversName states that the name can be read back |
| CompanyName.FilenameRecoversName | script.js:458-467 | the filename ends in `.html`, and its first `-Report-` comes right after the cleaned name, so the name can be read back from the filename |
| CompanyName.InfixFirstAfter | script.js:466 | the first `-Report-` after a cleaned name is the one right after it |
| CompanyName.NoInfixInside | script.js:466 | `-Report-` cannot start inside a cleaned name, which has no upper-case letter |
| PdfExtractor.Preflight | script.js:583-597 | the page loop is reached only for a file that passes the type test, is at most 50 MiB and opens as a document with at least one page |
| PdfExtractor.ExtractionCases | script.js:574-663 | a failed check is the extraction's failure; otherwise the extraction is the page loop's outcome, with completed text trimmed |
| PdfExtractor.Extraction | script.js:574-663 | the result of `extractTextFromPDF`, as PdfExtractor.ExtractionCases, PdfExtractor.ChecksComeFirst and PdfExtractor.ExtractionCompleted state |
| PdfExtractor.Pages | script.js:604-646 | the page loop from one page on, as PdfExtractor.PagesCompleted, PdfExtractor.PagesCancelled, PdfExtractor.PagesCancelledAt and PdfExtractor.PagesFailed state |
| PdfExtractor.PagesText | script.js:645 | the page-delimited text of a range of pages, in page order, which PdfExtractor.PagesCompleted names as a completed loop's text |
| PdfExtractor.PagesCompleted | script.js:604-648 | the loop completes exactly when every remaining page passes both checkpoints, renders and is recognised; the text is then the page-delimited texts in page order |
| PdfExtractor.PagesCompletedIff | script.js:604-646 | completion happens exactly when every remaining page goes through |
| PdfExtractor.BaseName | script.js:580 | the recorded base name: the first `.pdf`, matched case-sensitively wherever it stands, is removed, and a name without one is kept; its shape is that of Text.ReplaceFirstLiteral, and PdfExtractor.PdfTextExtractor.ExtractTextFromPdf records it before any check |
| PdfExtractor.IsPdfFile | script.js:583 | the extractor's type test: the MIME type contains `pdf`, or the lower-cased name ends in `.pdf`; PdfExtractor.ChecksComeFirst states that failing it reports the invalid-type message before anything else |
| PdfExtractor.ChooserAccepts | script.js:95 | the file chooser's test: the MIME type is exactly `application/pdf`, or the lower-cased name ends in `.pdf`; PdfExtractor.PdfTextExtractor.ChooseFile keeps a file exactly when it passes |
| PdfExtractor.PageText | script.js:645 | the text appended for one page: a newline, `--- Page <n> ---`, a newline, the recognised text and a final newline; PdfExtractor.PagesCompletedText states that a completed run is the concatenation of these in page order |
| PdfExtractor.PageOk | script.js:604-645 | a page goes through: no cancellation at the entry checkpoint or the one before OCR, rendering succeeds and recognition succeeds; PdfExtractor.PagesCompletedIff and PdfExtractor.PagesCancelledAt characterise the loop by it |
| PdfExtractor.PagesCompletedText | script.js:604-646 | a completed loop's text is the accumulated text followed by the page texts in order |
| PdfExtractor.PagesCancelled | script.js:606-634 | a cancelled loop saw a cancellation at a checkpoint of a page it reached |
| PdfExtractor.PagesCancelledAt | script.js:606-634 | conversely, when every page before some page goes through and that page is cancelled at its entry checkpoint, or renders and is then cancelled before OCR, the loop is cancelled |
| PdfExtractor.PagesFailed | script.js:614-643 | every failure of the loop is some page's rendering or recognition error |
| PdfExtractor.ChecksComeFirst | script.js:583-597 | a wrong type or an oversize file fails with its own message whatever the document holds; a document with no pages fails as empty |
| PdfExtractor.SizeLimitInclusive | script.js:587 | every size up to 50 MiB, the limit included, behaves alike |
| PdfExtractor.ExtractionCompleted | script.js:574-655 | a valid file succeeds exactly when every page goes through, and its text is the trimmed, page-delimited OCR of pages 1..N in order |
| PdfExtractor.ErrorReport | script.js:669-692 | the ordered substring tests give, in this order, the invalid-type, size, empty-or-corrupted, network (`network` or `fetch`) and OCR (`OCR` or `Tesseract`) reports, each with its own summary and details; a message passing none is shown under the generic summary with itself as details |
| PdfExtractor.AbsentCharNotContained | script.js:674-680 | a pattern with a character the message lacks is not contained |
| PdfExtractor.OccursContained | script.js:674-680 | a pattern at a known position is contained |
| PdfExtractor.InvalidTypeCategorised | script.js:584 | the type error thrown by the checks gets the invalid-type report |
| PdfExtractor.TooLargeNotInvalidType | script.js:588 | the size message fails the type test |
| PdfExtractor.TooLargeIsTooLarge | script.js:588 | the size message passes the size test |
| PdfExtractor.TooLargeCategorised | script.js:588 | the size error gets the size report |
| PdfExtractor.EmptyNotInvalidType | script.js:596 | the empty-document message fails the type test |
| PdfExtractor.EmptyNotTooLarge | script.js:596 | the empty-document message fails the size test |
| PdfExtractor.EmptyIsEmpty | script.js:596 | the empty-document message passes the empty test |
| PdfExtractor.EmptyCategorised | script.js:596 | the empty-document error gets the empty-or-corrupted report |
| PdfExtractor.SaveFileNameChoice | script.js:725-731 | the save name is the first non-empty of the custom name, the PDF's base name and `extracted_text`, followed by `.txt` |
| PdfExtractor.SaveFileName | script.js:725-731 | the name a save uses, as PdfExtractor.SaveFileNameChoice states |
| PdfExtractor.PdfTextExtractor.constructor | script.js:554-567 | no text, no base name, not processing, no cancellation, no file, no status, nothing downloaded |
| PdfExtractor.PdfTextExtractor.ResetProcessingState | script.js:911-918 | not processing and no cancellation pending |
| PdfExtractor.PdfTextExtractor.CancelOcr | script.js:877-886 | a cancellation is pending and the status says so |
| PdfExtractor.PdfTextExtractor.HandleError | script.js:669-692 | the status is the category report of the message |
| PdfExtractor.PdfTextExtractor.ExtractTextFromPdf | script.js:574-663 | the outcome is the extraction's; processing is reset on every exit; the text is replaced only on success; the status is success, the cancellation notice, or the error category of the failure |
| PdfExtractor.PdfTextExtractor.Extract | script.js:582-662 | the same for the part after the setup |
| PdfExtractor.PdfTextExtractor.Finish | script.js:648-655 | the trimmed text is stored, returned and announced, and processing is reset |
| PdfExtractor.PdfTextExtractor.PageLoop | script.js:601-646 | the loop runs the page sequence; ending early it returns the loop's own cancellation or failure with processing reset; else the full accumulated text, with the status and processing flag untouched |
| PdfExtractor.PdfTextExtractor.ProcessPage | script.js:604-646 | a page that goes through appends its delimited text and leaves the status and processing flag untouched; one that does not ends the loop with the outcome the loop specification gives |
| PdfExtractor.PdfTextExtractor.Fail | script.js:657-661 | the failure carries the message, the status is its category, and processing is reset |
| PdfExtractor.PdfTextExtractor.ChooseFile | script.js:92-110 | a file is kept exactly when the chooser's test accepts it, and the status then says it is loaded; otherwise nothing changes |
| PdfExtractor.PdfTextExtractor.StartExtract | script.js:930-949 | without a selected file nothing is extracted, the status says so and the text, base name and processing flags are untouched; with one, the outcome, text, base name, status and flags are those of that file's extraction |
| PdfExtractor.PdfTextExtractor.SaveAsTextFile | script.js:718-743 | with no text nothing is offered and an error status is shown; with text, exactly one file is offered, named by the save-name rule and holding the text |
| PdfExtractor.PdfTextExtractor.UseExtractedText | script.js:748-767 | with text and a report field, the field gets the text; with no text the field is untouched and an error status is shown |
| PdfExtractor.PdfTextExtractor.SetExtractedText | script.js:781-786 | the extracted text is the one given |
| PdfExtractor.PdfTextExtractor.ClearExtractedText | script.js:791-799 | text, base name and status are cleared and processing is reset |
| Proxy.HandleClaude | server.js:32-89 | a missing or empty prompt gets 400 and is not forwarded; any other prompt is forwarded unchanged and answered as the provider's response calls for |
| Proxy.StatusPassThrough | server.js:59-80 | a failed upstream response is answered with its own status and an error body |
| Proxy.MessagePrecedence | server.js:60-70 | outside 529 and 429 the message is `error.message` if present, else `message`, else the status line; an unparseable body gives the status line |
| Proxy.FailureMessage | server.js:59-77 | the error message for a failed upstream response, as Proxy.MessagePrecedence and Proxy.StatusOverrides state |
| Proxy.ForwardedReply | server.js:59-88 | the reply to a forwarded prompt, as Proxy.StatusPassThrough and Proxy.SuccessReply state |
| Proxy.StatusOverrides | server.js:73-77 | 529 and 429 get their fixed messages whatever the body said |
| Proxy.StatusLineNamesStatus | server.js:60 | the status line starts with `HTTP ` followed by the status in decimal, which can be read back |
| Proxy.StatusLine | server.js:60 | the default error message `HTTP <status>: <statusText>`, with the status in decimal; Proxy.StatusLineNamesStatus states that the status can be read back from it |
| Proxy.BodyMessage | server.js:60-70 | the message before the 529 and 429 overrides: the body's `error.message` if truthy, else its `message` if truthy, else the status line, and the status line when the body does not parse; Proxy.MessagePrecedence states this order |
| Proxy.SuccessReply | server.js:82-88 | a successful upstream response gives 200 with the content exactly when the content could be read, and 500 with the thrown message otherwise |
| Proxy.DownloadHtml | server.js:92-99 | missing or empty content gets exactly the 400 reply; any other content gets a 200 reply whose HTML is the report page built from it and the date and time |
| Proxy.ReportPage | server.js:101-230 | the report page of an analysis, whose layout Proxy.ReportPageRoundTrip states |
| Proxy.ReportPageRoundTrip | server.js:101-230 | the page starts with the fixed head, the analysis markup follows verbatim, then the footer opening, and the page ends with the fixed tail |
| Proxy.PageLayout | server.js:101-230 | any page built from those pieces has that layout |
| Proxy.ReportPageInjective | server.js:101-230 | for the same date and time, different markup gives different pages |

## Left out

- Whitespace: `trim` and the `\s` class are modelled on ASCII whitespace (space, tab, line feed, carriage return, vertical tab, form feed). JavaScript also treats Unicode spaces as whitespace.
- Case mapping: `toLowerCase`/`toUpperCase` are modelled on ASCII letters only.
- The company-name patterns (script.js:403-411, 431-435) are not compiled as regular expressions. Each is a parameter that maps a text to its first capture. The choice among captures, their clean-up and the length test are modelled exactly.
- CompanyName.ReplaceSpaceRuns: does not state that every character outside a whitespace run is kept in order. Only its character class, its emptiness and the collapse of an all-whitespace input are proved.
- CompanyName.Normalize: the exact result is stated only for captures that are already clean (NormalizeKeepsClean). For others, the model proves the shape, that every word character and `-` survives (NormalizeKeepsWordChars), and the character-by-character steps. The collapse of whitespace runs is stated weaker, as for ReplaceSpaceRuns.
- CompanyName.CleanCompanyName: the character-by-character result is stated only for names without adjacent whitespace (CleanSingleSpaced). Deleting characters can leave two spaces side by side, and such a run becomes one `-`, which the weaker contract of ReplaceSpaceRuns covers.
- Proxy.HandleClaude and Proxy.DownloadHtml take `prompt` and `analysisContent` as optional strings. The source tests JSON values for truthiness (server.js:36, 96), so a truthy value that is not a string, such as a number or an object, is forwarded or embedded there. The model cannot express such a value.
- Render.CapitalizeWords: states only that the length is kept. The character-by-character effect is stated by Render.FallbackTitle.
- HTML templates: the indentation whitespace between tags in the source's template literals is left out of the markup.
- The download page's stylesheet text (server.js:109-215) is reduced to a fixed head without the `<style>` and font link.
- Date and time: the clock is a parameter. The download page takes the date and time as strings. The filename takes the `YYYY-MM-DD` date as a string.
- The server's `Content-Disposition` name built from `Date.now()` (server.js:234) is left out.
- The server's 500 `catch` in the download endpoint (server.js:238-241) is left out: in the model, building the page cannot throw.
- `downloadAnalysis` (script.js:472-515) is left out. It is I/O: a `fetch`, Blob creation and button text. The name and filename it uses are modelled by ExtractCompanyName and GenerateFilename.
- `window.claude.complete` (script.js:7-46) is the `complete` parameter of AnalyzeReport. Its own error-message choice is left out, because it only passes on what the server sends.
- Function results:
  - Run and AnalyzeReport treat the model's reply, and whether the signal was aborted when it arrived, as inputs.
  - The real abort also makes the pending request throw `AbortError`. The model covers that as a `Thrown` reply.
- The `catch` in `displayResults` (script.js:295-297) is left out. Parsing and rendering are total in the model, so it cannot be reached.
- The extractor's collaborators are fields of one environment value:
  - PDF.js loading and rendering;
  - Tesseract recognition;
  - the moments a cancel is requested.
  The canvas, the OCR engine itself and the retry button's markup are left out.
- Progress messages are left out. These are the per-page status texts and the OCR percentage (script.js:599, 612, 640).
- `currentWorker` (script.js:559, 882-885, 914) is left out, because no code path assigns it a worker.
- `getExtractedText`, `isCurrentlyProcessing`, `updateTextArea`, the button enable/disable helpers, `showCancelButton`/`hideCancelButton` and the button visibility changes are left out. They only read a field or touch the DOM.
- The extractor's text area is left out. So are the enabled state of its buttons and the modal's open and close (`openExtractModal`, `closeExtractModal`, the 200 ms timer in `useExtractedText`).
- The Blob/URL failure branch of `saveAsTextFile` (script.js:739-742) is left out.
- The loading indicator, the Analyze button's label and the Stop button's visibility are left out.
- Start-up and exports: script.js registers its start-up handler twice (script.js:984-986, 994-996), so two analyzers listen to the same buttons. The model has one analyzer.
- `config.js` and `config.local.js` are not part of this model. Consequently the API key, model name, token limit and port are left out, along with the request body sent upstream.
- The static file serving and CORS set-up of the server (server.js:16-29, 244-246) are left out.
