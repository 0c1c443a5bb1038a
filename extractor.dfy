/**
 * The PDF OCR extractor (`PDFTextExtractor`): file checks, the page loop
 * with its two cancellation checkpoints, the page-delimited text it
 * accumulates, the error categories it reports, and the guarded save, use
 * and clear operations on the extracted text. Loading, rendering and text
 * recognition are collaborators given as functions.
 */
module PdfExtractor {
  import opened Wrappers
  import opened Text
  import opened Form

  /** The chosen file: its name, MIME type and size in bytes. */
  datatype PdfFile = PdfFile(name: string, mimeType: string, size: nat)

  /** Where the page loop looks at `shouldCancel`: on entering page `n`, and after rendering it. */
  datatype Checkpoint = BeforePage(page: nat) | BeforeOcr(page: nat)

  /**
   * The collaborators of one extraction. `load` reads the file's bytes and
   * opens the document (its page count, or the message it throws); `render` draws a
   * page (the message it throws, if any); `recognize` runs OCR on a rendered
   * page; `cancelled(c)` says whether `cancelOCR` ran during the wait that
   * precedes checkpoint `c`.
   */
  datatype Environment = Environment(
    load: Result<nat>,
    render: nat -> Option<string>,
    recognize: nat -> Result<string>,
    cancelled: Checkpoint -> bool)

  /** How `extractTextFromPDF` ends: with the text, with `null` after a cancellation, or by throwing. */
  datatype Outcome = Completed(text: string) | Cancelled | Failed(message: string)

  /** The status line of the extractor dialog. */
  datatype Status =
    | NoStatus
    | Info(message: string)
    | Success(message: string)
    | Problem(message: string)
    | ErrorWithRetry(summary: string, details: string)

  /** A file offered for download: its name and its text. */
  datatype Download = Download(fileName: string, content: string)

  const MaxFileSize: nat := 50 * 1024 * 1024

  // The three messages the extraction throws, written in pieces so that the
  // verifier can see which of the error tests each of them passes.
  const InvalidTypeMessage: string := "Invalid file type" + ". Please select" + " a PDF file."
  const TooLargeMessage: string := "File too large" + ". Please select" + " a PDF smaller" + " than 50MB."
  const EmptyMessage: string := "PDF appears to be" + " " + "empty or corrupted" + "."
  const CancelledStatus: string := "OCR processing cancelled by user."
  const CompletedStatus: string := "Text extraction completed successfully!"
  const CancellingStatus: string := "Cancelling OCR process..."
  const NothingToSave: string := "No text to save. Please extract text from a PDF first."
  const SavedStatus: string := "Text file saved successfully!"
  const NothingToUse: string := "No text to use. Please extract text from a PDF first."
  const TransferredStatus: string := "Text transferred to report field successfully!"
  const NoFileSelected: string := "No PDF file selected. Please load a PDF file first."
  const FileLoadedStatus: string := "PDF file loaded. Click \"Start Extract\" to begin OCR processing."
  const DefaultBaseName: string := "extracted_text"

  // ---------------------------------------------------------------------------
  // file checks

  /** The check of `extractTextFromPDF`: the type mentions `pdf` or the lower-cased name ends in `.pdf`. */
  predicate IsPdfFile(f: PdfFile) {
    Contains(f.mimeType, "pdf") || EndsWith(ToLower(f.name), ".pdf")
  }

  /** The check of the file chooser: the type is exactly `application/pdf` or the lower-cased name ends in `.pdf`. */
  predicate ChooserAccepts(f: PdfFile) {
    f.mimeType == "application/pdf" || EndsWith(ToLower(f.name), ".pdf")
  }

  /** `pdfFile.name.replace('.pdf', '')`: the first `.pdf`, case-sensitive, removed. */
  function BaseName(name: string): string {
    ReplaceFirst(name, ".pdf", "")
  }

  // ---------------------------------------------------------------------------
  // the extraction, as a function of the file and its collaborators

  /** The text appended for page `n`. */
  function PageText(n: nat, text: string): string {
    "\n--- Page " + NatToString(n) + " ---\n" + text + "\n"
  }

  /** Page `n` goes through: no cancellation at either checkpoint, rendering and OCR succeed. */
  predicate PageOk(env: Environment, n: nat) {
    !env.cancelled(BeforePage(n)) && env.render(n).None? &&
    !env.cancelled(BeforeOcr(n)) && env.recognize(n).Ok?
  }

  /** The delimited text of pages `from..to`, in page order. */
  function PagesText(env: Environment, from: nat, to: nat): string
    decreases to + 1 - from
  {
    if from > to then ""
    else
      var t := match env.recognize(from) case Ok(t) => t case Err(_) => "";
      PageText(from, t) + PagesText(env, from + 1, to)
  }

  /** The page loop from page `n` on, with `acc` accumulated so far; `Completed` carries the untrimmed text. */
  function Pages(env: Environment, numPages: nat, n: nat, acc: string): Outcome
    decreases numPages + 1 - n
  {
    if n > numPages then Completed(acc)
    else if env.cancelled(BeforePage(n)) then Cancelled
    else match env.render(n)
      case Some(e) => Failed(e)
      case None =>
        if env.cancelled(BeforeOcr(n)) then Cancelled
        else match env.recognize(n)
          case Err(e) => Failed(e)
          case Ok(t) => Pages(env, numPages, n + 1, acc + PageText(n, t))
  }

  /** The checks before the page loop, in order: type, size, opening the document, page count. */
  function Preflight(f: PdfFile, load: Result<nat>): (r: Result<nat>)
    ensures r.Ok? ==> IsPdfFile(f) && f.size <= MaxFileSize && load == r && r.value > 0
  {
    if !IsPdfFile(f) then Err(InvalidTypeMessage)
    else if f.size > MaxFileSize then Err(TooLargeMessage)
    else match load
      case Err(e) => Err(e)
      case Ok(numPages) => if numPages == 0 then Err(EmptyMessage) else Ok(numPages)
  }

  /** `extractTextFromPDF`: the checks, then the pages 1..N, the text trimmed at the end. */
  function Extraction(f: PdfFile, env: Environment): Outcome {
    match Preflight(f, env.load)
    case Err(e) => Failed(e)
    case Ok(numPages) =>
      match Pages(env, numPages, 1, "")
      case Completed(all) => Completed(Trim(all))
      case other => other
  }

  /** How `Extraction` follows from the checks and the page loop. */
  lemma ExtractionCases(f: PdfFile, env: Environment)
    ensures Preflight(f, env.load).Err? ==> Extraction(f, env) == Failed(Preflight(f, env.load).message)
    ensures Preflight(f, env.load).Ok? ==>
      var all := Pages(env, Preflight(f, env.load).value, 1, "");
      Extraction(f, env) == if all.Completed? then Completed(Trim(all.text)) else all
  {
  }

  /** The page loop completes exactly when every remaining page goes through, with the pages' text in order. */
  lemma PagesCompleted(env: Environment, numPages: nat, n: nat, acc: string)
    requires n >= 1
    ensures Pages(env, numPages, n, acc).Completed? <==> forall q :: n <= q <= numPages ==> PageOk(env, q)
    ensures Pages(env, numPages, n, acc).Completed? ==>
              Pages(env, numPages, n, acc).text == acc + PagesText(env, n, numPages)
  {
    PagesCompletedIff(env, numPages, n, acc);
    if Pages(env, numPages, n, acc).Completed? {
      PagesCompletedText(env, numPages, n, acc);
    }
  }

  lemma {:induction false} PagesCompletedIff(env: Environment, numPages: nat, n: nat, acc: string)
    requires n >= 1
    ensures Pages(env, numPages, n, acc).Completed? <==> forall q :: n <= q <= numPages ==> PageOk(env, q)
    decreases numPages + 1 - n
  {
    if n <= numPages {
      if PageOk(env, n) {
        var next := acc + PageText(n, env.recognize(n).value);
        PagesCompletedIff(env, numPages, n + 1, next);
        assert Pages(env, numPages, n, acc) == Pages(env, numPages, n + 1, next);
        assert (forall q :: n <= q <= numPages ==> PageOk(env, q)) <==>
               (forall q :: n + 1 <= q <= numPages ==> PageOk(env, q));
      } else {
        assert !Pages(env, numPages, n, acc).Completed?;
      }
    }
  }

  lemma {:induction false} PagesCompletedText(env: Environment, numPages: nat, n: nat, acc: string)
    requires n >= 1
    requires Pages(env, numPages, n, acc).Completed?
    ensures Pages(env, numPages, n, acc).text == acc + PagesText(env, n, numPages)
    decreases numPages + 1 - n
  {
    if n > numPages {
      assert acc + PagesText(env, n, numPages) == acc;
    } else {
      var next := acc + PageText(n, env.recognize(n).value);
      assert Pages(env, numPages, n, acc) == Pages(env, numPages, n + 1, next);
      PagesCompletedText(env, numPages, n + 1, next);
      assert next + PagesText(env, n + 1, numPages) == acc + PagesText(env, n, numPages);
    }
  }

  /** A cancelled loop saw a cancellation at one of the checkpoints of a page it reached. */
  lemma {:induction false} PagesCancelled(env: Environment, numPages: nat, n: nat, acc: string)
    requires Pages(env, numPages, n, acc).Cancelled?
    ensures exists q :: n <= q <= numPages && (env.cancelled(BeforePage(q)) || env.cancelled(BeforeOcr(q)))
    decreases numPages + 1 - n
  {
    if !env.cancelled(BeforePage(n)) && !env.cancelled(BeforeOcr(n)) {
      PagesCancelled(env, numPages, n + 1, acc + PageText(n, env.recognize(n).value));
    }
  }

  /**
   * Conversely, the loop is cancelled when every page before `q` goes
   * through and page `q` is cancelled at its entry checkpoint, or renders
   * and is then cancelled before OCR.
   */
  lemma {:induction false} PagesCancelledAt(env: Environment, numPages: nat, n: nat, acc: string, q: nat)
    requires n <= q <= numPages
    requires forall p :: n <= p < q ==> PageOk(env, p)
    requires env.cancelled(BeforePage(q)) || (env.render(q).None? && env.cancelled(BeforeOcr(q)))
    ensures Pages(env, numPages, n, acc).Cancelled?
    decreases q - n
  {
    if n < q {
      assert PageOk(env, n);
      PagesCancelledAt(env, numPages, n + 1, acc + PageText(n, env.recognize(n).value), q);
    }
  }

  /** Every failure of the loop is a page's rendering or recognition failure. */
  lemma {:induction false} PagesFailed(env: Environment, numPages: nat, n: nat, acc: string)
    requires Pages(env, numPages, n, acc).Failed?
    ensures exists q :: (n <= q <= numPages &&
      (env.render(q) == Some(Pages(env, numPages, n, acc).message) ||
       env.recognize(q) == Err(Pages(env, numPages, n, acc).message)))
    decreases numPages + 1 - n
  {
    if env.render(n).None? && env.recognize(n).Ok? {
      PagesFailed(env, numPages, n + 1, acc + PageText(n, env.recognize(n).value));
    }
  }

  /**
   * A file that is not a PDF, or larger than 50 MiB, fails with its own
   * message before the document is opened; so does a document with no pages.
   */
  lemma ChecksComeFirst(f: PdfFile, env: Environment)
    ensures !IsPdfFile(f) ==> Extraction(f, env) == Failed(InvalidTypeMessage)
    ensures IsPdfFile(f) && f.size > MaxFileSize ==> Extraction(f, env) == Failed(TooLargeMessage)
    ensures IsPdfFile(f) && f.size <= MaxFileSize && env.load == Ok(0) ==> Extraction(f, env) == Failed(EmptyMessage)
    ensures !IsPdfFile(f) || f.size > MaxFileSize ==>
              forall env2: Environment :: Extraction(f, env2) == Extraction(f, env)
  {
  }

  /** The size limit is inclusive: a file of exactly 50 MiB fares as an empty one. */
  lemma SizeLimitInclusive(f: PdfFile, env: Environment)
    requires f.size <= MaxFileSize
    ensures Extraction(f, env) == Extraction(f.(size := 0), env)
  {
  }

  /**
   * A successful extraction is the trimmed concatenation of the delimited
   * text of pages 1..N in order, and it happens exactly when every page goes
   * through.
   */
  lemma ExtractionCompleted(f: PdfFile, env: Environment, numPages: nat)
    requires IsPdfFile(f) && f.size <= MaxFileSize && env.load == Ok(numPages) && numPages > 0
    ensures Extraction(f, env).Completed? <==> forall q :: 1 <= q <= numPages ==> PageOk(env, q)
    ensures Extraction(f, env).Completed? ==> Extraction(f, env).text == Trim(PagesText(env, 1, numPages))
  {
    PagesCompleted(env, numPages, 1, "");
    assert "" + PagesText(env, 1, numPages) == PagesText(env, 1, numPages);
  }

  // ---------------------------------------------------------------------------
  // error categories

  // The reports of the five recognised categories.
  const InvalidTypeReport: Status := ErrorWithRetry("Invalid file type selected.",
    "Please make sure you selected a PDF file (.pdf extension).")
  const TooLargeReport: Status := ErrorWithRetry("File size too large.",
    "The PDF file exceeds the 50MB limit. Please try a smaller file or compress the PDF.")
  const CorruptReport: Status := ErrorWithRetry("PDF file appears to be corrupted or empty.",
    "The PDF file could not be read properly. Please try a different PDF file.")
  const NetworkReport: Status := ErrorWithRetry("Network error occurred.",
    "There was a problem loading the required libraries. Please check your internet connection and try again.")
  const OcrReport: Status := ErrorWithRetry("OCR processing failed.",
    "The text recognition process encountered an error. This might be due to poor image quality or unsupported text format.")

  /** The summary and details `handleError` shows for a thrown message, by ordered substring tests. */
  function ErrorReport(message: string): (r: Status)
    ensures r.ErrorWithRetry?
    ensures Contains(message, "Invalid file type") ==>
              r == InvalidTypeReport
    ensures !Contains(message, "Invalid file type") && Contains(message, "File too large") ==>
              r == TooLargeReport
    ensures !Contains(message, "Invalid file type") && !Contains(message, "File too large") &&
            Contains(message, "empty or corrupted") ==>
              r == CorruptReport
    ensures !Contains(message, "Invalid file type") && !Contains(message, "File too large") &&
            !Contains(message, "empty or corrupted") &&
            (Contains(message, "network") || Contains(message, "fetch")) ==>
              r == NetworkReport
    ensures !Contains(message, "Invalid file type") && !Contains(message, "File too large") &&
            !Contains(message, "empty or corrupted") && !Contains(message, "network") &&
            !Contains(message, "fetch") && (Contains(message, "OCR") || Contains(message, "Tesseract")) ==>
              r == OcrReport
    ensures !Contains(message, "Invalid file type") && !Contains(message, "File too large") &&
            !Contains(message, "empty or corrupted") && !Contains(message, "network") &&
            !Contains(message, "fetch") && !Contains(message, "OCR") && !Contains(message, "Tesseract") ==>
              r == ErrorWithRetry("An error occurred during text extraction.", message)
  {
    if Contains(message, "Invalid file type") then
      InvalidTypeReport
    else if Contains(message, "File too large") then
      TooLargeReport
    else if Contains(message, "empty or corrupted") then
      CorruptReport
    else if Contains(message, "network") || Contains(message, "fetch") then
      NetworkReport
    else if Contains(message, "OCR") || Contains(message, "Tesseract") then
      OcrReport
    else
      ErrorWithRetry("An error occurred during text extraction.", message)
  }

  /** A pattern with a character the text lacks does not occur in it. */
  lemma AbsentCharNotContained(s: string, p: string, k: nat)
    requires k < |p| && p[k] !in s
    ensures !Contains(s, p)
  {
    ContainsIff(s, p);
    forall j | 0 <= j && j + |p| <= |s| ensures !OccursAt(s, p, j) {
      assert s[j..j + |p|][k] == s[j + k];
    }
  }

  /** A pattern at a known position is contained. */
  lemma OccursContained(s: string, p: string, k: nat)
    requires OccursAt(s, p, k)
    ensures Contains(s, p)
  {
    ContainsIff(s, p);
  }

  /** The invalid-type message lands in the invalid-type category. */
  lemma InvalidTypeCategorised()
    ensures ErrorReport(InvalidTypeMessage) == InvalidTypeReport
  {
    OccursContained(InvalidTypeMessage, "Invalid file type", 0);
  }

  /** The size message fails the invalid-type test. */
  lemma TooLargeNotInvalidType()
    ensures !Contains(TooLargeMessage, "Invalid file type")
  {
    AbsentCharNotContained(TooLargeMessage, "Invalid file type", 0);
  }

  /** The size message passes the size test. */
  lemma TooLargeIsTooLarge()
    ensures Contains(TooLargeMessage, "File too large")
  {
    OccursContained(TooLargeMessage, "File too large", 0);
  }

  /** The size message lands in the size category. */
  lemma TooLargeCategorised()
    ensures ErrorReport(TooLargeMessage) == TooLargeReport
  {
    TooLargeNotInvalidType();
    TooLargeIsTooLarge();
  }

  /** The empty-document message fails the invalid-type test. */
  lemma EmptyNotInvalidType()
    ensures !Contains(EmptyMessage, "Invalid file type")
  {
    AbsentCharNotContained(EmptyMessage, "Invalid file type", 0);
  }

  /** The empty-document message fails the size test. */
  lemma EmptyNotTooLarge()
    ensures !Contains(EmptyMessage, "File too large")
  {
    AbsentCharNotContained(EmptyMessage, "File too large", 1);
  }

  /** The empty-document message passes the empty-document test. */
  lemma EmptyIsEmpty()
    ensures Contains(EmptyMessage, "empty or corrupted")
  {
    OccursContained(EmptyMessage, "empty or corrupted", 18);
  }

  /** The empty-document message lands in its own category. */
  lemma EmptyCategorised()
    ensures ErrorReport(EmptyMessage) == CorruptReport
  {
    EmptyNotInvalidType();
    EmptyNotTooLarge();
    EmptyIsEmpty();
  }

  // ---------------------------------------------------------------------------
  // save

  /** `customFileName || this.pdfFileName || 'extracted_text'`, then `.txt`. */
  function SaveFileName(custom: Option<string>, pdfFileName: string): string {
    if custom.Some? && custom.value != "" then custom.value + ".txt"
    else if pdfFileName != "" then pdfFileName + ".txt"
    else DefaultBaseName + ".txt"
  }

  /** The save name is the first non-empty of the custom name, the PDF's base name and `extracted_text`, with `.txt` added. */
  lemma SaveFileNameChoice(custom: Option<string>, pdfFileName: string)
    ensures var n := SaveFileName(custom, pdfFileName);
      EndsWith(n, ".txt") && |n| > 4 &&
      n[..|n| - 4] == (if custom.Some? && custom.value != "" then custom.value
                       else if pdfFileName != "" then pdfFileName else DefaultBaseName)
  {
    var n := SaveFileName(custom, pdfFileName);
    var base := if custom.Some? && custom.value != "" then custom.value
                else if pdfFileName != "" then pdfFileName else DefaultBaseName;
    assert n == base + ".txt";
    assert n[..|n| - 4] == base;
    assert n[|n| - 4..] == ".txt";
  }

  // ---------------------------------------------------------------------------
  // the extractor object

  class PdfTextExtractor {
    var extractedText: string
    var pdfFileName: string
    var isProcessing: bool
    var shouldCancel: bool
    var selectedFile: Option<PdfFile>
    var status: Status
    /** The files offered for download so far. */
    var downloads: seq<Download>

    constructor ()
      ensures extractedText == "" && pdfFileName == "" && !isProcessing && !shouldCancel
      ensures selectedFile == None && status == NoStatus && downloads == []
    {
      extractedText := "";
      pdfFileName := "";
      isProcessing := false;
      shouldCancel := false;
      selectedFile := None;
      status := NoStatus;
      downloads := [];
    }

    /** `resetProcessingState`. */
    method ResetProcessingState()
      modifies this`isProcessing, this`shouldCancel
      ensures !isProcessing && !shouldCancel
    {
      isProcessing := false;
      shouldCancel := false;
    }

    /** `cancelOCR`: request cancellation; the page loop honours it at its next checkpoint. */
    method CancelOcr()
      modifies this`shouldCancel, this`status
      ensures shouldCancel && status == Info(CancellingStatus)
    {
      shouldCancel := true;
      status := Info(CancellingStatus);
    }

    /** `handleError`: show the category of the thrown message. */
    method HandleError(message: string)
      modifies this`status
      ensures status == ErrorReport(message)
    {
      status := ErrorReport(message);
    }

    /**
     * `extractTextFromPDF`. Consulting `env.cancelled` before each checkpoint
     * stands for a `cancelOCR` that ran while the loop was waiting.
     */
    method ExtractTextFromPdf(f: PdfFile, env: Environment) returns (outcome: Outcome)
      modifies this`isProcessing, this`shouldCancel, this`status, this`pdfFileName,
               this`extractedText
      ensures outcome == Extraction(f, env)
      ensures !isProcessing && !shouldCancel
      ensures pdfFileName == BaseName(f.name)
      ensures extractedText == (if outcome.Completed? then outcome.text else old(extractedText))
      ensures outcome.Completed? ==> status == Success(CompletedStatus)
      ensures outcome.Cancelled? ==> status == Info(CancelledStatus)
      ensures outcome.Failed? ==> status == ErrorReport(outcome.message)
    {
      isProcessing := true;
      shouldCancel := false;
      status := Info("Loading PDF file...");
      pdfFileName := BaseName(f.name);
      outcome := Extract(f, env);
    }

    /** The body of `extractTextFromPDF` after the setup: the checks, the page loop and the end. */
    method Extract(f: PdfFile, env: Environment) returns (outcome: Outcome)
      requires !shouldCancel
      modifies this`isProcessing, this`shouldCancel, this`status, this`extractedText
      ensures outcome == Extraction(f, env)
      ensures !isProcessing && !shouldCancel
      ensures extractedText == (if outcome.Completed? then outcome.text else old(extractedText))
      ensures outcome.Completed? ==> status == Success(CompletedStatus)
      ensures outcome.Cancelled? ==> status == Info(CancelledStatus)
      ensures outcome.Failed? ==> status == ErrorReport(outcome.message)
    {
      var checked := Preflight(f, env.load);
      ExtractionCases(f, env);
      if checked.Err? {
        outcome := Fail(checked.message);
        return;
      }
      var stop, allText := PageLoop(env, checked.value);
      if stop.Some? {
        return stop.value;
      }
      outcome := Finish(allText);
    }

    /** The end of a successful extraction: store and show the trimmed text, enable Save and Use. */
    method Finish(allText: string) returns (outcome: Outcome)
      modifies this`extractedText, this`status, this`isProcessing, this`shouldCancel
      ensures outcome == Completed(Trim(allText))
      ensures extractedText == Trim(allText) && status == Success(CompletedStatus)
      ensures !isProcessing && !shouldCancel
    {
      extractedText := Trim(allText);
      status := Success(CompletedStatus);
      ResetProcessingState();
      return Completed(extractedText);
    }

    /** The page loop of `extractTextFromPDF`, pages 1..N; `stop` is how the extraction ends if it ends early. */
    method PageLoop(env: Environment, numPages: nat) returns (stop: Option<Outcome>, allText: string)
      requires !shouldCancel
      modifies this`shouldCancel, this`status, this`isProcessing
      ensures stop.None? ==> Pages(env, numPages, 1, "") == Completed(allText) && !shouldCancel
      ensures stop.None? ==> status == old(status) && isProcessing == old(isProcessing)
      ensures stop.Some? ==>
                && stop.value == Pages(env, numPages, 1, "") && !stop.value.Completed?
                && !isProcessing && !shouldCancel
      ensures stop == Some(Cancelled) ==> status == Info(CancelledStatus)
      ensures stop.Some? && stop.value.Failed? ==> status == ErrorReport(stop.value.message)
    {
      allText := "";
      var pageNum := 1;
      while pageNum <= numPages
        invariant 1 <= pageNum <= numPages + 1
        invariant Pages(env, numPages, pageNum, allText) == Pages(env, numPages, 1, "")
        invariant !shouldCancel
        invariant status == old(status) && isProcessing == old(isProcessing)
        decreases numPages + 1 - pageNum
      {
        stop, allText := ProcessPage(env, numPages, pageNum, allText);
        if stop.Some? {
          return;
        }
        pageNum := pageNum + 1;
      }
      return None, allText;
    }

    /**
     * One round of the page loop of `extractTextFromPDF`: the entry
     * checkpoint, rendering, the checkpoint before OCR, recognition; `stop`
     * is how the extraction ends if it ends here.
     */
    method ProcessPage(env: Environment, numPages: nat, pageNum: nat, allText: string)
      returns (stop: Option<Outcome>, newText: string)
      requires 1 <= pageNum <= numPages && !shouldCancel
      modifies this`shouldCancel, this`status, this`isProcessing
      ensures stop.None? ==>
                && PageOk(env, pageNum) && !shouldCancel
                && newText == allText + PageText(pageNum, env.recognize(pageNum).value)
                && Pages(env, numPages, pageNum + 1, newText) == Pages(env, numPages, pageNum, allText)
                && status == old(status) && isProcessing == old(isProcessing)
      ensures stop.Some? ==>
                && stop.value == Pages(env, numPages, pageNum, allText) && !stop.value.Completed?
                && !isProcessing && !shouldCancel
      ensures stop == Some(Cancelled) ==> status == Info(CancelledStatus)
      ensures stop.Some? && stop.value.Failed? ==> status == ErrorReport(stop.value.message)
    {
      newText := allText;
      if env.cancelled(BeforePage(pageNum)) {
        CancelOcr();
      }
      if shouldCancel {
        status := Info(CancelledStatus);
        ResetProcessingState();
        return Some(Cancelled), newText;
      }
      var rendered := env.render(pageNum);
      if rendered.Some? {
        var o := Fail(rendered.value);
        return Some(o), newText;
      }
      if env.cancelled(BeforeOcr(pageNum)) {
        CancelOcr();
      }
      if shouldCancel {
        status := Info(CancelledStatus);
        ResetProcessingState();
        return Some(Cancelled), newText;
      }
      var result := env.recognize(pageNum);
      if result.Err? {
        var o := Fail(result.message);
        return Some(o), newText;
      }
      newText := allText + "\n--- Page " + NatToString(pageNum) + " ---\n" + result.value + "\n";
      return None, newText;
    }

    /** The `catch` of `extractTextFromPDF`: report the error, reset, rethrow. */
    method Fail(message: string) returns (outcome: Outcome)
      modifies this`status, this`isProcessing, this`shouldCancel
      ensures outcome == Failed(message)
      ensures status == ErrorReport(message) && !isProcessing && !shouldCancel
    {
      HandleError(message);
      ResetProcessingState();
      return Failed(message);
    }

    /** The file chooser's `change` handler: keep the file if it passes the chooser's check. */
    method ChooseFile(f: PdfFile) returns (accepted: bool)
      modifies this`selectedFile, this`status
      ensures accepted <==> ChooserAccepts(f)
      ensures accepted ==> selectedFile == Some(f) && status == Info(FileLoadedStatus)
      ensures !accepted ==> selectedFile == old(selectedFile) && status == old(status)
    {
      if f.mimeType != "application/pdf" && !EndsWith(ToLower(f.name), ".pdf") {
        return false;
      }
      selectedFile := Some(f);
      status := Info(FileLoadedStatus);
      return true;
    }

    /** `startExtract`: extract the selected file, or report that none is selected. */
    method StartExtract(env: Environment) returns (outcome: Option<Outcome>)
      modifies this`isProcessing, this`shouldCancel, this`status, this`pdfFileName,
               this`extractedText
      ensures old(selectedFile).None? ==> outcome.None? && status == Problem(NoFileSelected)
      ensures old(selectedFile).None? ==>
                && extractedText == old(extractedText) && pdfFileName == old(pdfFileName)
                && isProcessing == old(isProcessing) && shouldCancel == old(shouldCancel)
      ensures old(selectedFile).Some? ==>
                var f := old(selectedFile).value;
                && outcome == Some(Extraction(f, env))
                && !isProcessing && !shouldCancel
                && pdfFileName == BaseName(f.name)
                && extractedText == (if outcome.value.Completed? then outcome.value.text else old(extractedText))
                && (outcome.value.Completed? ==> status == Success(CompletedStatus))
                && (outcome.value.Cancelled? ==> status == Info(CancelledStatus))
                && (outcome.value.Failed? ==> status == ErrorReport(outcome.value.message))
    {
      if selectedFile.None? {
        status := Problem(NoFileSelected);
        return None;
      }
      var o := ExtractTextFromPdf(selectedFile.value, env);
      return Some(o);
    }

    /** `saveAsTextFile`: offer the extracted text for download, if there is any. */
    method SaveAsTextFile(custom: Option<string>)
      modifies this`downloads, this`status
      ensures old(extractedText) == "" ==> downloads == old(downloads) && status == Problem(NothingToSave)
      ensures old(extractedText) != "" ==>
                && downloads == old(downloads) + [Download(SaveFileName(custom, pdfFileName), extractedText)]
                && status == Success(SavedStatus)
    {
      if extractedText == "" {
        status := Problem(NothingToSave);
        return;
      }
      downloads := downloads + [Download(SaveFileName(custom, pdfFileName), extractedText)];
      status := Success(SavedStatus);
    }

    /** `useExtractedText`: copy the extracted text into the report field, if there is text and a field. */
    method UseExtractedText(reportField: TextField?)
      modifies reportField, this`status
      ensures extractedText == "" ==>
                status == Problem(NothingToUse) && (reportField != null ==> reportField.value == old(reportField.value))
      ensures extractedText != "" && reportField != null ==>
                reportField.value == extractedText && status == Success(TransferredStatus)
      ensures extractedText != "" && reportField == null ==> status == old(status)
    {
      if extractedText == "" {
        status := Problem(NothingToUse);
        return;
      }
      if reportField != null {
        reportField.value := extractedText;
        status := Success(TransferredStatus);
      }
    }

    /** `setExtractedText`. */
    method SetExtractedText(text: string)
      modifies this`extractedText
      ensures extractedText == text
    {
      extractedText := text;
    }

    /** `clearExtractedText`: forget the text and the file's base name, and reset processing. */
    method ClearExtractedText()
      modifies this`extractedText, this`pdfFileName, this`status, this`isProcessing, this`shouldCancel
      ensures extractedText == "" && pdfFileName == "" && status == NoStatus
      ensures !isProcessing && !shouldCancel
    {
      extractedText := "";
      pdfFileName := "";
      status := NoStatus;
      ResetProcessingState();
    }
  }
}
