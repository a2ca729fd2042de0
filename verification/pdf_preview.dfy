/** The preview component: loading a document and stepping through its pages with the
    previous/next buttons, which stay within the page range. */
module PdfPreview {
  import opened Wrappers

  datatype PreviewError = ReadFailed | LoadFailed | UnexpectedFailure | RenderFailed {
    /** The message shown for the error. */
    function Message(): string {
      match this
      case ReadFailed => "Failed to read the file. Please try again."
      case LoadFailed => "Failed to load PDF document. The file might be corrupted."
      case UnexpectedFailure => "An unexpected error occurred while loading the PDF."
      case RenderFailed => "Failed to render this page. Please try another page or reload the document."
    }
  }

  /** The preview state; `hasDocument` stands for the loaded pdf.js document. */
  datatype PreviewState = PreviewState(
    isLoading: bool,
    error: Option<PreviewError>,
    hasDocument: bool,
    currentPage: int,
    numPages: nat)

  const Initial := PreviewState(true, None, false, 1, 0)

  /** The page shown is a real page number: at least 1, and at most the page count
      once a document with pages is loaded. */
  predicate PageInRange(s: PreviewState) {
    1 <= s.currentPage && (s.numPages >= 1 ==> s.currentPage <= s.numPages)
  }

  /** The effect run when the file changes: without a file loading stops and nothing
      else changes, otherwise loading starts afresh with no error. */
  function StartLoading(s: PreviewState, hasFile: bool): (r: PreviewState)
    ensures r.isLoading == hasFile
    ensures hasFile ==> r.error == None
    ensures !hasFile ==> r.error == s.error
    ensures r.currentPage == s.currentPage && r.numPages == s.numPages && r.hasDocument == s.hasDocument
  {
    if !hasFile then s.(isLoading := false) else s.(isLoading := true, error := None)
  }

  /** A document with `pageCount` pages was loaded: it is shown from its first page; an
      error already shown stays, since success does not clear it. */
  function LoadSucceeded(s: PreviewState, pageCount: nat): (r: PreviewState)
    ensures r.hasDocument && r.numPages == pageCount && r.currentPage == 1 && !r.isLoading
    ensures r.error == s.error
    ensures PageInRange(r)
  {
    s.(hasDocument := true, numPages := pageCount, currentPage := 1, isLoading := false)
  }

  /** Reading or parsing the file failed: that error is shown and loading stops; the
      page position and any loaded document are untouched. */
  function LoadFailedWith(s: PreviewState, e: PreviewError): (r: PreviewState)
    requires e != RenderFailed
    ensures r.error == Some(e) && !r.isLoading
    ensures r.currentPage == s.currentPage && r.numPages == s.numPages && r.hasDocument == s.hasDocument
  {
    s.(error := Some(e), isLoading := false)
  }

  /** Rendering the current page failed: only the error changes. */
  function RenderFailedAt(s: PreviewState): (r: PreviewState)
    ensures r.error == Some(RenderFailed)
    ensures r == s.(error := Some(RenderFailed))
  {
    s.(error := Some(RenderFailed))
  }

  /** `goToPreviousPage`. */
  function GoToPreviousPage(s: PreviewState): (r: PreviewState)
    ensures s.currentPage > 1 ==> r == s.(currentPage := s.currentPage - 1)
    ensures s.currentPage <= 1 ==> r == s
  {
    if s.currentPage > 1 then s.(currentPage := s.currentPage - 1) else s
  }

  /** `goToNextPage`. */
  function GoToNextPage(s: PreviewState): (r: PreviewState)
    ensures s.currentPage < s.numPages ==> r == s.(currentPage := s.currentPage + 1)
    ensures s.currentPage >= s.numPages ==> r == s
  {
    if s.currentPage < s.numPages then s.(currentPage := s.currentPage + 1) else s
  }

  /** The previous button's `disabled` condition. */
  predicate PreviousDisabled(s: PreviewState) {
    s.currentPage <= 1
  }

  /** The next button's `disabled` condition. */
  predicate NextDisabled(s: PreviewState) {
    s.currentPage >= s.numPages
  }

  /** A button is disabled exactly when pressing it would change nothing. */
  lemma DisabledIffNoOp(s: PreviewState)
    ensures PreviousDisabled(s) <==> GoToPreviousPage(s) == s
    ensures NextDisabled(s) <==> GoToNextPage(s) == s
  {
    if !PreviousDisabled(s) {
      assert GoToPreviousPage(s).currentPage != s.currentPage;
    }
    if !NextDisabled(s) {
      assert GoToNextPage(s).currentPage != s.currentPage;
    }
  }

  /** Everything that can happen to the preview. */
  datatype PreviewEvent =
    | FileChanged(hasFile: bool)
    | Loaded(pageCount: nat)
    | Failed(cause: PreviewError)
    | Previous
    | Next

  function Step(s: PreviewState, e: PreviewEvent): PreviewState {
    match e
    case FileChanged(hasFile) => StartLoading(s, hasFile)
    case Loaded(n) => LoadSucceeded(s, n)
    case Failed(cause) => if cause == RenderFailed then RenderFailedAt(s) else LoadFailedWith(s, cause)
    case Previous => GoToPreviousPage(s)
    case Next => GoToNextPage(s)
  }

  function Run(s: PreviewState, events: seq<PreviewEvent>): PreviewState
    decreases |events|
  {
    if events == [] then s else Run(Step(s, events[0]), events[1..])
  }

  /** Each step keeps the page in range. */
  lemma StepKeepsPageInRange(s: PreviewState, e: PreviewEvent)
    requires PageInRange(s)
    ensures PageInRange(Step(s, e))
  {
  }

  /** Starting from the initial state, the page is in range after any events. */
  lemma {:induction false} RunKeepsPageInRange(s: PreviewState, events: seq<PreviewEvent>)
    requires PageInRange(s)
    ensures PageInRange(Run(s, events))
    decreases |events|
  {
    if events != [] {
      StepKeepsPageInRange(s, events[0]);
      RunKeepsPageInRange(Step(s, events[0]), events[1..]);
    }
  }

  /** The preview starts on page 1 and stays in range whatever happens to it. */
  lemma PageAlwaysInRange(events: seq<PreviewEvent>)
    ensures Initial.currentPage == 1 && Initial.isLoading
    ensures PageInRange(Run(Initial, events))
  {
    RunKeepsPageInRange(Initial, events);
  }

  function Repeat(e: PreviewEvent, n: nat): (r: seq<PreviewEvent>)
    ensures |r| == n && forall k :: 0 <= k < n ==> r[k] == e
  {
    if n == 0 then [] else [e] + Repeat(e, n - 1)
  }

  /** Pressing next `n` times from an in-range page moves `n` pages on, stopping at
      the last page. */
  lemma {:induction false} NextRepeated(s: PreviewState, n: nat)
    requires 1 <= s.currentPage <= s.numPages
    ensures Run(s, Repeat(Next, n)) ==
            s.(currentPage := if s.currentPage + n <= s.numPages then s.currentPage + n else s.numPages)
    decreases n
  {
    if n > 0 {
      assert Repeat(Next, n)[1..] == Repeat(Next, n - 1);
      NextRepeated(GoToNextPage(s), n - 1);
    }
  }

  /** Pressing previous `n` times moves `n` pages back, stopping at the first page. */
  lemma {:induction false} PreviousRepeated(s: PreviewState, n: nat)
    requires 1 <= s.currentPage
    ensures Run(s, Repeat(Previous, n)) ==
            s.(currentPage := if s.currentPage - n >= 1 then s.currentPage - n else 1)
    decreases n
  {
    if n > 0 {
      assert Repeat(Previous, n)[1..] == Repeat(Previous, n - 1);
      PreviousRepeated(GoToPreviousPage(s), n - 1);
    }
  }
}
