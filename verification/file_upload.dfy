/** The upload component: a dropped or chosen file is accepted only if it is a PDF of
    at most 10 MB; drag events toggle the highlight, and reset clears the selection. */
module FileUpload {
  import opened Wrappers

  /** A browser `File`: its name, MIME type and size in bytes. */
  datatype File = File(name: string, mimeType: string, size: nat)

  const PdfMimeType: string := "application/pdf"

  /** The size limit in bytes: 10 · 1024 · 1024. */
  const MaxFileSize: nat := 10 * 1024 * 1024

  datatype UploadError = NotPdf | TooLarge {
    /** The message shown for the error. */
    function Message(): string {
      match this
      case NotPdf => "Please upload a PDF file. Other file types are not supported."
      case TooLarge => "File is too large. Maximum size is 10MB."
    }
  }

  datatype UploadState = UploadState(
    isDragging: bool,
    selectedFile: Option<File>,
    isLoading: bool,
    error: Option<UploadError>)

  const Initial := UploadState(false, None, false, None)

  /** The checks of `validateAndProcessFile`, in order: the type first, then the size. */
  function Validate(f: File): (r: Result<File, UploadError>)
    ensures r.Success? <==> f.mimeType == PdfMimeType && f.size <= MaxFileSize
    ensures r.Success? ==> r.value == f
    ensures r == Failure(NotPdf) <==> f.mimeType != PdfMimeType
    ensures r == Failure(TooLarge) <==> f.mimeType == PdfMimeType && f.size > MaxFileSize
  {
    if f.mimeType != PdfMimeType then Failure(NotPdf)
    else if f.size > MaxFileSize then Failure(TooLarge)
    else Success(f)
  }

  /** The limit is inclusive: a PDF of exactly 10485760 bytes is accepted and one a
      byte larger is refused; any other type is refused whatever its size. */
  lemma SizeBoundary(name: string, mimeType: string, size: nat)
    ensures Validate(File(name, PdfMimeType, 10485760)).Success?
    ensures Validate(File(name, PdfMimeType, 10485761)) == Failure(TooLarge)
    ensures mimeType != PdfMimeType ==> Validate(File(name, mimeType, size)) == Failure(NotPdf)
  {
  }

  /** `validateAndProcessFile`: the error is cleared; a rejected file sets the error
      and leaves the selection alone; an accepted one becomes the selection and starts
      the loading indicator. */
  function ValidateAndProcessFile(s: UploadState, f: File): (r: UploadState)
    ensures r.isDragging == s.isDragging
    ensures Validate(f).Success? ==> r.selectedFile == Some(f) && r.isLoading && r.error == None
    ensures Validate(f).Failure? ==>
              && r.selectedFile == s.selectedFile
              && r.isLoading == s.isLoading
              && r.error == Some(Validate(f).error)
  {
    match Validate(f)
    case Failure(e) => s.(error := Some(e))
    case Success(_) => s.(selectedFile := Some(f), isLoading := true, error := None)
  }

  /** The delayed end of processing: the loading indicator stops (the file then goes
      to the parent, see `App.HandleFileUpload`). */
  function ProcessingElapsed(s: UploadState): (r: UploadState)
    ensures !r.isLoading
    ensures r.selectedFile == s.selectedFile && r.error == s.error && r.isDragging == s.isDragging
  {
    s.(isLoading := false)
  }

  function HandleDragEnter(s: UploadState): (r: UploadState)
    ensures r.isDragging && r == s.(isDragging := true)
  {
    s.(isDragging := true)
  }

  function HandleDragLeave(s: UploadState): (r: UploadState)
    ensures !r.isDragging && r == s.(isDragging := false)
  {
    s.(isDragging := false)
  }

  /** Dragging over sets the flag only when it is not already set. */
  function HandleDragOver(s: UploadState): (r: UploadState)
    ensures r.isDragging && r == s.(isDragging := true)
  {
    if !s.isDragging then s.(isDragging := true) else s
  }

  /** `handleDrop`: the highlight and the error are cleared, and only the first dropped
      file, if any, is validated. */
  function HandleDrop(s: UploadState, files: seq<File>): (r: UploadState)
    ensures !r.isDragging
    ensures files == [] ==> r == s.(isDragging := false, error := None)
    ensures files != [] ==> r == ValidateAndProcessFile(s.(isDragging := false, error := None), files[0])
  {
    var cleared := s.(isDragging := false, error := None);
    if |files| > 0 then ValidateAndProcessFile(cleared, files[0]) else cleared
  }

  /** `handleFileInputChange`: only the first chosen file, if any, is validated. */
  function HandleFileInputChange(s: UploadState, files: seq<File>): (r: UploadState)
    ensures files == [] ==> r == s
    ensures files != [] ==> r == ValidateAndProcessFile(s, files[0])
  {
    if |files| > 0 then ValidateAndProcessFile(s, files[0]) else s
  }

  /** `handleReset`: no file, no loading indicator, no error. */
  function HandleReset(s: UploadState): (r: UploadState)
    ensures r.selectedFile == None && !r.isLoading && r.error == None
    ensures r.isDragging == s.isDragging
  {
    s.(selectedFile := None, isLoading := false, error := None)
  }

  /** Closing the error alert. */
  function DismissError(s: UploadState): (r: UploadState)
    ensures r.error == None && r == s.(error := None)
  {
    s.(error := None)
  }

  /** Everything that can happen to the upload component. */
  datatype UploadEvent =
    | DragEnter
    | DragOver
    | DragLeave
    | Drop(files: seq<File>)
    | ChooseFiles(files: seq<File>)
    | Elapsed
    | Reset
    | CloseAlert

  function Step(s: UploadState, e: UploadEvent): UploadState {
    match e
    case DragEnter => HandleDragEnter(s)
    case DragOver => HandleDragOver(s)
    case DragLeave => HandleDragLeave(s)
    case Drop(files) => HandleDrop(s, files)
    case ChooseFiles(files) => HandleFileInputChange(s, files)
    case Elapsed => ProcessingElapsed(s)
    case Reset => HandleReset(s)
    case CloseAlert => DismissError(s)
  }

  function Run(s: UploadState, events: seq<UploadEvent>): UploadState
    decreases |events|
  {
    if events == [] then s else Run(Step(s, events[0]), events[1..])
  }

  /** The loading indicator only ever runs for a selected file, and a selected file is
      always one that passed validation. */
  predicate Invariant(s: UploadState) {
    && (s.isLoading ==> s.selectedFile.Some?)
    && (s.selectedFile.Some? ==> Validate(s.selectedFile.value).Success?)
  }

  lemma StepKeepsInvariant(s: UploadState, e: UploadEvent)
    requires Invariant(s)
    ensures Invariant(Step(s, e))
  {
  }

  /** From the initial state, every sequence of events keeps the invariant. */
  lemma {:induction false} RunKeepsInvariant(s: UploadState, events: seq<UploadEvent>)
    requires Invariant(s)
    ensures Invariant(Run(s, events))
    decreases |events|
  {
    if events != [] {
      StepKeepsInvariant(s, events[0]);
      RunKeepsInvariant(Step(s, events[0]), events[1..]);
    }
  }

  /** Whatever happens from the start, loading implies a selected file and the
      selected file passed validation. */
  lemma InvariantAlways(events: seq<UploadEvent>)
    ensures Invariant(Run(Initial, events))
  {
    RunKeepsInvariant(Initial, events);
  }

  /** The highlight after a sequence of events is set exactly when the last drag
      event was an enter or an over; the other events leave it alone, a drop clears it. */
  lemma {:induction false} DraggingFollowsLastDragEvent(s: UploadState, events: seq<UploadEvent>)
    ensures Run(s, events).isDragging == LastDragState(s.isDragging, events)
    decreases |events|
  {
    if events != [] {
      DraggingFollowsLastDragEvent(Step(s, events[0]), events[1..]);
    }
  }

  /** The highlight the drag events alone would leave, starting from `dragging`. */
  function LastDragState(dragging: bool, events: seq<UploadEvent>): bool
    decreases |events|
  {
    if events == [] then dragging
    else
      var next := match events[0]
        case DragEnter => true
        case DragOver => true
        case DragLeave => false
        case Drop(_) => false
        case _ => dragging;
      LastDragState(next, events[1..])
  }
}
