/** The conversion wizard: a step number that the four completion handlers set, and
    the rule deciding which panel each step shows. */
module App {
  import opened Wrappers
  import FileUpload
  import ContentExtraction

  /** The result of the presentation builder, which is not part of this model; the
      wizard only stores and forwards it. */
  datatype Presentation = Presentation(payload: seq<int>)

  datatype AppState = AppState(
    activeStep: nat,
    pdfFile: Option<FileUpload.File>,
    extractedContent: Option<ContentExtraction.Deck>,
    selectedFormat: string,
    presentation: Option<Presentation>)

  const StepLabels: seq<string> := [
    "Upload PDF",
    "Preview PDF",
    "Extract Content",
    "Select Format",
    "Build Presentation",
    "Download"
  ]

  const Initial := AppState(0, None, None, "pptx", None)

  /** The wizard opens on the upload step with PowerPoint selected, and its stepper
      has six labels. */
  lemma InitialWizard()
    ensures Initial.activeStep == 0 && ShowsFileUpload(Initial.activeStep)
    ensures Initial.selectedFormat == "pptx"
    ensures |StepLabels| == 6
    ensures Initial.pdfFile == None && Initial.extractedContent == None && Initial.presentation == None
  {
  }

  /** A file was uploaded: it is kept and the preview step opens. */
  function HandleFileUpload(s: AppState, f: FileUpload.File): (r: AppState)
    ensures r.activeStep == 1 && r.pdfFile == Some(f)
    ensures r.extractedContent == s.extractedContent && r.selectedFormat == s.selectedFormat
            && r.presentation == s.presentation
  {
    s.(pdfFile := Some(f), activeStep := 1)
  }

  /** Content was extracted: it is kept and format selection opens. */
  function HandleContentExtract(s: AppState, d: ContentExtraction.Deck): (r: AppState)
    ensures r.activeStep == 3 && r.extractedContent == Some(d)
    ensures r.pdfFile == s.pdfFile && r.selectedFormat == s.selectedFormat
            && r.presentation == s.presentation
  {
    s.(extractedContent := Some(d), activeStep := 3)
  }

  /** A format was chosen: it is kept and the builder opens. */
  function HandleFormatSelect(s: AppState, format: string): (r: AppState)
    ensures r.activeStep == 4 && r.selectedFormat == format
    ensures r.pdfFile == s.pdfFile && r.extractedContent == s.extractedContent
            && r.presentation == s.presentation
  {
    s.(selectedFormat := format, activeStep := 4)
  }

  /** The presentation was built: it is kept and the download step opens. */
  function HandleBuildComplete(s: AppState, p: Presentation): (r: AppState)
    ensures r.activeStep == 5 && r.presentation == Some(p)
    ensures r.pdfFile == s.pdfFile && r.extractedContent == s.extractedContent
            && r.selectedFormat == s.selectedFormat
  {
    s.(presentation := Some(p), activeStep := 5)
  }

  predicate ShowsFileUpload(step: int) { step == 0 }
  predicate ShowsPdfPreview(step: int) { step >= 1 && step < 5 }
  predicate ShowsContentExtraction(step: int) { step >= 1 && step < 3 }
  predicate ShowsFormatSelection(step: int) { step >= 3 && step < 4 }
  predicate ShowsPresentationBuilder(step: int) { step >= 4 && step < 5 }
  predicate ShowsDownload(step: int) { step == 5 }

  /** How many of the five main panels (all but the preview) a step shows. */
  function MainPanelCount(step: int): nat {
    (if ShowsFileUpload(step) then 1 else 0)
    + (if ShowsContentExtraction(step) then 1 else 0)
    + (if ShowsFormatSelection(step) then 1 else 0)
    + (if ShowsPresentationBuilder(step) then 1 else 0)
    + (if ShowsDownload(step) then 1 else 0)
  }

  /** Every step of the stepper shows exactly one main panel; the preview accompanies
      steps 1 to 4; a step outside the stepper shows none. */
  lemma ExactlyOneMainPanel(step: int)
    ensures 0 <= step < |StepLabels| <==> MainPanelCount(step) == 1
    ensures !(0 <= step < |StepLabels|) ==> MainPanelCount(step) == 0
    ensures ShowsPdfPreview(step) <==> 1 <= step <= 4
  {
  }

  /** What can happen to the wizard: one completion event per handler. */
  datatype AppEvent =
    | FileUploaded(file: FileUpload.File)
    | ContentExtracted(deck: ContentExtraction.Deck)
    | FormatSelected(format: string)
    | BuildCompleted(presentation: Presentation)

  /** The handler an event triggers; it does not look at the current step. */
  function Step(s: AppState, e: AppEvent): AppState {
    match e
    case FileUploaded(f) => HandleFileUpload(s, f)
    case ContentExtracted(d) => HandleContentExtract(s, d)
    case FormatSelected(format) => HandleFormatSelect(s, format)
    case BuildCompleted(p) => HandleBuildComplete(s, p)
  }

  function Run(s: AppState, events: seq<AppEvent>): AppState
    decreases |events|
  {
    if events == [] then s else Run(Step(s, events[0]), events[1..])
  }

  /** The step an event leads to, whatever the step before it. */
  function TargetStep(e: AppEvent): nat {
    match e
    case FileUploaded(_) => 1
    case ContentExtracted(_) => 3
    case FormatSelected(_) => 4
    case BuildCompleted(_) => 5
  }

  /** After any events the step is the one the last event leads to, or the starting
      step when there were none. */
  lemma {:induction false} RunEndsAtLastTarget(s: AppState, events: seq<AppEvent>)
    ensures Run(s, events).activeStep ==
            if events == [] then s.activeStep else TargetStep(events[|events| - 1])
    decreases |events|
  {
    if events != [] {
      RunEndsAtLastTarget(Step(s, events[0]), events[1..]);
      if |events| > 1 {
        assert events[1..][|events[1..]| - 1] == events[|events| - 1];
      }
    }
  }

  /** No handler ever sets step 2: from the start only steps 0, 1, 3, 4 and 5 occur,
      each of them names a stepper label, and the content-extraction panel is seen
      only at step 1. */
  lemma ReachableSteps(events: seq<AppEvent>)
    ensures Run(Initial, events).activeStep in {0, 1, 3, 4, 5}
    ensures Run(Initial, events).activeStep < |StepLabels|
    ensures ShowsContentExtraction(Run(Initial, events).activeStep) ==> Run(Initial, events).activeStep == 1
  {
    RunEndsAtLastTarget(Initial, events);
  }

  /** Each of the steps 0, 1, 3, 4 and 5 is reached by some events. */
  lemma AllListedStepsReached(f: FileUpload.File, d: ContentExtraction.Deck, format: string, p: Presentation)
    ensures Run(Initial, []).activeStep == 0
    ensures Run(Initial, [FileUploaded(f)]).activeStep == 1
    ensures Run(Initial, [FileUploaded(f), ContentExtracted(d)]).activeStep == 3
    ensures Run(Initial, [FileUploaded(f), ContentExtracted(d), FormatSelected(format)]).activeStep == 4
    ensures Run(Initial, [FileUploaded(f), ContentExtracted(d), FormatSelected(format), BuildCompleted(p)]).activeStep == 5
  {
    RunEndsAtLastTarget(Initial, [FileUploaded(f)]);
    RunEndsAtLastTarget(Initial, [FileUploaded(f), ContentExtracted(d)]);
    RunEndsAtLastTarget(Initial, [FileUploaded(f), ContentExtracted(d), FormatSelected(format)]);
    RunEndsAtLastTarget(Initial, [FileUploaded(f), ContentExtracted(d), FormatSelected(format), BuildCompleted(p)]);
  }

  /** Dropping an acceptable PDF on the upload panel and letting processing finish hands
      the file to the wizard, which opens the preview of that file. */
  lemma UploadOpensPreview(s: AppState, f: FileUpload.File)
    requires f.mimeType == FileUpload.PdfMimeType && f.size <= FileUpload.MaxFileSize
    ensures var u := FileUpload.HandleDrop(FileUpload.Initial, [f]);
            && u.selectedFile == Some(f) && u.isLoading
            && !FileUpload.ProcessingElapsed(u).isLoading
    ensures var r := HandleFileUpload(s, f);
            r.pdfFile == Some(f) && ShowsPdfPreview(r.activeStep) && ShowsContentExtraction(r.activeStep)
            && !ShowsFileUpload(r.activeStep)
  {
  }
}
