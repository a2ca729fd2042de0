# pdf-to-slides: a verified model of the front end's logic

This project models, in Dafny, the four pieces of the pdf-to-slides React front end
that carry behaviour:

- **Content extraction.** Each page's text items are joined, whitespace is normalised,
  and the text is split into sentences and paragraphs and given a title. The page
  records then become a deck of slides with totals.
- **File upload.** A dropped or chosen file passes an ordered type check and size check.
  There is also the drag highlight and a reset.
- **PDF preview.** Loading a document and paging through it with the previous and next
  buttons.
- **The wizard in `App`.** Four completion handlers set the step number, and range tests
  decide which panel each step shows.

pdf.js, `FileReader`, the DOM and React are abstracted away. A page reaches the model as
its text items plus its images. Each event handler is a pure function from state to
state. Sequences of events are folded by a `Run` function.

Modules, one per file:

| file | module | what it holds |
|---|---|---|
| wrappers.dfy | Wrappers | `Option` (JavaScript `null`) and `Result` |
| text.dfy | Text | character removal and counting, `Concat`, `Array.prototype.join`, `slice(0, k)` |
| whitespace.dfy | Whitespace | the `\s` class, `trim`, `replace(/\s+/g, ' ')` |
| split.dfy | Split | `split` on a character class and on `/\n\n+/` |
| js_string.dfy | JsString | `length` in UTF-16 code units, `indexOf`, `replace`, number to decimal text |
| content_extraction.dfy | ContentExtraction | the page-to-slide pipeline |
| file_upload.dfy | FileUpload | the upload component |
| pdf_preview.dfy | PdfPreview | page navigation and document loading |
| app.dfy | App | the step machine and panel visibility |

Choices that follow the JavaScript semantics:

- `length` counts UTF-16 code units, so a character above U+FFFF counts 2. This matters
  for the "longer than 5 and shorter than 100" title test and for `totalTextLength`.
- `IsWs` is the ECMAScript WhiteSpace and LineTerminator set. The regular expression
  `\s` and `trim` both use this set.
- `split` keeps empty pieces, one per separator boundary. `"".split(x)` gives `[""]`.
- `replace` with a string pattern replaces only the first occurrence.

Two consequences of the code as written:

- The first-sentence title test is `length > 5 && length < 100`. Both bounds are strict.
- Page text is normalised before it is split into paragraphs, and normalised text has no
  line feed left. So every non-empty page is exactly one paragraph: its own text
  (`ParagraphsOfNormalised`).

## Model

| member | source | states |
|---|---|---|
| `ContentExtraction.NormaliseText` | src/components/ContentExtraction/ContentExtraction.jsx:53-57 | the result is the words of the joined items (the non-empty pieces between whitespace characters), in order, with exactly one space between neighbours; so it has no whitespace at either end, no line feed and no two whitespace characters in a row, and keeps exactly the non-whitespace characters of the joined items |
| `ContentExtraction.NormaliseIdempotent` | src/components/ContentExtraction/ContentExtraction.jsx:53-57 | normalising text that is already normalised changes nothing |
| `ContentExtraction.NormaliseWords` | src/components/ContentExtraction/ContentExtraction.jsx:56-57 | `replace(/\s+/g, ' ').trim()` on any text gives its words, in order, joined by single spaces |
| `ContentExtraction.WordsAt` | src/components/ContentExtraction/ContentExtraction.jsx:56 | every whitespace character separates words: the words of `a`, a whitespace character and `b` are the words of `a` followed by those of `b` |
| `ContentExtraction.WordsNoWs` | src/components/ContentExtraction/ContentExtraction.jsx:56 | text without whitespace is one word, or none when empty |
| `ContentExtraction.ExtractText` | src/components/ContentExtraction/ContentExtraction.jsx:49-62 | a page whose text content cannot be read gets `""`; otherwise its text is the words of its joined items with one space between neighbours |
| `Whitespace.Trim` | src/components/ContentExtraction/ContentExtraction.jsx:57 | the result of `trim` has no whitespace at either end, and only whitespace follows it in the input; with `TrimIsSlice` it is exactly the slice between the leading and trailing whitespace runs |
| `Whitespace.TrimIsSlice` | src/components/ContentExtraction/ContentExtraction.jsx:57 | `trim` keeps a contiguous slice of its input: the characters starting just after the leading whitespace run |
| `Whitespace.TrimFixesTrimmed` | src/components/ContentExtraction/ContentExtraction.jsx:57 | `trim` returns its input exactly when that input has no whitespace at either end |
| `Whitespace.TrimEmpty` | src/components/ContentExtraction/ContentExtraction.jsx:229-230 | a trimmed piece is empty exactly when the piece was all whitespace, which is when the filter drops it |
| `Whitespace.TrimUnique` | src/components/ContentExtraction/ContentExtraction.jsx:57 | a non-empty text with no whitespace at either end, followed by whitespace only, trims to itself |
| `Whitespace.CollapseWs` | src/components/ContentExtraction/ContentExtraction.jsx:56 | after `replace(/\s+/g, ' ')` every whitespace character is a single space not followed by another; a leading whitespace run becomes one space; otherwise the first character is kept |
| `Whitespace.CollapseWsRun` | src/components/ContentExtraction/ContentExtraction.jsx:56 | every maximal whitespace run becomes exactly one space in place: the text before and after the run are collapsed independently |
| `Whitespace.CollapseNoWs` | src/components/ContentExtraction/ContentExtraction.jsx:56 | text without whitespace is left unchanged |
| `Whitespace.CollapseFixesCollapsed` | src/components/ContentExtraction/ContentExtraction.jsx:56 | the replacement changes nothing in text that has no whitespace run and no whitespace other than spaces |
| `Whitespace.RemoveWsCollapse` | src/components/ContentExtraction/ContentExtraction.jsx:56 | collapsing whitespace runs loses no character other than whitespace |
| `Whitespace.NormalisedNoLineFeed` | src/components/ContentExtraction/ContentExtraction.jsx:56-57 | normalised text holds no line feed |
| `Split.SplitOn` | src/components/ContentExtraction/ContentExtraction.jsx:228 | `split` on a character class gives one piece more than there are separators, and no piece holds a separator |
| `Split.SplitOnAt` | src/components/ContentExtraction/ContentExtraction.jsx:228 | every separator cuts: the pieces of `a`, a separator and `b` are the pieces of `a` followed by the pieces of `b` |
| `Split.SplitOnNoneIn` | src/components/ContentExtraction/ContentExtraction.jsx:228 | text without separators is the single piece itself |
| `Split.ConcatSplitOn` | src/components/ContentExtraction/ContentExtraction.jsx:228 | the pieces, read in order, are the input with its separators taken out |
| `Split.JoinSplitOn` | src/components/ContentExtraction/ContentExtraction.jsx:219 | splitting on `' '` and joining with `' '` gives back the input |
| `Text.JoinWith` | src/components/ContentExtraction/ContentExtraction.jsx:55 | `join` of no pieces is `""`, of one piece is that piece, and of more starts with the first piece and the separator; `JoinWithAppend` fixes the rest, and `Split.JoinSplitOn` is its round-trip partner |
| `Text.JoinWithAppend` | src/components/ContentExtraction/ContentExtraction.jsx:55 | joining two non-empty lists one after the other gives the two joined strings with one separator between them, so with the one-piece case `join` is fixed for every list, pieces holding the separator included |
| `Text.Take` | src/components/ContentExtraction/ContentExtraction.jsx:219 | `slice(0, k)` keeps the first `k` elements, or all when there are fewer; `Split.JoinTakeSplitOn` uses it for the first five words |
| `Split.SplitOnHead` | src/components/ContentExtraction/ContentExtraction.jsx:212 | the first piece is the prefix before the first separator, or the whole input when there is none |
| `Split.JoinTakeSplitOn` | src/components/ContentExtraction/ContentExtraction.jsx:219 | `split(c).slice(0, k).join(c)` is the prefix of the input that stops just before the `k`-th `c`, or the whole input when `c` occurs fewer than `k` times |
| `Split.SplitBlankLines` | src/components/ContentExtraction/ContentExtraction.jsx:239 | `split(/\n\n+/)` gives at least one piece, and no piece holds two line feeds in a row |
| `Split.SplitBlankLinesAt` | src/components/ContentExtraction/ContentExtraction.jsx:239 | every maximal run of two or more line feeds cuts: the pieces of `a`, the run and `b` are the pieces of `a` followed by the pieces of `b` |
| `Split.SplitBlankLinesWhole` | src/components/ContentExtraction/ContentExtraction.jsx:239 | the split leaves the input whole exactly when the input has no two line feeds in a row |
| `Split.ConcatSplitBlankLines` | src/components/ContentExtraction/ContentExtraction.jsx:239 | apart from line feeds, the pieces hold the characters of the input in order |
| `ContentExtraction.DropEmpty` | src/components/ContentExtraction/ContentExtraction.jsx:230 | the filter keeps only non-empty pieces, each taken from its input; joined end to end, the kept pieces spell the same text as all the input pieces |
| `ContentExtraction.DropEmptyAppend` | src/components/ContentExtraction/ContentExtraction.jsx:230 | the filter works element by element: filtering `a + b` gives the filtered `a` followed by the filtered `b` |
| `ContentExtraction.TrimEach` | src/components/ContentExtraction/ContentExtraction.jsx:229 | the `map(s => s.trim())` step (also line 240) keeps the number of pieces and trims each in place; `TrimEachAppend` shows it works piece by piece |
| `ContentExtraction.AppendPeriod` | src/components/ContentExtraction/ContentExtraction.jsx:231 | the `map(s => s + '.')` step keeps the number of pieces and ends each with a period; `BodiesOfAppendPeriod` is its inverse: dropping the final character gives the pieces back |
| `ContentExtraction.SplitIntoSentences` | src/components/ContentExtraction/ContentExtraction.jsx:223-232 | empty text has no sentences; each sentence is a non-empty trimmed body with no `.`, `!` or `?`, followed by one `.`; there are at most one more sentences than punctuation marks |
| `ContentExtraction.SentencesAt` | src/components/ContentExtraction/ContentExtraction.jsx:223-232 | every `.`, `!` and `?` ends a sentence: the sentences of `a`, a mark and `b` are those of `a` followed by those of `b` |
| `ContentExtraction.SentencesOfUnmarked` | src/components/ContentExtraction/ContentExtraction.jsx:223-232 | text without a mark gives no sentence when blank, and otherwise the one sentence made of its trimmed text and a period |
| `ContentExtraction.SentencesKeepText` | src/components/ContentExtraction/ContentExtraction.jsx:227-231 | read in order, the sentence bodies hold exactly the characters of the text that are neither whitespace nor sentence punctuation |
| `ContentExtraction.SplitIntoParagraphs` | src/components/ContentExtraction/ContentExtraction.jsx:234-242 | empty text has no paragraphs; every paragraph is non-empty, trimmed and free of `"\n\n"` |
| `ContentExtraction.ParagraphsAt` | src/components/ContentExtraction/ContentExtraction.jsx:234-242 | every maximal run of two or more line feeds ends a paragraph: the paragraphs of `a`, the run and `b` are those of `a` followed by those of `b` |
| `ContentExtraction.ParagraphsOfUnbroken` | src/components/ContentExtraction/ContentExtraction.jsx:234-242 | text without two line feeds in a row gives no paragraph when blank, and otherwise its trimmed text, single line feeds included |
| `ContentExtraction.ParagraphsKeepText` | src/components/ContentExtraction/ContentExtraction.jsx:238-241 | read in order, the paragraphs hold exactly the non-whitespace characters of the text |
| `ContentExtraction.ParagraphsOfNormalised` | src/components/ContentExtraction/ContentExtraction.jsx:238-241 | non-empty normalised page text is never split, so it is its own single paragraph |
| `ContentExtraction.NormalisedParagraphs` | src/components/ContentExtraction/ContentExtraction.jsx:253 | normalised text has no paragraphs when empty and otherwise exactly one, the text itself; so a slide's content is always `[text]`, and `[""]` for an empty page |
| `JsString.Utf16Length` | src/components/ContentExtraction/ContentExtraction.jsx:214 | `length` of one character is 1, or 2 above U+FFFF; it lies between the number of characters and twice that, equals the number of characters exactly when no character lies above U+FFFF, and is 0 only for `""` |
| `JsString.Utf16LengthAppend` | src/components/ContentExtraction/ContentExtraction.jsx:264 | the `length` of two texts written one after the other is the sum of their lengths; with the one-character case this fixes `length` |
| `JsString.NatToString` | src/components/ContentExtraction/ContentExtraction.jsx:209 | the page number in a template literal is a non-empty string of decimal digits with no leading zero |
| `JsString.ParseNatToString` | src/components/ContentExtraction/ContentExtraction.jsx:209 | the decimal text of a page number reads back as that number |
| `ContentExtraction.GeneratePageTitle` | src/components/ContentExtraction/ContentExtraction.jsx:208-221 | empty text gets `Page n`; no title is ever empty |
| `ContentExtraction.PageLabelsDistinct` | src/components/ContentExtraction/ContentExtraction.jsx:209 | different page numbers give different `Page n` labels |
| `ContentExtraction.FirstSentence` | src/components/ContentExtraction/ContentExtraction.jsx:212 | the candidate title is trimmed, holds no `.`, `!` or `?`, and is no longer than the text; `FirstSentenceIsPrefix` fixes which text it is |
| `ContentExtraction.FirstSentenceIsPrefix` | src/components/ContentExtraction/ContentExtraction.jsx:212 | the candidate title is the text before the first `.`, `!` or `?`, trimmed |
| `ContentExtraction.TitleFromFirstSentence` | src/components/ContentExtraction/ContentExtraction.jsx:212-216 | when that trimmed text is longer than 5 and shorter than 100 code units, it is the title |
| `ContentExtraction.TitleFromFirstWords` | src/components/ContentExtraction/ContentExtraction.jsx:219-220 | otherwise the title is a non-empty prefix of the text, stopping just before the fifth space, followed by `...` |
| `ContentExtraction.FirstWords` | src/components/ContentExtraction/ContentExtraction.jsx:219 | the first five words are the prefix of the text that stops just before its fifth space (all of it when there are fewer), and are never empty for non-empty text, so the `Page n` fallback on line 220 is dead code; `Split.JoinTakeSplitOn` is the general statement |
| `ContentExtraction.BuildPageRecord` | src/components/ContentExtraction/ContentExtraction.jsx:154-161 | each page record keeps its page number and images; its text is the page's extracted text, normalised, and `""` when unreadable; its title is `generatePageTitle` and its sentences `splitIntoSentences` of that text; the title is non-empty and the sentences well formed; its paragraphs are `[]` for an empty page and otherwise `[text]` |
| `ContentExtraction.VisitPages` | src/components/ContentExtraction/ContentExtraction.jsx:137-161 | the page loop produces one record per page, in document order, numbered from 1 |
| `ContentExtraction.ExtractPages` | src/components/ContentExtraction/ContentExtraction.jsx:137-161 | page `k` of the document gives the record built for page number `k` |
| `ContentExtraction.SlideOf` | src/components/ContentExtraction/ContentExtraction.jsx:251-256 | a slide keeps its page's title, images and number; its content is never empty: the page's paragraphs, or the page text as its one item |
| `ContentExtraction.ReduceImageCount` | src/components/ContentExtraction/ContentExtraction.jsx:263 | the image-count fold equals its start value plus the number of images over all pages |
| `ContentExtraction.ReduceTextLength` | src/components/ContentExtraction/ContentExtraction.jsx:264 | the text-length fold equals its start value plus the UTF-16 length of all page texts written one after another |
| `ContentExtraction.ProcessContentForSlides` | src/components/ContentExtraction/ContentExtraction.jsx:245-266 | one slide per page in page order, copying title, images and page number; content is the paragraphs, or `[text]` when there are none; `totalPages` is the page count; `totalImages` is the number of images over all pages; `totalTextLength` is the UTF-16 length of all the text |
| `JsString.IndexOf` | src/components/ContentExtraction/ContentExtraction.jsx:260 | the index found is an occurrence of the pattern with none before it; no index is found only when the pattern never occurs |
| `JsString.ReplaceFirst` | src/components/ContentExtraction/ContentExtraction.jsx:260 | a string without the pattern is returned unchanged; otherwise only the first occurrence is replaced |
| `ContentExtraction.DeckTitleRemovesFirstOnly` | src/components/ContentExtraction/ContentExtraction.jsx:260 | the deck title is the file name with its first `.pdf` removed, wherever it stands; later ones stay |
| `ContentExtraction.DeckTitleStripsExtension` | src/components/ContentExtraction/ContentExtraction.jsx:260 | a file name whose only `.pdf` is its extension loses exactly that extension |
| `ContentExtraction.DeckTitle` | src/components/ContentExtraction/ContentExtraction.jsx:260 | a file name without `.pdf` is the deck title unchanged; `DeckTitleRemovesFirstOnly` fixes the title of every other name |
| `ContentExtraction.ExtractDeck` | src/components/ContentExtraction/ContentExtraction.jsx:137-171 | extracting a document gives one slide per page, numbered from 1; each slide's content is `[normalised page text]` and its title is the generated title; images are passed through |
| `FileUpload.Validate` | src/components/FileUpload/FileUpload.jsx:68-78 | a file is accepted exactly when it is `application/pdf` and at most 10·1024·1024 bytes; any other type gives the type error whatever its size; a PDF over the limit gives the size error |
| `FileUpload.SizeBoundary` | src/components/FileUpload/FileUpload.jsx:75-78 | a PDF of exactly 10485760 bytes is accepted, and one of 10485761 bytes is refused |
| `FileUpload.ValidateAndProcessFile` | src/components/FileUpload/FileUpload.jsx:64-82 | on acceptance the file is selected, loading starts and there is no error; on refusal the error is set and the selection and loading flag stay as they were |
| `FileUpload.ProcessingElapsed` | src/components/FileUpload/FileUpload.jsx:85-91 | when the delay ends, loading stops and nothing else changes |
| `FileUpload.HandleDragEnter` | src/components/FileUpload/FileUpload.jsx:23-27 | drag-enter sets the highlight and changes nothing else |
| `FileUpload.HandleDragLeave` | src/components/FileUpload/FileUpload.jsx:29-33 | drag-leave clears the highlight and changes nothing else |
| `FileUpload.HandleDragOver` | src/components/FileUpload/FileUpload.jsx:35-41 | drag-over sets the highlight only when it is off, which amounts to setting it |
| `FileUpload.HandleDrop` | src/components/FileUpload/FileUpload.jsx:43-53 | a drop clears the highlight and the error; it validates the first file only, and only when the list is not empty |
| `FileUpload.HandleFileInputChange` | src/components/FileUpload/FileUpload.jsx:56-61 | choosing files validates the first one; an empty choice changes nothing |
| `FileUpload.HandleReset` | src/components/FileUpload/FileUpload.jsx:100-107 | reset clears the selection, the loading flag and the error |
| `FileUpload.DismissError` | src/components/FileUpload/FileUpload.jsx:134 | closing the alert clears the error and nothing else |
| `FileUpload.RunKeepsInvariant` | src/components/FileUpload/FileUpload.jsx:64-107 | every sequence of events keeps two facts: loading implies a selected file, and the selected file passed validation |
| `FileUpload.InvariantAlways` | src/components/FileUpload/FileUpload.jsx:16-19 | from the initial state, that invariant holds after any events |
| `FileUpload.DraggingFollowsLastDragEvent` | src/components/FileUpload/FileUpload.jsx:23-53 | after any events the highlight is on exactly when the last drag event was an enter or an over, rather than a leave or a drop |
| `PdfPreview.StartLoading` | src/components/PdfPreview/PdfPreview.jsx:40-47 | with no file, loading stops and the error stays; with a file, loading starts with no error; the page position, page count and loaded document are kept |
| `PdfPreview.LoadSucceeded` | src/components/PdfPreview/PdfPreview.jsx:58-62 | a loaded document sets the page count, shows page 1 and stops loading; the error is left as it was |
| `PdfPreview.LoadFailedWith` | src/components/PdfPreview/PdfPreview.jsx:63-79 | a read or load failure shows that failure's error and stops loading; the page position, page count and loaded document stay |
| `PdfPreview.RenderFailedAt` | src/components/PdfPreview/PdfPreview.jsx:114-117 | a render failure sets the render error and changes nothing else |
| `PdfPreview.GoToPreviousPage` | src/components/PdfPreview/PdfPreview.jsx:124-128 | the page goes back one only when it is above 1; otherwise the state is unchanged |
| `PdfPreview.GoToNextPage` | src/components/PdfPreview/PdfPreview.jsx:130-134 | the page goes forward one only when it is below the page count; otherwise the state is unchanged |
| `PdfPreview.DisabledIffNoOp` | src/components/PdfPreview/PdfPreview.jsx:221-236 | each navigation button is disabled exactly when pressing it would change nothing |
| `PdfPreview.RunKeepsPageInRange` | src/components/PdfPreview/PdfPreview.jsx:124-134 | every sequence of events keeps the page at 1 or above, and at most the page count once there are pages |
| `PdfPreview.PageAlwaysInRange` | src/components/PdfPreview/PdfPreview.jsx:30-35 | the preview starts on page 1, and the page stays in range after any events |
| `PdfPreview.NextRepeated` | src/components/PdfPreview/PdfPreview.jsx:130-134 | pressing next `n` times moves `n` pages forward, stopping at the last page |
| `PdfPreview.PreviousRepeated` | src/components/PdfPreview/PdfPreview.jsx:124-128 | pressing previous `n` times moves `n` pages back, stopping at page 1 |
| `App.InitialWizard` | src/App.jsx:43-57 | the wizard starts at step 0 with format `pptx`, holds nothing else, and has six step labels |
| `App.HandleFileUpload` | src/App.jsx:60-63 | an upload stores the file and moves to step 1, whatever the current step; the rest is unchanged |
| `App.HandleContentExtract` | src/App.jsx:65-68 | an extraction stores the deck and moves to step 3, whatever the current step |
| `App.HandleFormatSelect` | src/App.jsx:70-73 | a format choice stores the format and moves to step 4, whatever the current step |
| `App.HandleBuildComplete` | src/App.jsx:75-78 | a finished build stores the presentation and moves to step 5, whatever the current step |
| `App.ExactlyOneMainPanel` | src/App.jsx:106-141 | a step shows exactly one of the upload, extraction, format, builder and download panels exactly when it is one of the six stepper steps; the preview shows at steps 1 to 4 |
| `App.RunEndsAtLastTarget` | src/App.jsx:60-78 | after any handlers the step is the one set by the last of them, or the starting step when none ran |
| `App.ReachableSteps` | src/App.jsx:60-78 | from the start only steps 0, 1, 3, 4 and 5 occur, never 2; each names a stepper label; the extraction panel is seen only at step 1 |
| `App.AllListedStepsReached` | src/App.jsx:60-78 | each of the steps 0, 1, 3, 4 and 5 is reached by some sequence of handlers |
| `App.UploadOpensPreview` | src/components/FileUpload/FileUpload.jsx:43-91 | dropping an acceptable PDF selects it and starts loading; the delay ends loading; handing the file to the wizard shows the preview and extraction panels for that file |

## Left out

- pdf.js document loading, `FileReader`, `getTextContent`, `async`/`await` and the `setTimeout` delays are I/O and scheduling. A page's text items, or the failure to read them, and its images are inputs. A delay that ends is an event.
- `extractImagesFromPage` renders to a canvas, and its only logic is a placeholder keyed on a floating-point viewport area. Images are inputs.
- The extraction progress percentage and the "KB" display use floating-point arithmetic with `Math.round`. The preview zoom steps `scale` by 0.2 and clamps it to [0.5, 3] with `Math.min` and `Math.max`, and its percentage display also uses `Math.round`; all of this is floating point.
- The busy, progress and error state of `handleExtract` in the extraction component is UI state around the I/O above. Only its page loop and the processing it calls are modelled.
- The render effect of the preview (drawing the current page on a canvas) is rendering. Only its failure, which sets an error, is modelled.
- The format selection and download components hold static display data, a setter and an `alert`. The presentation builder is not part of this model, so its result is an opaque `Presentation` value.
- The Python serverless and API wrappers call PyMuPDF and do Lambda/Flask I/O.
- React rendering, MUI styling and layout are out of scope. A missing `files` list on a drop or a file choice behaves like an empty one, and is modelled as one.
- `Split.SplitOn`: its own contract gives only the number of pieces and that no piece holds a separator. Where the cuts fall is stated by `SplitOnAt` and `SplitOnNoneIn`.
- `Split.SplitBlankLines`: its own contract gives only that no piece holds a blank line. Where the cuts fall is stated by `SplitBlankLinesAt` and `SplitBlankLinesWhole`.
- `ContentExtraction.DropEmpty`: its own contract fixes the result for one element. For longer lists it is fixed by `DropEmptyAppend`.
- `ContentExtraction.SplitIntoSentences`: its own contract gives only the shape of each sentence. Which sentences come out, and in what order, is stated by `SentencesAt` and `SentencesOfUnmarked`.
- `Whitespace.CollapseWs`: its own contract gives only the shape of the result. Where each run goes is stated by `CollapseWsRun` and `CollapseNoWs`.
- `ContentExtraction.FirstSentence`: its own contract gives only the shape of the candidate title. Which text it is, the trimmed text before the first mark, is stated by `FirstSentenceIsPrefix`.
- `ContentExtraction.DeckTitle`: its own contract covers only a name without `.pdf`. Every other name is covered by `DeckTitleRemovesFirstOnly`, taking as the first part the text before the first `.pdf`.
- `ContentExtraction.SlideOf`: its own contract says the content is the paragraphs or the page text as one item. Which of the two applies is stated by `ProcessContentForSlides`.
- `JsString.Utf16Length`: a JavaScript string may hold an unpaired surrogate code unit, which a Dafny string of Unicode scalar values cannot hold. So `length` and the whitespace functions are stated for well-formed text only.
- `PdfPreview.LoadFailedWith`: the three load and read failures share one function with the error as a parameter. The render failure has its own function, because it leaves the loading flag alone.
