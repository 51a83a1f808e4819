# Gujarati word spotting — a Dafny model of its core logic

The system lets a user upload a PDF, which may be a scan in Gujarati. The user can then search it by meaning and read the matching pages with the query marked.

This project models the deterministic logic around that pipeline:

- **React client:**
  - the page viewer's navigation and highlighter;
  - the search box's guards and recent-search history;
  - the uploader's validation, progress bar, retry counter and failure messages.
- **OCR post-processing:**
  - cleaning OCR text with the Gujarati correction table;
  - the Gujarati-script test;
  - choosing the best OCR candidate;
  - assembling per-page records.
- **Search shaping:** page extraction, the threshold, snippets, a stable ranking and the top ten.
- **The two HTTP servers, FastAPI and Flask:**
  - filename guards;
  - the upload flow with its backup;
  - the search guards;
  - the PDF listing.

## How the model is built

- **One module per source file:** `PdfViewer`, `SearchBox`, `Upload`, `OcrUtils`, `ModelUtils`, `ServerMain` and `FlaskApp`.
- **Shared helpers:**
  - `Wrappers` holds Option and Result.
  - `Chars` holds the whitespace sets, strip/trim, case folding, Python's `split()` and `join`, and number formatting.
  - `StableSort` is a stable descending insertion sort on values.
- **State the source updates in place** is a class whose methods state their new state:
  - the viewer's current page;
  - the search box;
  - the uploader;
  - the servers' upload folders.
- **Loops the source runs become methods with loop invariants,** each proved equal to a specification function:
  - cleaning, the line filter and the Gujarati count;
  - candidate collection, scoring, page records and page extraction;
  - result shaping and the listing.
- **Properties are lemmas about those functions.**
- **What the logic cannot see becomes an input.** This covers OCR engines, embeddings, the PDF reader, the clock, HTTP answers and the directory listing:
  - page texts are a sequence of strings;
  - similarities are given reals that are only compared;
  - `isalpha` is a `char -> bool` parameter;
  - lower-casing is a `char -> char` parameter.
- **The uploader's state is a value.** `Upload.UploadState` carries one pure function per event, and the `Upload.Uploader` object holds the current value. The progress interval's firings, the request's outcome and the success delay are events.

The highlighter is the single regular-expression replace in `PDFViewer.jsx`, modelled as a left-to-right split of the text into matched and plain pieces.

## Model

| member | source | states |
|---|---|---|
| PdfViewer.PageLimit | Users/ASUS/Desktop/SGP-2025/client/src/components/PDFViewer.jsx:15 | the upper page bound is `total_pages`, or 1 when there is no PDF or its page count is absent or 0 |
| PdfViewer.Viewer.constructor | Users/ASUS/Desktop/SGP-2025/client/src/components/PDFViewer.jsx:4-6 | the viewer starts on page 1 with highlights on, a page in range for every PDF |
| PdfViewer.Viewer.HandlePageChange | Users/ASUS/Desktop/SGP-2025/client/src/components/PDFViewer.jsx:14-18 | the page becomes n exactly when 1 ≤ n ≤ the bound, and is otherwise unchanged; an in-range page stays in range; highlights are untouched |
| PdfViewer.Viewer.Prev | Users/ASUS/Desktop/SGP-2025/client/src/components/PDFViewer.jsx:66-72 | disabled at page ≤ 1 (no change); otherwise the page becomes the one before it when that is within the bound and is otherwise unchanged, so an in-range page goes down by one and stays in range; highlights are untouched |
| PdfViewer.Viewer.Next | Users/ASUS/Desktop/SGP-2025/client/src/components/PDFViewer.jsx:76-82 | disabled when `total_pages` is present and the page is at or past it (no change); otherwise the page becomes the next one when that is within the bound and is otherwise unchanged, so an in-range page below the last goes up by one and stays in range; highlights are untouched |
| PdfViewer.Viewer.ResultsChanged | Users/ASUS/Desktop/SGP-2025/client/src/components/PDFViewer.jsx:8-12 | a non-empty result list moves the page to the first result's page with no bounds check; an absent or empty list leaves it |
| PdfViewer.Viewer.ChipClick | Users/ASUS/Desktop/SGP-2025/client/src/components/PDFViewer.jsx:145 | a chip click sets the page to that result's page directly, bypassing the range check |
| PdfViewer.Viewer.SetShowHighlights | Users/ASUS/Desktop/SGP-2025/client/src/components/PDFViewer.jsx:103-108 | the checkbox sets the highlight flag and nothing else |
| PdfViewer.Viewer.CurrentPageData | Users/ASUS/Desktop/SGP-2025/client/src/components/PDFViewer.jsx:31-34 | nothing when the PDF or its page list is absent; otherwise nothing exactly when no page has the current number, and any page found has that number and belongs to the PDF |
| PdfViewer.Viewer.ResultsForCurrentPage | Users/ASUS/Desktop/SGP-2025/client/src/components/PDFViewer.jsx:36-39 | empty when there are no results; otherwise exactly the results on the current page |
| PdfViewer.FindPage | Users/ASUS/Desktop/SGP-2025/client/src/components/PDFViewer.jsx:31-34 | nothing exactly when no page has the number; otherwise a page with that number, the first one |
| PdfViewer.ResultsOnPage | Users/ASUS/Desktop/SGP-2025/client/src/components/PDFViewer.jsx:36-39 | exactly the results whose page is the current page |
| PdfViewer.ResultsOnPageAppend | Users/ASUS/Desktop/SGP-2025/client/src/components/PDFViewer.jsx:38 | the filter keeps the original order (it distributes over concatenation) |
| PdfViewer.HighlightText | Users/ASUS/Desktop/SGP-2025/client/src/components/PDFViewer.jsx:25-29 | with no query, an empty query or highlights off, the text comes back untouched |
| PdfViewer.PiecesCoverText | Users/ASUS/Desktop/SGP-2025/client/src/components/PDFViewer.jsx:27-28 | the split into plain characters and matches covers the text exactly |
| PdfViewer.PiecesLeftmost | Users/ASUS/Desktop/SGP-2025/client/src/components/PDFViewer.jsx:27-28 | every match is a case-insensitive occurrence taken leftmost, and no plain character starts an occurrence (global, non-overlapping matching) |
| PdfViewer.HighlightRoundTrip | Users/ASUS/Desktop/SGP-2025/client/src/components/PDFViewer.jsx:27-28 | the output wraps each match in the mark tags, copies everything else verbatim with no escaping, and removing the tags gives back the input |
| PdfViewer.RenderLength | Users/ASUS/Desktop/SGP-2025/client/src/components/PDFViewer.jsx:28 | the output grows by exactly the tag length per match |
| SearchBox.SearchGuard | Users/ASUS/Desktop/SGP-2025/client/src/components/SearchBox.jsx:11-18 | a search may start iff the trimmed query is non-empty and a PDF is selected; a blank query reports its message first, then a missing PDF |
| SearchBox.FailureText | Users/ASUS/Desktop/SGP-2025/client/src/components/SearchBox.jsx:28 | a failed search reports the server's detail when it has one, else the fixed text; never empty |
| SearchBox.Without | Users/ASUS/Desktop/SGP-2025/client/src/components/SearchBox.jsx:23 | the filter keeps exactly the entries other than the query |
| SearchBox.WithoutKeepsNoDuplicates | Users/ASUS/Desktop/SGP-2025/client/src/components/SearchBox.jsx:23 | filtering a duplicate-free list leaves it duplicate-free |
| SearchBox.UpdateHistoryFacts | Users/ASUS/Desktop/SGP-2025/client/src/components/SearchBox.jsx:22-25 | the new history has exactly min(5, 1 + the number of old entries other than the query) entries and starts with the query, which occurs once; the rest are the leading old entries other than the query, in their old order, all of them when fewer than five |
| SearchBox.UpdateHistoryNoDuplicates | Users/ASUS/Desktop/SGP-2025/client/src/components/SearchBox.jsx:23 | a duplicate-free history stays duplicate-free |
| SearchBox.UpdateHistoryRepeat | Users/ASUS/Desktop/SGP-2025/client/src/components/SearchBox.jsx:23 | searching again for the newest entry leaves the history as it is |
| SearchBox.SearchBoxState.constructor | Users/ASUS/Desktop/SGP-2025/client/src/components/SearchBox.jsx:5-7 | empty query, not searching, empty history |
| SearchBox.SearchBoxState.HandleSearch | Users/ASUS/Desktop/SGP-2025/client/src/components/SearchBox.jsx:9-32 | a failed guard reports its message and changes nothing; a success records the query in the history and passes results on; a failure reports the detail and keeps the history; searching ends false on both paths; the history invariant holds |
| SearchBox.SearchBoxState.HandleHistoryClick | Users/ASUS/Desktop/SGP-2025/client/src/components/SearchBox.jsx:34-36 | sets the query without searching or touching the history |
| SearchBox.SearchBoxState.HandleClearHistory | Users/ASUS/Desktop/SGP-2025/client/src/components/SearchBox.jsx:38-40 | empties the history, nothing else |
| Upload.ValidateFile | Users/ASUS/Desktop/SGP-2025/client/src/components/Upload.jsx:49-71 | no error iff the type is application/pdf, 0 < size ≤ 50·1024·1024 and the name has a non-whitespace character; otherwise the message of the first failing check in the order type, too large, empty, name |
| Upload.OrElse | Users/ASUS/Desktop/SGP-2025/client/src/components/Upload.jsx:119 | JavaScript `\|\|` on an optional string: the string when non-empty, else the fallback |
| Upload.FailureMessage | Users/ASUS/Desktop/SGP-2025/client/src/components/Upload.jsx:114-140 | 413 always gives the fixed text; other statuses prefer the server's detail (or message); 400 and 500 fall back to their fixed texts; no response gives the network text; never empty |
| Upload.OtherStatusNamed | Users/ASUS/Desktop/SGP-2025/client/src/components/Upload.jsx:131-132 | with no detail, an unexpected status is named in the message |
| Upload.TickProgress | Users/ASUS/Desktop/SGP-2025/client/src/components/Upload.jsx:89-95 | progress p becomes p+10 below 90, else 90 |
| Upload.FirstPdfAt | Users/ASUS/Desktop/SGP-2025/client/src/components/Upload.jsx:32 | when file i is the first PDF, the chosen file is file i |
| Upload.FirstPdf | Users/ASUS/Desktop/SGP-2025/client/src/components/Upload.jsx:32 | nothing iff no file is a PDF; otherwise the first file whose type is application/pdf |
| Upload.BeginRejects | Users/ASUS/Desktop/SGP-2025/client/src/components/Upload.jsx:75-80 | a file failing validation sets the error, reports it, and starts nothing; the file is recorded as the last attempt |
| Upload.BeginStarts | Users/ASUS/Desktop/SGP-2025/client/src/components/Upload.jsx:82-96 | a valid file starts uploading at progress 0 with no error and the interval live, and is recorded as the last attempt |
| Upload.TicksFromStart | Users/ASUS/Desktop/SGP-2025/client/src/components/Upload.jsx:88-96 | after n firings from the start, progress is min(10n, 90) and the interval clears itself on the tenth |
| Upload.InitialInv | Users/ASUS/Desktop/SGP-2025/client/src/components/Upload.jsx:5-9 | the initial state satisfies the invariant (retries in 0..3, progress a multiple of 10 in 0..90 or 100) |
| Upload.BeginKeepsInv | Users/ASUS/Desktop/SGP-2025/client/src/components/Upload.jsx:73-96 | starting an upload keeps the invariant |
| Upload.ResetKeepsInv | Users/ASUS/Desktop/SGP-2025/client/src/components/Upload.jsx:11-16 | reset, a tick and success keep the invariant |
| Upload.FailKeepsInv | Users/ASUS/Desktop/SGP-2025/client/src/components/Upload.jsx:109-144 | the corrected failure handling keeps the invariant |
| Upload.RetryKeepsInv | Users/ASUS/Desktop/SGP-2025/client/src/components/Upload.jsx:147-158 | a retry keeps the invariant, so the counter never passes 3 |
| Upload.DropKeepsInv | Users/ASUS/Desktop/SGP-2025/client/src/components/Upload.jsx:28-47 | a drop or a file selection keeps the invariant |
| Upload.RetryBounded | Users/ASUS/Desktop/SGP-2025/client/src/components/Upload.jsx:147-158 | the counter is at most 3 after a retry; at 3 a retry only sets the maximum-retries error |
| Upload.DropFacts | Users/ASUS/Desktop/SGP-2025/client/src/components/Upload.jsx:28-40 | a drop clears the drag flag and uploads the first dropped PDF, or sets and reports "Please drop a valid PDF file" when none was dropped |
| Upload.FailAsWrittenStuck | Users/ASUS/Desktop/SGP-2025/client/src/components/Upload.jsx:86-110 | as written, a failed request reports nothing, shows no error, and leaves the component uploading with the bar climbing to 90 and stopping there |
| Upload.FailCorrectedReports | Users/ASUS/Desktop/SGP-2025/client/src/components/Upload.jsx:109-144 | as intended, a failed request stops the bar, ends the upload, and sets and reports the failure's message |
| Upload.RetryAsWrittenNeverUploads | Users/ASUS/Desktop/SGP-2025/client/src/components/Upload.jsx:147-158 | as written, Retry (only on screen in the error view, where no file input exists) only increments the counter and never uploads |
| Upload.RetryCorrectedUploads | Users/ASUS/Desktop/SGP-2025/client/src/components/Upload.jsx:147-158 | as intended, Retry below three attempts hands the file of the last attempt (valid or not) to the upload again: the counter rises by one, the recorded file is unchanged, a valid file starts uploading, and an invalid one reports its validation error again |
| Upload.Uploader.constructor | Users/ASUS/Desktop/SGP-2025/client/src/components/Upload.jsx:5-9 | the initial state, which satisfies the invariant |
| Upload.Uploader.ResetUploadState | Users/ASUS/Desktop/SGP-2025/client/src/components/Upload.jsx:11-16 | not uploading, progress 0, no error, retry count 0; invariant kept |
| Upload.Uploader.HandleFileUpload | Users/ASUS/Desktop/SGP-2025/client/src/components/Upload.jsx:73-96 | the new state and report are those of `Begin`; invariant kept |
| Upload.Uploader.ProgressTick | Users/ASUS/Desktop/SGP-2025/client/src/components/Upload.jsx:88-96 | one interval firing, as `Tick`; invariant kept |
| Upload.Uploader.UploadSucceeded | Users/ASUS/Desktop/SGP-2025/client/src/components/Upload.jsx:98-101 | the interval is cleared and progress is 100 |
| Upload.Uploader.SuccessTimeout | Users/ASUS/Desktop/SGP-2025/client/src/components/Upload.jsx:104-107 | the delayed success resets the state |
| Upload.Uploader.UploadFailed | Users/ASUS/Desktop/SGP-2025/client/src/components/Upload.jsx:109-144 | the corrected failure handling, as `FailCorrected` |
| Upload.Uploader.HandleRetry | Users/ASUS/Desktop/SGP-2025/client/src/components/Upload.jsx:147-158 | the corrected retry, as `RetryCorrected`; invariant kept |
| Upload.Uploader.SetDragOver | Users/ASUS/Desktop/SGP-2025/client/src/components/Upload.jsx:18-26 | drag over sets and drag leave clears the drag flag, nothing else |
| Upload.Uploader.HandleDrop | Users/ASUS/Desktop/SGP-2025/client/src/components/Upload.jsx:28-40 | the new state and report are those of `Drop` |
| Upload.Uploader.HandleFileSelect | Users/ASUS/Desktop/SGP-2025/client/src/components/Upload.jsx:42-47 | uploads the first selected file, or does nothing when none was selected |
| OcrUtils.Lookup | Users/ASUS/Desktop/SGP-2025/server/models/ocr_utils.py:293-328 | a character that is no key maps to itself; a key maps to the value of its first entry |
| OcrUtils.LookupInWellFormed | Users/ASUS/Desktop/SGP-2025/server/models/ocr_utils.py:293-328 | in a table with distinct keys, each key maps to its own value |
| OcrUtils.ThroughIsLookup | Users/ASUS/Desktop/SGP-2025/server/models/ocr_utils.py:331-332 | applying the table's replaces in order equals a single per-character lookup, because no value is another key |
| OcrUtils.ReplacementsWellFormed | Users/ASUS/Desktop/SGP-2025/server/models/ocr_utils.py:293-328 | the table's keys are distinct and no value is a key |
| OcrUtils.DigitsAreKeys | Users/ASUS/Desktop/SGP-2025/server/models/ocr_utils.py:294-327 | every ASCII digit and '\|' is a key of the table |
| OcrUtils.Translate | Users/ASUS/Desktop/SGP-2025/server/models/ocr_utils.py:331-332 | the replacements keep the length |
| OcrUtils.CorrectCharFacts | Users/ASUS/Desktop/SGP-2025/server/models/ocr_utils.py:293-332 | unmapped characters stay; no digit or '\|' survives; whitespace is kept and nothing becomes whitespace; correcting twice is correcting once |
| OcrUtils.CollapseIsCollapsed | Users/ASUS/Desktop/SGP-2025/server/models/ocr_utils.py:290 | `' '.join(s.split())` has no leading, trailing or doubled whitespace and no character but ' ' of whitespace |
| OcrUtils.CollapseIdentity | Users/ASUS/Desktop/SGP-2025/server/models/ocr_utils.py:290 | collapsing collapsed text changes nothing |
| OcrUtils.TranslateKeepsCollapsed | Users/ASUS/Desktop/SGP-2025/server/models/ocr_utils.py:290-332 | the replacements keep collapsed text collapsed |
| OcrUtils.SplitLines | Users/ASUS/Desktop/SGP-2025/server/models/ocr_utils.py:335 | `split('\n')` always yields at least one part |
| OcrUtils.SplitLinesSingle | Users/ASUS/Desktop/SGP-2025/server/models/ocr_utils.py:335 | text without a newline splits into itself |
| OcrUtils.ApplyTable | Users/ASUS/Desktop/SGP-2025/server/models/ocr_utils.py:331-332 | the replace loop sends each character through the whole table in order |
| OcrUtils.FilterLines | Users/ASUS/Desktop/SGP-2025/server/models/ocr_utils.py:336-342 | the line loop keeps exactly the stripped non-empty lines with a letter or more than two characters |
| OcrUtils.CleanOcrText | Users/ASUS/Desktop/SGP-2025/server/models/ocr_utils.py:281-346 | the method computes the cleaning function (empty input returned as is) |
| OcrUtils.CleanedSingleLine | Users/ASUS/Desktop/SGP-2025/server/models/ocr_utils.py:290-346 | after collapsing there is one line, so cleaning is the keep rule applied to the corrected collapsed text |
| OcrUtils.CleanedShape | Users/ASUS/Desktop/SGP-2025/server/models/ocr_utils.py:290-344 | cleaned text is collapsed, has no newline, and contains no ASCII digit or '\|' |
| OcrUtils.CleanedKeepRule | Users/ASUS/Desktop/SGP-2025/server/models/ocr_utils.py:335-346 | the result is "" exactly when the corrected collapsed text has no letter and at most two characters; otherwise it is that text whole |
| OcrUtils.CleanedIdempotent | Users/ASUS/Desktop/SGP-2025/server/models/ocr_utils.py:281-346 | cleaning cleaned text returns it unchanged |
| OcrUtils.DetectGujaratiText | Users/ASUS/Desktop/SGP-2025/server/models/ocr_utils.py:425-444 | the counting loop computes the verdict: false for empty text, else alpha count > 0 and Gujarati count / alpha count > 0.1 |
| OcrUtils.GujaratiVerdictInIntegers | Users/ASUS/Desktop/SGP-2025/server/models/ocr_utils.py:427-444 | the verdict in integers: non-empty, alpha count > 0, and 10·Gujarati count > alpha count |
| OcrUtils.GujaratiVerdictCases | Users/ASUS/Desktop/SGP-2025/server/models/ocr_utils.py:425-444 | text with no U+0A80–U+0AFF character is never Gujarati; non-empty text of Gujarati letters always is |
| OcrUtils.DetectLanguage | Users/ASUS/Desktop/SGP-2025/server/models/ocr_utils.py:399-403 | always "eng" |
| OcrUtils.KeepCleaned | Users/ASUS/Desktop/SGP-2025/server/models/ocr_utils.py:226-230 | only cleaned Tesseract texts longer than 10 characters are kept |
| OcrUtils.KeepLong | Users/ASUS/Desktop/SGP-2025/server/models/ocr_utils.py:240-242 | only EasyOCR texts longer than 10 characters are kept |
| OcrUtils.Candidates | Users/ASUS/Desktop/SGP-2025/server/models/ocr_utils.py:211-258 | every candidate of the Tesseract, EasyOCR and English cascade is longer than 10 characters |
| OcrUtils.KeepCleanedLoop | Users/ASUS/Desktop/SGP-2025/server/models/ocr_utils.py:224-230 | the loop computes the kept cleaned texts |
| OcrUtils.CollectCandidates | Users/ASUS/Desktop/SGP-2025/server/models/ocr_utils.py:211-258 | the cascade of loops computes the candidate list, trying EasyOCR only for Gujarati and English only when nothing was kept |
| OcrUtils.ScoreAll | Users/ASUS/Desktop/SGP-2025/server/models/ocr_utils.py:263-267 | each candidate is paired with length + 3·Gujarati count |
| OcrUtils.ExtractTextWithAdvancedOcr | Users/ASUS/Desktop/SGP-2025/server/models/ocr_utils.py:200-279 | "" when nothing is kept; otherwise the first candidate of maximal score, which is what the stable reverse sort puts first |
| OcrUtils.SameFirstMax | Users/ASUS/Desktop/SGP-2025/server/models/ocr_utils.py:263-270 | the first maximum of the scored pairs is the first maximum of the candidates by score |
| OcrUtils.BestCandidateFacts | Users/ASUS/Desktop/SGP-2025/server/models/ocr_utils.py:261-275 | the chosen text is longer than 10, no candidate scores higher, and every earlier candidate scores strictly lower |
| OcrUtils.OcrPage | Users/ASUS/Desktop/SGP-2025/server/models/ocr_utils.py:370-382 | the page text comes from the Gujarati+English, the requested-languages and then the English attempt, each made only when the previous one is blank |
| OcrUtils.ProcessScannedPdf | Users/ASUS/Desktop/SGP-2025/server/models/ocr_utils.py:356-397 | the page loop computes the record list |
| OcrUtils.ScannedRecordsSound | Users/ASUS/Desktop/SGP-2025/server/models/ocr_utils.py:384-389 | every record is a page in 1..n with that page's non-blank OCR text and confidence 0.8; pages strictly increase |
| OcrUtils.ScannedRecordsComplete | Users/ASUS/Desktop/SGP-2025/server/models/ocr_utils.py:366-389 | every page with non-blank text has a record (numbered index+1) |
| ModelUtils.ExtractTextFromPdf | Users/ASUS/Desktop/SGP-2025/server/models/model_utils.py:44-59 | the page loop computes the extracted pages |
| ModelUtils.ExtractedPagesSound | Users/ASUS/Desktop/SGP-2025/server/models/model_utils.py:50-56 | each extracted page is a non-blank page of the PDF, numbered index+1, with its text stripped |
| ModelUtils.ExtractedPagesOrdered | Users/ASUS/Desktop/SGP-2025/server/models/model_utils.py:50-56 | page numbers lie in 1..page count and strictly increase |
| ModelUtils.ExtractedPagesComplete | Users/ASUS/Desktop/SGP-2025/server/models/model_utils.py:50-56 | every non-blank page is extracted |
| ModelUtils.Snippet | Users/ASUS/Desktop/SGP-2025/server/models/model_utils.py:124 | text of at most 200 characters is kept whole; longer text becomes its first 200 characters and "..." |
| ModelUtils.Zip | Users/ASUS/Desktop/SGP-2025/server/models/model_utils.py:120 | pairs each page with its similarity, stopping at the shorter list |
| ModelUtils.SearchTextSync | Users/ASUS/Desktop/SGP-2025/server/models/model_utils.py:100-136 | the result loop, sort and slice compute the shaped response |
| ModelUtils.RelevantSound | Users/ASUS/Desktop/SGP-2025/server/models/model_utils.py:120-127 | every hit comes from a page with similarity > 0.1, with that page's number, snippet, score and full text |
| ModelUtils.RelevantComplete | Users/ASUS/Desktop/SGP-2025/server/models/model_utils.py:120-127 | every page with similarity > 0.1 yields a hit |
| ModelUtils.SearchResponseFacts | Users/ASUS/Desktop/SGP-2025/server/models/model_utils.py:105-136 | no pages gives [] and "No text found in PDF"; otherwise at most 10 hits, each above 0.1 and from a page, in non-increasing score order, with total_pages the extracted page count and the query echoed; all relevant hits when there are at most 10 |
| ModelUtils.DroppedNeverOutscores | Users/ASUS/Desktop/SGP-2025/server/models/model_utils.py:130-133 | a relevant hit cut by the top ten never outscores a kept one |
| ModelUtils.RankedStable | Users/ASUS/Desktop/SGP-2025/server/models/model_utils.py:130 | hits of equal score keep page order |
| ModelUtils.HighlightText | Users/ASUS/Desktop/SGP-2025/server/models/model_utils.py:138-150 | the word loop changes nothing: the text comes back unchanged for every query |
| StableSort.SortDescending | Users/ASUS/Desktop/SGP-2025/server/models/model_utils.py:130 | the sort is a permutation in non-increasing key order |
| StableSort.SortStable | Users/ASUS/Desktop/SGP-2025/server/models/model_utils.py:130 | elements of equal key keep their relative order |
| StableSort.SortHeadIsFirstMax | Users/ASUS/Desktop/SGP-2025/server/models/ocr_utils.py:269-270 | the head of the stable reverse sort is the first element of maximal key |
| StableSort.FirstMaxIndex | Users/ASUS/Desktop/SGP-2025/server/models/ocr_utils.py:269-270 | an index of maximal key before which every key is strictly smaller |
| StableSort.Take | Users/ASUS/Desktop/SGP-2025/server/models/model_utils.py:133 | `[:k]` keeps min(k, length) elements, all of them when there are at most k |
| StableSort.TakeKeepsLargest | Users/ASUS/Desktop/SGP-2025/server/models/model_utils.py:133 | the kept prefix of a sorted list is sorted and no dropped element outscores a kept one |
| ServerMain.ValidateUploadName | Users/ASUS/Desktop/SGP-2025/server/main.py:77-86 | "No filename provided" first, then "Only PDF files are allowed" for names whose lower-case form does not end in ".pdf", then "Invalid filename" for an empty or dot-leading last component; accepted iff all pass |
| ServerMain.AcceptedNameFacts | Users/ASUS/Desktop/SGP-2025/server/main.py:77-86 | a stored name is non-empty, has no '/', does not start with '.', ends in ".pdf" in lower case, and is the tail of the sent name |
| ServerMain.PdfTailHasNoSlash | Users/ASUS/Desktop/SGP-2025/server/main.py:80-84 | a name passing the ".pdf" guard has no separator in its last four characters |
| ServerMain.BackupNameFacts | Users/ASUS/Desktop/SGP-2025/server/main.py:96 | "<name>.backup_<seconds>" differs from the name, ends in the seconds, and never ends in ".pdf" |
| ServerMain.UploadEffectFacts | Users/ASUS/Desktop/SGP-2025/server/main.py:77-141 | a refused name changes nothing (400); otherwise only the name and its backup change; old content survives under the backup; the new content is stored unless an exception removes it (500 "Error processing PDF: …"); an error result gives 500 with its detail and keeps the file |
| ServerMain.BackupFoldedNotPdf | Users/ASUS/Desktop/SGP-2025/server/main.py:96 | a backup name, lower-cased, never ends in ".pdf", because its last character is a digit |
| ServerMain.UploadsDir.constructor | Users/ASUS/Desktop/SGP-2025/server/main.py:38-40 | the server starts with whatever the directory already holds, since it is created with `exist_ok` and never cleared |
| ServerMain.UploadsDir.UploadPdf | Users/ASUS/Desktop/SGP-2025/server/main.py:71-141 | the directory and reply after an upload are those of `UploadEffect` |
| ServerMain.UploadsDir.SearchPdf | Users/ASUS/Desktop/SGP-2025/server/main.py:143-158 | the reply is that of `SearchReply`, built by the page-extraction and result-shaping methods |
| ServerMain.SearchReplyFacts | Users/ASUS/Desktop/SGP-2025/server/main.py:143-158 | 404 "PDF file not found" exactly for names with no file; a search exception gives 500 "Error searching PDF: …"; a success echoes the query |
| ServerMain.PdfEntries | Users/ASUS/Desktop/SGP-2025/server/main.py:164-166 | the listing keeps no more entries than it had |
| ServerMain.ListPdfs | Users/ASUS/Desktop/SGP-2025/server/main.py:160-167 | the loop computes the ".pdf" entries in listing order |
| ServerMain.PdfEntriesMembers | Users/ASUS/Desktop/SGP-2025/server/main.py:164-166 | exactly the entries ending in ".pdf", case-sensitively, are listed |
| ServerMain.PdfEntriesAppend | Users/ASUS/Desktop/SGP-2025/server/main.py:164-166 | the listing keeps listing order |
| ServerMain.UploadedButNotListed | Users/ASUS/Desktop/SGP-2025/server/main.py:80-165 | any `<stem>.PDF` (stem non-empty, not starting with '.', without '/'; "report.PDF" for one) passes the upload guard and is stored, yet is not listed |
| ServerMain.PdfEntriesFolded | Users/ASUS/Desktop/SGP-2025/server/main.py:160-167 | the intended listing: exactly the entries whose lower-case form ends in ".pdf" |
| ServerMain.UpperPdfAccepted | Users/ASUS/Desktop/SGP-2025/server/main.py:77-86 | a name `<stem>.PDF` with a non-empty stem that does not start with '.' and has no '/' passes all three upload guards unchanged |
| ServerMain.UploadedIsListed | Users/ASUS/Desktop/SGP-2025/server/main.py:80-167 | with the intended listing, every stored upload is listed and no backup name is |
| FlaskApp.AllowedFileIsPdfSuffix | Users/ASUS/Desktop/SGP-2025/app.py:35-36 | allowed_file holds exactly for names whose lower-case form ends in ".pdf" |
| FlaskApp.SameCheckAsServer | Users/ASUS/Desktop/SGP-2025/app.py:35-36 | allowed_file accepts the same non-empty names as the FastAPI guard at main.py:80 |
| FlaskApp.AllowedFileExamples | Users/ASUS/Desktop/SGP-2025/app.py:35-36 | "a.PDF" and ".pdf" are accepted; "pdf", "a." and "a.pdf.exe" are refused |
| FlaskApp.UploadGuard | Users/ASUS/Desktop/SGP-2025/app.py:47-55 | all 400s in the order no file part, empty name, refused extension; accepted iff none applies |
| FlaskApp.UploadEffectFacts | Users/ASUS/Desktop/SGP-2025/app.py:43-73 | a refused request changes nothing; an accepted one stores the content under the secured name, touches nothing else, keeps the file even when processing fails, and succeeds only when processing does |
| FlaskApp.SearchReplyFacts | Users/ASUS/Desktop/SGP-2025/app.py:75-96 | a missing query or name gives 400 before the folder is consulted; 404 exactly for complete requests naming no file; a success echoes the query |
| FlaskApp.Uploads.constructor | Users/ASUS/Desktop/SGP-2025/app.py:21-25 | the app starts with whatever the folder already holds, since it is created with `exist_ok` and never cleared |
| FlaskApp.Uploads.UploadPdf | Users/ASUS/Desktop/SGP-2025/app.py:43-73 | the folder and reply after an upload are those of `UploadEffect` |
| FlaskApp.Uploads.SearchPdf | Users/ASUS/Desktop/SGP-2025/app.py:75-96 | the reply is that of `SearchReply` |
| FlaskApp.ListPdfs | Users/ASUS/Desktop/SGP-2025/app.py:98-108 | exactly the ".pdf" entries (case-sensitive) in listing order, or 500 "Error listing PDFs: …" when listing fails |

## Left out

- The OCR and image pipeline is not modelled: PDF-to-image conversion, preprocessing and the Tesseract/EasyOCR calls. Their output strings are inputs: candidate texts per stage, and OCR text per page and language list.
- The EasyOCR confidence filter is not modelled. It depends on recogniser float confidences.
- Embeddings, cosine similarity, torch and the random fallback are not modelled. Similarities are given reals that are only compared.
- `server/pdf/pdf_utils.py` is not part of this model. It wraps PDF libraries and file I/O; the processor's outcome is an input of the upload routes.
- A PDF that fails to read part-way is modelled by its readable pages being the input page list. The same holds for a scanned PDF whose conversion fails.
- Filesystem and HTTP machinery are modelled as a map of names to bytes plus explicit status/detail replies. Concurrent requests and partial writes are not modelled.
- A failed save is folded into the same exception outcome as a failed processing step. The separate 500 "Failed to save uploaded file" (main.py:105-106) is not modelled, because the map cannot lose a write.
- werkzeug's `secure_filename` is a function parameter of the Flask upload.
- Search names are map keys; path joining is not modelled. An absolute or `..` name in a search request, which `os.path.join` would resolve outside the uploads folder, is therefore not modelled. Nor are names that resolve to the uploads folder itself: "" in FastAPI (main.py:147-150) and "." in both servers. The folder exists, the failed PDF open inside the search is caught (models/model_utils.py:47-58), and the reply is 200 "No text found in PDF"; the model answers 404 for these names.
- `Path(...).name` is modelled as the text after the last '/'. Python's dropping of trailing separators and "." components is not modelled. It matters only for names ending in '/', which the ".pdf" guard already refuses. Windows separators are not modelled.
- Lower-casing is an abstract per-character fold. Python's and JavaScript's full Unicode case mappings (which can change length) are not modelled.
- The client's async network calls and the timers are events the caller supplies. Real timing and interleaving are not modelled.
- The uploader has a single progress interval. A second upload started while one runs creates a second interval in the source; the model merges them.
- Stale closures in the `useCallback` handlers are not modelled: `handleDrop` and `handleFileSelect` capture an early `handleFileUpload`, and `handleRetry` captures `retryCount`.
- React rendering and `dangerouslySetInnerHTML` are not modelled. The only exception is the two visibility predicates the retry finding needs.
- Zoom handling (PDFViewer.jsx:20-23) is not modelled. It uses float steps of 0.1.
- PdfViewer.HighlightText: modelled only for queries without regular-expression metacharacters. Such a query is not escaped by the source, and the resulting pattern may throw or match differently.
- The floating-point ratio in `detect_gujarati_text` is modelled with exact reals. Its rounding is not modelled.
- The in-place sorts (`list.sort`) are modelled as a stable insertion sort on values.
- Logging, `print`, timing fields (`processing_time`) and the health and status routes are not modelled.
- `App.jsx`, the test scripts and `run_flask.py` are not modelled. They are glue and diagnostics.

## Findings

| source | as written | input that shows it | evidently intended | confidence | as-written member | corrected member |
|---|---|---|---|---|---|---|
| Users/ASUS/Desktop/SGP-2025/client/src/components/Upload.jsx:110 | the catch block calls `clearInterval(progressInterval)`, but that `const` is declared inside the `try` block (line 88), so the call throws a ReferenceError and nothing after it runs | any upload whose request fails, e.g. a 500 answer: the component stays "uploading", the bar stops at 90%, no error is shown and `onUploadError` is never called | clear the interval, end the upload, and show and report the mapped message | high (not executed) | Upload.FailAsWrittenStuck | Upload.FailCorrectedReports |
| Users/ASUS/Desktop/SGP-2025/client/src/components/Upload.jsx:151-154 | `handleRetry` looks up the element `file-input`, but the Retry button is only rendered in the error view (lines 190-214), and the input only in the idle view (lines 227-233) | any click on "Retry Upload": the lookup finds nothing, so the counter rises but no upload starts | re-upload the file of the last attempt, the file last handed to the upload whether or not it passed validation (the source's own comment says "Re-upload the same file") | high (not executed) | Upload.RetryAsWrittenNeverUploads | Upload.RetryCorrectedUploads |
| Users/ASUS/Desktop/SGP-2025/server/main.py:165 | `list_pdfs` keeps names ending in ".pdf" case-sensitively, while the upload guard at line 80 accepts any case | uploading "report.PDF" stores it under that name, but `/pdfs` never lists it | list every stored upload, by the same case-insensitive test | medium (not executed) | ServerMain.UploadedButNotListed | ServerMain.UploadedIsListed |
