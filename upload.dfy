/** The upload component (client/src/components/Upload.jsx): file validation, the simulated
    progress bar, the failure messages, retries and the drop zone.

    The component's state is an UploadState value; each handler is a transition on it, and an
    Uploader object holds the current value. The request, the timers and the DOM lookup are
    outside the model: the request's outcome is an input of the handler that receives it, each
    firing of the progress interval is a call of ProgressTick, and the 500 ms success delay is
    a call of SuccessTimeout. */
module Upload {
  import opened Wrappers
  import opened Chars

  const PdfMime: string := "application/pdf"
  const MaxFileSize: nat := 50 * 1024 * 1024
  const MaxRetries: nat := 3
  const ProgressCap: int := 90

  const DropMessage: string := "Please drop a valid PDF file"
  const MaxRetryMessage: string := "Maximum retry attempts reached. Please try uploading a different file."

  /** What the component reads of a browser File object. */
  datatype FileInfo = FileInfo(mime: string, size: nat, name: Option<string>)

  // ---------------------------------------------------------------------------------------
  // validateFile

  const TypeMessage: string := "Please select a valid PDF file"
  const SizeMessage: string := "File size should be less than 50MB"
  const EmptyMessage: string := "File is empty. Please select a valid PDF file."
  const NameMessage: string := "Invalid filename. Please select a valid PDF file."

  /** validateFile (Upload.jsx:49-71): the message of the first failing check — type, too
      large, empty, name — or nothing for an acceptable file. */
  function ValidateFile(file: FileInfo): (err: Option<string>)
    ensures err.None? <==>
              && file.mime == PdfMime && 0 < file.size <= MaxFileSize
              && file.name.Some? && !IsBlank(file.name.value, IsJsSpace)
    ensures file.mime != PdfMime ==> err == Some(TypeMessage)
    ensures file.mime == PdfMime && file.size > MaxFileSize ==> err == Some(SizeMessage)
    ensures file.mime == PdfMime && file.size == 0 ==> err == Some(EmptyMessage)
    ensures file.mime == PdfMime && 0 < file.size <= MaxFileSize && (file.name.None? || IsBlank(file.name.value, IsJsSpace))
            ==> err == Some(NameMessage)
  {
    if file.mime != PdfMime then Some(TypeMessage)
    else if file.size > MaxFileSize then Some(SizeMessage)
    else if file.size == 0 then Some(EmptyMessage)
    else if file.name.None? || Trim(file.name.value, IsJsSpace) == [] then Some(NameMessage)
    else None
  }

  // ---------------------------------------------------------------------------------------
  // Failure messages (the switch at Upload.jsx:114-140)

  /** How a request failed: the server answered with a status, no answer came, or the request
      could not be made. */
  datatype UploadFailure =
    | HttpError(status: int, detail: Option<string>, message: Option<string>)
    | NoResponse
    | ClientError(message: Option<string>)

  /** JavaScript's `a || fallback` for an optional string: a when it is a non-empty string. */
  function OrElse(a: Option<string>, fallback: string): (r: string)
    ensures a.Some? && a.value != [] ==> r == a.value
    ensures a.None? || a.value == [] ==> r == fallback
  {
    if a.Some? && a.value != [] then a.value else fallback
  }

  /** `data?.detail || data?.message`. */
  function ServerDetail(detail: Option<string>, message: Option<string>): Option<string>
  {
    if detail.Some? && detail.value != [] then detail else message
  }

  /** The server answered with a non-empty detail or message. */
  predicate HasDetail(e: UploadFailure)
    requires e.HttpError?
  {
    var d := ServerDetail(e.detail, e.message);
    d.Some? && d.value != []
  }

  /** The message shown for a failed request. 413 always gives the fixed "too large" text;
      400, 500 and every other status prefer the server's detail (or, failing that, its
      message) over their fixed text; a request with no answer gives the network text; any
      other error gives its own message or the generic text. */
  function FailureMessage(e: UploadFailure): (msg: string)
    ensures msg != []
    ensures e.HttpError? && e.status == 413 ==> msg == "File too large. Please upload a smaller PDF file."
    ensures e.HttpError? && e.status != 413 && HasDetail(e) ==> msg == ServerDetail(e.detail, e.message).value
    ensures e.HttpError? && e.status == 400 && !HasDetail(e) ==> msg == "Invalid file format. Please upload a valid PDF."
    ensures e.HttpError? && e.status == 500 && !HasDetail(e) ==> msg == "Server error. Please try again later."
    ensures e.NoResponse? ==> msg == "Network error. Please check your connection and try again."
  {
    match e
    case HttpError(status, detail, message) =>
      var d := ServerDetail(detail, message);
      if status == 400 then OrElse(d, "Invalid file format. Please upload a valid PDF.")
      else if status == 413 then "File too large. Please upload a smaller PDF file."
      else if status == 500 then OrElse(d, "Server error. Please try again later.")
      else OrElse(d, "Upload failed (" + IntToString(status) + "). Please try again.")
    case NoResponse => "Network error. Please check your connection and try again."
    case ClientError(message) => OrElse(message, "Upload failed. Please try again.")
  }

  /** With no usable detail, an unexpected status is named in the message. */
  lemma OtherStatusNamed(status: int)
    requires status != 400 && status != 413 && status != 500
    ensures FailureMessage(HttpError(status, None, None)) == "Upload failed (" + IntToString(status) + "). Please try again."
  {
  }

  // ---------------------------------------------------------------------------------------
  // The component state and its transitions

  /** The component's state; `ticking` records whether the progress interval is live, and
      `lastFile` the file handed to the last upload attempt, valid or not (only the corrected
      retry reads it). */
  datatype UploadState = UploadState(
    isDragOver: bool,
    isUploading: bool,
    progress: int,
    error: Option<string>,
    retryCount: int,
    ticking: bool,
    lastFile: Option<FileInfo>)

  function Initial(): UploadState
  {
    UploadState(false, false, 0, None, 0, false, None)
  }

  /** A progress value the interval can produce: a multiple of ten in 0..90. */
  predicate ProgressStep(p: int)
  {
    0 <= p <= ProgressCap && p % 10 == 0
  }

  /** What every reachable state satisfies: the retry counter stays in 0..3, progress is a
      step value or the final 100, and while the interval is live it is a step value. */
  predicate Inv(s: UploadState)
  {
    && 0 <= s.retryCount <= MaxRetries
    && (ProgressStep(s.progress) || s.progress == 100)
    && (s.ticking ==> ProgressStep(s.progress))
  }

  /** resetUploadState (Upload.jsx:11-16). */
  function Reset(s: UploadState): UploadState
  {
    s.(isUploading := false, progress := 0, error := None, retryCount := 0)
  }

  /** The start of handleFileUpload (Upload.jsx:73-96): a file that fails validation sets the
      error and reports it, starting nothing; a valid file starts the upload with progress 0,
      no error and the interval live. Either way the file is recorded as the last attempt, the
      file the corrected retry hands back. The second component is the message passed to
      onUploadError, if any. */
  function Begin(s: UploadState, file: FileInfo): (UploadState, Option<string>)
  {
    var err := ValidateFile(file);
    if err.Some? then (s.(error := err, lastFile := Some(file)), err)
    else (s.(isUploading := true, progress := 0, error := None, ticking := true, lastFile := Some(file)), None)
  }

  /** The interval callback (Upload.jsx:89-95) on progress p. */
  function TickProgress(p: int): (r: int)
    ensures p >= ProgressCap ==> r == ProgressCap
    ensures p < ProgressCap ==> r == p + 10
  {
    if p >= ProgressCap then ProgressCap else p + 10
  }

  /** One firing of the interval: the tick, which clears the interval once progress has
      reached 90. Nothing happens when no interval is live. */
  function Tick(s: UploadState): UploadState
  {
    if !s.ticking then s
    else if s.progress >= ProgressCap then s.(progress := TickProgress(s.progress), ticking := false)
    else s.(progress := TickProgress(s.progress))
  }

  function Ticks(s: UploadState, n: nat): UploadState
  {
    if n == 0 then s else Tick(Ticks(s, n - 1))
  }

  /** The request succeeded (Upload.jsx:100-101): the interval is cleared, progress is 100. */
  function Succeed(s: UploadState): UploadState
  {
    s.(ticking := false, progress := 100)
  }

  /** The catch block as written (Upload.jsx:109-144). Its first statement reads
      progressInterval, a const declared inside the try block, which is out of scope there:
      the statement throws a ReferenceError, so nothing after it runs — no state change and
      no report — and the interval stays live. */
  function FailAsWritten(s: UploadState, e: UploadFailure): (UploadState, Option<string>)
  {
    (s, None)
  }

  /** The catch block as intended: the interval cleared, uploading off, progress 0, and the
      failure's message set and reported. */
  function FailCorrected(s: UploadState, e: UploadFailure): (UploadState, Option<string>)
  {
    var msg := FailureMessage(e);
    (s.(ticking := false, isUploading := false, progress := 0, error := Some(msg)), Some(msg))
  }

  /** handleRetry as written (Upload.jsx:147-158): below three retries the counter goes up
      and the file found in the element with id "file-input" (the input, if any) is uploaded
      again; at three only the maximum-retries error is set. */
  function RetryAsWritten(s: UploadState, input: Option<FileInfo>): (UploadState, Option<string>)
  {
    if s.retryCount < MaxRetries then
      var s1 := s.(retryCount := s.retryCount + 1);
      if input.Some? then Begin(s1, input.value) else (s1, None)
    else (s.(error := Some(MaxRetryMessage)), None)
  }

  /** handleRetry as intended: the file of the last upload attempt is handed to the upload again. */
  function RetryCorrected(s: UploadState): (UploadState, Option<string>)
  {
    if s.retryCount < MaxRetries then
      var s1 := s.(retryCount := s.retryCount + 1);
      if s.lastFile.Some? then Begin(s1, s.lastFile.value) else (s1, None)
    else (s.(error := Some(MaxRetryMessage)), None)
  }

  /** files.find(file => file.type === 'application/pdf'). */
  function FirstPdf(files: seq<FileInfo>): (r: Option<FileInfo>)
    ensures r.None? <==> forall i :: 0 <= i < |files| ==> files[i].mime != PdfMime
    ensures r.Some? ==> exists i :: 0 <= i < |files| && files[i] == r.value && r.value.mime == PdfMime
                                    && forall j :: 0 <= j < i ==> files[j].mime != PdfMime
  {
    if files == [] then None
    else if files[0].mime == PdfMime then Some(files[0])
    else
      var r := FirstPdf(files[1..]);
      assert forall i :: 1 <= i < |files| ==> files[i] == files[1..][i - 1];
      r
  }

  /** A PDF with no PDF before it is the one FirstPdf finds. */
  lemma {:induction false} FirstPdfAt(files: seq<FileInfo>, i: nat)
    requires i < |files| && files[i].mime == PdfMime
    requires forall j :: 0 <= j < i ==> files[j].mime != PdfMime
    ensures FirstPdf(files) == Some(files[i])
    decreases i
  {
    if i > 0 {
      assert files[1..][i - 1] == files[i];
      FirstPdfAt(files[1..], i - 1);
    }
  }

  /** handleDrop (Upload.jsx:28-40): uploads the first dropped PDF, or reports that none was
      dropped. */
  function Drop(s: UploadState, files: seq<FileInfo>): (UploadState, Option<string>)
  {
    var s1 := s.(isDragOver := false);
    var pdf := FirstPdf(files);
    if pdf.Some? then Begin(s1, pdf.value) else (s1.(error := Some(DropMessage)), Some(DropMessage))
  }

  /** handleFileSelect (Upload.jsx:42-47): uploads the first selected file, if any. */
  function Select(s: UploadState, files: seq<FileInfo>): (UploadState, Option<string>)
  {
    if files == [] then (s, None) else Begin(s, files[0])
  }

  // ---------------------------------------------------------------------------------------
  // Properties of the transitions

  /** A file that fails validation sets the error, reports it, and starts nothing. */
  lemma BeginRejects(s: UploadState, file: FileInfo)
    requires ValidateFile(file).Some?
    ensures var (t, reported) := Begin(s, file);
      && reported == ValidateFile(file) && t.error == ValidateFile(file)
      && t == s.(error := t.error, lastFile := Some(file))
  {
  }

  /** An accepted file starts an upload from progress 0 with no error and a live interval. */
  lemma BeginStarts(s: UploadState, file: FileInfo)
    requires ValidateFile(file).None?
    ensures var (t, reported) := Begin(s, file);
      && reported.None? && t.isUploading && t.progress == 0 && t.error.None? && t.ticking
      && t.retryCount == s.retryCount && t.lastFile == Some(file)
  {
  }

  function Min(a: int, b: int): int
  {
    if a <= b then a else b
  }

  /** From a freshly started upload, n firings of the interval give progress min(10n, 90);
      the interval clears itself on the tenth. Nothing else changes. */
  lemma {:induction false} TicksFromStart(s: UploadState, n: nat)
    requires s.ticking && s.progress == 0
    ensures Ticks(s, n) == s.(progress := Min(10 * n, ProgressCap), ticking := n < 10)
  {
    if n > 0 {
      TicksFromStart(s, n - 1);
    }
  }

  lemma BeginKeepsInv(s: UploadState, file: FileInfo)
    requires Inv(s)
    ensures Inv(Begin(s, file).0)
  {
    var err := ValidateFile(file);
    if err.Some? {
      assert Begin(s, file).0 == s.(error := err, lastFile := Some(file));
    } else {
      assert Begin(s, file).0.progress == 0;
    }
  }

  /** The two outcomes of Begin field by field, with the invariant kept. */
  lemma BeginUpdates(s: UploadState, file: FileInfo, t: UploadState, reported: Option<string>)
    requires Inv(s)
    requires ValidateFile(file).Some? ==>
               t == s.(error := ValidateFile(file), lastFile := Some(file)) && reported == ValidateFile(file)
    requires ValidateFile(file).None? ==>
               t == s.(isUploading := true, progress := 0, error := None, ticking := true, lastFile := Some(file))
               && reported.None?
    ensures (t, reported) == Begin(s, file) && Inv(t)
  {
    BeginKeepsInv(s, file);
  }

  /** Every transition keeps the invariant. */
  lemma InitialInv()
    ensures Inv(Initial())
  {
  }

  lemma ResetKeepsInv(s: UploadState)
    requires Inv(s)
    ensures Inv(Reset(s)) && Inv(Tick(s)) && Inv(Succeed(s))
  {
  }

  lemma FailKeepsInv(s: UploadState, e: UploadFailure)
    requires Inv(s)
    ensures Inv(FailCorrected(s, e).0)
  {
  }

  lemma RetryKeepsInv(s: UploadState)
    requires Inv(s)
    ensures Inv(RetryCorrected(s).0)
  {
    if s.retryCount < MaxRetries && s.lastFile.Some? {
      BeginKeepsInv(s.(retryCount := s.retryCount + 1), s.lastFile.value);
    }
  }

  lemma DropKeepsInv(s: UploadState, files: seq<FileInfo>)
    requires Inv(s)
    ensures Inv(Drop(s, files).0) && Inv(Select(s, files).0)
  {
    var pdf := FirstPdf(files);
    if pdf.Some? {
      BeginKeepsInv(s.(isDragOver := false), pdf.value);
    }
    if files != [] {
      BeginKeepsInv(s, files[0]);
    }
  }

  /** The retry counter is bounded: it never passes three. */
  lemma RetryBounded(s: UploadState)
    requires Inv(s)
    ensures RetryCorrected(s).0.retryCount <= MaxRetries
    ensures s.retryCount == MaxRetries ==> RetryCorrected(s) == (s.(error := Some(MaxRetryMessage)), None)
  {
  }

  /** A drop clears the drag highlight and uploads the first dropped PDF — never a later
      one, never a non-PDF — or, when none was dropped, sets and reports the drop message
      and starts nothing. */
  lemma DropFacts(s: UploadState, files: seq<FileInfo>)
    ensures var (t, reported) := Drop(s, files);
      && !t.isDragOver
      && ((forall i :: 0 <= i < |files| ==> files[i].mime != PdfMime) ==>
            t == s.(isDragOver := false, error := Some(DropMessage)) && reported == Some(DropMessage))
      && (forall i :: 0 <= i < |files| && files[i].mime == PdfMime && (forall j :: 0 <= j < i ==> files[j].mime != PdfMime)
            ==> (t, reported) == Begin(s.(isDragOver := false), files[i]))
  {
    var pdf := FirstPdf(files);
    forall i | 0 <= i < |files| && files[i].mime == PdfMime && (forall j :: 0 <= j < i ==> files[j].mime != PdfMime)
      ensures pdf == Some(files[i])
    {
      FirstPdfAt(files, i);
    }
  }

  /** Which part of the component is on screen: the progress view while uploading, the
      error view (with the Retry button below three retries) after an error, and otherwise
      the idle view, the only one that contains the file input. */
  predicate RetryButtonShown(s: UploadState)
  {
    !s.isUploading && s.error.Some? && s.error.value != [] && s.retryCount < MaxRetries
  }

  predicate FileInputShown(s: UploadState)
  {
    !s.isUploading && (s.error.None? || s.error.value == [])
  }

  // ---------------------------------------------------------------------------------------
  // Findings

  /** As written, a failed request leaves the component uploading for ever: the catch block
      throws before it clears anything, so the bar climbs to 90% and stays there, no error is
      shown and onUploadError is never called. */
  lemma FailAsWrittenStuck(s: UploadState, file: FileInfo, e: UploadFailure, n: nat)
    requires ValidateFile(file).None?
    ensures var started := Begin(s, file).0;
      var (failed, reported) := FailAsWritten(started, e);
      && reported.None?
      && Ticks(failed, n).isUploading
      && Ticks(failed, n).error.None?
      && Ticks(failed, n).progress == Min(10 * n, ProgressCap)
  {
    var started := Begin(s, file).0;
    TicksFromStart(started, n);
  }

  /** As intended, a failed request stops the bar, ends the upload and shows and reports the
      failure's message; later firings of the interval change nothing. */
  lemma FailCorrectedReports(s: UploadState, e: UploadFailure, n: nat)
    ensures var (failed, reported) := FailCorrected(s, e);
      && !failed.isUploading && !failed.ticking && failed.progress == 0
      && failed.error == Some(FailureMessage(e)) && reported == Some(FailureMessage(e))
      && failed.retryCount == s.retryCount
      && Ticks(failed, n) == failed
  {
    var failed := FailCorrected(s, e).0;
    TicksIdle(failed, n);
  }

  lemma {:induction false} TicksIdle(s: UploadState, n: nat)
    requires !s.ticking
    ensures Ticks(s, n) == s
  {
    if n > 0 {
      TicksIdle(s, n - 1);
    }
  }

  /** As written, Retry never uploads anything: its button is only on screen in the error
      view, where the file input is not rendered, so the lookup finds no file and only the
      counter moves. */
  lemma RetryAsWrittenNeverUploads(s: UploadState, input: Option<FileInfo>)
    requires RetryButtonShown(s)
    requires input.Some? ==> FileInputShown(s)
    ensures var (t, reported) := RetryAsWritten(s, input);
      && !t.isUploading && reported.None?
      && t == s.(retryCount := s.retryCount + 1)
  {
  }

  /** As intended, Retry hands the file of the last attempt to the upload again while
      retries remain: the counter rises by one, a valid file starts uploading, and an invalid
      one reports its validation error again. */
  lemma RetryCorrectedUploads(s: UploadState)
    requires RetryButtonShown(s) && s.lastFile.Some?
    ensures var (t, reported) := RetryCorrected(s);
      && t == Begin(s.(retryCount := s.retryCount + 1), s.lastFile.value).0
      && t.lastFile == s.lastFile && t.retryCount == s.retryCount + 1
      && (ValidateFile(s.lastFile.value).None? ==>
            t.isUploading && t.progress == 0 && t.error.None? && t.ticking && reported.None?)
      && (ValidateFile(s.lastFile.value).Some? ==>
            !t.isUploading && t.error == ValidateFile(s.lastFile.value) && reported == t.error)
  {
    var s1 := s.(retryCount := s.retryCount + 1);
    if ValidateFile(s.lastFile.value).None? {
      BeginStarts(s1, s.lastFile.value);
    } else {
      BeginRejects(s1, s.lastFile.value);
    }
  }

  // ---------------------------------------------------------------------------------------
  // The mounted component

  class Uploader {
    var isDragOver: bool
    var isUploading: bool
    var progress: int
    var error: Option<string>
    var retryCount: int
    var ticking: bool
    var lastFile: Option<FileInfo>

    function State(): UploadState
      reads this
    {
      UploadState(isDragOver, isUploading, progress, error, retryCount, ticking, lastFile)
    }

    constructor ()
      ensures State() == Initial() && Inv(State())
    {
      isDragOver, isUploading, progress, error := false, false, 0, None;
      retryCount, ticking, lastFile := 0, false, None;
    }

    /** resetUploadState, also the "Try Different File" button. */
    method ResetUploadState()
      requires Inv(State())
      modifies this
      ensures State() == Reset(old(State())) && Inv(State())
    {
      isUploading := false;
      progress := 0;
      error := None;
      retryCount := 0;
    }

    /** handleFileUpload up to the request; returns the message passed to onUploadError. */
    method HandleFileUpload(file: FileInfo) returns (reported: Option<string>)
      requires Inv(State())
      modifies this
      ensures State() == Begin(old(State()), file).0
      ensures reported == Begin(old(State()), file).1
      ensures Inv(State())
    {
      ghost var before := State();
      lastFile := Some(file);
      var validationError := ValidateFile(file);
      if validationError.Some? {
        error := validationError;
        reported := validationError;
      } else {
        isUploading := true;
        progress := 0;
        error := None;
        ticking := true;
        reported := None;
      }
      BeginUpdates(before, file, State(), reported);
    }

    /** One firing of the progress interval. */
    method ProgressTick()
      requires Inv(State())
      modifies this
      ensures State() == Tick(old(State())) && Inv(State())
    {
      if ticking {
        if progress >= ProgressCap {
          ticking := false;
          progress := ProgressCap;
        } else {
          progress := progress + 10;
        }
      }
    }

    /** The request succeeded. */
    method UploadSucceeded()
      requires Inv(State())
      modifies this
      ensures State() == Succeed(old(State())) && Inv(State())
    {
      ticking := false;
      progress := 100;
    }

    /** The success delay elapsed: the state is reset before onUploadSuccess. */
    method SuccessTimeout()
      requires Inv(State())
      modifies this
      ensures State() == Reset(old(State())) && Inv(State())
    {
      ResetUploadState();
    }

    /** The request failed; the catch block as intended. Returns the message passed to
        onUploadError. */
    method UploadFailed(e: UploadFailure) returns (reported: Option<string>)
      requires Inv(State())
      modifies this
      ensures (State(), reported) == FailCorrected(old(State()), e) && Inv(State())
    {
      var errorMessage := FailureMessage(e);
      ticking := false;
      isUploading := false;
      progress := 0;
      error := Some(errorMessage);
      reported := Some(errorMessage);
    }

    /** handleRetry, handing the file of the last attempt to the upload again, as intended. */
    method HandleRetry() returns (reported: Option<string>)
      requires Inv(State())
      modifies this
      ensures (State(), reported) == RetryCorrected(old(State())) && Inv(State())
    {
      RetryKeepsInv(State());
      if retryCount < MaxRetries {
        retryCount := retryCount + 1;
        if lastFile.Some? {
          reported := HandleFileUpload(lastFile.value);
        } else {
          reported := None;
        }
      } else {
        error := Some(MaxRetryMessage);
        reported := None;
      }
    }

    /** handleDragOver and handleDragLeave (Upload.jsx:18-26). */
    method SetDragOver(over: bool)
      requires Inv(State())
      modifies this
      ensures State() == old(State()).(isDragOver := over) && Inv(State())
    {
      isDragOver := over;
    }

    /** handleDrop; returns the message passed to onUploadError. */
    method HandleDrop(files: seq<FileInfo>) returns (reported: Option<string>)
      requires Inv(State())
      modifies this
      ensures (State(), reported) == Drop(old(State()), files) && Inv(State())
    {
      isDragOver := false;
      var pdfFile := FirstPdf(files);
      if pdfFile.Some? {
        reported := HandleFileUpload(pdfFile.value);
      } else {
        error := Some(DropMessage);
        reported := Some(DropMessage);
      }
    }

    /** handleFileSelect. */
    method HandleFileSelect(files: seq<FileInfo>) returns (reported: Option<string>)
      requires Inv(State())
      modifies this
      ensures (State(), reported) == Select(old(State()), files) && Inv(State())
    {
      if files != [] {
        reported := HandleFileUpload(files[0]);
      } else {
        reported := None;
      }
    }
  }
}
