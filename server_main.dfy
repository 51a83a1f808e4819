/** The FastAPI server (server/main.py): the upload route's filename guards, its backup,
    save and processing flow, the search route and the PDF listing.

    The uploads directory is a map from file name to content. The clock, the PDF processor
    and the search engine are inputs: the upload is given the current time in whole seconds
    and the processor's outcome, and the search is given the pages read from the PDF and the
    similarity of each to the query (or the exception raised while computing them). */
module ServerMain {
  import opened Wrappers
  import opened Chars
  import ModelUtils

  type Bytes = seq<bv8>

  /** A route's answer: a success body, or an HTTP error status with its detail text. */
  datatype Reply<+T> = Success(value: T) | Failure(status: int, detail: string)

  /** The body of a successful upload: the stored name and the size of the saved file. */
  datatype Stored = Stored(name: string, fileSize: nat)

  /** What processing the saved PDF came to: a result, a result carrying an error, or an
      exception (raised while saving or while processing) with its message. */
  datatype ProcessOutcome = Processed | ProcessError(error: string) | Raised(message: string)

  // ---------------------------------------------------------------------------------------
  // Filename guards (main.py:77-86)

  /** Path(name).name: the last path component. */
  function PathName(s: string): string
  {
    AfterLast(s, '/')
  }

  /** The guards of upload_pdf in order: no name, a name whose lower-case form does not end
      in ".pdf", then a last path component that is empty or starts with '.'. Ok carries the
      name the file is stored under; Err carries the 400 detail. */
  function ValidateUploadName(filename: Option<string>, fold: char -> char): (r: Result<string, string>)
    ensures filename.None? || filename.value == [] ==> r == Err("No filename provided")
    ensures filename.Some? && filename.value != [] && !EndsWith(FoldString(filename.value, fold), ".pdf")
            ==> r == Err("Only PDF files are allowed")
    ensures r.Ok? <==>
              && filename.Some? && filename.value != []
              && EndsWith(FoldString(filename.value, fold), ".pdf")
              && PathName(filename.value) != [] && PathName(filename.value)[0] != '.'
    ensures r.Err? && r.error == "Invalid filename" ==>
              PathName(filename.value) == [] || PathName(filename.value)[0] == '.'
  {
    if filename.None? || filename.value == [] then Err("No filename provided")
    else if !EndsWith(FoldString(filename.value, fold), ".pdf") then Err("Only PDF files are allowed")
    else
      var safe := PathName(filename.value);
      if safe == [] || safe[0] == '.' then Err("Invalid filename") else Ok(safe)
  }

  /** A stored name is non-empty, contains no path separator, does not start with '.', ends
      in ".pdf" in lower case, and is the tail of the name the client sent. */
  lemma {:induction false} AcceptedNameFacts(filename: Option<string>, fold: char -> char)
    requires AsciiLowerFold(fold)
    requires ValidateUploadName(filename, fold).Ok?
    ensures var name := ValidateUploadName(filename, fold).value;
      && name != [] && '/' !in name && name[0] != '.'
      && EndsWith(FoldString(name, fold), ".pdf")
      && EndsWith(filename.value, name)
  {
    var f := filename.value;
    var name := PathName(f);
    var ff := FoldString(f, fold);
    PdfTailHasNoSlash(f, fold);
    var fn := FoldString(name, fold);
    assert fn[|name| - 4..] == ff[|f| - 4..] by {
      forall i | |name| - 4 <= i < |name| ensures fn[i] == ff[i + (|f| - |name|)] {
        assert name[i] == f[i + (|f| - |name|)];
      }
    }
  }

  /** Under a lower-casing fold, no character of a ".pdf" tail is a path separator. */
  lemma PdfTailHasNoSlash(f: string, fold: char -> char)
    requires AsciiLowerFold(fold)
    requires EndsWith(FoldString(f, fold), ".pdf")
    ensures forall i :: |f| - 4 <= i < |f| ==> f[i] != '/'
  {
    var ff := FoldString(f, fold);
    forall i | |f| - 4 <= i < |f| ensures f[i] != '/' {
      assert ff[i] == ".pdf"[i - (|f| - 4)];
    }
  }

  // ---------------------------------------------------------------------------------------
  // The upload flow (main.py:91-141)

  /** The name an existing file is moved to: "<name>.backup_<seconds>". */
  function BackupName(name: string, now: nat): string
  {
    name + ".backup_" + NatToString(now)
  }

  /** A backup name is never the name it backs up, and never ends in ".pdf", so backups are
      never listed. */
  lemma BackupNameFacts(name: string, now: nat)
    ensures BackupName(name, now) != name
    ensures !EndsWith(BackupName(name, now), ".pdf")
    ensures EndsWith(BackupName(name, now), NatToString(now))
  {
    var b := BackupName(name, now);
    assert |b| > |name|;
    var digits := NatToString(now);
    assert b[|b| - 1] == digits[|digits| - 1];
    assert b[|b| - |digits|..] == digits;
  }

  /** The directory and the reply after an upload. A rejected name leaves the directory
      alone. An accepted one first moves an existing file of that name to its backup name,
      then saves the content under the name. A processing result with an error gives a 500
      with that error and keeps the file (the re-raised HTTPException skips the clean-up);
      an exception removes the saved file and gives a 500 naming it. */
  function UploadEffect(files: map<string, Bytes>, filename: Option<string>, content: Bytes,
                        now: nat, outcome: ProcessOutcome, fold: char -> char): (map<string, Bytes>, Reply<Stored>)
  {
    match ValidateUploadName(filename, fold)
    case Err(detail) => (files, Failure(400, detail))
    case Ok(name) => StoreUpload(files, name, content, now, outcome)
  }

  /** An accepted upload under name: the backup move, the save, and the outcome's reply and
      clean-up. */
  function StoreUpload(files: map<string, Bytes>, name: string, content: Bytes,
                       now: nat, outcome: ProcessOutcome): (map<string, Bytes>, Reply<Stored>)
  {
    var moved := if name in files then files[BackupName(name, now) := files[name]] - {name} else files;
    var saved := moved[name := content];
    match outcome
    case Processed => (saved, Success(Stored(name, |content|)))
    case ProcessError(error) => (saved, Failure(500, error))
    case Raised(message) => (saved - {name}, Failure(500, "Error processing PDF: " + message))
  }

  /** What storing an accepted upload does to the directory and the reply. */
  lemma StoreUploadFacts(files: map<string, Bytes>, name: string, content: Bytes,
                         now: nat, outcome: ProcessOutcome)
    ensures var (after, reply) := StoreUpload(files, name, content, now, outcome);
      var backup := BackupName(name, now);
      && (forall k :: k != name && k != backup ==> (k in after <==> k in files))
      && (forall k :: k != name && k != backup && k in files ==> after[k] == files[k])
      && (name in files ==> backup in after && after[backup] == files[name])
      && (outcome.Raised? <==> name !in after)
      && (!outcome.Raised? ==> after[name] == content)
      && (outcome.Processed? ==> reply == Success(Stored(name, |content|)))
      && (outcome.ProcessError? ==> reply == Failure(500, outcome.error))
      && (outcome.Raised? ==> reply == Failure(500, "Error processing PDF: " + outcome.message))
  {
    BackupNameFacts(name, now);
    var backup := BackupName(name, now);
    var moved := if name in files then files[backup := files[name]] - {name} else files;
    assert forall k :: k != name && k != backup ==> (k in moved <==> k in files);
    assert name in files ==> backup in moved && moved[backup] == files[name];
  }

  /** What an upload does to the directory: only the stored name and its backup name change;
      the old content survives under the backup name; the new content is under the name
      unless an exception removed it; and the reply matches the outcome. */
  lemma UploadEffectFacts(files: map<string, Bytes>, filename: Option<string>, content: Bytes,
                          now: nat, outcome: ProcessOutcome, fold: char -> char)
    ensures var (after, reply) := UploadEffect(files, filename, content, now, outcome, fold);
      var v := ValidateUploadName(filename, fold);
      && (v.Err? ==> after == files && reply == Failure(400, v.error))
      && (v.Ok? ==>
            var name := v.value;
            var backup := BackupName(name, now);
            && (forall k :: k != name && k != backup ==> (k in after <==> k in files))
            && (forall k :: k != name && k != backup && k in files ==> after[k] == files[k])
            && (name in files ==> backup in after && after[backup] == files[name])
            && (outcome.Raised? <==> name !in after)
            && (!outcome.Raised? ==> after[name] == content)
            && (outcome.Processed? ==> reply == Success(Stored(name, |content|)))
            && (outcome.ProcessError? ==> reply == Failure(500, outcome.error))
            && (outcome.Raised? ==> reply == Failure(500, "Error processing PDF: " + outcome.message)))
  {
    var v := ValidateUploadName(filename, fold);
    if v.Ok? {
      StoreUploadFacts(files, v.value, content, now, outcome);
    }
  }

  /** The uploads directory of the running server. Creating it with exist_ok keeps whatever
      an earlier run left there, so the server starts with the directory's current contents. */
  class UploadsDir {
    var files: map<string, Bytes>

    constructor (initial: map<string, Bytes>)
      ensures files == initial
    {
      files := initial;
    }

    /** upload_pdf (main.py:71-141). */
    method UploadPdf(filename: Option<string>, content: Bytes, now: nat, outcome: ProcessOutcome,
                     fold: char -> char) returns (reply: Reply<Stored>)
      modifies this
      ensures (files, reply) == UploadEffect(old(files), filename, content, now, outcome, fold)
    {
      var checked := ValidateUploadName(filename, fold);
      if checked.Err? {
        return Failure(400, checked.error);
      }
      var name := checked.value;
      if name in files {
        var backup := BackupName(name, now);
        files := files[backup := files[name]] - {name};
      }
      files := files[name := content];
      match outcome {
        case Processed =>
          reply := Success(Stored(name, |content|));
        case ProcessError(error) =>
          reply := Failure(500, error);
        case Raised(message) =>
          if name in files {
            files := files - {name};
          }
          reply := Failure(500, "Error processing PDF: " + message);
      }
    }

    /** search_pdf (main.py:143-158): 404 for a name with no file, 500 naming an exception
        raised by the search, else the search engine's answer. */
    method SearchPdf(pdfFilename: string, query: string, engine: Result<(seq<string>, seq<real>), string>)
      returns (reply: Reply<ModelUtils.SearchResponse>)
      ensures reply == SearchReply(files, pdfFilename, query, engine)
    {
      if pdfFilename !in files {
        return Failure(404, "PDF file not found");
      }
      match engine {
        case Err(message) =>
          reply := Failure(500, "Error searching PDF: " + message);
        case Ok(found) =>
          var pages := ModelUtils.ExtractTextFromPdf(found.0);
          var response := ModelUtils.SearchTextSync(pages, found.1, query);
          reply := Success(response);
      }
    }
  }

  /** The search route's answer over a directory. */
  function SearchReply(files: map<string, Bytes>, pdfFilename: string, query: string,
                       engine: Result<(seq<string>, seq<real>), string>): Reply<ModelUtils.SearchResponse>
  {
    if pdfFilename !in files then Failure(404, "PDF file not found")
    else match engine
      case Err(message) => Failure(500, "Error searching PDF: " + message)
      case Ok(found) =>
        Success(ModelUtils.SearchResponseFor(ModelUtils.ExtractedPages(found.0), found.1, query))
  }

  /** A search answers 404 exactly for names with no file; otherwise it answers with the
      shaped response for the query, echoing the query, or with a 500. */
  lemma SearchReplyFacts(files: map<string, Bytes>, pdfFilename: string, query: string,
                         engine: Result<(seq<string>, seq<real>), string>)
    ensures var reply := SearchReply(files, pdfFilename, query, engine);
      && (reply.Failure? && reply.status == 404 <==> pdfFilename !in files)
      && (pdfFilename in files && engine.Err? ==> reply == Failure(500, "Error searching PDF: " + engine.error))
      && (reply.Success? && reply.value.Found? ==> reply.value.query == query)
      && (reply.Success? ==> pdfFilename in files && engine.Ok?)
  {
  }

  // ---------------------------------------------------------------------------------------
  // Listing (main.py:160-167)

  /** The listing entries ending in ".pdf" (case-sensitive), in listing order. */
  function PdfEntries(listing: seq<string>): (r: seq<string>)
    ensures |r| <= |listing|
  {
    if listing == [] then []
    else
      var last := listing[|listing| - 1];
      PdfEntries(listing[..|listing| - 1]) + (if EndsWith(last, ".pdf") then [last] else [])
  }

  /** list_pdfs: the loop over the directory listing. */
  method ListPdfs(listing: seq<string>) returns (pdfs: seq<string>)
    ensures pdfs == PdfEntries(listing)
  {
    pdfs := [];
    var i := 0;
    while i < |listing|
      invariant 0 <= i <= |listing|
      invariant pdfs == PdfEntries(listing[..i])
    {
      assert listing[..i + 1][..i] == listing[..i];
      if EndsWith(listing[i], ".pdf") {
        pdfs := pdfs + [listing[i]];
      }
      i := i + 1;
    }
    assert listing[..i] == listing;
  }

  /** Exactly the entries that end in ".pdf" are listed. */
  lemma {:induction false} PdfEntriesMembers(listing: seq<string>)
    ensures forall x :: x in PdfEntries(listing) <==> x in listing && EndsWith(x, ".pdf")
  {
    if listing != [] {
      var init := listing[..|listing| - 1];
      PdfEntriesMembers(init);
      assert listing == init + [listing[|listing| - 1]];
    }
  }

  /** The filter keeps listing order: the listing of a concatenation is the concatenation
      of the listings. */
  lemma {:induction false} PdfEntriesAppend(a: seq<string>, b: seq<string>)
    ensures PdfEntries(a + b) == PdfEntries(a) + PdfEntries(b)
    decreases |b|
  {
    if b == [] {
      assert a + b == a;
    } else {
      var b' := b[..|b| - 1];
      assert (a + b)[..|a + b| - 1] == a + b';
      PdfEntriesAppend(a, b');
    }
  }

  // ---------------------------------------------------------------------------------------
  // Finding: the listing and the upload guard disagree on letter case

  /** A name with an upper-case ".PDF" extension, such as "report.PDF", passes the upload
      guard and is stored under that name, yet the listing, which compares case-sensitively,
      never shows it. */
  lemma UploadedButNotListed(files: map<string, Bytes>, stem: string, content: Bytes, now: nat, listing: seq<string>)
    requires stem != [] && stem[0] != '.' && '/' !in stem
    requires forall x :: x in listing <==> x in UploadEffect(files, Some(stem + ".PDF"), content, now, Processed, AsciiLower).0
    ensures ValidateUploadName(Some(stem + ".PDF"), AsciiLower) == Ok(stem + ".PDF")
    ensures stem + ".PDF" in UploadEffect(files, Some(stem + ".PDF"), content, now, Processed, AsciiLower).0
    ensures stem + ".PDF" !in PdfEntries(listing)
  {
    var f := stem + ".PDF";
    UpperPdfAccepted(stem);
    assert UploadEffect(files, Some(f), content, now, Processed, AsciiLower) == StoreUpload(files, f, content, now, Processed);
    StoreUploadFacts(files, f, content, now, Processed);
    PdfEntriesMembers(listing);
    assert !EndsWith(f, ".pdf") by {
      assert f[|f| - 1] == 'F';
    }
  }

  /** The upload guard accepts "<stem>.PDF" and stores it under that name. */
  lemma UpperPdfAccepted(stem: string)
    requires stem != [] && stem[0] != '.' && '/' !in stem
    ensures ValidateUploadName(Some(stem + ".PDF"), AsciiLower) == Ok(stem + ".PDF")
  {
    UpperPdfFolds(stem);
    UpperPdfPathName(stem);
    assert PathName(stem + ".PDF")[0] == stem[0];
  }

  /** Lower-cased, "<stem>.PDF" ends in ".pdf". */
  lemma UpperPdfFolds(stem: string)
    ensures EndsWith(FoldString(stem + ".PDF", AsciiLower), ".pdf")
  {
    var f := stem + ".PDF";
    var n := |f|;
    var ff := FoldString(f, AsciiLower);
    assert f[n - 4] == '.' && f[n - 3] == 'P' && f[n - 2] == 'D' && f[n - 1] == 'F';
    assert ff[n - 4] == AsciiLower('.') == '.';
    assert ff[n - 3] == AsciiLower('P') == 'p';
    assert ff[n - 2] == AsciiLower('D') == 'd';
    assert ff[n - 1] == AsciiLower('F') == 'f';
    assert ff[n - 4..] == ".pdf";
  }

  /** Without a separator in the stem, "<stem>.PDF" is its own last path component. */
  lemma UpperPdfPathName(stem: string)
    requires '/' !in stem
    ensures PathName(stem + ".PDF") == stem + ".PDF"
  {
    var f := stem + ".PDF";
    forall i | 0 <= i < |f| ensures f[i] != '/' {
      if i < |stem| {
        assert f[i] == stem[i];
      }
    }
    AfterLastAbsent(f, '/');
  }

  /** The listing as intended: the entries whose lower-case form ends in ".pdf", the same
      test the upload guard applies. */
  function PdfEntriesFolded(listing: seq<string>, fold: char -> char): (r: seq<string>)
    ensures |r| <= |listing|
    ensures forall x :: x in r <==> x in listing && EndsWith(FoldString(x, fold), ".pdf")
  {
    if listing == [] then []
    else
      var last := listing[|listing| - 1];
      PdfEntriesFolded(listing[..|listing| - 1], fold)
        + (if EndsWith(FoldString(last, fold), ".pdf") then [last] else [])
  }

  /** With the intended listing, every file that an upload stored is listed, and no backup
      ever is: a backup name ends in a digit, which lower-casing keeps. */
  lemma UploadedIsListed(files: map<string, Bytes>, filename: Option<string>, content: Bytes,
                         now: nat, outcome: ProcessOutcome, fold: char -> char, listing: seq<string>)
    requires AsciiLowerFold(fold)
    requires ValidateUploadName(filename, fold).Ok? && !outcome.Raised?
    requires forall x :: x in listing <==> x in UploadEffect(files, filename, content, now, outcome, fold).0
    ensures ValidateUploadName(filename, fold).value in PdfEntriesFolded(listing, fold)
    ensures forall name :: BackupName(name, now) !in PdfEntriesFolded(listing, fold)
  {
    AcceptedNameFacts(filename, fold);
    UploadEffectFacts(files, filename, content, now, outcome, fold);
    forall name
      ensures BackupName(name, now) !in PdfEntriesFolded(listing, fold)
    {
      BackupFoldedNotPdf(name, now, fold);
    }
  }

  /** A backup name, lower-cased, does not end in ".pdf": its last character is a digit. */
  lemma BackupFoldedNotPdf(name: string, now: nat, fold: char -> char)
    requires AsciiLowerFold(fold)
    ensures !EndsWith(FoldString(BackupName(name, now), fold), ".pdf")
  {
    var b := BackupName(name, now);
    var digits := NatToString(now);
    assert b[|b| - 1] == digits[|digits| - 1];
    var fb := FoldString(b, fold);
    assert fb[|fb| - 1] == fold(b[|b| - 1]) == b[|b| - 1];
    assert ".pdf"[3] == 'f';
  }
}
