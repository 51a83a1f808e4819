/** The Flask server (app.py): allowed_file, the guards of the upload and search routes, and
    the PDF listing.

    As in the FastAPI server, the uploads folder is a map from file name to content, and the
    processor, the search engine and the directory listing are inputs. werkzeug's
    secure_filename is a function parameter. */
module FlaskApp {
  import opened Wrappers
  import opened Chars
  import ModelUtils
  import ServerMain

  /** A part of the multipart request named "file". */
  datatype FilePart = FilePart(filename: string, content: ServerMain.Bytes)

  // ---------------------------------------------------------------------------------------
  // allowed_file (app.py:35-36)

  /** The name contains '.' and the text after its last '.' lower-cases to "pdf". */
  predicate AllowedFile(filename: string, fold: char -> char)
  {
    '.' in filename && FoldString(AfterLast(filename, '.'), fold) == "pdf"
  }

  /** allowed_file accepts exactly the names whose lower-case form ends in ".pdf". */
  lemma AllowedFileIsPdfSuffix(filename: string, fold: char -> char)
    requires AsciiLowerFold(fold)
    ensures AllowedFile(filename, fold) <==> EndsWith(FoldString(filename, fold), ".pdf")
  {
    if AllowedFile(filename, fold) {
      AllowedEndsWithPdf(filename, fold);
    }
    if EndsWith(FoldString(filename, fold), ".pdf") {
      PdfSuffixAllowed(filename, fold);
    }
  }

  lemma AllowedEndsWithPdf(f: string, fold: char -> char)
    requires AsciiLowerFold(fold) && AllowedFile(f, fold)
    ensures EndsWith(FoldString(f, fold), ".pdf")
  {
    var ff := FoldString(f, fold);
    var ext := AfterLast(f, '.');
    var fe := FoldString(ext, fold);
    assert |ext| == 3;
    assert f[|f| - 4] == '.';
    assert ff[|f| - 4] == '.';
    forall i | 0 <= i < 3 ensures ff[|f| - 3 + i] == fe[i] {
      assert f[|f| - 3 + i] == ext[i];
    }
    assert ff[|f| - 4..] == ['.'] + fe;
  }

  lemma PdfSuffixAllowed(f: string, fold: char -> char)
    requires AsciiLowerFold(fold) && EndsWith(FoldString(f, fold), ".pdf")
    ensures AllowedFile(f, fold)
  {
    var ff := FoldString(f, fold);
    assert ff[|f| - 4..] == ".pdf";
    assert ff[|f| - 4] == ff[|f| - 4..][0] == '.';
    assert fold(f[|f| - 4]) == '.';
    var t := f[..|f| - 4];
    var u := f[|f| - 3..];
    var fu := FoldString(u, fold);
    forall i | 0 <= i < 3 ensures fu[i] == "pdf"[i] {
      assert fu[i] == ff[|f| - 3 + i];
      assert ff[|f| - 3 + i] == ff[|f| - 4..][i + 1];
    }
    assert fu == "pdf";
    assert '.' !in u by {
      forall i | 0 <= i < 3 ensures u[i] != '.' {
        assert fold(u[i]) == fu[i];
      }
    }
    assert f == t + ['.'] + u;
    AfterLastOf(t, u, '.');
  }

  /** Hence the Flask check and the FastAPI guard accept the same non-empty names. */
  lemma SameCheckAsServer(filename: string, fold: char -> char)
    requires AsciiLowerFold(fold) && filename != []
    ensures AllowedFile(filename, fold) <==>
              ServerMain.ValidateUploadName(Some(filename), fold) != Err("Only PDF files are allowed")
  {
    AllowedFileIsPdfSuffix(filename, fold);
  }

  /** "a.PDF" and ".pdf" are accepted; "pdf", "a." and "a.pdf.exe" are not. */
  lemma AllowedFileExamples()
    ensures AllowedFile("a.PDF", AsciiLower) && AllowedFile(".pdf", AsciiLower)
    ensures !AllowedFile("pdf", AsciiLower) && !AllowedFile("a.", AsciiLower)
    ensures !AllowedFile("a.pdf.exe", AsciiLower)
  {
    AsciiLowerIsFold();
    PdfSuffixAllowed("a.PDF", AsciiLower);
    PdfSuffixAllowed(".pdf", AsciiLower);
    assert '.' !in "pdf";
    NotPdfSuffix("a.", AsciiLower);
    NotPdfSuffix("a.pdf.exe", AsciiLower);
  }

  lemma NotPdfSuffix(f: string, fold: char -> char)
    requires AsciiLowerFold(fold) && f != [] && fold(f[|f| - 1]) != 'f'
    ensures !AllowedFile(f, fold)
  {
    var ff := FoldString(f, fold);
    assert ff[|f| - 1] != 'f';
    assert !EndsWith(ff, ".pdf") by {
      if |ff| >= 4 {
        assert ff[|f| - 4..][3] == ff[|f| - 1];
      }
    }
    AllowedFileIsPdfSuffix(f, fold);
  }

  // ---------------------------------------------------------------------------------------
  // upload_pdf (app.py:43-73)

  /** The upload route's guards in order: no "file" part, an empty filename, a name
      allowed_file refuses. Ok carries the name the part arrived with. */
  function UploadGuard(file: Option<FilePart>, fold: char -> char): (r: Result<string, string>)
    ensures file.None? ==> r == Err("No file provided")
    ensures file.Some? && file.value.filename == [] ==> r == Err("No file selected")
    ensures file.Some? && file.value.filename != [] && !AllowedFile(file.value.filename, fold)
            ==> r == Err("Only PDF files are allowed")
    ensures r.Ok? <==> file.Some? && file.value.filename != [] && AllowedFile(file.value.filename, fold)
    ensures r.Ok? ==> r.value == file.value.filename
  {
    if file.None? then Err("No file provided")
    else if file.value.filename == [] then Err("No file selected")
    else if !AllowedFile(file.value.filename, fold) then Err("Only PDF files are allowed")
    else Ok(file.value.filename)
  }

  /** The folder and the reply after an upload: a refused request changes nothing and gives
      400; an accepted one saves the content under the secured name (overwriting, with no
      backup), and the file stays whether processing succeeds, reports an error (500 with
      that error) or raises (500 naming the exception). The success body stands for the
      processor's result by the stored name. */
  function UploadEffect(files: map<string, ServerMain.Bytes>, file: Option<FilePart>,
                        secure: string -> string, outcome: ServerMain.ProcessOutcome,
                        fold: char -> char): (map<string, ServerMain.Bytes>, ServerMain.Reply<string>)
  {
    match UploadGuard(file, fold)
    case Err(error) => (files, ServerMain.Failure(400, error))
    case Ok(filename) =>
      var name := secure(filename);
      var saved := files[name := file.value.content];
      match outcome
      case Processed => (saved, ServerMain.Success(name))
      case ProcessError(error) => (saved, ServerMain.Failure(500, error))
      case Raised(message) => (saved, ServerMain.Failure(500, "Error processing PDF: " + message))
  }

  /** An accepted upload leaves exactly the new content under the secured name, whatever
      processing does, and touches nothing else; a refused one changes nothing. Unlike the
      FastAPI server, an exception during processing does not remove the file. */
  lemma UploadEffectFacts(files: map<string, ServerMain.Bytes>, file: Option<FilePart>,
                          secure: string -> string, outcome: ServerMain.ProcessOutcome, fold: char -> char)
    ensures var (after, reply) := UploadEffect(files, file, secure, outcome, fold);
      var g := UploadGuard(file, fold);
      && (g.Err? ==> after == files && reply == ServerMain.Failure(400, g.error))
      && (g.Ok? ==>
            var name := secure(file.value.filename);
            && name in after && after[name] == file.value.content
            && (forall k :: k != name ==> (k in after <==> k in files))
            && (forall k :: k != name && k in files ==> after[k] == files[k])
            && (reply.Success? <==> outcome.Processed?)
            && (reply.Failure? ==> reply.status == 500))
  {
  }

  // ---------------------------------------------------------------------------------------
  // search_pdf (app.py:75-96)

  /** The search route: a missing query or file name (absent keys read as "") gives 400
      before the folder is consulted; then 404 for a name with no file; then the engine's
      answer, or a 500 naming its exception. */
  function SearchReply(files: map<string, ServerMain.Bytes>, query: string, pdfFilename: string,
                       engine: Result<(seq<string>, seq<real>), string>): ServerMain.Reply<ModelUtils.SearchResponse>
  {
    if query == [] || pdfFilename == [] then ServerMain.Failure(400, "Query and PDF filename are required")
    else if pdfFilename !in files then ServerMain.Failure(404, "PDF file not found")
    else match engine
      case Err(message) => ServerMain.Failure(500, "Error searching PDF: " + message)
      case Ok(found) =>
        ServerMain.Success(ModelUtils.SearchResponseFor(ModelUtils.ExtractedPages(found.0), found.1, query))
  }

  /** The 400 comes first, whatever the folder holds; 404 means a complete request for a
      name with no file; a success means a complete request for an existing file. */
  lemma SearchReplyFacts(files: map<string, ServerMain.Bytes>, query: string, pdfFilename: string,
                         engine: Result<(seq<string>, seq<real>), string>)
    ensures var reply := SearchReply(files, query, pdfFilename, engine);
      && (reply.Failure? && reply.status == 400 <==> query == [] || pdfFilename == [])
      && (reply.Failure? && reply.status == 404 <==> query != [] && pdfFilename != [] && pdfFilename !in files)
      && (reply.Success? ==> query != [] && pdfFilename in files && engine.Ok?)
      && (reply.Success? && reply.value.Found? ==> reply.value.query == query)
  {
  }

  /** The Flask folder of uploaded files. makedirs with exist_ok keeps earlier uploads, so
      the app starts with the folder's current contents. */
  class Uploads {
    var files: map<string, ServerMain.Bytes>

    constructor (initial: map<string, ServerMain.Bytes>)
      ensures files == initial
    {
      files := initial;
    }

    /** upload_pdf. */
    method UploadPdf(file: Option<FilePart>, secure: string -> string, outcome: ServerMain.ProcessOutcome,
                     fold: char -> char) returns (reply: ServerMain.Reply<string>)
      modifies this
      ensures (files, reply) == UploadEffect(old(files), file, secure, outcome, fold)
    {
      if file.None? {
        return ServerMain.Failure(400, "No file provided");
      }
      var part := file.value;
      if part.filename == [] {
        return ServerMain.Failure(400, "No file selected");
      }
      if !AllowedFile(part.filename, fold) {
        return ServerMain.Failure(400, "Only PDF files are allowed");
      }
      var name := secure(part.filename);
      files := files[name := part.content];
      match outcome {
        case Processed => reply := ServerMain.Success(name);
        case ProcessError(error) => reply := ServerMain.Failure(500, error);
        case Raised(message) => reply := ServerMain.Failure(500, "Error processing PDF: " + message);
      }
    }

    /** search_pdf. */
    method SearchPdf(query: string, pdfFilename: string, engine: Result<(seq<string>, seq<real>), string>)
      returns (reply: ServerMain.Reply<ModelUtils.SearchResponse>)
      ensures reply == SearchReply(files, query, pdfFilename, engine)
    {
      if query == [] || pdfFilename == [] {
        return ServerMain.Failure(400, "Query and PDF filename are required");
      }
      if pdfFilename !in files {
        return ServerMain.Failure(404, "PDF file not found");
      }
      match engine {
        case Err(message) =>
          reply := ServerMain.Failure(500, "Error searching PDF: " + message);
        case Ok(found) =>
          var pages := ModelUtils.ExtractTextFromPdf(found.0);
          var response := ModelUtils.SearchTextSync(pages, found.1, query);
          reply := ServerMain.Success(response);
      }
    }
  }

  // ---------------------------------------------------------------------------------------
  // list_pdfs (app.py:98-108)

  /** The listing route: the ".pdf" entries of the folder listing, or a 500 naming the
      exception raised while listing. */
  method ListPdfs(listing: Result<seq<string>, string>) returns (reply: ServerMain.Reply<seq<string>>)
    ensures listing.Err? ==> reply == ServerMain.Failure(500, "Error listing PDFs: " + listing.error)
    ensures listing.Ok? ==> reply.Success?
    ensures listing.Ok? ==> forall x :: x in reply.value <==> x in listing.value && EndsWith(x, ".pdf")
    ensures listing.Ok? ==> reply.value == ServerMain.PdfEntries(listing.value)
  {
    match listing {
      case Err(message) =>
        reply := ServerMain.Failure(500, "Error listing PDFs: " + message);
      case Ok(entries) =>
        var pdfs := ServerMain.ListPdfs(entries);
        ServerMain.PdfEntriesMembers(entries);
        reply := ServerMain.Success(pdfs);
    }
  }
}
