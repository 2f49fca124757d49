/** The rendering adapter: it names the output file, builds the HTML body
    (markdown through the list-spacing pre-pass and the markdown library, plain
    text wrapped in `<pre>`), hands it to the PDF library and turns every
    failure into a failed `ConversionResult` instead of raising. */
module PdfAdapter {
  import opened Strings
  import opened Paths
  import opened Model
  import opened ListSpacing

  /** What writing the PDF to a path reports: an exception (from opening the
      file or from the library), or the library's error count together with
      the size of the file written. */
  datatype PdfOutcome = Raised(message: string) | Finished(errors: nat, fileSize: nat)

  /** The libraries and process state the adapter calls into: the markdown
      library (its result or the text of the exception it raises), the PDF
      library writing a body into a file (the fixed page template and style
      sheet are part of it), and the working directory. */
  datatype Backend = Backend(
    markdown: string -> Result<string, string>,
    createPdf: (string, string) -> PdfOutcome,
    cwd: string)

  /** The requested name, or `output_<seconds>.pdf` when it is empty, with
      `.pdf` appended unless it already ends so (case-sensitively). */
  function OutputFilename(requested: string, epochSeconds: int): (r: string)
    ensures EndsWith(r, ".pdf")
    ensures requested != "" ==> StartsWith(r, requested) && |r| <= |requested| + 4
    ensures requested == "" ==> StartsWith(r, "output_")
    ensures requested != "" && EndsWith(requested, ".pdf") ==> r == requested
    ensures requested != "" && !EndsWith(requested, ".pdf") ==> r == requested + ".pdf"
    ensures requested == "" ==> r == "output_" + IntToString(epochSeconds) + ".pdf"
  {
    var name := if requested != "" then requested else "output_" + IntToString(epochSeconds) + ".pdf";
    if EndsWith(name, ".pdf") then name else name + ".pdf"
  }

  /** A name that already ends in `.pdf` is kept, so normalising twice is
      normalising once. */
  lemma OutputFilenameIdempotent(requested: string, t1: int, t2: int)
    ensures OutputFilename(OutputFilename(requested, t1), t2) == OutputFilename(requested, t1)
  {
  }

  /** The HTML body: for markdown, the library's rendering of the
      pre-processed text; for plain text, the content between `<pre>` tags. */
  function HtmlBody(markdown: string -> Result<string, string>, request: ConversionRequest): Result<string, string> {
    match request.sourceFormat
    case Markdown => markdown(Preprocess(request.content))
    case Text => Success("<pre>" + request.content + "</pre>")
  }

  /** Plain text is wrapped without any escaping: the body is the tags and,
      between them, the content exactly. */
  lemma TextBodyVerbatim(markdown: string -> Result<string, string>, request: ConversionRequest)
    requires request.sourceFormat == Text
    ensures HtmlBody(markdown, request).Success?
    ensures var body := HtmlBody(markdown, request).value;
      StartsWith(body, "<pre>") && EndsWith(body, "</pre>") && body[5..|body| - 6] == request.content
  {
    var body := "<pre>" + request.content + "</pre>";
    assert body[..5] == "<pre>";
    assert body[|body| - 6..] == "</pre>";
  }

  /** For markdown the library receives the content with newlines inserted
      and nothing else changed. */
  lemma MarkdownSeesContent(markdown: string -> Result<string, string>, request: ConversionRequest)
    requires request.sourceFormat == Markdown
    ensures exists t :: NewlinesInserted(request.content, t) && HtmlBody(markdown, request) == markdown(t)
  {
    PreprocessInsertsNewlines(request.content);
  }

  /** The result every failure turns into: no path, size 0, the request's
      own timestamp and the exception text. */
  function Failed(request: ConversionRequest, message: string): (r: ConversionResult)
    ensures !r.success && r.filePath == "" && r.sizeBytes == 0
    ensures r.createdAt == request.createdAt && r.errorMessage == Some(message)
  {
    ConversionResult("", 0, false, request.createdAt, Some(message))
  }

  /** What `convert(request, output_dir)` returns; `now` is the clock reading
      a successful result is stamped with. */
  function Render(backend: Backend, request: ConversionRequest, outputDir: string, now: DateTime): (r: ConversionResult)
    ensures !r.success ==> r.filePath == "" && r.sizeBytes == 0 && r.createdAt == request.createdAt && r.errorMessage.Some?
    ensures r.success ==> r.createdAt == now && r.errorMessage == None
    ensures r.success ==> EndsWith(r.filePath, OutputFilename(request.outputFilename, request.createdAt.epochSeconds))
  {
    var path := Join(outputDir, OutputFilename(request.outputFilename, request.createdAt.epochSeconds));
    match HtmlBody(backend.markdown, request)
    case Failure(message) => Failed(request, message)
    case Success(body) =>
      match backend.createPdf(path, body)
      case Raised(message) => Failed(request, message)
      case Finished(errors, size) =>
        if errors != 0 then Failed(request, "PDF generation error: " + NatToString(errors))
        else NewResult(Abspath(backend.cwd, path), size, true, now)
  }

  /** The adapter's `convert`, step by step. */
  method Convert(backend: Backend, request: ConversionRequest, outputDir: string, now: DateTime) returns (r: ConversionResult)
    ensures r == Render(backend, request, outputDir, now)
  {
    var filename := request.outputFilename;
    if filename == "" {
      filename := "output_" + IntToString(request.createdAt.epochSeconds) + ".pdf";
    }
    if !EndsWith(filename, ".pdf") {
      filename := filename + ".pdf";
    }
    var outputPath := Join(outputDir, filename);

    var htmlBody := "";
    if request.sourceFormat == Markdown {
      var processed := Preprocess(request.content);
      var rendered := backend.markdown(processed);
      if rendered.Failure? {
        return Failed(request, rendered.error);
      }
      htmlBody := rendered.value;
    } else {
      htmlBody := "<pre>" + request.content + "</pre>";
    }

    var status := backend.createPdf(outputPath, htmlBody);
    if status.Raised? {
      return Failed(request, status.message);
    }
    if status.errors != 0 {
      return Failed(request, "PDF generation error: " + NatToString(status.errors));
    }
    r := NewResult(Abspath(backend.cwd, outputPath), status.fileSize, true, now);
  }

  /** Conversion succeeds exactly when the body was built and the PDF library
      finished without errors; the size is then the written file's. */
  lemma RenderSucceedsIff(backend: Backend, request: ConversionRequest, outputDir: string, now: DateTime)
    ensures var r := Render(backend, request, outputDir, now);
      var path := Join(outputDir, OutputFilename(request.outputFilename, request.createdAt.epochSeconds));
      var body := HtmlBody(backend.markdown, request);
      && (r.success <==> body.Success? && backend.createPdf(path, body.value).Finished? && backend.createPdf(path, body.value).errors == 0)
      && (r.success ==> r.sizeBytes == backend.createPdf(path, body.value).fileSize)
  {
  }

  /** An error count from the PDF library is a failure even though nothing
      was raised, and the count is reported in the message. */
  lemma ErrorCountFails(backend: Backend, request: ConversionRequest, outputDir: string, now: DateTime)
    requires var path := Join(outputDir, OutputFilename(request.outputFilename, request.createdAt.epochSeconds));
      var body := HtmlBody(backend.markdown, request);
      body.Success? && backend.createPdf(path, body.value).Finished? && backend.createPdf(path, body.value).errors > 0
    ensures var r := Render(backend, request, outputDir, now);
      var path := Join(outputDir, OutputFilename(request.outputFilename, request.createdAt.epochSeconds));
      var body := HtmlBody(backend.markdown, request);
      !r.success && r.errorMessage == Some("PDF generation error: " + NatToString(backend.createPdf(path, body.value).errors))
  {
  }

  /** A successful result names the output file inside the output directory,
      made absolute. */
  lemma RenderedPath(backend: Backend, request: ConversionRequest, outputDir: string, now: DateTime)
    ensures var r := Render(backend, request, outputDir, now);
      r.success ==> r.filePath == Abspath(backend.cwd, Join(outputDir, OutputFilename(request.outputFilename, request.createdAt.epochSeconds)))
  {
    var path := Join(outputDir, OutputFilename(request.outputFilename, request.createdAt.epochSeconds));
    var body := HtmlBody(backend.markdown, request);
    if body.Success? {
      var status := backend.createPdf(path, body.value);
      if status.Finished? && status.errors == 0 {
        assert Render(backend, request, outputDir, now) == NewResult(Abspath(backend.cwd, path), status.fileSize, true, now);
      }
    }
  }

  /** With an absolute working directory the reported path is absolute and
      ends with the output file name. */
  lemma SuccessPathAbsolute(backend: Backend, request: ConversionRequest, outputDir: string, now: DateTime)
    requires StartsWith(backend.cwd, "/")
    ensures var r := Render(backend, request, outputDir, now);
      r.success ==> StartsWith(r.filePath, "/")
  {
    var path := Join(outputDir, OutputFilename(request.outputFilename, request.createdAt.epochSeconds));
    RenderedPath(backend, request, outputDir, now);
    AbsoluteUnderAbsolute(backend.cwd, path);
  }

  /** A path made absolute against an absolute directory starts with `/`. */
  lemma AbsoluteUnderAbsolute(cwd: string, path: string)
    requires StartsWith(cwd, "/")
    ensures StartsWith(Abspath(cwd, path), "/")
  {
    var p := Abspath(cwd, path);
    if !StartsWith(path, "/") {
      assert p[..1] == cwd[..1];
    }
  }
}
