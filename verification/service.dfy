/** The conversion orchestrator. It reads the input through the file port,
    classifies it by extension, builds the request, calls the renderer once,
    hands request and result to the archiver when one is configured, and turns
    a failed result into a conversion error. */
module Service {
  import opened Strings
  import opened Paths
  import opened Model
  import opened Archiver
  import PdfAdapter

  // ---------------------------------------------------------------------------
  // Format detection

  /** The format for an input path, decided by its lower-cased suffix. */
  function DetectFormat(path: string): (r: Result<SourceFormat, Error>)
    ensures r == Success(Markdown) <==> Lower(Suffix(path)) == ".md" || Lower(Suffix(path)) == ".markdown"
    ensures r == Success(Text) <==> Lower(Suffix(path)) == ".txt"
    ensures r.Failure? ==> r.error == UnsupportedFormatError("Unsupported file format: " + Lower(Suffix(path)))
  {
    var ext := Lower(Suffix(path));
    if ext == ".md" || ext == ".markdown" then Success(Markdown)
    else if ext == ".txt" then Success(Text)
    else Failure(UnsupportedFormatError("Unsupported file format: " + ext))
  }

  /** Detection ignores case: `<stem>.MD` is markdown. */
  lemma UpperCaseMarkdown(stem: string)
    requires stem != "" && NoChar(stem, '/')
    ensures DetectFormat(stem + ".MD") == Success(Markdown)
  {
    var ext := ".MD";
    assert ext[1..] == "MD";
    SuffixOfPlainName(stem, ext);
    var l := Lower(ext);
    assert l[0] == '.' && l[1] == 'm' && l[2] == 'd';
    assert l == ".md";
  }

  /** A name of a non-empty stem and a suffix is classified by that suffix
      alone, lower-cased: `.md` or `.markdown` is markdown, `.txt` is text,
      anything else is refused. */
  lemma DetectFormatOfName(stem: string, ext: string)
    requires stem != "" && NoChar(stem, '/')
    requires |ext| >= 2 && ext[0] == '.' && NoChar(ext[1..], '.') && NoChar(ext, '/')
    ensures var lower := Lower(ext);
      DetectFormat(stem + ext) ==
        if lower == ".md" || lower == ".markdown" then Success(Markdown)
        else if lower == ".txt" then Success(Text)
        else Failure(UnsupportedFormatError("Unsupported file format: " + lower))
  {
    SuffixOfPlainName(stem, ext);
  }

  /** Lower-casing the suffix does not change the classification. */
  lemma DetectFormatIgnoresCase(stem: string, ext: string)
    requires stem != "" && NoChar(stem, '/')
    requires |ext| >= 2 && ext[0] == '.' && NoChar(ext[1..], '.') && NoChar(ext, '/')
    ensures DetectFormat(stem + ext) == DetectFormat(stem + Lower(ext))
  {
    var lower := Lower(ext);
    assert lower[1..] == Lower(ext[1..]);
    DetectFormatOfName(stem, ext);
    DetectFormatOfName(stem, lower);
    LowerIdempotent(ext);
  }

  /** A hidden file such as `.md`, a dot followed by a name without dots,
      has no suffix, so it is refused with an empty extension in the
      message. */
  lemma HiddenFileUnsupported(name: string)
    requires |name| >= 2 && name[0] == '.' && NoChar(name[1..], '.') && NoChar(name, '/')
    ensures DetectFormat(name) == Failure(UnsupportedFormatError("Unsupported file format: "))
  {
    LeadingDotNoSuffix(name);
    var ext := Lower(Suffix(name));
    assert ext == "";
    assert "Unsupported file format: " + ext == "Unsupported file format: ";
  }

  // ---------------------------------------------------------------------------
  // One conversion, as a function of the ports

  /** The directory the renderer writes into: the output path's directory,
      or `.` when it has none. */
  function RenderDir(outputPath: string): (dir: string)
    ensures NoChar(outputPath, '/') ==> dir == "."
    ensures !NoChar(outputPath, '/') ==> dir == Dirname(outputPath) && dir != "" && StartsWith(outputPath, dir)
  {
    var dir := Dirname(outputPath);
    if dir == "" then "." else dir
  }

  /** The request built for a read content and a detected format. */
  function RequestFor(content: string, format: SourceFormat, outputPath: string, now: DateTime): (request: ConversionRequest)
    ensures request.content == content && request.sourceFormat == format && request.createdAt == now
    ensures request.outputFilename == Basename(outputPath)
    ensures NoChar(request.outputFilename, '/')
  {
    NewRequest(content, format, Basename(outputPath), now)
  }

  /** The message of the error a failed result becomes. */
  function FailureMessage(result: ConversionResult): string {
    "Conversion failed: " + OptionalText(result.errorMessage)
  }

  /** What `convert_file(input_path, output_path)` returns or raises, given
      the file port, the renderer port and the clock reading `now`. */
  function Outcome(readFile: string -> Result<string, Error>, converter: (ConversionRequest, string) -> ConversionResult,
                   inputPath: string, outputPath: string, now: DateTime): Result<string, Error>
  {
    match readFile(inputPath)
    case Failure(e) => Failure(e)
    case Success(content) =>
      match DetectFormat(inputPath)
      case Failure(e) => Failure(e)
      case Success(format) =>
        var result := converter(RequestFor(content, format, outputPath, now), RenderDir(outputPath));
        if !result.success then Failure(ConversionError(FailureMessage(result)))
        else Success(result.filePath)
  }

  /** A call the service makes on one of its ports. */
  datatype PortCall =
    | ReadCall(path: string)
    | RenderCall(request: ConversionRequest, outputDir: string)
    | ArchiveCall(request: ConversionRequest, result: ConversionResult)

  /** The port calls one `convert_file` makes, in order, given what the read
      returned and what format detection answered: the read; then, when both
      succeeded, the renderer call and, when there is an archiver, the
      archiver call. */
  function CallsOf(inputPath: string, read: Result<string, Error>, format: Result<SourceFormat, Error>,
                   converter: (ConversionRequest, string) -> ConversionResult,
                   archived: bool, outputPath: string, now: DateTime): seq<PortCall>
  {
    if read.Failure? || format.Failure? then [ReadCall(inputPath)]
    else
      var request := RequestFor(read.value, format.value, outputPath, now);
      var dir := RenderDir(outputPath);
      if archived then [ReadCall(inputPath), RenderCall(request, dir), ArchiveCall(request, converter(request, dir))]
      else [ReadCall(inputPath), RenderCall(request, dir)]
  }

  /** Appending two calls one at a time appends the pair. */
  lemma AppendTwo(s: seq<PortCall>, a: PortCall, b: PortCall)
    ensures s + [a] + [b] == s + [a, b]
  {
  }

  /** Appending three calls one at a time appends the triple. */
  lemma AppendThree(s: seq<PortCall>, a: PortCall, b: PortCall, c: PortCall)
    ensures s + [a] + [b] + [c] == s + [a, b, c]
  {
  }

  /** Once the file was read and its format detected, the calls appended
      one at a time are the trace `CallsOf` describes. */
  lemma ReachedTrace(before: seq<PortCall>, inputPath: string, read: Result<string, Error>, format: Result<SourceFormat, Error>,
                     converter: (ConversionRequest, string) -> ConversionResult,
                     archived: bool, outputPath: string, now: DateTime)
    requires read.Success? && format.Success?
    ensures var request := RequestFor(read.value, format.value, outputPath, now);
      var dir := RenderDir(outputPath);
      before + [ReadCall(inputPath)] + [RenderCall(request, dir)] + (if archived then [ArchiveCall(request, converter(request, dir))] else [])
      == before + CallsOf(inputPath, read, format, converter, archived, outputPath, now)
  {
    var request := RequestFor(read.value, format.value, outputPath, now);
    var dir := RenderDir(outputPath);
    if archived {
      AppendThree(before, ReadCall(inputPath), RenderCall(request, dir), ArchiveCall(request, converter(request, dir)));
    } else {
      AppendTwo(before, ReadCall(inputPath), RenderCall(request, dir));
      assert before + [ReadCall(inputPath)] + [RenderCall(request, dir)] + [] == before + [ReadCall(inputPath)] + [RenderCall(request, dir)];
    }
  }

  class ConversionService {
    /** The file port's `read_file`. */
    const readFile: string -> Result<string, Error>
    /** The renderer port's `convert`. */
    const converter: (ConversionRequest, string) -> ConversionResult
    /** The optional archiver. */
    const archiver: FileSystemArchiver?
    /** Every port call made so far, in order. */
    ghost var calls: seq<PortCall>

    constructor (converter: (ConversionRequest, string) -> ConversionResult,
                 readFile: string -> Result<string, Error>,
                 archiver: FileSystemArchiver?)
      ensures this.converter == converter && this.readFile == readFile && this.archiver == archiver
      ensures calls == []
    {
      this.converter := converter;
      this.readFile := readFile;
      this.archiver := archiver;
      calls := [];
    }

    /** `convert_file`. `now` is the time the request is stamped with;
        `archiveNow` and `appendable` are the archiver's clock reading and
        whether its day file can be appended to.

        The file is read first; a read error or an unsupported extension ends
        the call before the renderer is reached. Otherwise the renderer is
        called exactly once, with the read content, the detected format, the
        output path's file name and the render directory; then the archiver,
        when there is one, exactly once with that same request and result,
        whether the result is a success or not. */
    method ConvertFile(inputPath: string, outputPath: string, now: DateTime, archiveNow: DateTime, appendable: bool)
      returns (r: Result<string, Error>)
      modifies this, archiver
      ensures r == Outcome(readFile, converter, inputPath, outputPath, now)
      ensures calls == old(calls) + CallsOf(inputPath, readFile(inputPath), DetectFormat(inputPath), converter, archiver != null, outputPath, now)
      ensures readFile(inputPath).Failure? || DetectFormat(inputPath).Failure? ==>
        archiver != null ==> archiver.days == old(archiver.days)
      ensures readFile(inputPath).Success? && DetectFormat(inputPath).Success? ==>
        var request := RequestFor(readFile(inputPath).value, DetectFormat(inputPath).value, outputPath, now);
        archiver != null ==>
          archiver.days == AfterArchive(old(archiver.days), archiver.metaDir, archiver.sha256,
                                        request, converter(request, RenderDir(outputPath)), archiveNow, appendable)
    {
      ghost var before := calls;
      calls := calls + [ReadCall(inputPath)];
      var read := readFile(inputPath);
      if read.Failure? {
        assert CallsOf(inputPath, read, DetectFormat(inputPath), converter, archiver != null, outputPath, now) == [ReadCall(inputPath)];
        return Failure(read.error);
      }
      var content := read.value;

      var format := DetectFormat(inputPath);
      if format.Failure? {
        assert CallsOf(inputPath, read, format, converter, archiver != null, outputPath, now) == [ReadCall(inputPath)];
        return Failure(format.error);
      }

      var request := NewRequest(content, format.value, Basename(outputPath), now);
      assert request == RequestFor(content, format.value, outputPath, now);

      var outputDir := Dirname(outputPath);
      if outputDir == "" {
        outputDir := ".";
      }
      assert outputDir == RenderDir(outputPath);

      calls := calls + [RenderCall(request, outputDir)];
      var result := converter(request, outputDir);

      if archiver != null {
        calls := calls + [ArchiveCall(request, result)];
        archiver.Archive(request, result, archiveNow, appendable);
      }
      ReachedTrace(before, inputPath, read, format, converter, archiver != null, outputPath, now);

      if !result.success {
        return Failure(ConversionError("Conversion failed: " + OptionalText(result.errorMessage)));
      }
      return Success(result.filePath);
    }
  }

  // ---------------------------------------------------------------------------
  // Properties of a conversion

  /** The call succeeds exactly when the file was read, its extension is
      supported and the renderer reported success; it then returns the
      renderer's path unchanged, and otherwise raises the error of the step
      that failed. */
  lemma OutcomeCases(readFile: string -> Result<string, Error>, converter: (ConversionRequest, string) -> ConversionResult,
                     inputPath: string, outputPath: string, now: DateTime)
    ensures var r := Outcome(readFile, converter, inputPath, outputPath, now);
      && (readFile(inputPath).Failure? ==> r == Failure(readFile(inputPath).error))
      && (readFile(inputPath).Success? && DetectFormat(inputPath).Failure? ==>
            r == Failure(UnsupportedFormatError("Unsupported file format: " + Lower(Suffix(inputPath)))))
      && (readFile(inputPath).Success? && DetectFormat(inputPath).Success? ==>
            var result := converter(RequestFor(readFile(inputPath).value, DetectFormat(inputPath).value, outputPath, now), RenderDir(outputPath));
            && (r.Success? <==> result.success)
            && (r.Success? ==> r.value == result.filePath)
            && (r.Failure? ==> r.error == ConversionError("Conversion failed: " + OptionalText(result.errorMessage))))
  {
  }

  /** The file is always read first and only once; the renderer is called
      exactly once when the file was read and its format is supported, and
      never otherwise; the archiver is called after it, once, with the same
      request and the renderer's result, exactly when there is one. */
  lemma CallsOfShape(inputPath: string, read: Result<string, Error>, format: Result<SourceFormat, Error>,
                     converter: (ConversionRequest, string) -> ConversionResult,
                     archived: bool, outputPath: string, now: DateTime)
    ensures var calls := CallsOf(inputPath, read, format, converter, archived, outputPath, now);
      var reached := read.Success? && format.Success?;
      && 1 <= |calls| <= 3
      && calls[0] == ReadCall(inputPath)
      && (forall k :: 1 <= k < |calls| ==> !calls[k].ReadCall?)
      && (|calls| >= 2 <==> reached)
      && (reached ==> calls[1] == RenderCall(RequestFor(read.value, format.value, outputPath, now), RenderDir(outputPath)))
      && (|calls| == 3 <==> reached && archived)
      && (|calls| == 3 ==> calls[2] == ArchiveCall(calls[1].request, converter(calls[1].request, calls[1].outputDir)))
      && (forall k :: 0 <= k < |calls| && calls[k].ArchiveCall? ==> archived)
  {
    var calls := CallsOf(inputPath, read, format, converter, archived, outputPath, now);
    if read.Success? && format.Success? {
      var request := RequestFor(read.value, format.value, outputPath, now);
      var dir := RenderDir(outputPath);
      if archived {
        assert calls == [ReadCall(inputPath), RenderCall(request, dir), ArchiveCall(request, converter(request, dir))];
      } else {
        assert calls == [ReadCall(inputPath), RenderCall(request, dir)];
      }
    } else {
      assert calls == [ReadCall(inputPath)];
    }
  }

  /** With the real rendering adapter behind the port, a successful call
      returns the absolute path of a file placed in the render directory and
      named after the output path's file name, normalised to end in `.pdf`;
      a name that already ends in `.pdf` is kept as it is. */
  lemma OutcomeWithPdfAdapter(readFile: string -> Result<string, Error>, backend: PdfAdapter.Backend,
                              inputPath: string, outputPath: string, now: DateTime, renderNow: DateTime)
    ensures var converter := (request, dir) => PdfAdapter.Render(backend, request, dir, renderNow);
      var r := Outcome(readFile, converter, inputPath, outputPath, now);
      var filename := PdfAdapter.OutputFilename(Basename(outputPath), now.epochSeconds);
      r.Success? ==>
        && r.value == Abspath(backend.cwd, Join(RenderDir(outputPath), filename))
        && EndsWith(r.value, filename)
        && EndsWith(filename, ".pdf")
        && (Basename(outputPath) != "" && EndsWith(Basename(outputPath), ".pdf") ==> filename == Basename(outputPath))
  {
    var converter := (request, dir) => PdfAdapter.Render(backend, request, dir, renderNow);
    var r := Outcome(readFile, converter, inputPath, outputPath, now);
    if r.Success? {
      var request := RequestFor(readFile(inputPath).value, DetectFormat(inputPath).value, outputPath, now);
      var dir := RenderDir(outputPath);
      var result := PdfAdapter.Render(backend, request, dir, renderNow);
      assert converter(request, dir) == result;
      assert result.success && r.value == result.filePath;
      PdfAdapter.RenderedPath(backend, request, dir, renderNow);
    }
  }
}
