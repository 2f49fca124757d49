/** The command-line entry point: `convert INPUT [-o OUTPUT]` checks that
    the input exists, picks the output path, wires the local file adapter and
    the rendering adapter into a service without an archiver, and reports
    the outcome on the console and in the exit code. */
module Cli {
  import opened Strings
  import opened Paths
  import opened Model
  import opened FsAdapter
  import opened Service
  import PdfAdapter

  /** The output path used when none, or an empty one, is given: the input
      path with its extension replaced by `.pdf`. */
  function DefaultOutput(inputPath: string): (r: string)
    ensures EndsWith(r, ".pdf")
    ensures StartsWith(inputPath, r[..|r| - 4])
    ensures r[..|r| - 4] + SplitExt(inputPath).ext == inputPath
  {
    SplitExt(inputPath).root + ".pdf"
  }

  /** The default output lies in the input's directory, and an input with no
      extension just gets `.pdf` appended. */
  lemma DefaultOutputBeside(inputPath: string)
    ensures Dirname(DefaultOutput(inputPath)) == Dirname(inputPath)
    ensures SplitExt(inputPath).ext == "" ==> DefaultOutput(inputPath) == inputPath + ".pdf"
  {
    assert NoChar(".pdf", '/');
    SplitExtSameDirectory(inputPath, ".pdf");
  }

  /** For an input `d + stem + ext` with a real extension, the default output
      is `d + stem + ".pdf"`; a hidden or dot-free name keeps its whole name
      and gets `.pdf` appended. */
  lemma DefaultOutputOfName(d: string, stem: string, ext: string)
    requires d == "" || EndsWith(d, "/")
    requires NoChar(stem, '/') && HasNonDot(stem, 0, |stem|)
    requires |ext| >= 1 && ext[0] == '.' && NoChar(ext, '/') && NoChar(ext[1..], '.')
    ensures DefaultOutput(d + stem + ext) == d + stem + ".pdf"
  {
    SplitExtOfName(d, stem, ext);
  }

  /** Worked input: `notes.md` gets the default output `notes.pdf`. */
  lemma DefaultOutputOfNotes()
    ensures DefaultOutput("notes.md") == "notes.pdf"
  {
    assert HasNonDot("notes", 0, 5) by { assert "notes"[0] != '.'; }
    assert "" + "notes" + ".md" == "notes.md";
    DefaultOutputOfName("", "notes", ".md");
  }

  /** Worked input: the hidden `docs/.bashrc` keeps its whole name. */
  lemma DefaultOutputOfHiddenName()
    ensures DefaultOutput("docs/.bashrc") == "docs/.bashrc.pdf"
  {
    var d, tail := "docs/", "bashrc";
    assert EndsWith(d, "/") by { assert d[4..] == "/"; }
    assert NoChar(tail, '/') && NoChar(tail, '.');
    assert d + "." + tail == "docs/.bashrc";
    SplitExtOfDotLedName(d, ".", tail);
  }

  /** The output path `convert` passes on: the option when it is non-empty,
      the default otherwise. */
  function OutputPathFor(inputPath: string, output: Option<string>): (r: string)
    ensures output.Some? && output.value != "" ==> r == output.value
    ensures output.None? || output.value == "" ==> r == DefaultOutput(inputPath)
  {
    if output.None? || output.value == "" then DefaultOutput(inputPath) else output.value
  }

  /** The file port of the local adapter over the disk `disk`. */
  function DiskReader(disk: map<string, DiskEntry>): string -> Result<string, Error> {
    path => ReadFile(disk, path)
  }

  /** The renderer port of the PDF adapter over `backend`, stamping
      successful results with `renderNow`. */
  function PdfConverter(backend: PdfAdapter.Backend, renderNow: DateTime): (ConversionRequest, string) -> ConversionResult {
    (request, dir) => PdfAdapter.Render(backend, request, dir, renderNow)
  }

  /** The error line for a missing input. */
  function MissingInputLine(inputPath: string): string {
    "Error: Input file '" + inputPath + "' does not exist."
  }

  /** What `convert` prints and its exit code, for the disk `disk`, the
      rendering backend, the clock reading `now` the request is stamped
      with and `renderNow` a successful render is stamped with. */
  function Run(disk: map<string, DiskEntry>, backend: PdfAdapter.Backend, inputPath: string, output: Option<string>,
               now: DateTime, renderNow: DateTime): (nat, seq<string>)
  {
    if inputPath !in disk then (1, [MissingInputLine(inputPath)])
    else
      var outputPath := OutputPathFor(inputPath, output);
      var announce := "Converting '" + inputPath + "' to '" + outputPath + "'...";
      match Outcome(DiskReader(disk), PdfConverter(backend, renderNow), inputPath, outputPath, now)
      case Success(path) => (0, [announce, "Success! PDF generated at: " + path])
      case Failure(e) => (1, [announce, "Error during conversion: " + e.message])
  }

  /** `convert`. The ghost `calls` are the port calls of the service it
      builds. */
  method Convert(disk: map<string, DiskEntry>, backend: PdfAdapter.Backend, inputPath: string, output: Option<string>,
                 now: DateTime, renderNow: DateTime)
    returns (exitCode: nat, console: seq<string>, ghost calls: seq<PortCall>)
    ensures (exitCode, console) == Run(disk, backend, inputPath, output, now, renderNow)
    ensures inputPath !in disk ==> calls == []
    ensures forall k :: 0 <= k < |calls| ==> !calls[k].ArchiveCall?
  {
    calls := [];
    if inputPath !in disk {
      return 1, [MissingInputLine(inputPath)], calls;
    }

    var outputPath := inputPath;
    if output.None? || output.value == "" {
      var parts := SplitExt(inputPath);
      outputPath := parts.root + ".pdf";
    } else {
      outputPath := output.value;
    }
    assert outputPath == OutputPathFor(inputPath, output);

    var service := new ConversionService(PdfConverter(backend, renderNow), DiskReader(disk), null);
    var announce := "Converting '" + inputPath + "' to '" + outputPath + "'...";
    var result := service.ConvertFile(inputPath, outputPath, now, now, true);
    calls := service.calls;
    CallsOfShape(inputPath, DiskReader(disk)(inputPath), DetectFormat(inputPath), PdfConverter(backend, renderNow), false, outputPath, now);
    if result.Success? {
      exitCode := 0;
      console := [announce, "Success! PDF generated at: " + result.value];
    } else {
      exitCode := 1;
      console := [announce, "Error during conversion: " + result.error.message];
    }
  }

  /** The exit code is 0 exactly when the input exists and the service
      returned a path; two lines are printed then, one when the input is
      missing. */
  lemma ExitCodeIff(disk: map<string, DiskEntry>, backend: PdfAdapter.Backend, inputPath: string, output: Option<string>,
                    now: DateTime, renderNow: DateTime)
    ensures var (exitCode, console) := Run(disk, backend, inputPath, output, now, renderNow);
      && (exitCode == 0 <==>
            inputPath in disk
            && Outcome(DiskReader(disk), PdfConverter(backend, renderNow), inputPath, OutputPathFor(inputPath, output), now).Success?)
      && (exitCode == 0 || exitCode == 1)
      && |console| == (if inputPath in disk then 2 else 1)
  {
  }

  /** Once the existence check has passed, the service's own read never
      raises `FileNotFoundError`: a failure is then a reading error, an
      unsupported format or a failed rendering. */
  lemma ExistingInputIsFound(disk: map<string, DiskEntry>, backend: PdfAdapter.Backend, inputPath: string, output: Option<string>,
                             now: DateTime, renderNow: DateTime)
    requires inputPath in disk
    ensures var r := Outcome(DiskReader(disk), PdfConverter(backend, renderNow), inputPath, OutputPathFor(inputPath, output), now);
      r.Failure? ==> r.error.OtherError? || r.error.UnsupportedFormatError? || r.error.ConversionError?
  {
    assert DiskReader(disk)(inputPath) == ReadFile(disk, inputPath);
  }

  /** On success the reported path is the render directory of the output
      path joined with the normalised output file name, made absolute. */
  lemma SuccessReportsRenderedPath(disk: map<string, DiskEntry>, backend: PdfAdapter.Backend, inputPath: string, output: Option<string>,
                                   now: DateTime, renderNow: DateTime)
    ensures var (exitCode, console) := Run(disk, backend, inputPath, output, now, renderNow);
      var outputPath := OutputPathFor(inputPath, output);
      exitCode == 0 ==>
        console[1] == "Success! PDF generated at: "
          + Abspath(backend.cwd, Join(RenderDir(outputPath), PdfAdapter.OutputFilename(Basename(outputPath), now.epochSeconds)))
  {
    var outputPath := OutputPathFor(inputPath, output);
    OutcomeWithPdfAdapter(DiskReader(disk), backend, inputPath, outputPath, now, renderNow);
    assert PdfConverter(backend, renderNow) == (request, dir) => PdfAdapter.Render(backend, request, dir, renderNow);
  }
}
