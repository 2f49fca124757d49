/** The local batch script: every `.md` and then every `.txt` file of
    `data/input` is converted by the service into `data/output`, one report
    per file on the console; a failed file is reported and the batch goes
    on. */
module ProcessLocal {
  import opened Strings
  import opened Paths
  import opened Model
  import opened FsAdapter

  const InputDir := "data/input"
  const OutputDir := "data/output"

  /** The files processed, given the input directory's entry names in
      listing order: the markdown matches, then the text matches. */
  function Files(entries: seq<string>): seq<string> {
    Glob(InputDir, entries, ".md") + Glob(InputDir, entries, ".txt")
  }

  /** The output path for an input file: its stem with `.pdf`, in the
      output directory. */
  function OutputPathFor(file: string): string {
    Join(OutputDir, Stem(file) + ".pdf")
  }

  /** A console line of the script. */
  datatype Line =
    | NoFiles
    | Found(count: nat)
    | Converting(name: string)
    | Generated(path: string)
    | Failed(message: string)

  /** The text printed for a line. */
  function Text(line: Line): string {
    match line
    case NoFiles => "No files found in data/input. Add .md or .txt files there."
    case Found(count) => "Found " + NatToString(count) + " files. Processing..."
    case Converting(name) => "Converting: " + name + "..."
    case Generated(path) => "  -> Generated: " + path
    case Failed(message) => "  -> Error: " + message
  }

  /** The line reporting what the service did with one file. */
  function OutcomeLine(file: string, convert: (string, string) -> Result<string, Error>): (line: Line)
    ensures line.Generated? <==> convert(file, OutputPathFor(file)).Success?
  {
    match convert(file, OutputPathFor(file))
    case Success(path) => Generated(path)
    case Failure(e) => Failed(e.message)
  }

  /** The two lines printed for one file: its name, then the outcome. */
  function Report(file: string, convert: (string, string) -> Result<string, Error>): (Line, Line) {
    (Converting(Name(file)), OutcomeLine(file, convert))
  }

  /** `Report` for a fixed service. */
  function ReportWith(convert: (string, string) -> Result<string, Error>): string -> (Line, Line) {
    file => Report(file, convert)
  }

  /** The reports for the first `n` files, in order, two lines each. */
  function Reports(files: seq<string>, n: nat, report: string -> (Line, Line)): (r: seq<Line>)
    requires n <= |files|
    ensures |r| == 2 * n
  {
    if n == 0 then []
    else
      var (announce, outcome) := report(files[n - 1]);
      Reports(files, n - 1, report) + [announce, outcome]
  }

  /** Everything `process_files` prints, given the files it found and the
      service's `convert_file` as a function of the input and output paths. */
  function Console(files: seq<string>, convert: (string, string) -> Result<string, Error>): seq<Line> {
    if files == [] then [NoFiles]
    else [Found(|files|)] + Reports(files, |files|, ReportWith(convert))
  }

  /** One pass of the loop: announce the file, convert it, report the
      result or the error. */
  method ProcessOne(file: string, convert: (string, string) -> Result<string, Error>) returns (announce: Line, outcome: Line)
    ensures (announce, outcome) == Report(file, convert)
  {
    var outputPath := Join(OutputDir, Stem(file) + ".pdf");
    announce := Converting(Name(file));
    var result := convert(file, outputPath);
    if result.Success? {
      outcome := Generated(result.value);
    } else {
      outcome := Failed(result.error.message);
    }
  }

  /** `process_files`. */
  method ProcessFiles(entries: seq<string>, convert: (string, string) -> Result<string, Error>) returns (console: seq<Line>)
    ensures console == Console(Files(entries), convert)
  {
    var files := Glob(InputDir, entries, ".md") + Glob(InputDir, entries, ".txt");
    if files == [] {
      return [NoFiles];
    }

    var reports: seq<Line> := [];
    for i := 0 to |files|
      invariant reports == Reports(files, i, ReportWith(convert))
    {
      var announce, outcome := ProcessOne(files[i], convert);
      reports := reports + [announce, outcome];
    }
    console := [Found(|files|)] + reports;
  }

  /** File `k` gets lines `2k` and `2k + 1` of the reports. */
  lemma {:induction false} ReportsAt(files: seq<string>, n: nat, report: string -> (Line, Line), k: nat)
    requires k < n <= |files|
    ensures Reports(files, n, report)[2 * k] == report(files[k]).0
    ensures Reports(files, n, report)[2 * k + 1] == report(files[k]).1
  {
    if k < n - 1 {
      ReportsAt(files, n - 1, report, k);
    }
  }

  /** Each listed file is reported once, in listing order, and the batch
      does not stop at a failure: there are exactly two lines per file after
      the header. */
  lemma ConsoleShape(files: seq<string>, convert: (string, string) -> Result<string, Error>, k: nat)
    requires k < |files|
    ensures var console := Console(files, convert);
      && |console| == 1 + 2 * |files|
      && console[0] == Found(|files|)
      && console[2 * k + 1] == Converting(Name(files[k]))
      && console[2 * k + 2] == OutcomeLine(files[k], convert)
  {
    var reports := Reports(files, |files|, ReportWith(convert));
    ReportsAt(files, |files|, ReportWith(convert), k);
    assert ReportWith(convert)(files[k]) == Report(files[k], convert);
    assert ([Found(|files|)] + reports)[2 * k + 1] == reports[2 * k];
    assert ([Found(|files|)] + reports)[2 * k + 2] == reports[2 * k + 1];
  }

  /** Every markdown file is processed before every text file: the first
      files end with `.md`, the rest with `.txt`. */
  lemma MarkdownFirst(entries: seq<string>, k: nat)
    requires k < |Files(entries)|
    ensures k < |Glob(InputDir, entries, ".md")| ==> EndsWith(Files(entries)[k], ".md")
    ensures k >= |Glob(InputDir, entries, ".md")| ==> EndsWith(Files(entries)[k], ".txt")
  {
    var md := Glob(InputDir, entries, ".md");
    var txt := Glob(InputDir, entries, ".txt");
    GlobEndsWith(InputDir, entries, ".md");
    GlobEndsWith(InputDir, entries, ".txt");
    if k < |md| {
      assert (md + txt)[k] == md[k];
      assert md[k] in md;
    } else {
      assert (md + txt)[k] == txt[k - |md|];
      assert txt[k - |md|] in txt;
    }
  }

  /** An empty listing, or one with no matching names, prints only the
      hint. */
  lemma NothingToDo(entries: seq<string>, convert: (string, string) -> Result<string, Error>)
    requires forall n :: n in entries ==> !EndsWith(n, ".md") && !EndsWith(n, ".txt")
    ensures Console(Files(entries), convert) == [NoFiles]
  {
    GlobNoMatch(InputDir, entries, ".md");
    GlobNoMatch(InputDir, entries, ".txt");
  }

  /** A file named by a plain entry is announced under that name, and its
      PDF goes into the output directory under the entry's stem. */
  lemma ReportNamesEntry(name: string)
    requires PlainName(name)
    ensures Name(Join(InputDir, name)) == name
    ensures Name(OutputPathFor(Join(InputDir, name))) == Stem(name) + ".pdf"
    ensures Dirname(OutputPathFor(Join(InputDir, name))) == OutputDir
  {
    var file := Join(InputDir, name);
    NameOfJoin(InputDir, name);
    NameOfPlain(name);
    SameName(file, name);
    var pdf := Stem(name) + ".pdf";
    PdfNameIsPlain(Stem(name));
    NameOfJoin(OutputDir, pdf);
    JoinSplit(OutputDir, pdf);
  }
}
