/** The HTTP entry points: a single upload converted and sent back as a PDF,
    several uploads converted into one ZIP archive, and a bulk conversion of
    the files found in the local input directory. The service's
    `convert_file` is a function value here: the path it returns, or the
    error it raises. */
module Api {
  import opened Strings
  import opened Paths
  import opened Model
  import opened FsAdapter
  import Service

  /** Largest accepted upload, in bytes (10 MiB). */
  const MaxFileSize: nat := 10 * 1024 * 1024
  /** Largest number of uploads in one multi-file request. */
  const MaxFiles: nat := 20
  /** Largest sum of the counted upload sizes in one multi-file request (50 MiB). */
  const MaxTotalSize: nat := 50 * 1024 * 1024

  /** An uploaded file: its client-side name and the length of its content. */
  datatype Upload = Upload(filename: string, size: nat)

  /** The lower-cased suffix of an upload's name. */
  function UploadExt(filename: string): string {
    Lower(Suffix(filename))
  }

  /** The extensions the upload endpoints accept. */
  predicate Allowed(ext: string) {
    ext == ".md" || ext == ".markdown" || ext == ".txt"
  }

  // ---------------------------------------------------------------------------
  // Single upload

  /** What the endpoint answers: a file response, or an HTTP error. */
  datatype Reply =
    | FileReply(path: string, mediaType: string, downloadName: string)
    | HttpError(status: nat, detail: string)

  /** The HTTP error a failed conversion becomes. */
  function ErrorReply(e: Error): (r: Reply)
    ensures r.HttpError? && (r.status == 400 || r.status == 500)
    ensures r.status == 400 <==> e.UnsupportedFormatError?
    ensures e.UnsupportedFormatError? ==> r.detail == e.message
    ensures e.ConversionError? ==> r.detail == "PDF generation failed: " + e.message
    ensures !e.UnsupportedFormatError? && !e.ConversionError? ==> r.detail == "Internal server error during conversion"
  {
    match e
    case UnsupportedFormatError(m) => HttpError(400, m)
    case ConversionError(m) => HttpError(500, "PDF generation failed: " + m)
    case _ => HttpError(500, "Internal server error during conversion")
  }

  /** The temporary input file `mkstemp(suffix=ext)` creates: `tmp`, a
      random token and the extension, in the temporary directory. */
  function TempInputPath(tempDir: string, token: string, ext: string): string {
    Join(tempDir, "tmp" + token + ext)
  }

  /** The answer of the validation steps of `convert_document`: a refusal
      of the upload, or `None` when it may be converted. */
  function Rejection(upload: Upload): (r: Option<Reply>)
    ensures r.Some? ==> r.value.HttpError? && (r.value.status == 400 || r.value.status == 413)
    ensures r.None? <==> Allowed(UploadExt(upload.filename)) && 0 < upload.size <= MaxFileSize
  {
    var ext := UploadExt(upload.filename);
    if !Allowed(ext) then
      Some(HttpError(400, "Unsupported file type '" + ext + "'. Only .md, .markdown, and .txt are supported."))
    else if upload.size == 0 then Some(HttpError(400, "Uploaded file is empty"))
    else if upload.size > MaxFileSize then Some(HttpError(413, "File size exceeds 10MB limit"))
    else None
  }

  /** The answer for a validated upload, and the temporary files removed
      (at once on an error, after the response on success). `token` is the
      random part of the temporary file's name and `saved` whether writing
      the upload into it (and setting up the service) succeeded. */
  function ConvertedReply(upload: Upload, tempDir: string, token: string, saved: bool,
                          convert: (string, string) -> Result<string, Error>): (Reply, seq<string>)
  {
    var input := TempInputPath(tempDir, token, UploadExt(upload.filename));
    var output := input + ".pdf";
    if !saved then (HttpError(500, "Internal server error during conversion"), [input, output])
    else match convert(input, output)
      case Success(path) => (FileReply(path, "application/pdf", Stem(upload.filename) + ".pdf"), [input, output])
      case Failure(e) => (ErrorReply(e), [input, output])
  }

  /** What `convert_document` answers, and which temporary files it removes. */
  function DocumentReply(upload: Upload, tempDir: string, token: string, saved: bool,
                         convert: (string, string) -> Result<string, Error>): (Reply, seq<string>)
  {
    match Rejection(upload)
    case Some(refusal) => (refusal, [])
    case None => ConvertedReply(upload, tempDir, token, saved, convert)
  }

  /** The validation steps of `convert_document`. */
  method Validate(upload: Upload) returns (rejection: Option<Reply>)
    ensures rejection == Rejection(upload)
  {
    var ext := UploadExt(upload.filename);
    if !Allowed(ext) {
      return Some(HttpError(400, "Unsupported file type '" + ext + "'. Only .md, .markdown, and .txt are supported."));
    }
    if upload.size == 0 {
      return Some(HttpError(400, "Uploaded file is empty"));
    }
    if upload.size > MaxFileSize {
      return Some(HttpError(413, "File size exceeds 10MB limit"));
    }
    return None;
  }

  /** The conversion steps of `convert_document` for a validated upload. */
  method SaveAndConvert(upload: Upload, tempDir: string, token: string, saved: bool,
                        convert: (string, string) -> Result<string, Error>)
    returns (reply: Reply, removed: seq<string>)
    ensures (reply, removed) == ConvertedReply(upload, tempDir, token, saved, convert)
  {
    var inputPath := TempInputPath(tempDir, token, UploadExt(upload.filename));
    var outputFilename := Stem(upload.filename) + ".pdf";
    var outputPath := inputPath + ".pdf";
    removed := [inputPath, outputPath];

    if !saved {
      return HttpError(500, "Internal server error during conversion"), removed;
    }
    var outcome := convert(inputPath, outputPath);
    if outcome.Failure? {
      return ErrorReply(outcome.error), removed;
    }
    reply := FileReply(outcome.value, "application/pdf", outputFilename);
  }

  /** `convert_document`: the upload is validated, then saved and
      converted. */
  method ConvertDocument(upload: Upload, tempDir: string, token: string, saved: bool,
                         convert: (string, string) -> Result<string, Error>)
    returns (reply: Reply, removed: seq<string>)
    ensures (reply, removed) == DocumentReply(upload, tempDir, token, saved, convert)
  {
    var rejection := Validate(upload);
    if rejection.Some? {
      return rejection.value, [];
    }
    reply, removed := SaveAndConvert(upload, tempDir, token, saved, convert);
  }

  /** The checks run in the order extension, emptiness, size, and none of
      them creates a temporary file: an unsupported extension is refused
      whatever the size, an empty upload before the size limit, and exactly
      10 MiB is still accepted. */
  lemma ValidationOrder(upload: Upload, tempDir: string, token: string, saved: bool,
                        convert: (string, string) -> Result<string, Error>)
    ensures var (reply, removed) := DocumentReply(upload, tempDir, token, saved, convert);
      var ext := UploadExt(upload.filename);
      && (!Allowed(ext) ==>
            reply == HttpError(400, "Unsupported file type '" + ext + "'. Only .md, .markdown, and .txt are supported.")
            && removed == [])
      && (Allowed(ext) && upload.size == 0 ==> reply == HttpError(400, "Uploaded file is empty") && removed == [])
      && (Allowed(ext) && upload.size > MaxFileSize ==> reply == HttpError(413, "File size exceeds 10MB limit") && removed == [])
      && (reply.HttpError? && reply.status == 413 <==> Allowed(ext) && upload.size > MaxFileSize)
  {
    var rejection := Rejection(upload);
    if rejection.None? {
      var (reply, removed) := ConvertedReply(upload, tempDir, token, saved, convert);
      assert DocumentReply(upload, tempDir, token, saved, convert) == (reply, removed);
      assert reply.HttpError? ==> reply.status != 413;
    }
  }

  /** Past validation, both temporary files are removed on every path; a
      success sends the service's PDF under the upload's stem with `.pdf`,
      and a failure is mapped by `ErrorReply`. */
  lemma ConversionReply(upload: Upload, tempDir: string, token: string, saved: bool,
                        convert: (string, string) -> Result<string, Error>)
    requires Allowed(UploadExt(upload.filename)) && 0 < upload.size <= MaxFileSize
    ensures var (reply, removed) := DocumentReply(upload, tempDir, token, saved, convert);
      var input := TempInputPath(tempDir, token, UploadExt(upload.filename));
      var output := input + ".pdf";
      && removed == [input, output]
      && (!saved ==> reply == HttpError(500, "Internal server error during conversion"))
      && (saved && convert(input, output).Success? ==>
            reply == FileReply(convert(input, output).value, "application/pdf", Stem(upload.filename) + ".pdf"))
      && (saved && convert(input, output).Failure? ==> reply == ErrorReply(convert(input, output).error))
  {
  }

  /** An upload that passes the extension check is never refused by the
      service's own format detection: the temporary file keeps the accepted
      (already lower-case) extension, which classifies it as markdown or
      text. So the 400 for `UnsupportedFormatError` cannot come from a
      request that got this far. */
  lemma AcceptedUploadIsDetected(filename: string, tempDir: string, token: string)
    requires Allowed(UploadExt(filename)) && NoChar(token, '/')
    ensures var ext := UploadExt(filename);
      Service.DetectFormat(TempInputPath(tempDir, token, ext)) == Success(if ext == ".txt" then Text else Markdown)
  {
    var ext := UploadExt(filename);
    AllowedShape(ext);
    var stem := "tmp" + token;
    assert NoChar("tmp", '/');
    NoCharConcat("tmp", token, '/');
    NoCharConcat(stem, ext, '/');
    NameOfJoin(tempDir, stem + ext);
    NameOfPlain(stem + ext);
    SameName(TempInputPath(tempDir, token, ext), stem + ext);
    Service.DetectFormatOfName(stem, ext);
    LowerIdempotent(Suffix(filename));
  }

  /** Each accepted extension is a dot and a dot-free, slash-free word. */
  lemma AllowedShape(ext: string)
    requires Allowed(ext)
    ensures |ext| >= 2 && ext[0] == '.' && NoChar(ext[1..], '.') && NoChar(ext, '/')
  {
  }

  /** The download name is the upload's stem with `.pdf`: `report.MD` is
      sent back as `report.pdf`. */
  lemma DownloadName(stem: string, ext: string)
    requires stem != "" && NoChar(stem, '/')
    requires |ext| >= 2 && ext[0] == '.' && NoChar(ext[1..], '.') && NoChar(ext, '/')
    ensures Stem(stem + ext) + ".pdf" == stem + ".pdf"
  {
    SuffixOfPlainName(stem, ext);
  }

  // ---------------------------------------------------------------------------
  // Several uploads into one archive

  /** How one upload fared. */
  datatype Status = Succeeded | Skipped | Errored

  /** One entry of the per-file results: the upload's name, its status, and
      the name of its PDF (on success) or the reason (otherwise). */
  datatype Entry = Entry(file: string, status: Status, detail: string)

  /** The answer to a multi-file request: a rejection of the whole request,
      or the archive with its per-file results and the
      `X-Conversion-Results` header. */
  datatype MultiReply =
    | Rejected(status: nat, detail: string)
    | Archive(results: seq<Entry>, header: string)

  /** Whether an upload's size enters the running total: only uploads past
      the extension and emptiness checks do. */
  predicate Counted(u: Upload) {
    Allowed(UploadExt(u.filename)) && u.size > 0
  }

  /** The sum of the first `n` elements. */
  function SumTo(w: seq<nat>, n: nat): nat
    requires n <= |w|
  {
    if n == 0 then 0 else SumTo(w, n - 1) + w[n - 1]
  }

  /** What each upload adds to the running total: its size if it is
      counted, nothing otherwise. */
  function Weights(uploads: seq<Upload>): (w: seq<nat>)
    ensures |w| == |uploads|
    ensures forall i :: 0 <= i < |uploads| ==> w[i] == if Counted(uploads[i]) then uploads[i].size else 0
  {
    seq(|uploads|, i requires 0 <= i < |uploads| => if Counted(uploads[i]) then uploads[i].size else 0)
  }

  /** The running total after the first `n` uploads. */
  function TotalUpTo(uploads: seq<Upload>, n: nat): nat
    requires n <= |uploads|
  {
    SumTo(Weights(uploads), n)
  }

  /** The result entry for upload `u` when the running total, `u` included,
      is `total`: checks in the order extension, emptiness, own size,
      running total; then the conversion of the upload saved under its own
      name in the temporary directory. */
  function EntryFor(u: Upload, total: nat, tempDir: string, convert: (string, string) -> Result<string, Error>): (e: Entry)
    ensures e.file == u.filename
    ensures e.status != Skipped <==> Counted(u) && u.size <= MaxFileSize && total <= MaxTotalSize
    ensures e.status == Succeeded <==>
      && Counted(u) && u.size <= MaxFileSize && total <= MaxTotalSize
      && convert(Join(tempDir, u.filename), Join(tempDir, Stem(u.filename) + ".pdf")).Success?
    ensures e.status == Succeeded ==> e.detail == Stem(u.filename) + ".pdf"
  {
    var ext := UploadExt(u.filename);
    if !Allowed(ext) then Entry(u.filename, Skipped, "Unsupported format: " + ext)
    else if u.size == 0 then Entry(u.filename, Skipped, "File is empty")
    else if u.size > MaxFileSize then Entry(u.filename, Skipped, "File exceeds 10MB limit")
    else if total > MaxTotalSize then Entry(u.filename, Skipped, "Total request size exceeds 50MB limit")
    else
      var outputName := Stem(u.filename) + ".pdf";
      match convert(Join(tempDir, u.filename), Join(tempDir, outputName))
      case Success(_) => Entry(u.filename, Succeeded, outputName)
      case Failure(err) => Entry(u.filename, Errored, err.message)
  }

  /** Whether upload `i` reaches the service. */
  predicate Attempted(uploads: seq<Upload>, i: nat)
    requires i < |uploads|
  {
    Counted(uploads[i]) && uploads[i].size <= MaxFileSize && TotalUpTo(uploads, i + 1) <= MaxTotalSize
  }

  /** The number of successful entries. */
  function Successes(results: seq<Entry>): (n: nat)
    ensures n <= |results|
  {
    if results == [] then 0
    else Successes(results[..|results| - 1]) + (if results[|results| - 1].status == Succeeded then 1 else 0)
  }

  /** One pass of the upload loop: the checks in order, the running total
      updated once the upload is known to be non-empty and supported, and the
      conversion of an upload that passes them all. */
  method CheckAndConvert(upload: Upload, totalSize: nat, tempDir: string, convert: (string, string) -> Result<string, Error>)
    returns (entry: Entry, newTotal: nat)
    ensures newTotal == totalSize + if Counted(upload) then upload.size else 0
    ensures entry == EntryFor(upload, newTotal, tempDir, convert)
  {
    newTotal := totalSize;
    var ext := UploadExt(upload.filename);
    if !Allowed(ext) {
      return Entry(upload.filename, Skipped, "Unsupported format: " + ext), newTotal;
    }
    if upload.size == 0 {
      return Entry(upload.filename, Skipped, "File is empty"), newTotal;
    }
    newTotal := newTotal + upload.size;
    if upload.size > MaxFileSize {
      return Entry(upload.filename, Skipped, "File exceeds 10MB limit"), newTotal;
    }
    if newTotal > MaxTotalSize {
      return Entry(upload.filename, Skipped, "Total request size exceeds 50MB limit"), newTotal;
    }
    var outputFilename := Stem(upload.filename) + ".pdf";
    var outcome := convert(Join(tempDir, upload.filename), Join(tempDir, outputFilename));
    if outcome.Success? {
      entry := Entry(upload.filename, Succeeded, outputFilename);
    } else {
      entry := Entry(upload.filename, Errored, outcome.error.message);
    }
  }

  /** `convert_multiple_files`. Too many or no uploads reject the request
      before anything is read. Otherwise every upload gets exactly one entry,
      in upload order, and the header counts the successes over all uploads,
      skipped ones included. */
  method ConvertMultiple(uploads: seq<Upload>, tempDir: string, convert: (string, string) -> Result<string, Error>)
    returns (reply: MultiReply)
    ensures |uploads| > MaxFiles ==> reply == Rejected(400, "Too many files. Maximum 20 files allowed.")
    ensures |uploads| == 0 ==> reply == Rejected(400, "No files provided.")
    ensures 0 < |uploads| <= MaxFiles ==>
      && reply.Archive?
      && |reply.results| == |uploads|
      && (forall i {:trigger reply.results[i]} :: 0 <= i < |uploads| ==> reply.results[i] == EntryFor(uploads[i], TotalUpTo(uploads, i + 1), tempDir, convert))
      && reply.header == NatToString(Successes(reply.results)) + "/" + NatToString(|uploads|)
  {
    if |uploads| > MaxFiles {
      return Rejected(400, "Too many files. Maximum 20 files allowed.");
    }
    if |uploads| == 0 {
      return Rejected(400, "No files provided.");
    }

    var results: seq<Entry> := [];
    var totalSize: nat := 0;
    var i := 0;
    while i < |uploads|
      invariant 0 <= i <= |uploads|
      invariant totalSize == TotalUpTo(uploads, i)
      invariant |results| == i
      invariant forall j {:trigger results[j]} :: 0 <= j < i ==> results[j] == EntryFor(uploads[j], TotalUpTo(uploads, j + 1), tempDir, convert)
    {
      var entry, newTotal := CheckAndConvert(uploads[i], totalSize, tempDir, convert);
      assert Weights(uploads)[i] == if Counted(uploads[i]) then uploads[i].size else 0;
      assert newTotal == TotalUpTo(uploads, i + 1);
      ghost var before := results;
      results := results + [entry];
      forall j | 0 <= j < i + 1
        ensures results[j] == EntryFor(uploads[j], TotalUpTo(uploads, j + 1), tempDir, convert)
      {
        if j < i {
          assert results[j] == before[j];
        }
      }
      totalSize := newTotal;
      i := i + 1;
    }

    var successCount := Successes(results);
    reply := Archive(results, NatToString(successCount) + "/" + NatToString(|uploads|));
  }

  /** Prefix sums of naturals never decrease. */
  lemma {:induction false} SumMonotone(w: seq<nat>, m: nat, n: nat)
    requires m <= n <= |w|
    ensures SumTo(w, m) <= SumTo(w, n)
    decreases n - m
  {
    if m < n {
      SumMonotone(w, m, n - 1);
    }
  }

  /** A counted upload adds its size to the total even when it is itself
      skipped for being too large; so an earlier upload, oversized or not,
      can push a later one over the request limit. */
  lemma EarlierUploadCounts(uploads: seq<Upload>, i: nat, j: nat, tempDir: string, convert: (string, string) -> Result<string, Error>)
    requires i < j < |uploads|
    requires Counted(uploads[i]) && Counted(uploads[j])
    requires uploads[i].size + uploads[j].size > MaxTotalSize
    ensures EntryFor(uploads[j], TotalUpTo(uploads, j + 1), tempDir, convert).status == Skipped
  {
    TotalIncludesBoth(uploads, i, j);
  }

  /** The running total after upload `j` includes every earlier counted
      upload and `j` itself. */
  lemma TotalIncludesBoth(uploads: seq<Upload>, i: nat, j: nat)
    requires i < j < |uploads|
    requires Counted(uploads[i]) && Counted(uploads[j])
    ensures TotalUpTo(uploads, j + 1) >= uploads[i].size + uploads[j].size
  {
    var w := Weights(uploads);
    SumIncludesBoth(w, i, j);
    assert w[i] == uploads[i].size && w[j] == uploads[j].size;
  }

  /** A prefix sum of naturals includes any two of its elements. */
  lemma SumIncludesBoth(w: seq<nat>, i: nat, j: nat)
    requires i < j < |w|
    ensures SumTo(w, j + 1) >= w[i] + w[j]
  {
    SumMonotone(w, i + 1, j);
    assert SumTo(w, i + 1) == SumTo(w, i) + w[i];
  }

  /** What each upload hands to the service: its size if it is converted,
      nothing otherwise. */
  function AttemptedWeights(uploads: seq<Upload>): (w: seq<nat>)
    ensures |w| == |uploads|
    ensures forall i :: 0 <= i < |uploads| ==> w[i] == if Attempted(uploads, i) then uploads[i].size else 0
  {
    seq(|uploads|, i requires 0 <= i < |uploads| => if Attempted(uploads, i) then uploads[i].size else 0)
  }

  /** A sum bounded pointwise is bounded. */
  lemma {:induction false} SumPointwise(a: seq<nat>, w: seq<nat>, n: nat)
    requires |a| == |w| && n <= |a|
    requires forall i :: 0 <= i < |a| ==> a[i] <= w[i]
    ensures SumTo(a, n) <= SumTo(w, n)
  {
    if n > 0 {
      SumPointwise(a, w, n - 1);
    }
  }

  /** If every non-zero element of `a` is at most the matching element of
      `w`, and is only there while the running sum of `w` stays within
      `cap`, then the sum of `a` stays within `cap`. */
  lemma {:induction false} CappedSum(a: seq<nat>, w: seq<nat>, cap: nat, n: nat)
    requires |a| == |w| && n <= |a|
    requires forall i :: 0 <= i < |a| ==> a[i] <= w[i]
    requires forall i :: 0 <= i < |a| && a[i] != 0 ==> SumTo(w, i + 1) <= cap
    ensures SumTo(a, n) <= cap
  {
    if n > 0 {
      if a[n - 1] == 0 {
        CappedSum(a, w, cap, n - 1);
      } else {
        SumPointwise(a, w, n);
      }
    }
  }

  /** Together, the uploads handed to the service stay within the request
      limit. */
  lemma AttemptedWithinLimits(uploads: seq<Upload>)
    ensures SumTo(AttemptedWeights(uploads), |uploads|) <= MaxTotalSize
  {
    CappedSum(AttemptedWeights(uploads), Weights(uploads), MaxTotalSize, |uploads|);
  }

  // ---------------------------------------------------------------------------
  // Bulk conversion of the local input directory

  /** The directory scanned and the directory written into. */
  const InputDir := "data/input"
  const OutputDir := "data/output"

  /** One entry of the bulk summary: the file's name and the raised error's
      text, if any. */
  datatype BulkEntry = BulkEntry(file: string, succeeded: bool, error: Option<string>)

  /** The bulk summary. */
  datatype BulkReply =
    | NothingToProcess(message: string, processed: nat, results: seq<BulkEntry>)
    | Completed(message: string, processed: nat, successful: nat, failed: nat, results: seq<BulkEntry>)

  /** The PDF path for an input file: its stem with `.pdf`, in the output
      directory. */
  function PdfPathFor(file: string): string {
    Join(OutputDir, Stem(file) + ".pdf")
  }

  /** The entry for one listed file. */
  function BulkEntryFor(file: string, convert: (string, string) -> Result<string, Error>): (e: BulkEntry)
    ensures e.file == Name(file)
    ensures e.succeeded <==> convert(file, PdfPathFor(file)).Success?
    ensures e.succeeded <==> e.error == None
  {
    match convert(file, PdfPathFor(file))
    case Success(_) => BulkEntry(Name(file), true, None)
    case Failure(err) => BulkEntry(Name(file), false, Some(err.message))
  }

  /** `BulkEntryFor` for a fixed service. */
  function BulkEntryWith(convert: (string, string) -> Result<string, Error>): string -> BulkEntry {
    file => BulkEntryFor(file, convert)
  }

  /** The entries for the first `n` files. */
  function BulkEntries(files: seq<string>, n: nat, entryOf: string -> BulkEntry): (r: seq<BulkEntry>)
    requires n <= |files|
    ensures |r| == n
  {
    if n == 0 then [] else BulkEntries(files, n - 1, entryOf) + [entryOf(files[n - 1])]
  }

  /** Entry `j` is decided by file `j` alone. */
  lemma {:induction false} BulkEntriesAt(files: seq<string>, n: nat, entryOf: string -> BulkEntry, j: nat)
    requires j < n <= |files|
    ensures BulkEntries(files, n, entryOf)[j] == entryOf(files[j])
    decreases n
  {
    if j < n - 1 {
      BulkEntriesAt(files, n - 1, entryOf, j);
    }
  }

  /** The number of successful bulk entries. */
  function BulkSuccesses(results: seq<BulkEntry>): (n: nat)
    ensures n <= |results|
  {
    if results == [] then 0
    else BulkSuccesses(results[..|results| - 1]) + (if results[|results| - 1].succeeded then 1 else 0)
  }

  /** The files the bulk conversion finds: the markdown files of the input
      directory, then its text files. */
  function BulkFiles(entries: seq<string>): seq<string> {
    ListFiles(true, InputDir, entries, [".md", ".txt"])
  }

  /** One pass of the bulk loop: convert the file into the output directory
      and record the outcome. */
  method BulkConvertOne(inputPath: string, convert: (string, string) -> Result<string, Error>) returns (entry: BulkEntry)
    ensures entry == BulkEntryFor(inputPath, convert)
  {
    var outputPath := Join(OutputDir, Stem(inputPath) + ".pdf");
    var outcome := convert(inputPath, outputPath);
    if outcome.Success? {
      entry := BulkEntry(Name(inputPath), true, None);
    } else {
      entry := BulkEntry(Name(inputPath), false, Some(outcome.error.message));
    }
  }

  /** `bulk_convert`, over the names listed in the input directory (created
      beforehand if missing). With nothing to convert it says so; otherwise
      each file is converted in turn, one entry per file in order, a failure
      on one file does not stop the others, and the counts add up. */
  method BulkConvert(entries: seq<string>, convert: (string, string) -> Result<string, Error>)
    returns (reply: BulkReply)
    ensures BulkFiles(entries) == [] ==> reply == NothingToProcess("No files found to process", 0, [])
    ensures BulkFiles(entries) != [] ==>
      var files := BulkFiles(entries);
      && reply.Completed? && reply.message == "Bulk conversion completed" && reply.processed == |files|
      && |reply.results| == |files|
      && (forall i :: 0 <= i < |files| ==> reply.results[i] == BulkEntryFor(files[i], convert))
      && reply.successful == BulkSuccesses(reply.results)
      && reply.successful + reply.failed == reply.processed
  {
    var files := ListFiles(true, InputDir, entries, [".md", ".txt"]);
    if files == [] {
      return NothingToProcess("No files found to process", 0, []);
    }

    var results: seq<BulkEntry> := [];
    var successCount := 0;
    for i := 0 to |files|
      invariant results == BulkEntries(files, i, BulkEntryWith(convert))
      invariant successCount == BulkSuccesses(results)
    {
      var entry := BulkConvertOne(files[i], convert);
      if entry.succeeded {
        successCount := successCount + 1;
      }
      assert (results + [entry])[..i] == results;
      results := results + [entry];
    }
    forall j | 0 <= j < |files|
      ensures results[j] == BulkEntryFor(files[j], convert)
    {
      BulkEntriesAt(files, |files|, BulkEntryWith(convert), j);
    }
    reply := Completed("Bulk conversion completed", |files|, successCount, |files| - successCount, results);
  }
}
