# Text-to-PDF service, modelled in Dafny

This project models the core of a small hexagonal text-to-PDF service. The
`ConversionService` reads a Markdown or plain-text file through a file port and
classifies it by its lower-cased suffix. It builds a `ConversionRequest` and
hands it to a rendering port, and it reports every conversion to an optional
archiver. A failed render becomes a `ConversionError`.

The driving side is modelled too:
- the HTTP endpoints: a single upload, several uploads packed into one ZIP, and
  a bulk conversion of `data/input`;
- the `convert` command line;
- the `process_local` batch script.

On the driven side:
- the rendering adapter: output name, the list-spacing pre-pass, the HTML body,
  and turning every failure into a failed result;
- the local file adapter;
- the metadata-only history archiver, which appends one JSON record per
  conversion to a daily log.

Modules, one per source file:
- `Model`: `src/domain/model.py` and the exceptions.
- `Strings` and `Paths`: the parts of Python's string and path library the code
  relies on (`str.lower`, `split`, `splitlines`, UTF-8 length, `strftime`
  padding, `pathlib` name/suffix/stem, `os.path` basename/dirname/join/splitext
  and abspath).
- `ListSpacing`: `_preprocess_markdown`.
- `PdfAdapter`: the rendering adapter.
- `FsAdapter`: the local file adapter.
- `Archiver`: the history archiver. It is a class whose `days` map of day-file
  paths to record lists is updated in place.
- `Service`: the service. It is a class with the ports as function-valued
  constants, the archiver as an optional object, and a ghost trace of the port
  calls.
- `Api`, `Cli` and `ProcessLocal`: the three driving adapters.

The libraries the code calls are parameters of the model:
- the markdown library;
- the PDF library, which is given the HTML body; the fixed page template and
  style sheet are part of it;
- SHA-256;
- the clock readings;
- the working directory.

The operations that work step by step are methods proved against the
functions that specify them. The multi-upload, bulk and batch loops are
methods with loops and invariants. The adapter's `convert`, the service's
`convert_file` and the archiver's `archive` are straight-line methods.

Running the list-spacing pre-pass twice differs from running it once:
`\s*` also matches a newline, so a blank line before a list gets a second one
(`ListSpacing.NotIdempotent`).

## Model

| member | source | states |
|---|---|---|
| Model.SourceFormat.Value | src/domain/model.py:6-8 | a format's value is `md` or `txt` |
| Model.FormatOfValue | src/domain/model.py:6-8 | a value names a format exactly when it is `md` or `txt` |
| Model.FormatValueRoundTrip | src/domain/model.py:6-8 | the value determines the format, and looking it up gives the format back |
| Model.NewRequest | src/domain/model.py:10-15 | a request carries the given content, format, file name and creation time |
| Model.NewResult | src/domain/model.py:17-23 | a result without an explicit time or message is stamped now and has no message |
| Model.OptionalText | src/application/service.py:59 | a present message prints as itself |
| Strings.Lower | src/application/service.py:17 | `lower()` keeps the length, leaves no ASCII capital, keeps every other character, and maps each capital to the small letter at the same place in the alphabet |
| Strings.LowerIdempotent | src/application/service.py:17 | lower-casing twice is lower-casing once |
| Strings.NatToString | src/adapters/driving/api.py:458 | `str(n)` is a non-empty digit string without a leading zero unless `n` is 0 |
| Strings.DecimalValueOfNatToString | src/adapters/driving/api.py:458 | `str(n)` reads back as `n` |
| Strings.Pad | src/adapters/driven/fs_archiver.py:48 | a zero-padded field is all digits, has the field width when the number fits, and ends with the unpadded number |
| Strings.PadValue | src/adapters/driven/fs_archiver.py:48 | zero-padded `strftime` fields still denote the number |
| Strings.Take | src/adapters/driven/fs_archiver.py:48 | `hash[:8]` is a prefix of length min(8, len) |
| Strings.Utf8Encode | src/adapters/driven/fs_archiver.py:58 | `str.encode('utf-8')`, character by character; no ensures of its own, see `Utf8Length` and `Utf8EncodeAppend` |
| Strings.Utf8Length | src/adapters/driven/fs_archiver.py:58 | the UTF-8 byte count lies between the character count and four times it |
| Strings.Utf8EncodeAppend | src/adapters/driven/fs_archiver.py:58 | UTF-8 encoding distributes over concatenation |
| Strings.Words | src/adapters/driven/fs_archiver.py:64 | `str.split()` with no separator; no ensures of its own, see `WordsAreWords`, `WordsConcat`, `WordCount` and `WordsEmptyIffBlank` |
| Strings.WordsAreWords | src/adapters/driven/fs_archiver.py:64 | every element of `split()` is non-empty and free of whitespace |
| Strings.WordsConcat | src/adapters/driven/fs_archiver.py:64 | the words of `split()`, concatenated, are exactly the non-whitespace characters |
| Strings.WordsRunCount | src/adapters/driven/fs_archiver.py:64 | `split()` has one word per run of non-whitespace met scanning from the front |
| Strings.WordCount | src/adapters/driven/fs_archiver.py:64 | `split()` has exactly one word per position that begins a run of non-whitespace |
| Strings.WordsEmptyIffBlank | src/adapters/driven/fs_archiver.py:64 | `split()` is empty exactly for blank text |
| Strings.Lines | src/adapters/driven/fs_archiver.py:65 | `splitlines()` is empty exactly for empty text and has at most one line per character |
| Strings.LinesAreLines | src/adapters/driven/fs_archiver.py:65 | no element of `splitlines()` contains a line boundary |
| Strings.LinesJoinRoundTrip | src/adapters/driven/fs_archiver.py:65 | for `\n`-only text, joining `splitlines()` with `\n` gives the text back, less a final newline |
| Paths.Name | scripts/process_local.py:43 | a path's name holds no slash and is not `.` |
| Paths.Suffix | src/application/service.py:17 | a suffix is empty, or a dot and at least one character without dots or slashes, at the end of the name |
| Paths.Stem | scripts/process_local.py:39 | a stem is a slash-free prefix of the name |
| Paths.StemSuffix | scripts/process_local.py:39 | stem followed by suffix is the name |
| Paths.SuffixOfPlainName | src/application/service.py:17 | `stem + ext` splits back into `stem` and `ext` |
| Paths.LeadingDotNoSuffix | src/application/service.py:17 | a hidden name such as `.md` has no suffix and is its own stem |
| Paths.Basename | src/application/service.py:42 | `basename` is a slash-free suffix of the path |
| Paths.Dirname | src/application/service.py:47 | `dirname` is a prefix of the path, empty exactly when the path has no slash |
| Paths.Join | src/adapters/driven/pdf_adapter.py:119 | `join` ends with its second part, and an absolute second part wins |
| Paths.JoinSplit | src/application/service.py:42-47 | `basename` and `dirname` undo `join` for a slash-free name |
| Paths.NameOfJoin | scripts/process_local.py:43 | a plain name joined onto a directory is the joined path's name |
| Paths.Abspath | src/adapters/driven/pdf_adapter.py:161 | `abspath` ends with the path and keeps an absolute one |
| Paths.SplitExt | src/adapters/driving/cli.py:31 | `root + ext` is the path; `ext` is empty or a dot and dot-free, slash-free characters; when the last extension is split off is stated by `SplitExtOfName` and `SplitExtOfDotLedName` |
| Paths.SplitExtOfName | src/adapters/driving/cli.py:31 | a final component `stem + ext`, with a one-dot extension and a stem holding some non-dot character, splits off exactly `ext` |
| Paths.SplitExtOfDotLedName | src/adapters/driving/cli.py:31 | when the final component is dots followed by dot-free text (`.bashrc`, `...`, `notes`), the extension is empty |
| Paths.SplitExtSameDirectory | src/adapters/driving/cli.py:30-32 | replacing the extension keeps the directory |
| ListSpacing.Preprocess | src/adapters/driven/pdf_adapter.py:102-111 | the bullet substitution, then the ordered one; no ensures of its own, see `PreprocessInsertsNewlines`, `PreprocessWithoutNewline` and `NotIdempotent` |
| ListSpacing.PassFrom | src/adapters/driven/pdf_adapter.py:109-110 | `re.sub` from a position on: the rewritten rest is at least as long as the input's rest; see `MatchEndFinds`, `PassFromWithoutMatch`, `PassFromWithMatch` and `PassUnchangedIffNoMatch` |
| ListSpacing.MatchEnd | src/adapters/driven/pdf_adapter.py:109-110 | a found match spans at least the two characters, the newline and a marker |
| ListSpacing.MarkerEndFinds | src/adapters/driven/pdf_adapter.py:109-110 | the greedy marker search finds a marker exactly when one starts there |
| ListSpacing.MatchEndFinds | src/adapters/driven/pdf_adapter.py:109-110 | the matcher finds a match at a position exactly when the pattern matches there |
| ListSpacing.PreprocessInsertsNewlines | src/adapters/driven/pdf_adapter.py:102-111 | pre-processing only inserts newline characters |
| ListSpacing.PassFromWithoutMatch | src/adapters/driven/pdf_adapter.py:109-110 | with no match from a position on, the rest of the text is copied unchanged |
| ListSpacing.PassFromWithMatch | src/adapters/driven/pdf_adapter.py:109-110 | a match anywhere ahead makes the rewritten rest strictly longer |
| ListSpacing.PassUnchangedIffNoMatch | src/adapters/driven/pdf_adapter.py:109 | a substitution leaves the text unchanged exactly when its pattern matches nowhere |
| ListSpacing.PreprocessWithoutNewline | src/adapters/driven/pdf_adapter.py:102-111 | text without a newline comes through unchanged |
| ListSpacing.BulletAfterText | src/adapters/driven/pdf_adapter.py:109 | example: `a\n- b` becomes `a\n\n- b` |
| ListSpacing.OrderedAfterText | src/adapters/driven/pdf_adapter.py:110 | example: `a\n1. b` becomes `a\n\n1. b` |
| ListSpacing.NotIdempotent | src/adapters/driven/pdf_adapter.py:109 | an already separated list gets a second blank line, so applying the pre-pass twice differs from once |
| FsAdapter.ReadFile | src/adapters/driven/fs_adapter.py:6-11 | a missing path raises `FileNotFoundError` naming it; content comes back exactly when the path holds a readable text file |
| FsAdapter.Glob | src/adapters/driven/fs_adapter.py:24 | a glob yields at most one path per entry |
| FsAdapter.GlobSelects | src/adapters/driven/fs_adapter.py:24 | a glob yields exactly the matching entries joined onto the directory |
| FsAdapter.GlobEndsWith | src/adapters/driven/fs_adapter.py:24 | every path a glob yields ends with the extension |
| FsAdapter.GlobNoMatch | src/adapters/driven/fs_adapter.py:24 | with no matching entry, the glob is empty |
| FsAdapter.ListFiles | src/adapters/driven/fs_adapter.py:18-25 | a missing directory lists nothing |
| FsAdapter.ListFilesMarkdownFirst | src/adapters/driven/fs_adapter.py:23-24 | listing `[.md, .txt]` gives the `.md` glob followed by the `.txt` glob |
| FsAdapter.MarkdownLongSuffixNotListed | src/adapters/driven/fs_adapter.py:24 | example: a `.markdown` entry is not picked up by the `.md` glob |
| Archiver.MakeRecord | src/adapters/driven/fs_archiver.py:51-67 | the record copies name, format value, sizes, status and error; it hashes the UTF-8 content and stores its byte count, and counts the words of `split()`, the lines of `splitlines()` and the characters |
| Archiver.RunId | src/adapters/driven/fs_archiver.py:48 | the compact timestamp, `_` and `hash[:8]`; no ensures of its own, see `RunIdAgreesWithDate` and `PaddedWidths` |
| Archiver.RunIdAgreesWithDate | src/adapters/driven/fs_archiver.py:48 | the run id is the date and time of the record, `_`, and the first eight hash characters |
| Archiver.PaddedWidths | src/adapters/driven/fs_archiver.py:48 | for a valid date, the year pads to four digits and the other fields to two |
| Archiver.TimestampAgreesWithDate | src/adapters/driven/fs_archiver.py:53-55 | the ISO timestamp starts with the record's date, a `T`, and its time |
| Archiver.InputSizeBounds | src/adapters/driven/fs_archiver.py:58 | the input byte count lies between the character count and four times it, and equals it for ASCII |
| Archiver.RecordWordCount | src/adapters/driven/fs_archiver.py:64 | the word count is the number of positions where a run of non-whitespace begins |
| Archiver.CountsOfBlankContent | src/adapters/driven/fs_archiver.py:64-66 | no words exactly for blank content; empty content has no words, lines, characters or bytes |
| Archiver.DayFile | src/adapters/driven/fs_archiver.py:70 | the day file is named after the date with `.jsonl` |
| Archiver.FileSystemArchiver.constructor | src/adapters/driven/fs_archiver.py:28-31 | the metadata directory is `metadata` under the archive directory |
| Archiver.FileSystemArchiver.Archive | src/adapters/driven/fs_archiver.py:37-79 | the logs become `AfterArchive`: one record appended to today's file, or nothing on failure; nothing raised |
| Archiver.AfterArchive | src/adapters/driven/fs_archiver.py:37-79 | the day logs after one `archive`; no ensures of its own, see `AppendOnly` and `FileSystemArchiver.Archive` |
| Archiver.AppendOnly | src/adapters/driven/fs_archiver.py:70-73 | today's file grows by exactly the new record at its end; earlier records and other files are untouched |
| PdfAdapter.OutputFilename | src/adapters/driven/pdf_adapter.py:115-117 | a requested name already ending in `.pdf` (case-sensitively) is kept, any other gets `.pdf` appended; with none, the name is `output_<seconds>.pdf` |
| PdfAdapter.OutputFilenameIdempotent | src/adapters/driven/pdf_adapter.py:116-117 | normalising a normalised name changes nothing |
| PdfAdapter.HtmlBody | src/adapters/driven/pdf_adapter.py:121-131 | the markdown library on the pre-processed text, or the text in `<pre>`; no ensures of its own, see `TextBodyVerbatim` and `MarkdownSeesContent` |
| PdfAdapter.TextBodyVerbatim | src/adapters/driven/pdf_adapter.py:131 | plain text is wrapped in `<pre>` tags unescaped |
| PdfAdapter.MarkdownSeesContent | src/adapters/driven/pdf_adapter.py:123-129 | the markdown library receives the content with only newlines inserted |
| PdfAdapter.Failed | src/adapters/driven/pdf_adapter.py:166-173 | a failure has no path, size 0, the request's time and the exception text |
| PdfAdapter.Render | src/adapters/driven/pdf_adapter.py:113-173 | a failure keeps the request's time and carries a message; a success is stamped now, has no message, and names the output file |
| PdfAdapter.Convert | src/adapters/driven/pdf_adapter.py:113-173 | the step-by-step `convert` returns `Render` |
| PdfAdapter.RenderSucceedsIff | src/adapters/driven/pdf_adapter.py:150-164 | success exactly when the body was built and the PDF library finished without errors; the size is the file's |
| PdfAdapter.ErrorCountFails | src/adapters/driven/pdf_adapter.py:156-157 | a non-zero error count fails with `PDF generation error: <count>` |
| PdfAdapter.RenderedPath | src/adapters/driven/pdf_adapter.py:159-161 | the reported path is the output file in the output directory, made absolute |
| PdfAdapter.SuccessPathAbsolute | src/adapters/driven/pdf_adapter.py:161 | with an absolute working directory, the reported path is absolute |
| Service.DetectFormat | src/application/service.py:16-24 | markdown exactly for `.md`/`.markdown`, text exactly for `.txt`, after lower-casing; otherwise the error names the suffix |
| Service.UpperCaseMarkdown | src/application/service.py:17-19 | example: `<stem>.MD` is markdown |
| Service.DetectFormatOfName | src/application/service.py:16-24 | a stem and a suffix are classified by the lower-cased suffix alone |
| Service.DetectFormatIgnoresCase | src/application/service.py:17 | lower-casing the suffix does not change the classification |
| Service.HiddenFileUnsupported | src/application/service.py:17-24 | a hidden name such as `.md` is refused with an empty extension |
| Service.RenderDir | src/application/service.py:47-49 | the render directory is `dirname`, or `.` when the output path has no directory |
| Service.RequestFor | src/application/service.py:39-44 | the request carries the read content, the detected format and the clock reading, under the output path's slash-free basename |
| Service.ConversionService.constructor | src/application/service.py:11-14 | the service holds the given ports and no calls yet |
| Service.ConversionService.ConvertFile | src/application/service.py:26-62 | returns `Outcome`; the calls are `CallsOf`; the archiver's logs change only by its `archive` of this request and result |
| Service.Outcome | src/application/service.py:26-62 | what `convert_file` returns or raises; no ensures of its own, see `OutcomeCases`, `OutcomeWithPdfAdapter` and `ConversionService.ConvertFile` |
| Service.CallsOf | src/application/service.py:33-55 | the port calls `convert_file` makes; no ensures of its own, see `CallsOfShape` and `ConversionService.ConvertFile` |
| Service.OutcomeCases | src/application/service.py:26-62 | the read error, the format error or the conversion error is raised by the step that failed; success returns the renderer's path |
| Service.CallsOfShape | src/application/service.py:33-55 | read first and once; the renderer is called once exactly when read and format succeed; the archiver once after it, with the same request and result, exactly when there is one |
| Service.OutcomeWithPdfAdapter | src/application/service.py:51-62 | with the real renderer, success returns the absolute path of the normalised file name in the render directory |
| Api.ErrorReply | src/adapters/driving/api.py:223-237 | format errors become 400 with their text, conversion errors 500 with `PDF generation failed:`, others 500 |
| Api.Rejection | src/adapters/driving/api.py:165-192 | a refusal is a 400 or 413; none exactly for an allowed extension and a size in 1..10 MiB |
| Api.Validate | src/adapters/driving/api.py:165-192 | the validation steps answer `Rejection` |
| Api.SaveAndConvert | src/adapters/driving/api.py:197-237 | the conversion steps answer `ConvertedReply` |
| Api.DocumentReply | src/adapters/driving/api.py:147-237 | the single-upload answer and the removed files; no ensures of its own, see `ConvertDocument`, `ValidationOrder` and `ConversionReply` |
| Api.ConvertedReply | src/adapters/driving/api.py:196-237 | the answer once validation passed; no ensures of its own, see `SaveAndConvert`, `ConversionReply` and `AcceptedUploadIsDetected` |
| Api.ConvertDocument | src/adapters/driving/api.py:147-237 | the endpoint answers `DocumentReply` |
| Api.ValidationOrder | src/adapters/driving/api.py:169-192 | checks run extension, emptiness, size; none creates a file; 413 exactly for an allowed, oversized upload |
| Api.ConversionReply | src/adapters/driving/api.py:197-237 | past validation, both temporary files are removed on every path; success sends the PDF under `<stem>.pdf` |
| Api.AcceptedUploadIsDetected | src/adapters/driving/api.py:197-210 | an accepted upload's temporary file is never refused by the service's format detection |
| Api.AllowedShape | src/adapters/driving/api.py:169 | each accepted extension is a dot and a dot-free, slash-free word |
| Api.DownloadName | src/adapters/driving/api.py:200 | the download name is the upload's stem with `.pdf` |
| Api.EntryFor | src/adapters/driving/api.py:376-446 | an entry names its upload; it is skipped exactly when a check fails; it succeeded exactly when the checks pass and the service returned a path, and then names `<stem>.pdf` |
| Api.Successes | src/adapters/driving/api.py:448 | the success count is at most the number of entries |
| Api.CheckAndConvert | src/adapters/driving/api.py:377-446 | one pass updates the total by the counted size and yields `EntryFor` |
| Api.ConvertMultiple | src/adapters/driving/api.py:324-459 | too many or no files are rejected; otherwise one entry per upload in order, and the header counts successes over all uploads |
| Api.EarlierUploadCounts | src/adapters/driving/api.py:401-418 | an earlier counted upload, even a skipped oversized one, can push a later one over the request limit |
| Api.TotalUpTo | src/adapters/driving/api.py:401 | the running total after `n` uploads; no ensures of its own, see `TotalIncludesBoth`, `EarlierUploadCounts` and `AttemptedWithinLimits` |
| Api.TotalIncludesBoth | src/adapters/driving/api.py:401 | the running total includes every earlier counted upload |
| Api.AttemptedWithinLimits | src/adapters/driving/api.py:401-429 | the uploads handed to the service together stay within 50 MiB |
| Api.BulkEntryFor | src/adapters/driving/api.py:285-304 | an entry names the file; it succeeded exactly when the conversion did, and then has no error |
| Api.BulkEntries | src/adapters/driving/api.py:285-304 | one entry per file |
| Api.BulkEntriesAt | src/adapters/driving/api.py:285-304 | entry `j` is decided by file `j` alone |
| Api.BulkSuccesses | src/adapters/driving/api.py:297 | the success count is at most the number of entries |
| Api.BulkConvertOne | src/adapters/driving/api.py:286-304 | one pass yields `BulkEntryFor` |
| Api.BulkFiles | src/adapters/driving/api.py:270 | the markdown files of the input directory, then its text files; no ensures of its own, see `BulkConvert` and `FsAdapter.ListFilesMarkdownFirst` |
| Api.BulkConvert | src/adapters/driving/api.py:240-314 | nothing found says so; otherwise one entry per file in order, no stop at a failure, and successful plus failed equals processed |
| Cli.DefaultOutput | src/adapters/driving/cli.py:30-32 | the default output ends with `.pdf`, and what precedes `.pdf`, followed by the input's extension, is the input path |
| Cli.DefaultOutputBeside | src/adapters/driving/cli.py:30-32 | the default output lies in the input's directory; an input without extension gets `.pdf` appended |
| Cli.DefaultOutputOfName | src/adapters/driving/cli.py:30-32 | an input `d + stem + ext` with a real extension gets the default output `d + stem + ".pdf"` |
| Cli.DefaultOutputOfNotes | src/adapters/driving/cli.py:30-32 | example: `notes.md` gives the default output `notes.pdf` |
| Cli.DefaultOutputOfHiddenName | src/adapters/driving/cli.py:30-32 | example: the hidden `docs/.bashrc` gives `docs/.bashrc.pdf` |
| Cli.OutputPathFor | src/adapters/driving/cli.py:30-32 | a non-empty option is used as given, otherwise the default |
| Cli.Run | src/adapters/driving/cli.py:17-42 | what `convert` prints and its exit code; no ensures of its own, see `Convert`, `ExitCodeIff`, `ExistingInputIsFound` and `SuccessReportsRenderedPath` |
| Cli.Convert | src/adapters/driving/cli.py:17-42 | the command prints and exits as `Run`; a missing input calls nothing; no archiver is ever called |
| Cli.ExitCodeIff | src/adapters/driving/cli.py:25-42 | exit code 0 exactly when the input exists and the service returned a path; one or two lines are printed |
| Cli.ExistingInputIsFound | src/adapters/driving/cli.py:25-38 | once the input exists, the service never raises `FileNotFoundError` |
| Cli.SuccessReportsRenderedPath | src/adapters/driving/cli.py:38-39 | on success, the printed path is the render directory joined with the normalised file name, made absolute |
| ProcessLocal.OutcomeLine | scripts/process_local.py:44-47 | a file's outcome line is `Generated` exactly when its conversion succeeded |
| ProcessLocal.Reports | scripts/process_local.py:38-47 | two lines per file |
| ProcessLocal.ProcessOne | scripts/process_local.py:39-47 | one pass prints `Report` |
| ProcessLocal.ProcessFiles | scripts/process_local.py:16-47 | the script prints `Console` of the files found |
| ProcessLocal.ReportsAt | scripts/process_local.py:38-47 | file `k` gets lines `2k` and `2k+1` of the reports |
| ProcessLocal.Console | scripts/process_local.py:16-47 | everything `process_files` prints; no ensures of its own, see `ConsoleShape`, `ReportsAt`, `MarkdownFirst`, `NothingToDo` and `ProcessFiles` |
| ProcessLocal.ConsoleShape | scripts/process_local.py:36-47 | a header, then two lines per file: its name, then its PDF path or the error; no stop at a failure |
| ProcessLocal.MarkdownFirst | scripts/process_local.py:30 | all `.md` files come before all `.txt` files |
| ProcessLocal.NothingToDo | scripts/process_local.py:30-34 | with no matching entry, only the hint is printed |
| ProcessLocal.ReportNamesEntry | scripts/process_local.py:39-43 | a file is announced under its entry name, and its PDF is `<stem>.pdf` in `data/output` |

## Left out

- The exact HTML template and CSS, the markdown extensions, and the PDF library itself are parameters; only the body handed to them is modelled.
- `os.path.abspath` is modelled as a join onto the working directory; its `normpath` step (collapsing `..`, `.` and repeated slashes) is not modelled.
- Paths are POSIX `/`-strings. Windows separators are not modelled.
- `str.lower` is modelled on ASCII letters only, and the pattern's `\d` as ASCII digits; Unicode case mapping and Unicode digits are left out.
- `json.dumps` and the byte layout of a day-file line are not modelled; a record is modelled field by field.
- Timezones, daylight saving and the conversion of a wall-clock reading to epoch seconds are left out: the epoch seconds are a field of the clock reading.
- The directory creation (`mkdir`, `mkdtemp`) and the `mkstemp` call are not modelled, and neither are the 500 answers they lead to (`bulk_convert`'s and `convert_multiple_files`' outer handlers). Whether saving the single upload succeeded is a parameter.
- Writing each upload into the temporary directory (src/adapters/driving/api.py:426-427) and writing each PDF into the ZIP archive (src/adapters/driving/api.py:432) are folded into the conversion result: a failed write is a failed conversion, which gives an error entry, and a success is a written entry.
- `FileResponse`, background cleanup tasks and HTTP streaming are not modelled; the files scheduled for removal are returned as a list.
- Logging is left out; it changes no result.
- Terminal colours of the command line are left out; only the printed texts and the exit code are modelled.
- `process_local` prints are modelled as `Line` events, with `Text` giving each printed string.
- Api.ConvertMultiple, Api.BulkConvert, ProcessLocal.ProcessFiles: the service is a function from input and output path to the returned path or the raised error. Its archiver's day logs are not threaded through these loops; `Service.ConversionService.ConvertFile` states the archiver's effect of one call.
- Glob order is the order in which the directory lists its entries, which is a parameter; entries are plain names.
- `save_file` of the local file adapter is not called by the core and is not modelled.
- Model.OptionalText: states only the present-message case; the absent case prints `None`.
- Strings.Utf8Length: a `char` is a Unicode scalar value, so lone surrogates cannot occur in the model's strings; the error `.encode()` raises for them is not modelled.
