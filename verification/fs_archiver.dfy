/** The history archiver: for every conversion it appends one metadata record
    (no file copies) to the log file of the current day, and it never lets a
    failure escape. */
module Archiver {
  import opened Strings
  import opened Paths
  import opened Model

  // ---------------------------------------------------------------------------
  // Timestamp formats

  /** `strftime('%Y%m%d_%H%M%S')`. */
  function CompactStamp(t: DateTime): string {
    Pad(t.year, 4) + Pad(t.month, 2) + Pad(t.day, 2) + "_" + Pad(t.hour, 2) + Pad(t.minute, 2) + Pad(t.second, 2)
  }

  /** `strftime('%Y-%m-%d')`. */
  function DateText(t: DateTime): string {
    Pad(t.year, 4) + "-" + Pad(t.month, 2) + "-" + Pad(t.day, 2)
  }

  /** `strftime('%H:%M:%S')`. */
  function TimeText(t: DateTime): string {
    Pad(t.hour, 2) + ":" + Pad(t.minute, 2) + ":" + Pad(t.second, 2)
  }

  /** `isoformat()`: date, `T`, time, and the microseconds only when non-zero. */
  function IsoFormat(t: DateTime): string {
    DateText(t) + "T" + TimeText(t) + (if t.microsecond == 0 then "" else "." + Pad(t.microsecond, 6))
  }

  // ---------------------------------------------------------------------------
  // The record

  /** One line of the day log, field for field. */
  datatype ArchiveRecord = ArchiveRecord(
    runId: string,
    timestamp: string,
    date: string,
    time: string,
    originalFilename: string,
    sourceFormat: string,
    inputSizeBytes: nat,
    outputSizeBytes: nat,
    contentHash: string,
    success: bool,
    error: Option<string>,
    wordCount: nat,
    lineCount: nat,
    charCount: nat)

  /** The hex digest of the UTF-8 bytes of the content. */
  function ContentHash(sha256: seq<byte> -> string, content: string): string {
    sha256(Utf8Encode(content))
  }

  /** The run id: the compact timestamp, `_`, and the first eight characters
      of the content hash. */
  function RunId(t: DateTime, hash: string): string {
    CompactStamp(t) + "_" + Take(hash, 8)
  }

  /** The record `archive` writes for `request` and `result` at time `now`. */
  function MakeRecord(sha256: seq<byte> -> string, request: ConversionRequest, result: ConversionResult, now: DateTime): (r: ArchiveRecord)
    ensures r.originalFilename == request.outputFilename
    ensures r.sourceFormat == request.sourceFormat.Value() && (r.sourceFormat == "md" || r.sourceFormat == "txt")
    ensures r.outputSizeBytes == result.sizeBytes && r.success == result.success && r.error == result.errorMessage
    ensures r.contentHash == sha256(Utf8Encode(request.content))
    ensures r.charCount == |request.content| && r.inputSizeBytes == |Utf8Encode(request.content)|
    ensures r.wordCount == |Words(request.content)| && r.lineCount == |Lines(request.content)|
  {
    var hash := ContentHash(sha256, request.content);
    ArchiveRecord(
      RunId(now, hash),
      IsoFormat(now),
      DateText(now),
      TimeText(now),
      request.outputFilename,
      request.sourceFormat.Value(),
      |Utf8Encode(request.content)|,
      result.sizeBytes,
      hash,
      result.success,
      result.errorMessage,
      |Words(request.content)|,
      |Lines(request.content)|,
      |request.content|)
  }

  /** Widths of the padded fields of a valid timestamp. */
  lemma PaddedWidths(t: DateTime)
    requires t.Valid()
    ensures |Pad(t.year, 4)| == 4 && |Pad(t.month, 2)| == 2 && |Pad(t.day, 2)| == 2
    ensures |Pad(t.hour, 2)| == 2 && |Pad(t.minute, 2)| == 2 && |Pad(t.second, 2)| == 2
  {
    assert Pow10(4) == 10000 && Pow10(2) == 100;
  }

  /** Where the fields sit in the three formats, for fields of the widths
      `%Y`, `%m`, `%d`, `%H`, `%M` and `%S` produce. */
  lemma StampLayout(y: string, mo: string, d: string, h: string, mi: string, s: string, tail: string)
    requires |y| == 4 && |mo| == 2 && |d| == 2 && |h| == 2 && |mi| == 2 && |s| == 2
    ensures var id := y + mo + d + "_" + h + mi + s + "_" + tail;
      var date := y + "-" + mo + "-" + d;
      var time := h + ":" + mi + ":" + s;
      && |id| == 16 + |tail|
      && id[..4] == date[..4] && id[4..6] == date[5..7] && id[6..8] == date[8..10]
      && id[8] == '_'
      && id[9..11] == time[..2] && id[11..13] == time[3..5] && id[13..15] == time[6..8]
      && id[15] == '_' && id[16..] == tail
  {
  }

  /** The run id has 24 characters when the digest has at least eight, and its
      date and time digits are those of the record's `date` and `time` fields
      (one clock reading feeds all three). */
  lemma RunIdAgreesWithDate(sha256: seq<byte> -> string, request: ConversionRequest, result: ConversionResult, now: DateTime)
    requires now.Valid()
    ensures var r := MakeRecord(sha256, request, result, now);
      && |r.runId| == 16 + |Take(r.contentHash, 8)|
      && r.runId[..4] == r.date[..4] && r.runId[4..6] == r.date[5..7] && r.runId[6..8] == r.date[8..10]
      && r.runId[8] == '_'
      && r.runId[9..11] == r.time[..2] && r.runId[11..13] == r.time[3..5] && r.runId[13..15] == r.time[6..8]
      && r.runId[15] == '_' && r.runId[16..] == Take(r.contentHash, 8)
  {
    PaddedWidths(now);
    var hash := ContentHash(sha256, request.content);
    StampLayout(Pad(now.year, 4), Pad(now.month, 2), Pad(now.day, 2),
                Pad(now.hour, 2), Pad(now.minute, 2), Pad(now.second, 2), Take(hash, 8));
  }

  /** The ISO timestamp begins with the record's date and time. */
  lemma TimestampAgreesWithDate(sha256: seq<byte> -> string, request: ConversionRequest, result: ConversionResult, now: DateTime)
    requires now.Valid()
    ensures var r := MakeRecord(sha256, request, result, now);
      StartsWith(r.timestamp, r.date) && r.timestamp[10] == 'T' && r.timestamp[11..19] == r.time
  {
    PaddedWidths(now);
    var tail := if now.microsecond == 0 then "" else "." + Pad(now.microsecond, 6);
    IsoLayout(DateText(now), TimeText(now), tail);
    assert IsoFormat(now) == DateText(now) + "T" + TimeText(now) + tail;
  }

  /** Where the date and the time sit in an ISO timestamp. */
  lemma IsoLayout(date: string, time: string, tail: string)
    requires |date| == 10 && |time| == 8
    ensures var stamp := date + "T" + time + tail;
      StartsWith(stamp, date) && stamp[10] == 'T' && stamp[11..19] == time
  {
    var stamp := date + "T" + time + tail;
    assert stamp[..10] == date;
  }

  /** The byte count is at least the character count and at most four times
      it; the two agree for ASCII content. */
  lemma InputSizeBounds(sha256: seq<byte> -> string, request: ConversionRequest, result: ConversionResult, now: DateTime)
    ensures var r := MakeRecord(sha256, request, result, now);
      && r.charCount <= r.inputSizeBytes <= 4 * r.charCount
      && ((forall i :: 0 <= i < |request.content| ==> request.content[i] as int < 0x80) ==> r.inputSizeBytes == r.charCount)
  {
    Utf8Length(request.content);
    if forall i :: 0 <= i < |request.content| ==> request.content[i] as int < 0x80 {
      Utf8LengthAscii(request.content);
    }
  }

  /** No words exactly when the content is blank; empty content has no words,
      no lines and no characters. */
  lemma CountsOfBlankContent(sha256: seq<byte> -> string, request: ConversionRequest, result: ConversionResult, now: DateTime)
    ensures var r := MakeRecord(sha256, request, result, now);
      && (r.wordCount == 0 <==> Blank(request.content))
      && (request.content == "" ==> r.wordCount == 0 && r.lineCount == 0 && r.charCount == 0 && r.inputSizeBytes == 0)
  {
    WordsEmptyIffBlank(request.content);
  }

  /** The word count is the number of positions of the content that begin a
      run of non-whitespace. */
  lemma RecordWordCount(sha256: seq<byte> -> string, request: ConversionRequest, result: ConversionResult, now: DateTime)
    ensures MakeRecord(sha256, request, result, now).wordCount == StartsFrom(request.content, 0)
  {
    WordCount(request.content);
  }

  // ---------------------------------------------------------------------------
  // The archiver and its day logs

  /** `metadata/<YYYY-MM-DD>.jsonl` under the archive directory. */
  function DayFile(metaDir: string, t: DateTime): (path: string)
    ensures EndsWith(path, DateText(t) + ".jsonl")
  {
    Join(metaDir, DateText(t) + ".jsonl")
  }

  /** The records already in a day file (none if it does not exist). */
  function LogOf(days: map<string, seq<ArchiveRecord>>, path: string): seq<ArchiveRecord> {
    if path in days then days[path] else []
  }

  /** The day logs after one `archive` call: with the day file appendable,
      the new record is added at its end; otherwise nothing changes. */
  function AfterArchive(days: map<string, seq<ArchiveRecord>>, metaDir: string, sha256: seq<byte> -> string,
                        request: ConversionRequest, result: ConversionResult, now: DateTime, appendable: bool): map<string, seq<ArchiveRecord>>
  {
    var path := DayFile(metaDir, now);
    if appendable then days[path := LogOf(days, path) + [MakeRecord(sha256, request, result, now)]] else days
  }

  class FileSystemArchiver {
    const archiveDir: string
    const metaDir: string
    /** The SHA-256 hex digest function. */
    const sha256: seq<byte> -> string
    /** Every day file and the records it holds, in append order. */
    var days: map<string, seq<ArchiveRecord>>

    /** An archiver over `archiveDir`, whose metadata directory already holds
        the day files in `existing`. */
    constructor (archiveDir: string, sha256: seq<byte> -> string, existing: map<string, seq<ArchiveRecord>>)
      ensures this.archiveDir == archiveDir && metaDir == Join(archiveDir, "metadata")
      ensures this.sha256 == sha256 && days == existing
    {
      this.archiveDir := archiveDir;
      this.metaDir := Join(archiveDir, "metadata");
      this.sha256 := sha256;
      days := existing;
    }

    /** `archive(request, result)` with the clock reading `now`; `appendable`
        says whether the day file could be opened for appending. Either one
        record is appended to that day's file and every other file is left
        alone, or, on failure, nothing changes; nothing is raised. */
    method Archive(request: ConversionRequest, result: ConversionResult, now: DateTime, appendable: bool)
      modifies this
      ensures days == AfterArchive(old(days), metaDir, sha256, request, result, now, appendable)
    {
      var record := MakeRecord(sha256, request, result, now);
      var dailyFile := DayFile(metaDir, now);
      if appendable {
        days := days[dailyFile := LogOf(days, dailyFile) + [record]];
      }
    }
  }

  /** What one `archive` does to the logs: the day file of `now` grows by
      exactly the new record at its end, or, when it cannot be appended to,
      stays as it was; earlier records and other files are untouched. */
  lemma AppendOnly(days: map<string, seq<ArchiveRecord>>, metaDir: string, sha256: seq<byte> -> string,
                   request: ConversionRequest, result: ConversionResult, now: DateTime, appendable: bool, other: string)
    ensures var after := AfterArchive(days, metaDir, sha256, request, result, now, appendable);
      var path := DayFile(metaDir, now);
      var n := |LogOf(days, path)|;
      && |LogOf(after, path)| == n + (if appendable then 1 else 0)
      && LogOf(after, path)[..n] == LogOf(days, path)
      && (appendable ==> LogOf(after, path)[n] == MakeRecord(sha256, request, result, now))
      && (other != path ==> LogOf(after, other) == LogOf(days, other))
  {
  }
}
