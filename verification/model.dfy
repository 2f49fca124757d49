/** The domain values of the service: the two source formats, a conversion
    request, a conversion result, the domain errors, and the timestamps they
    carry. */
module Model {
  import opened Strings

  datatype Option<T> = None | Some(value: T)

  datatype Result<T, E> = Success(value: T) | Failure(error: E) {
    predicate IsFailure() {
      Failure?
    }
  }

  /** The source formats the service accepts. */
  datatype SourceFormat = Markdown | Text {
    /** The enum's string value. */
    function Value(): (v: string)
      ensures v == "md" || v == "txt"
    {
      match this
      case Markdown => "md"
      case Text => "txt"
    }
  }

  /** The format whose value is `v`, if there is one. */
  function FormatOfValue(v: string): (r: Option<SourceFormat>)
    ensures r.Some? <==> v == "md" || v == "txt"
  {
    if v == "md" then Some(Markdown)
    else if v == "txt" then Some(Text)
    else None
  }

  /** The two values are distinct and name their formats. */
  lemma FormatValueRoundTrip(f: SourceFormat)
    ensures FormatOfValue(f.Value()) == Some(f)
    ensures forall g: SourceFormat :: g.Value() == f.Value() ==> g == f
  {
  }

  /** A local wall-clock reading, together with the whole number of seconds
      since the epoch that `int(dt.timestamp())` yields for it. */
  datatype DateTime = DateTime(
    year: nat, month: nat, day: nat,
    hour: nat, minute: nat, second: nat, microsecond: nat,
    epochSeconds: int)
  {
    /** Field ranges of `datetime`, with four-digit years. */
    predicate Valid() {
      1000 <= year <= 9999 && 1 <= month <= 12 && 1 <= day <= 31
      && hour < 24 && minute < 60 && second < 60 && microsecond < 1000000
    }
  }

  /** What the service hands to the renderer. */
  datatype ConversionRequest = ConversionRequest(
    content: string,
    sourceFormat: SourceFormat,
    outputFilename: string,
    createdAt: DateTime)

  /** What the renderer reports back. */
  datatype ConversionResult = ConversionResult(
    filePath: string,
    sizeBytes: nat,
    success: bool,
    createdAt: DateTime,
    errorMessage: Option<string>)

  /** A request built without an explicit time takes the time of construction. */
  function NewRequest(content: string, format: SourceFormat, outputFilename: string, now: DateTime): (r: ConversionRequest)
    ensures r.content == content && r.sourceFormat == format
    ensures r.outputFilename == outputFilename && r.createdAt == now
  {
    ConversionRequest(content, format, outputFilename, now)
  }

  /** A result built without a time or an error message takes the time of
      construction and no message. */
  function NewResult(filePath: string, sizeBytes: nat, success: bool, now: DateTime): (r: ConversionResult)
    ensures r.filePath == filePath && r.sizeBytes == sizeBytes && r.success == success
    ensures r.createdAt == now && r.errorMessage == None
  {
    ConversionResult(filePath, sizeBytes, success, now, None)
  }

  /** The domain errors, plus the built-in ones that cross the service
      boundary; each carries its `str()`. */
  datatype Error =
    | UnsupportedFormatError(message: string)
    | ConversionError(message: string)
    | FileAccessError(message: string)
    | FileNotFoundError(message: string)
    | OtherError(message: string)

  /** Python's `str()` of an optional message: `None` prints as `"None"`. */
  function OptionalText(m: Option<string>): (r: string)
    ensures m.Some? ==> r == m.value
  {
    match m
    case None => "None"
    case Some(s) => s
  }
}
