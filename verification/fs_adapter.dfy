/** The local file-system adapter behind the file port: reading a text file,
    and listing the files of a directory that match a set of extensions. */
module FsAdapter {
  import opened Strings
  import opened Paths
  import opened Model

  /** What the disk holds at a path: a UTF-8 text file, or something that
      exists but cannot be read as one (a directory, undecodable bytes), with
      the text of the exception reading it raises. */
  datatype DiskEntry = TextFile(content: string) | Unreadable(message: string)

  /** `read_file(path)`: a missing path raises `FileNotFoundError` naming the
      path; an existing one yields its content or the reading error. */
  function ReadFile(disk: map<string, DiskEntry>, path: string): (r: Result<string, Error>)
    ensures path !in disk <==> r == Failure(FileNotFoundError("File not found: " + path))
    ensures r.Success? <==> path in disk && disk[path].TextFile?
    ensures r.Success? ==> r.value == disk[path].content
  {
    if path !in disk then Failure(FileNotFoundError("File not found: " + path))
    else match disk[path]
      case TextFile(content) => Success(content)
      case Unreadable(message) => Failure(OtherError(message))
  }

  /** `Path(dir).glob("*" + ext)` over the directory's entry names, in listing
      order: the entries whose names end with `ext` (case-sensitively), joined
      onto `dir`. */
  function Glob(dir: string, entries: seq<string>, ext: string): (r: seq<string>)
    ensures |r| <= |entries|
  {
    if entries == [] then []
    else
      var rest := Glob(dir, entries[..|entries| - 1], ext);
      var last := entries[|entries| - 1];
      if EndsWith(last, ext) then rest + [Join(dir, last)] else rest
  }

  /** Every path `Glob` yields is an entry of the listing that ends with the
      extension, joined onto the directory, and every such entry is there. */
  lemma {:induction false} GlobSelects(dir: string, entries: seq<string>, ext: string)
    ensures forall p :: p in Glob(dir, entries, ext) ==> exists n :: n in entries && EndsWith(n, ext) && p == Join(dir, n)
    ensures forall n :: n in entries && EndsWith(n, ext) ==> Join(dir, n) in Glob(dir, entries, ext)
    decreases |entries|
  {
    if entries != [] {
      var init := entries[..|entries| - 1];
      GlobSelects(dir, init, ext);
      assert entries == init + [entries[|entries| - 1]];
    }
  }

  /** Every path `Glob` yields ends with the extension. */
  lemma {:induction false} GlobEndsWith(dir: string, entries: seq<string>, ext: string)
    ensures forall p :: p in Glob(dir, entries, ext) ==> EndsWith(p, ext)
    decreases |entries|
  {
    if entries != [] {
      var init := entries[..|entries| - 1];
      var last := entries[|entries| - 1];
      GlobEndsWith(dir, init, ext);
      if EndsWith(last, ext) {
        EndsWithTrans(Join(dir, last), last, ext);
      }
    }
  }

  /** A listing with no name ending in the extension matches nothing. */
  lemma {:induction false} GlobNoMatch(dir: string, entries: seq<string>, ext: string)
    requires forall n :: n in entries ==> !EndsWith(n, ext)
    ensures Glob(dir, entries, ext) == []
    decreases |entries|
  {
    if entries != [] {
      var init := entries[..|entries| - 1];
      assert forall n :: n in init ==> n in entries;
      GlobNoMatch(dir, init, ext);
      assert entries[|entries| - 1] in entries;
    }
  }

  /** `list_files(directory, extensions)`: nothing when the directory does
      not exist; otherwise the matches of each extension in turn. */
  function ListFiles(dirExists: bool, dir: string, entries: seq<string>, exts: seq<string>): (r: seq<string>)
    ensures !dirExists ==> r == []
  {
    if !dirExists || exts == [] then []
    else Glob(dir, entries, exts[0]) + ListFiles(dirExists, dir, entries, exts[1..])
  }

  /** For the two extensions the service scans, all markdown files come
      first, then all text files. */
  lemma ListFilesMarkdownFirst(dir: string, entries: seq<string>)
    ensures ListFiles(true, dir, entries, [".md", ".txt"]) == Glob(dir, entries, ".md") + Glob(dir, entries, ".txt")
  {
    assert [".md", ".txt"][1..] == [".txt"];
    assert [".txt"][1..] == [];
    assert ListFiles(true, dir, entries, [".txt"]) == Glob(dir, entries, ".txt") + [];
  }

  /** A `.markdown` entry is not picked up by a `.md` glob. */
  lemma MarkdownLongSuffixNotListed(dir: string)
    ensures Glob(dir, ["a.markdown"], ".md") == []
  {
    assert !EndsWith("a.markdown", ".md");
  }
}
