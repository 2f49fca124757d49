/** The parts of Python's path handling the service relies on, on POSIX
    `/`-separated strings: `pathlib.PurePath.name`, `.suffix` and `.stem`, and
    `os.path.basename`, `dirname`, `splitext`, `join` and `abspath`. */
module Paths {
  import opened Strings

  /** `s` holds no occurrence of `c`. */
  predicate NoChar(s: string, c: char) {
    forall i :: 0 <= i < |s| ==> s[i] != c
  }

  predicate AllSlashes(s: string) {
    forall i :: 0 <= i < |s| ==> s[i] == '/'
  }

  // ---------------------------------------------------------------------------
  // pathlib

  /** `PurePosixPath(p).name`: the last component that is neither empty nor
      `.`; `""` when there is none (for `""`, `"/"` or `"."`). */
  function Name(p: string): (r: string)
    ensures NoChar(r, '/') && r != "."
    decreases |p|
  {
    var i := LastIndex(p, '/');
    var component := p[i + 1..];
    if component != "" && component != "." then component
    else if i < 0 then ""
    else Name(p[..i])
  }

  /** A concatenation is free of `c` exactly when both parts are. */
  lemma NoCharConcat(a: string, b: string, c: char)
    ensures NoChar(a + b, c) <==> NoChar(a, c) && NoChar(b, c)
  {
    if NoChar(a, c) && NoChar(b, c) {
      forall i | 0 <= i < |a + b| ensures (a + b)[i] != c {
        if i >= |a| {
          assert (a + b)[i] == b[i - |a|];
        }
      }
    }
    if NoChar(a + b, c) {
      forall i | 0 <= i < |a| ensures a[i] != c {
        assert (a + b)[i] == a[i];
      }
      forall i | 0 <= i < |b| ensures b[i] != c {
        assert (a + b)[|a| + i] == b[i];
      }
    }
  }

  /** A path without slashes, other than `""` and `.`, is its own name. */
  lemma NameOfPlain(p: string)
    requires NoChar(p, '/') && p != "" && p != "."
    ensures Name(p) == p
  {
    assert LastIndex(p, '/') == -1;
  }

  /** Position of the dot that starts the suffix of a final component, or -1:
      the last dot, provided it is neither the first nor the last character. */
  function SuffixDot(name: string): (i: int)
    ensures i == -1 || (0 < i < |name| - 1 && name[i] == '.')
    ensures i >= 0 ==> NoChar(name[i + 1..], '.')
  {
    var i := LastIndex(name, '.');
    if 0 < i < |name| - 1 then i else -1
  }

  /** `PurePosixPath(p).suffix`: `""` or a dot followed by at least one
      character, none of them a dot or a slash. */
  function Suffix(p: string): (r: string)
    ensures r == "" || (|r| >= 2 && r[0] == '.' && NoChar(r[1..], '.') && NoChar(r, '/'))
    ensures EndsWith(Name(p), r)
  {
    var name := Name(p);
    var i := SuffixDot(name);
    if i < 0 then "" else name[i..]
  }

  /** `PurePosixPath(p).stem`: the final component without its suffix. */
  function Stem(p: string): (r: string)
    ensures NoChar(r, '/')
    ensures StartsWith(Name(p), r)
  {
    var name := Name(p);
    var i := SuffixDot(name);
    if i < 0 then name else name[..i]
  }

  /** The stem and the suffix together give back the final component. */
  lemma StemSuffix(p: string)
    ensures Stem(p) + Suffix(p) == Name(p)
  {
  }

  /** Suffix and stem depend on the final component alone. */
  lemma SameName(p: string, q: string)
    requires Name(p) == Name(q)
    ensures Suffix(p) == Suffix(q) && Stem(p) == Stem(q)
  {
  }

  /** A leading dot does not start a suffix: `.bashrc` has none. */
  lemma LeadingDotNoSuffix(name: string)
    requires NoChar(name, '/') && |name| >= 2 && name[0] == '.' && NoChar(name[1..], '.')
    ensures Suffix(name) == "" && Stem(name) == name
  {
    assert Name(name) == name;
    var i := LastIndex(name, '.');
    assert forall j :: 1 <= j < |name| ==> name[j] == name[1..][j - 1];
    assert i == 0;
  }

  /** A non-empty stem followed by `ext`, a dot and dot-free characters,
      splits back into that stem and `ext`. */
  lemma SuffixOfPlainName(stem: string, ext: string)
    requires stem != "" && NoChar(stem, '/')
    requires |ext| >= 2 && ext[0] == '.' && NoChar(ext[1..], '.') && NoChar(ext, '/')
    ensures Suffix(stem + ext) == ext && Stem(stem + ext) == stem
  {
    var name := stem + ext;
    assert NoChar(name, '/') by {
      forall i | 0 <= i < |name| ensures name[i] != '/' {
        if i >= |stem| {
          assert name[i] == ext[i - |stem|];
        }
      }
    }
    assert name != ".";
    assert Name(name) == name;
    var i := LastIndex(name, '.');
    assert name[|stem|] == '.';
    assert forall j :: |stem| < j < |name| ==> name[j] == ext[1..][j - |stem| - 1];
    assert i == |stem|;
    assert name[i..] == ext && name[..i] == stem;
  }

  // ---------------------------------------------------------------------------
  // os.path

  /** `os.path.basename(p)`: what follows the last slash. */
  function Basename(p: string): (r: string)
    ensures NoChar(r, '/')
    ensures EndsWith(p, r)
    ensures NoChar(p, '/') ==> r == p
  {
    p[LastIndex(p, '/') + 1..]
  }

  /** `s.rstrip('/')`. */
  function StripTrailingSlashes(s: string): (r: string)
    ensures StartsWith(s, r)
    ensures r == [] || r[|r| - 1] != '/'
    ensures AllSlashes(s[|r|..])
    decreases |s|
  {
    if s != [] && s[|s| - 1] == '/' then StripTrailingSlashes(s[..|s| - 1]) else s
  }

  /** `os.path.dirname(p)`: everything before the last slash, with trailing
      slashes removed unless nothing but slashes is left. */
  function Dirname(p: string): (r: string)
    ensures StartsWith(p, r)
    ensures (r == "") == NoChar(p, '/')
  {
    var head := p[..LastIndex(p, '/') + 1];
    if head != "" && !AllSlashes(head) then StripTrailingSlashes(head) else head
  }

  /** `os.path.join(a, b)` for two components. */
  function Join(a: string, b: string): (r: string)
    ensures EndsWith(r, b)
    ensures StartsWith(b, "/") ==> r == b
  {
    if StartsWith(b, "/") then b
    else if a == "" || a[|a| - 1] == '/' then a + b
    else a + "/" + b
  }

  /** The last slash of `d + "/" + b` is the one `Join` inserted when `b` has none. */
  lemma LastSlashOfJoin(d: string, b: string)
    requires NoChar(b, '/')
    ensures LastIndex(d + "/" + b, '/') == |d|
  {
    LastIndexAppend(d + "/", b, '/');
  }

  /** `basename` and `dirname` undo `join` when the file name holds no slash
      and the directory does not end with one. */
  lemma JoinSplit(d: string, b: string)
    requires NoChar(b, '/')
    requires d == "" || d[|d| - 1] != '/'
    ensures Basename(Join(d, b)) == b
    ensures Dirname(Join(d, b)) == d
  {
    if d != "" {
      var s := d + "/" + b;
      assert !StartsWith(b, "/") by {
        if b != [] {
          assert b[..1][0] == b[0];
        }
      }
      assert Join(d, b) == s;
      LastSlashOfJoin(d, b);
      assert s[..|d| + 1] == d + "/";
      assert s[|d| + 1..] == b;
      assert !AllSlashes(d + "/") by {
        assert (d + "/")[|d| - 1] == d[|d| - 1];
      }
      assert StripTrailingSlashes(d + "/") == StripTrailingSlashes(d);
    }
  }

  /** A directory entry name: not empty, not `.` and free of slashes. */
  predicate PlainName(n: string) {
    n != "" && n != "." && NoChar(n, '/')
  }

  /** A slash-free stem with `.pdf` appended is a plain file name. */
  lemma PdfNameIsPlain(stem: string)
    requires NoChar(stem, '/')
    ensures PlainName(stem + ".pdf")
  {
    var pdf := stem + ".pdf";
    assert pdf[|pdf| - 1] == 'f';
    forall i | 0 <= i < |pdf| ensures pdf[i] != '/' {
      if i >= |stem| {
        assert pdf[i] == ".pdf"[i - |stem|];
      }
    }
  }

  /** Joining a plain name onto a directory makes it the final component. */
  lemma NameOfJoin(d: string, n: string)
    requires PlainName(n)
    ensures Name(Join(d, n)) == n
  {
    assert !StartsWith(n, "/") by {
      assert n[..1][0] == n[0];
    }
    if d == "" {
    } else if d[|d| - 1] == '/' {
      LastIndexAppend(d, n, '/');
      assert (d + n)[|d| + 1 - 1..] == n;
    } else {
      LastSlashOfJoin(d, n);
      assert (d + "/" + n)[|d| + 1..] == n;
    }
  }

  /** `os.path.abspath(p)` against the working directory `cwd`: `p` itself
      when it is absolute, otherwise `p` joined onto `cwd`. */
  function Abspath(cwd: string, p: string): (r: string)
    ensures EndsWith(r, p)
    ensures StartsWith(p, "/") ==> r == p
  {
    Join(cwd, p)
  }

  /** Result of `os.path.splitext`: `root + ext` is the original path. */
  datatype Split = Split(root: string, ext: string)

  /** Some character of `s[lo..hi]` is not a dot. */
  predicate HasNonDot(s: string, lo: int, hi: int)
    requires 0 <= lo <= hi <= |s|
  {
    exists k :: lo <= k < hi && s[k] != '.'
  }

  /** `os.path.splitext(p)`: splits at the last dot after the last slash,
      provided some character other than a dot precedes it in that
      component; otherwise the extension is empty. */
  function SplitExt(p: string): (r: Split)
    ensures r.root + r.ext == p
    ensures r.ext == "" || (r.ext[0] == '.' && NoChar(r.ext, '/') && NoChar(r.ext[1..], '.'))
  {
    var sep := LastIndex(p, '/');
    var dot := LastIndex(p, '.');
    if dot > sep && HasNonDot(p, sep + 1, dot) then Split(p[..dot], p[dot..])
    else Split(p, "")
  }

  /** A final component `stem + ext`, whose extension is a dot and no other
      dot and whose stem has some character other than a dot, splits off
      exactly `ext`. */
  lemma SplitExtOfName(d: string, stem: string, ext: string)
    requires d == "" || EndsWith(d, "/")
    requires NoChar(stem, '/') && HasNonDot(stem, 0, |stem|)
    requires |ext| >= 1 && ext[0] == '.' && NoChar(ext, '/') && NoChar(ext[1..], '.')
    ensures SplitExt(d + stem + ext) == Split(d + stem, ext)
  {
    var p := d + stem + ext;
    var dot := |d| + |stem|;
    assert p[dot] == '.';
    assert forall j :: dot < j < |p| ==> p[j] == ext[1..][j - dot - 1];
    assert LastIndex(p, '.') == dot;
    var sep := LastIndex(p, '/');
    assert forall j :: |d| <= j < |p| ==> p[j] != '/' by {
      forall j | |d| <= j < |p| ensures p[j] != '/' {
        if j < dot { assert p[j] == stem[j - |d|]; } else { assert p[j] == ext[j - dot]; }
      }
    }
    var k :| 0 <= k < |stem| && stem[k] != '.';
    assert p[|d| + k] == stem[k];
    assert HasNonDot(p, sep + 1, dot);
  }

  /** The converse: when every character of the final component before its
      last dot is a dot (a hidden name such as `.bashrc`, a name of dots
      only, or a name without a dot), nothing is split off. */
  lemma SplitExtOfDotLedName(d: string, dots: string, tail: string)
    requires d == "" || EndsWith(d, "/")
    requires forall i :: 0 <= i < |dots| ==> dots[i] == '.'
    requires NoChar(tail, '/') && NoChar(tail, '.')
    ensures SplitExt(d + dots + tail) == Split(d + dots + tail, "")
  {
    var p := d + dots + tail;
    var sep := LastIndex(p, '/');
    var dot := LastIndex(p, '.');
    assert forall j :: |d| <= j < |p| ==> p[j] != '/' by {
      forall j | |d| <= j < |p| ensures p[j] != '/' {
        if j < |d| + |dots| { assert p[j] == dots[j - |d|]; } else { assert p[j] == tail[j - |d| - |dots|]; }
      }
    }
    assert forall j :: |d| + |dots| <= j < |p| ==> p[j] != '.' by {
      forall j | |d| + |dots| <= j < |p| ensures p[j] != '.' {
        assert p[j] == tail[j - |d| - |dots|];
      }
    }
    if dot > sep {
      assert sep + 1 >= |d| - 1 + 1 by {
        if d != "" { assert p[|d| - 1] == '/'; }
      }
      assert dot < |d| + |dots|;
      forall k | sep + 1 <= k < dot ensures p[k] == '.' {
        assert p[k] == dots[k - |d|];
      }
    }
  }

  /** Replacing the extension keeps the path in the same directory. */
  lemma SplitExtSameDirectory(p: string, newExt: string)
    requires NoChar(newExt, '/')
    ensures Dirname(SplitExt(p).root + newExt) == Dirname(p)
  {
    var r := SplitExt(p);
    var q := r.root + newExt;
    LastIndexAppend(r.root, r.ext, '/');
    LastIndexAppend(r.root, newExt, '/');
    var i := LastIndex(p, '/');
    assert q[..i + 1] == r.root[..i + 1] == p[..i + 1];
  }
}
