/** The list-spacing pre-pass the renderer runs over markdown before handing it
    to the markdown library: two regular-expression substitutions that put a
    blank line between a line of text and a list that follows it directly.

    Each substitution is `re.sub(r'([^\n])\n(\s*M)', r'\1\n\n\2', text)`, with
    the marker `M` being `[*+-] ` (bullets) for the first and `\d+\. ` (ordered
    items) for the second. `re.sub` scans left to right and rewrites
    non-overlapping matches; `PassFrom` is that scan. */
module ListSpacing {
  import opened Strings

  datatype ListMarker = Bullet | Ordered

  predicate IsBulletChar(c: char) {
    c == '*' || c == '+' || c == '-'
  }

  predicate SpacesBetween(s: string, lo: int, hi: int)
    requires 0 <= lo <= hi <= |s|
  {
    forall k :: lo <= k < hi ==> IsSpace(s[k])
  }

  predicate DigitsBetween(s: string, lo: int, hi: int)
    requires 0 <= lo <= hi <= |s|
  {
    forall k :: lo <= k < hi ==> IsDigit(s[k])
  }

  // ---------------------------------------------------------------------------
  // What the pattern matches, stated as the regular expression reads

  /** The list marker `m` starts at position `q`. */
  predicate MarkerAt(s: string, q: int, m: ListMarker)
    requires 0 <= q <= |s|
  {
    match m
    case Bullet => q + 1 < |s| && IsBulletChar(s[q]) && s[q + 1] == ' '
    case Ordered =>
      exists d :: q < d && d + 1 < |s| && DigitsBetween(s, q, d) && s[d] == '.' && s[d + 1] == ' '
  }

  /** The pattern for marker `m` matches at position `p`: a character other
      than a newline, a newline, some whitespace, then the marker. */
  predicate MatchAt(s: string, p: int, m: ListMarker)
    requires 0 <= p
  {
    && p + 1 < |s| && s[p] != '\n' && s[p + 1] == '\n'
    && exists q :: p + 2 <= q <= |s| && SpacesBetween(s, p + 2, q) && MarkerAt(s, q, m)
  }

  // ---------------------------------------------------------------------------
  // How the matcher finds a match

  /** End of the longest whitespace run from `q` (greedy `\s*`). */
  function SpaceRunEnd(s: string, q: nat): (e: nat)
    requires q <= |s|
    ensures q <= e <= |s| && SpacesBetween(s, q, e)
    ensures e == |s| || !IsSpace(s[e])
    decreases |s| - q
  {
    if q < |s| && IsSpace(s[q]) then SpaceRunEnd(s, q + 1) else q
  }

  /** End of the longest digit run from `q` (greedy `\d+`). */
  function DigitRunEnd(s: string, q: nat): (e: nat)
    requires q <= |s|
    ensures q <= e <= |s| && DigitsBetween(s, q, e)
    ensures e == |s| || !IsDigit(s[e])
    decreases |s| - q
  {
    if q < |s| && IsDigit(s[q]) then DigitRunEnd(s, q + 1) else q
  }

  /** End of the marker `m` that starts at `q`, or -1. */
  function MarkerEnd(s: string, q: nat, m: ListMarker): (e: int)
    requires q <= |s|
    ensures e == -1 || q + 2 <= e <= |s|
  {
    match m
    case Bullet =>
      if q + 1 < |s| && IsBulletChar(s[q]) && s[q + 1] == ' ' then q + 2 else -1
    case Ordered =>
      var d := DigitRunEnd(s, q);
      if q < d && d + 1 < |s| && s[d] == '.' && s[d + 1] == ' ' then d + 2 else -1
  }

  /** End of the match at `p`, or -1 when the pattern does not match there. */
  function MatchEnd(s: string, p: nat, m: ListMarker): (e: int)
    ensures e == -1 || p + 4 <= e <= |s|
  {
    if p + 1 < |s| && s[p] != '\n' && s[p + 1] == '\n' then
      MarkerEnd(s, SpaceRunEnd(s, p + 2), m)
    else -1
  }

  /** A marker does not start with whitespace. */
  lemma MarkerNotSpace(s: string, q: int, m: ListMarker)
    requires 0 <= q <= |s| && MarkerAt(s, q, m)
    ensures q < |s| && !IsSpace(s[q])
  {
    MarkerFirstChar(s, q, m);
    MarkerCharNotSpace(s[q]);
  }

  /** A marker starts with a digit or a bullet character. */
  lemma MarkerFirstChar(s: string, q: int, m: ListMarker)
    requires 0 <= q <= |s| && MarkerAt(s, q, m)
    ensures q < |s| && (IsDigit(s[q]) || IsBulletChar(s[q]))
  {
    if m == Ordered {
      var d :| q < d && d + 1 < |s| && DigitsBetween(s, q, d) && s[d] == '.' && s[d + 1] == ' ';
      assert IsDigit(s[q]);
    }
  }

  /** Digits and bullet characters are not whitespace. */
  lemma MarkerCharNotSpace(c: char)
    requires IsDigit(c) || IsBulletChar(c)
    ensures !IsSpace(c)
  {
  }

  /** The greedy search finds the marker exactly when one is there. */
  lemma MarkerEndFinds(s: string, q: nat, m: ListMarker)
    requires q <= |s|
    ensures MarkerEnd(s, q, m) >= 0 <==> MarkerAt(s, q, m)
  {
    if MarkerAt(s, q, m) {
      MarkerEndComplete(s, q, m);
    }
    if MarkerEnd(s, q, m) >= 0 {
      MarkerEndSound(s, q, m);
    }
  }

  /** A marker that is there is found. */
  lemma MarkerEndComplete(s: string, q: nat, m: ListMarker)
    requires q <= |s| && MarkerAt(s, q, m)
    ensures MarkerEnd(s, q, m) >= 0
  {
    if m == Ordered {
      var d :| q < d && d + 1 < |s| && DigitsBetween(s, q, d) && s[d] == '.' && s[d + 1] == ' ';
      DigitRunEndUnique(s, q, d, DigitRunEnd(s, q));
    }
  }

  /** A marker that is found is there. */
  lemma MarkerEndSound(s: string, q: nat, m: ListMarker)
    requires q <= |s| && MarkerEnd(s, q, m) >= 0
    ensures MarkerAt(s, q, m)
  {
    if m == Ordered {
      OrderedMarkerFound(s, q, DigitRunEnd(s, q));
    }
  }

  /** A digit run from `q` ending before a non-digit ends where the greedy
      run does. */
  lemma DigitRunEndUnique(s: string, q: int, d: int, e: int)
    requires 0 <= q <= d < |s| && DigitsBetween(s, q, d) && !IsDigit(s[d])
    requires q <= e <= |s| && DigitsBetween(s, q, e) && (e == |s| || !IsDigit(s[e]))
    ensures d == e
  {
  }

  /** Digits up to `e` followed by `. ` are an ordered marker. */
  lemma OrderedMarkerFound(s: string, q: int, e: int)
    requires 0 <= q < e && e + 1 < |s| && DigitsBetween(s, q, e) && s[e] == '.' && s[e + 1] == ' '
    ensures MarkerAt(s, q, Ordered)
  {
  }

  /** The greedy matcher agrees with the pattern: it finds a match at `p`
      exactly when the pattern matches there. */
  lemma MatchEndFinds(s: string, p: nat, m: ListMarker)
    ensures MatchEnd(s, p, m) >= 0 <==> MatchAt(s, p, m)
  {
    if p + 1 < |s| && s[p] != '\n' && s[p + 1] == '\n' {
      var e := SpaceRunEnd(s, p + 2);
      MarkerEndFinds(s, e, m);
      if MatchAt(s, p, m) {
        var q :| p + 2 <= q <= |s| && SpacesBetween(s, p + 2, q) && MarkerAt(s, q, m);
        MarkerNotSpace(s, q, m);
        assert q == e;
      }
    }
  }

  // ---------------------------------------------------------------------------
  // The substitution

  /** `re.sub` from position `p` on: at a match, keep its first two
      characters, add a newline, keep the rest of the match, and go on after
      it; elsewhere copy one character and move on. */
  function PassFrom(s: string, p: nat, m: ListMarker): (r: string)
    requires p <= |s|
    ensures |r| >= |s| - p
    decreases |s| - p
  {
    if p == |s| then []
    else
      var e := MatchEnd(s, p, m);
      if e >= 0 then s[p..p + 2] + "\n" + s[p + 2..e] + PassFrom(s, e, m)
      else [s[p]] + PassFrom(s, p + 1, m)
  }

  /** One substitution over the whole text. */
  function Pass(s: string, m: ListMarker): string {
    PassFrom(s, 0, m)
  }

  /** `_preprocess_markdown`: the bullet pass, then the ordered pass on its output. */
  function Preprocess(text: string): string {
    Pass(Pass(text, Bullet), Ordered)
  }

  // ---------------------------------------------------------------------------
  // Only newlines are inserted

  /** `r` is `s` with some newline characters inserted: deleting them from
      `r` gives back `s`. */
  predicate NewlinesInserted(s: string, r: string)
    decreases |r|
  {
    if r == [] then s == []
    else
      || (s != [] && r[0] == s[0] && NewlinesInserted(s[1..], r[1..]))
      || (r[0] == '\n' && NewlinesInserted(s, r[1..]))
  }

  lemma {:induction false} NewlinesInsertedRefl(s: string)
    ensures NewlinesInserted(s, s)
    decreases |s|
  {
    if s != [] {
      NewlinesInsertedRefl(s[1..]);
    }
  }

  lemma {:induction false} NewlinesInsertedAppend(a: string, b: string, c: string, d: string)
    requires NewlinesInserted(a, b) && NewlinesInserted(c, d)
    ensures NewlinesInserted(a + c, b + d)
    decreases |b|
  {
    if b == [] {
      assert a + c == c && b + d == d;
    } else {
      assert (b + d)[0] == b[0] && (b + d)[1..] == b[1..] + d;
      if a != [] && b[0] == a[0] && NewlinesInserted(a[1..], b[1..]) {
        NewlinesInsertedAppend(a[1..], b[1..], c, d);
        assert (a + c)[0] == a[0] && (a + c)[1..] == a[1..] + c;
      } else {
        NewlinesInsertedAppend(a, b[1..], c, d);
      }
    }
  }

  lemma {:induction false} NewlinesInsertedTrans(a: string, b: string, c: string)
    requires NewlinesInserted(a, b) && NewlinesInserted(b, c)
    ensures NewlinesInserted(a, c)
    decreases |c|
  {
    if c != [] {
      if b != [] && c[0] == b[0] && NewlinesInserted(b[1..], c[1..]) {
        if a != [] && b[0] == a[0] && NewlinesInserted(a[1..], b[1..]) {
          NewlinesInsertedTrans(a[1..], b[1..], c[1..]);
        } else {
          NewlinesInsertedTrans(a, b[1..], c[1..]);
        }
      } else {
        NewlinesInsertedTrans(a, b, c[1..]);
      }
    }
  }

  /** One match rewritten: its text with a newline after its first two characters. */
  lemma MatchRewriteInserts(s: string, p: nat, e: nat)
    requires p + 2 <= e <= |s|
    ensures NewlinesInserted(s[p..e], s[p..p + 2] + "\n" + s[p + 2..e])
  {
    NewlinesInsertedRefl(s[p..p + 2]);
    NewlinesInsertedRefl(s[p + 2..e]);
    assert NewlinesInserted("", "\n");
    NewlinesInsertedAppend(s[p..p + 2], s[p..p + 2], "", "\n");
    assert s[p..p + 2] + "" == s[p..p + 2];
    NewlinesInsertedAppend(s[p..p + 2], s[p..p + 2] + "\n", s[p + 2..e], s[p + 2..e]);
    assert s[p..p + 2] + s[p + 2..e] == s[p..e];
  }

  lemma {:induction false} PassFromInserts(s: string, p: nat, m: ListMarker)
    requires p <= |s|
    ensures NewlinesInserted(s[p..], PassFrom(s, p, m))
    decreases |s| - p
  {
    if p < |s| {
      var e := MatchEnd(s, p, m);
      if e >= 0 {
        PassFromInserts(s, e, m);
        MatchRewriteInserts(s, p, e);
        NewlinesInsertedAppend(s[p..e], s[p..p + 2] + "\n" + s[p + 2..e], s[e..], PassFrom(s, e, m));
        assert s[p..e] + s[e..] == s[p..];
      } else {
        PassFromInserts(s, p + 1, m);
        NewlinesInsertedRefl([s[p]]);
        NewlinesInsertedAppend([s[p]], [s[p]], s[p + 1..], PassFrom(s, p + 1, m));
        assert [s[p]] + s[p + 1..] == s[p..];
      }
    }
  }

  /** Preprocessing only inserts newline characters. */
  lemma PreprocessInsertsNewlines(text: string)
    ensures NewlinesInserted(text, Preprocess(text))
  {
    var once := Pass(text, Bullet);
    PassFromInserts(text, 0, Bullet);
    PassFromInserts(once, 0, Ordered);
    assert text[0..] == text && once[0..] == once;
    NewlinesInsertedTrans(text, once, Preprocess(text));
  }

  // ---------------------------------------------------------------------------
  // When the text changes

  predicate NoMatchFrom(s: string, p: nat, m: ListMarker) {
    forall k :: p <= k < |s| ==> !MatchAt(s, k, m)
  }

  lemma {:induction false} PassFromWithoutMatch(s: string, p: nat, m: ListMarker)
    requires p <= |s| && NoMatchFrom(s, p, m)
    ensures PassFrom(s, p, m) == s[p..]
    decreases |s| - p
  {
    if p < |s| {
      MatchEndFinds(s, p, m);
      PassFromWithoutMatch(s, p + 1, m);
      assert [s[p]] + s[p + 1..] == s[p..];
    }
  }

  lemma {:induction false} PassFromWithMatch(s: string, p: nat, k: nat, m: ListMarker)
    requires p <= k < |s| && MatchEnd(s, k, m) >= 0
    ensures |PassFrom(s, p, m)| > |s| - p
    decreases k - p
  {
    if MatchEnd(s, p, m) < 0 {
      PassFromWithMatch(s, p + 1, k, m);
    }
  }

  /** A pass leaves the text unchanged exactly when its pattern matches nowhere. */
  lemma PassUnchangedIffNoMatch(s: string, m: ListMarker)
    ensures Pass(s, m) == s <==> NoMatchFrom(s, 0, m)
  {
    if NoMatchFrom(s, 0, m) {
      PassFromWithoutMatch(s, 0, m);
      assert s[0..] == s;
    } else {
      var k :| 0 <= k < |s| && MatchAt(s, k, m);
      MatchEndFinds(s, k, m);
      PassFromWithMatch(s, 0, k, m);
    }
  }

  /** Text without a newline comes through preprocessing unchanged. */
  lemma PreprocessWithoutNewline(text: string)
    requires forall i :: 0 <= i < |text| ==> text[i] != '\n'
    ensures Preprocess(text) == text
  {
    assert NoMatchFrom(text, 0, Bullet);
    PassUnchangedIffNoMatch(text, Bullet);
    assert NoMatchFrom(text, 0, Ordered);
    PassUnchangedIffNoMatch(text, Ordered);
  }

  // ---------------------------------------------------------------------------
  // Examples

  /** A bullet list right after a line of text gets a blank line before it. */
  lemma BulletAfterText()
    ensures Preprocess("a\n- b") == "a\n\n- b"
  {
    var s := "a\n- b";
    assert MatchEnd(s, 0, Bullet) == 4;
    assert Pass(s, Bullet) == "a\n\n- b";
  }

  /** The same for an ordered list. */
  lemma OrderedAfterText()
    ensures Preprocess("a\n1. b") == "a\n\n1. b"
  {
    var s := "a\n1. b";
    assert Pass(s, Bullet) == s;
    assert MatchEnd(s, 0, Ordered) == 5;
  }

  /** `\s*` also matches newlines, so a list that already has a blank line
      before it gets another one; preprocessing twice differs from once. */
  lemma NotIdempotent()
    ensures Preprocess("a\n\n- b") == "a\n\n\n- b"
    ensures Preprocess(Preprocess("a\n\n- b")) != Preprocess("a\n\n- b")
  {
    var s := "a\n\n- b";
    assert MatchEnd(s, 0, Bullet) == 5;
    assert Pass(s, Bullet) == "a\n\n\n- b";
    var t := "a\n\n\n- b";
    assert MatchEnd(t, 0, Bullet) == 6;
    assert |Pass(t, Bullet)| > |t|;
  }
}
