/** Text helpers with the meaning Python's `str` methods give them: character
    classes, prefixes and suffixes, ASCII lower-casing, decimal formatting,
    UTF-8 encoding, and the `split()` / `splitlines()` decompositions. */
module Strings {

  type byte = b: int | 0 <= b < 256

  /** Python's `str.isspace()`; `str.split()` and the `\s` class of `re` on
      `str` patterns use the same set. */
  predicate IsSpace(c: char) {
    || c == ' '
    || ('\t' <= c <= '\r')
    || ('\U{1C}' <= c <= '\U{1F}')
    || c == '\U{85}' || c == '\U{A0}' || c == '\U{1680}'
    || ('\U{2000}' <= c <= '\U{200A}')
    || c == '\U{2028}' || c == '\U{2029}' || c == '\U{202F}' || c == '\U{205F}' || c == '\U{3000}'
  }

  /** The line boundaries of Python's `str.splitlines()`. */
  predicate IsLineBreak(c: char) {
    || c == '\n' || c == '\r' || c == '\U{0B}' || c == '\U{0C}'
    || c == '\U{1C}' || c == '\U{1D}' || c == '\U{1E}'
    || c == '\U{85}' || c == '\U{2028}' || c == '\U{2029}'
  }

  predicate IsDigit(c: char) {
    '0' <= c <= '9'
  }

  predicate AllDigits(s: string) {
    forall i :: 0 <= i < |s| ==> IsDigit(s[i])
  }

  predicate StartsWith(s: string, prefix: string) {
    |prefix| <= |s| && s[..|prefix|] == prefix
  }

  predicate EndsWith(s: string, suffix: string) {
    |suffix| <= |s| && s[|s| - |suffix|..] == suffix
  }

  /** A suffix of a suffix is a suffix. */
  lemma EndsWithTrans(a: string, b: string, c: string)
    requires EndsWith(a, b) && EndsWith(b, c)
    ensures EndsWith(a, c)
  {
    assert a[|a| - |c|..] == a[|a| - |b|..][|b| - |c|..];
  }

  /** Python's `s[:n]`: the first `n` characters, or all of `s` if it is shorter. */
  function Take(s: string, n: nat): (r: string)
    ensures |r| == if n <= |s| then n else |s|
    ensures StartsWith(s, r)
  {
    if n <= |s| then s[..n] else s
  }

  /** Index of the last occurrence of `c` in `s`, or -1 (Python's `rfind`). */
  function LastIndex(s: string, c: char): (i: int)
    ensures -1 <= i < |s|
    ensures i >= 0 ==> s[i] == c
    ensures forall j :: i < j < |s| ==> s[j] != c
  {
    if s == [] then -1
    else if s[|s| - 1] == c then |s| - 1
    else LastIndex(s[..|s| - 1], c)
  }

  /** Appending characters other than `c` does not move the last `c`. */
  lemma {:induction false} LastIndexAppend(a: string, b: string, c: char)
    requires forall j :: 0 <= j < |b| ==> b[j] != c
    ensures LastIndex(a + b, c) == LastIndex(a, c)
    decreases |b|
  {
    if b == [] {
      assert a + b == a;
    } else {
      var b' := b[..|b| - 1];
      assert (a + b)[..|a + b| - 1] == a + b';
      LastIndexAppend(a, b', c);
    }
  }

  // ---------------------------------------------------------------------------
  // Lower-casing (ASCII letters only)

  function LowerChar(c: char): char {
    if 'A' <= c <= 'Z' then (c as int + 32) as char else c
  }

  /** `str.lower()` restricted to ASCII letters. */
  function Lower(s: string): (r: string)
    ensures |r| == |s|
    ensures forall i :: 0 <= i < |r| ==> !('A' <= r[i] <= 'Z')
    ensures forall i :: 0 <= i < |s| && !('A' <= s[i] <= 'Z') ==> r[i] == s[i]
    ensures forall i :: 0 <= i < |s| && 'A' <= s[i] <= 'Z' ==> 'a' <= r[i] <= 'z' && r[i] as int - 'a' as int == s[i] as int - 'A' as int
  {
    seq(|s|, i requires 0 <= i < |s| => LowerChar(s[i]))
  }

  lemma LowerIdempotent(s: string)
    ensures Lower(Lower(s)) == Lower(s)
  {
  }

  // ---------------------------------------------------------------------------
  // Decimal formatting: Python's `str(int)` and strftime's zero padding

  function DigitChar(d: nat): (c: char)
    requires d < 10
    ensures IsDigit(c)
    ensures (c == '0') == (d == 0)
  {
    ('0' as int + d) as char
  }

  function DigitValue(c: char): (d: nat)
    requires IsDigit(c)
    ensures d < 10
  {
    c as int - '0' as int
  }

  /** Python's `str(n)` for a non-negative integer: no leading zeros. */
  function NatToString(n: nat): (r: string)
    ensures r != [] && AllDigits(r)
    ensures r[0] == '0' ==> n == 0
  {
    if n < 10 then [DigitChar(n)] else NatToString(n / 10) + [DigitChar(n % 10)]
  }

  /** The number a string of decimal digits denotes. */
  function DecimalValue(s: string): nat
    requires AllDigits(s)
  {
    if s == [] then 0 else DecimalValue(s[..|s| - 1]) * 10 + DigitValue(s[|s| - 1])
  }

  /** Reading back what `NatToString` wrote gives the number. */
  lemma {:induction false} DecimalValueOfNatToString(n: nat)
    ensures DecimalValue(NatToString(n)) == n
  {
    if n >= 10 {
      var r := NatToString(n);
      assert r[..|r| - 1] == NatToString(n / 10);
      DecimalValueOfNatToString(n / 10);
    }
  }

  /** Python's `str(i)` for any integer. */
  function IntToString(i: int): (r: string)
    ensures i >= 0 ==> r == NatToString(i)
    ensures i < 0 ==> r == "-" + NatToString(-i)
  {
    if i < 0 then "-" + NatToString(-i) else NatToString(i)
  }

  function Pow10(k: nat): (p: nat)
    ensures p >= 1
  {
    if k == 0 then 1 else 10 * Pow10(k - 1)
  }

  /** A number below 10^k takes at most k digits. */
  lemma {:induction false} NatToStringWidth(n: nat, k: nat)
    requires n < Pow10(k)
    ensures |NatToString(n)| <= if k == 0 then 1 else k
  {
    if n >= 10 {
      assert k >= 2;
      NatToStringWidth(n / 10, k - 1);
    }
  }

  function Zeros(k: nat): (r: string)
    ensures |r| == k && forall i :: 0 <= i < k ==> r[i] == '0'
  {
    if k == 0 then [] else Zeros(k - 1) + "0"
  }

  /** `n` in decimal, left-padded with zeros to `width` characters
      (strftime's `%m`, `%d`, `%H`, ... and `%Y`, and the microseconds of `isoformat`). */
  function Pad(n: nat, width: nat): (r: string)
    ensures AllDigits(r)
    ensures n < Pow10(width) && width > 0 ==> |r| == width
    ensures EndsWith(r, NatToString(n))
  {
    var d := NatToString(n);
    if n < Pow10(width) && width > 0 then
      NatToStringWidth(n, width);
      Zeros(width - |d|) + d
    else d
  }

  /** Zero padding does not change the number written. */
  lemma PadValue(n: nat, width: nat)
    ensures DecimalValue(Pad(n, width)) == n
  {
    var d := NatToString(n);
    DecimalValueOfNatToString(n);
    if n < Pow10(width) && width > 0 {
      NatToStringWidth(n, width);
      var z := Zeros(width - |d|);
      assert Pad(n, width) == z + d;
      LeadingZerosValue(z, d);
    } else {
      assert Pad(n, width) == d;
    }
  }

  lemma {:induction false} LeadingZerosValue(z: string, d: string)
    requires forall i :: 0 <= i < |z| ==> z[i] == '0'
    requires AllDigits(d)
    ensures AllDigits(z + d) && DecimalValue(z + d) == DecimalValue(d)
  {
    if d == [] {
      assert z + d == z;
      AllZerosValue(z);
    } else {
      assert (z + d)[..|z + d| - 1] == z + d[..|d| - 1];
      LeadingZerosValue(z, d[..|d| - 1]);
    }
  }

  lemma {:induction false} AllZerosValue(z: string)
    requires forall i :: 0 <= i < |z| ==> z[i] == '0'
    ensures AllDigits(z) && DecimalValue(z) == 0
  {
    if z != [] {
      AllZerosValue(z[..|z| - 1]);
    }
  }

  // ---------------------------------------------------------------------------
  // UTF-8 (Python's `str.encode('utf-8')`)

  /** The UTF-8 bytes of one Unicode scalar value. */
  function Utf8Char(c: char): (bs: seq<byte>)
    ensures 1 <= |bs| <= 4
    ensures (|bs| == 1) == (c as int < 0x80)
  {
    var cp := c as int;
    if cp < 0x80 then [cp]
    else if cp < 0x800 then [0xC0 + cp / 0x40, 0x80 + cp % 0x40]
    else if cp < 0x1_0000 then [0xE0 + cp / 0x1000, 0x80 + (cp / 0x40) % 0x40, 0x80 + cp % 0x40]
    else [0xF0 + cp / 0x4_0000, 0x80 + (cp / 0x1000) % 0x40, 0x80 + (cp / 0x40) % 0x40, 0x80 + cp % 0x40]
  }

  function Utf8Encode(s: string): seq<byte> {
    if s == [] then [] else Utf8Char(s[0]) + Utf8Encode(s[1..])
  }

  /** Every character takes one to four bytes, so the byte length is at least the
      code-point count and at most four times it. */
  lemma {:induction false} Utf8Length(s: string)
    ensures |s| <= |Utf8Encode(s)| <= 4 * |s|
  {
    if s != [] {
      Utf8Length(s[1..]);
    }
  }

  /** Text made of ASCII characters only encodes to one byte per character. */
  lemma {:induction false} Utf8LengthAscii(s: string)
    requires forall i :: 0 <= i < |s| ==> s[i] as int < 0x80
    ensures |Utf8Encode(s)| == |s|
  {
    if s != [] {
      Utf8LengthAscii(s[1..]);
    }
  }

  /** Encoding works character by character. */
  lemma {:induction false} Utf8EncodeAppend(a: string, b: string)
    ensures Utf8Encode(a + b) == Utf8Encode(a) + Utf8Encode(b)
  {
    if a == [] {
      assert a + b == b;
    } else {
      assert (a + b)[0] == a[0] && (a + b)[1..] == a[1..] + b;
      Utf8EncodeAppend(a[1..], b);
    }
  }

  // ---------------------------------------------------------------------------
  // Words: Python's `str.split()` with no argument

  /** `s` without its leading whitespace. */
  function TrimStart(s: string): (t: string)
    ensures |t| <= |s| && t == s[|s| - |t|..]
    ensures t == [] || !IsSpace(t[0])
  {
    if s != [] && IsSpace(s[0]) then TrimStart(s[1..]) else s
  }

  /** Length of the run of non-whitespace characters that starts `s`. */
  function WordLength(s: string): (n: nat)
    ensures n <= |s|
    ensures s != [] && !IsSpace(s[0]) ==> n > 0
  {
    if s != [] && !IsSpace(s[0]) then 1 + WordLength(s[1..]) else 0
  }

  /** The list `s.split()` returns: the maximal runs of non-whitespace. */
  function Words(s: string): seq<string>
    decreases |s|
  {
    var t := TrimStart(s);
    if t == [] then [] else [t[..WordLength(t)]] + Words(t[WordLength(t)..])
  }

  /** A word of `split()`: non-empty and free of whitespace. */
  predicate IsWord(w: string) {
    w != [] && NoSpace(w)
  }

  predicate NoSpace(w: string) {
    forall i :: 0 <= i < |w| ==> !IsSpace(w[i])
  }

  predicate Blank(w: string) {
    forall i :: 0 <= i < |w| ==> IsSpace(w[i])
  }

  /** What `TrimStart` removes is whitespace. */
  lemma {:induction false} TrimStartRemovesBlank(s: string)
    ensures Blank(s[..|s| - |TrimStart(s)|])
  {
    if s != [] && IsSpace(s[0]) {
      var rest := s[1..];
      var t := TrimStart(rest);
      assert TrimStart(s) == t;
      TrimStartRemovesBlank(rest);
      var removed := rest[..|rest| - |t|];
      assert s[..|s| - |t|] == [s[0]] + removed;
      forall i | 0 <= i < 1 + |removed| ensures IsSpace(([s[0]] + removed)[i]) {
        if i > 0 {
          assert ([s[0]] + removed)[i] == removed[i - 1];
        }
      }
    }
  }

  /** The run `WordLength` measures holds no whitespace and cannot be extended. */
  lemma {:induction false} WordLengthMaximal(s: string)
    ensures NoSpace(s[..WordLength(s)])
    ensures WordLength(s) == |s| || IsSpace(s[WordLength(s)])
  {
    if s != [] && !IsSpace(s[0]) {
      WordLengthMaximal(s[1..]);
      assert s[..WordLength(s)] == [s[0]] + s[1..][..WordLength(s[1..])];
    }
  }

  function NonSpace(s: string): (r: string)
    ensures |r| <= |s|
  {
    if s == [] then [] else (if IsSpace(s[0]) then [] else [s[0]]) + NonSpace(s[1..])
  }

  function Concat(ws: seq<string>): string {
    if ws == [] then [] else ws[0] + Concat(ws[1..])
  }

  lemma ConcatCons(w: string, ws: seq<string>)
    ensures Concat([w] + ws) == w + Concat(ws)
  {
    assert ([w] + ws)[1..] == ws;
  }

  lemma {:induction false} NonSpaceAppend(a: string, b: string)
    ensures NonSpace(a + b) == NonSpace(a) + NonSpace(b)
  {
    if a == [] {
      assert a + b == b;
    } else {
      assert (a + b)[0] == a[0] && (a + b)[1..] == a[1..] + b;
      NonSpaceAppend(a[1..], b);
    }
  }

  /** Only blank text has no non-whitespace characters. */
  lemma {:induction false} NonSpaceEmptyIffBlank(s: string)
    ensures NonSpace(s) == [] <==> Blank(s)
  {
    if s != [] {
      NonSpaceEmptyIffBlank(s[1..]);
      assert forall i :: 1 <= i < |s| ==> s[1..][i - 1] == s[i];
    }
  }

  lemma {:induction false} NonSpaceOfWord(s: string)
    requires NoSpace(s)
    ensures NonSpace(s) == s
  {
    if s != [] {
      NonSpaceOfWord(s[1..]);
    }
  }

  /** A word in front of a list of words gives a list of words. */
  lemma AllWordsCons(word: string, rest: seq<string>)
    requires IsWord(word)
    requires forall k :: 0 <= k < |rest| ==> IsWord(rest[k])
    ensures forall k :: 0 <= k < 1 + |rest| ==> IsWord(([word] + rest)[k])
  {
    forall k | 0 <= k < 1 + |rest| ensures IsWord(([word] + rest)[k]) {
      if k > 0 {
        assert ([word] + rest)[k] == rest[k - 1];
      }
    }
  }

  /** Every element `split()` returns is a word. */
  lemma {:induction false} WordsAreWords(s: string)
    ensures forall k :: 0 <= k < |Words(s)| ==> IsWord(Words(s)[k])
    decreases |s|
  {
    var t := TrimStart(s);
    if t != [] {
      var n := WordLength(t);
      WordLengthMaximal(t);
      var word := t[..n];
      var rest := Words(t[n..]);
      WordsAreWords(t[n..]);
      assert Words(s) == [word] + rest;
      AllWordsCons(word, rest);
    }
  }

  /** Leading whitespace contributes nothing to the non-whitespace characters. */
  lemma NonSpaceTrimStart(s: string)
    ensures NonSpace(s) == NonSpace(TrimStart(s))
  {
    var t := TrimStart(s);
    var blank := s[..|s| - |t|];
    assert s == blank + t;
    NonSpaceAppend(blank, t);
    TrimStartRemovesBlank(s);
    NonSpaceEmptyIffBlank(blank);
  }

  /** Splitting off the first word keeps the word itself in the non-whitespace characters. */
  lemma NonSpaceFirstWord(t: string)
    ensures NonSpace(t) == t[..WordLength(t)] + NonSpace(t[WordLength(t)..])
  {
    var n := WordLength(t);
    WordLengthMaximal(t);
    NonSpaceOfWord(t[..n]);
    assert t == t[..n] + t[n..];
    NonSpaceAppend(t[..n], t[n..]);
  }

  /** The words, run together, are exactly the non-whitespace characters of `s`. */
  lemma {:induction false} WordsConcat(s: string)
    ensures Concat(Words(s)) == NonSpace(s)
    decreases |s|
  {
    var t := TrimStart(s);
    NonSpaceTrimStart(s);
    if t != [] {
      var n := WordLength(t);
      var word, rest := t[..n], t[n..];
      calc {
        Concat(Words(s));
        { assert Words(s) == [word] + Words(rest); ConcatCons(word, Words(rest)); }
        word + Concat(Words(rest));
        { WordsConcat(rest); }
        word + NonSpace(rest);
        { NonSpaceFirstWord(t); }
        NonSpace(t);
      }
    }
  }

  /** `len(s.split())` is 0 exactly when `s` is blank. */
  lemma WordsEmptyIffBlank(s: string)
    ensures Words(s) == [] <==> Blank(s)
  {
    WordsAreWords(s);
    WordsConcat(s);
    NonSpaceEmptyIffBlank(s);
    if Words(s) != [] {
      assert IsWord(Words(s)[0]);
      ConcatCons(Words(s)[0], Words(s)[1..]);
      assert [Words(s)[0]] + Words(s)[1..] == Words(s);
    }
  }

  /** Position `i` begins a run of non-whitespace: it holds no whitespace
      and is the first position or follows whitespace. */
  predicate WordStart(s: string, i: int)
    requires 0 <= i < |s|
  {
    !IsSpace(s[i]) && (i == 0 || IsSpace(s[i - 1]))
  }

  /** How many positions from `j` on begin a run of non-whitespace. */
  function StartsFrom(s: string, j: nat): (n: nat)
    requires j <= |s|
    ensures n <= |s| - j
    decreases |s| - j
  {
    if j == |s| then 0 else (if WordStart(s, j) then 1 else 0) + StartsFrom(s, j + 1)
  }

  /** The runs of non-whitespace begun in `s`, scanning from the front;
      `afterSpace` says whether what precedes `s` ends a run. */
  function RunCount(s: string, afterSpace: bool): nat
    decreases |s|
  {
    if s == [] then 0
    else (if afterSpace && !IsSpace(s[0]) then 1 else 0) + RunCount(s[1..], IsSpace(s[0]))
  }

  /** Leading whitespace begins no run. */
  lemma {:induction false} RunCountTrimStart(s: string)
    ensures RunCount(s, true) == RunCount(TrimStart(s), true)
    decreases |s|
  {
    if s != [] && IsSpace(s[0]) {
      RunCountTrimStart(s[1..]);
    }
  }

  /** The rest of a run begins no run. */
  lemma {:induction false} RunCountSkipWord(t: string)
    ensures RunCount(t, false) == RunCount(t[WordLength(t)..], false)
    decreases |t|
  {
    if t != [] && !IsSpace(t[0]) {
      RunCountSkipWord(t[1..]);
      assert t[1..][WordLength(t[1..])..] == t[WordLength(t)..];
    }
  }

  /** A text starting a run counts it, then the runs after the first word. */
  lemma RunCountFirstWord(t: string)
    requires t != [] && !IsSpace(t[0])
    ensures RunCount(t, true) == 1 + RunCount(t[WordLength(t)..], true)
  {
    var rest := t[WordLength(t)..];
    RunCountSkipWord(t[1..]);
    assert t[1..][WordLength(t[1..])..] == rest;
    WordLengthMaximal(t);
    if rest != [] {
      assert rest[0] == t[WordLength(t)];
    }
  }

  /** `split()` has one word per run that `RunCount` sees. */
  lemma {:induction false} WordsRunCount(s: string)
    ensures |Words(s)| == RunCount(s, true)
    decreases |s|
  {
    var t := TrimStart(s);
    RunCountTrimStart(s);
    if t != [] {
      var rest := WordsCons(s);
      WordsRunCount(rest);
      RunCountFirstWord(t);
    }
  }

  /** `split()` of a non-blank text: the first word, then the words of what
      follows it. */
  lemma WordsCons(s: string) returns (rest: string)
    requires TrimStart(s) != []
    ensures rest == TrimStart(s)[WordLength(TrimStart(s))..] && |rest| < |s|
    ensures |Words(s)| == 1 + |Words(rest)|
  {
    var t := TrimStart(s);
    rest := t[WordLength(t)..];
  }

  /** The scan agrees with the positional count. */
  lemma {:induction false} StartsFromRunCount(s: string, j: nat)
    requires j <= |s|
    ensures StartsFrom(s, j) == RunCount(s[j..], j == 0 || IsSpace(s[j - 1]))
    decreases |s| - j
  {
    if j < |s| {
      StartsFromRunCount(s, j + 1);
      assert s[j..][0] == s[j] && s[j..][1..] == s[j + 1..];
    }
  }

  /** `split()` has exactly one word per position that begins a run of
      non-whitespace. */
  lemma WordCount(s: string)
    ensures |Words(s)| == StartsFrom(s, 0)
  {
    WordsRunCount(s);
    StartsFromRunCount(s, 0);
    assert s[0..] == s;
  }


  // ---------------------------------------------------------------------------
  // Lines: Python's `str.splitlines()`

  /** Length of the part of `s` before its first line boundary. */
  function LineLength(s: string): (n: nat)
    ensures n <= |s|
  {
    if s != [] && !IsLineBreak(s[0]) then 1 + LineLength(s[1..]) else 0
  }

  /** A line of `splitlines()` holds no line boundary. */
  predicate IsLine(line: string) {
    forall i :: 0 <= i < |line| ==> !IsLineBreak(line[i])
  }

  /** The first line holds no boundary, and a boundary, if any, follows it. */
  lemma {:induction false} LineLengthMaximal(s: string)
    ensures IsLine(s[..LineLength(s)])
    ensures LineLength(s) == |s| || IsLineBreak(s[LineLength(s)])
  {
    if s != [] && !IsLineBreak(s[0]) {
      LineLengthMaximal(s[1..]);
      assert s[..LineLength(s)] == [s[0]] + s[1..][..LineLength(s[1..])];
    }
  }

  /** The list `s.splitlines()` returns: lines without their boundaries, where
      "\r\n" is one boundary and a final boundary does not start an empty line. */
  function Lines(s: string): (ls: seq<string>)
    ensures (ls == []) == (s == [])
    ensures |ls| <= |s|
    decreases |s|
  {
    if s == [] then [] else [s[..LineLength(s)]] + Lines(AfterLine(s))
  }

  /** What follows the first line of `s` and the boundary that ends it. */
  function AfterLine(s: string): (rest: string)
    requires s != []
    ensures |rest| < |s|
  {
    var n := LineLength(s);
    if n == |s| then []
    else if s[n] == '\r' && n + 1 < |s| && s[n + 1] == '\n' then s[n + 2..]
    else s[n + 1..]
  }

  /** No line that `splitlines()` returns contains a line boundary. */
  lemma {:induction false} LinesAreLines(s: string)
    ensures forall k :: 0 <= k < |Lines(s)| ==> IsLine(Lines(s)[k])
    decreases |s|
  {
    if s != [] {
      LineLengthMaximal(s);
      LinesAreLines(AfterLine(s));
    }
  }

  /** The lines joined with "\n", as `"\n".join(lines)` does. */
  function JoinLines(ls: seq<string>): string {
    if ls == [] then []
    else if |ls| == 1 then ls[0]
    else ls[0] + "\n" + JoinLines(ls[1..])
  }

  lemma JoinLinesCons(line: string, ls: seq<string>)
    requires ls != []
    ensures JoinLines([line] + ls) == line + "\n" + JoinLines(ls)
  {
    assert ([line] + ls)[1..] == ls;
  }

  /** "\n" if `s` ends with one, else the empty string. */
  function FinalNewline(s: string): string {
    if s != [] && s[|s| - 1] == '\n' then "\n" else ""
  }

  /** Cutting `s` at a "\n" and gluing the two sides back with "\n" gives `s`. */
  lemma GlueAtNewline(s: string, n: nat, j: string, f: string)
    requires n < |s| && s[n] == '\n' && j + f == s[n + 1..]
    ensures s[..n] + "\n" + j + f == s
  {
    assert s[..n] + "\n" + j + f == s[..n] + "\n" + (j + f);
    assert s == s[..n] + [s[n]] + s[n + 1..];
  }

  /** One step of the round trip: a first line ended by "\n", then more text. */
  lemma RoundTripCons(s: string, n: nat)
    requires n == LineLength(s) && n + 1 < |s| && s[n] == '\n'
    requires JoinLines(Lines(s[n + 1..])) + FinalNewline(s[n + 1..]) == s[n + 1..]
    ensures JoinLines(Lines(s)) + FinalNewline(s) == s
  {
    var rest := s[n + 1..];
    var ls := Lines(rest);
    LinesAtNewline(s, n);
    FinalNewlineOfTail(s, n + 1);
    JoinLinesCons(s[..n], ls);
    GlueAtNewline(s, n, JoinLines(ls), FinalNewline(rest));
  }

  /** A first line ended by "\n" and followed by more text is split off. */
  lemma LinesAtNewline(s: string, n: nat)
    requires n == LineLength(s) && n + 1 < |s| && s[n] == '\n'
    ensures Lines(s) == [s[..n]] + Lines(s[n + 1..]) && Lines(s[n + 1..]) != []
  {
    assert AfterLine(s) == s[n + 1..];
  }

  /** A non-empty tail ends the way the whole text does. */
  lemma FinalNewlineOfTail(s: string, m: nat)
    requires m < |s|
    ensures FinalNewline(s) == FinalNewline(s[m..])
  {
    assert s[m..][|s| - m - 1] == s[|s| - 1];
  }

  /** For text whose only line boundary is "\n", splitting into lines and
      joining them again gives the text back, less a final "\n". */
  lemma {:induction false} LinesJoinRoundTrip(s: string)
    requires forall i :: 0 <= i < |s| ==> IsLineBreak(s[i]) ==> s[i] == '\n'
    ensures JoinLines(Lines(s)) + FinalNewline(s) == s
    decreases |s|
  {
    if s != [] {
      var n := LineLength(s);
      LineLengthMaximal(s);
      if n == |s| {
        assert s[..n] == s;
        assert Lines(s) == [s];
      } else if n + 1 == |s| {
        assert AfterLine(s) == [];
        assert Lines(s) == [s[..n]];
        assert s == s[..n] + "\n";
      } else {
        var rest := s[n + 1..];
        forall i | 0 <= i < |rest| ensures IsLineBreak(rest[i]) ==> rest[i] == '\n' {
          assert rest[i] == s[n + 1 + i];
        }
        LinesJoinRoundTrip(rest);
        RoundTripCons(s, n);
      }
    }
  }
}
