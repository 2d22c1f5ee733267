/**
 The pieces of Python's `str` that the pipeline leans on: whitespace,
 `strip`, `split()`, `" ".join`, `readlines`, and conversion between
 integers and their decimal text.
 */
module Strings {
  import opened Results

  /**
   The characters for which Python's `str.isspace()` holds, most common first;
   they are also what `\s` matches in a `str` regex.
   */
  const SpaceList: seq<char> := [
    ' ', '\n', '\t', '\r', '\U{0B}', '\U{0C}', '\U{1C}', '\U{1D}', '\U{1E}', '\U{1F}',
    '\U{85}', '\U{A0}', '\U{1680}', '\U{2000}', '\U{2001}', '\U{2002}', '\U{2003}', '\U{2004}',
    '\U{2005}', '\U{2006}', '\U{2007}', '\U{2008}', '\U{2009}', '\U{200A}', '\U{2028}', '\U{2029}',
    '\U{202F}', '\U{205F}', '\U{3000}'
  ]

  /** `c.isspace()` */
  predicate IsSpace(c: char) {
    ListedFrom(c, 0)
  }

  /** `c` occurs in `SpaceList` at index `i` or later. */
  predicate ListedFrom(c: char, i: nat)
    decreases |SpaceList| - i
  {
    i < |SpaceList| && (SpaceList[i] == c || ListedFrom(c, i + 1))
  }

  lemma {:induction false} ListedFromMeansListed(c: char, i: nat)
    ensures ListedFrom(c, i) <==> exists j | i <= j < |SpaceList| :: SpaceList[j] == c
    decreases |SpaceList| - i
  {
    if i < |SpaceList| {
      ListedFromMeansListed(c, i + 1);
    }
  }

  /** The whitespace characters are exactly the listed ones. */
  lemma IsSpaceListed(c: char)
    ensures IsSpace(c) <==> c in SpaceList
  {
    ListedFromMeansListed(c, 0);
  }

  /** Digits, signs, letters and everything else in these ranges are not whitespace. */
  lemma NotSpace(c: char)
    requires 0x21 <= c as int <= 0x84 || 0xA1 <= c as int <= 0x167F
    ensures !IsSpace(c)
  {
    IsSpaceListed(c);
  }

  predicate NoSpace(s: string) {
    forall i | 0 <= i < |s| :: !IsSpace(s[i])
  }

  predicate AllSpace(s: string) {
    forall i | 0 <= i < |s| :: IsSpace(s[i])
  }

  /** Length of the longest all-whitespace prefix of `s`. */
  function SpaceRun(s: string): (k: nat)
    ensures k <= |s|
    ensures forall i | 0 <= i < k :: IsSpace(s[i])
    ensures k == |s| || !IsSpace(s[k])
  {
    if s != [] && IsSpace(s[0]) then 1 + SpaceRun(s[1..]) else 0
  }

  /** Length of the longest all-whitespace suffix of `s`. */
  function TrailingSpaceRun(s: string): (k: nat)
    ensures k <= |s|
    ensures forall i | |s| - k <= i < |s| :: IsSpace(s[i])
    ensures k == |s| || !IsSpace(s[|s| - k - 1])
  {
    if s != [] && IsSpace(s[|s| - 1]) then 1 + TrailingSpaceRun(s[..|s| - 1]) else 0
  }

  /** Length of the longest whitespace-free prefix of `s`. */
  function WordRun(s: string): (k: nat)
    ensures k <= |s|
    ensures forall i | 0 <= i < k :: !IsSpace(s[i])
    ensures k == |s| || IsSpace(s[k])
  {
    if s != [] && !IsSpace(s[0]) then 1 + WordRun(s[1..]) else 0
  }

  /** `s.lstrip()` */
  function LStrip(s: string): (r: string)
    ensures r == [] || !IsSpace(r[0])
  {
    s[SpaceRun(s)..]
  }

  /** `s.rstrip()` */
  function RStrip(s: string): (r: string)
    ensures r == [] || !IsSpace(r[|r| - 1])
  {
    s[..|s| - TrailingSpaceRun(s)]
  }

  /** `s.strip()` */
  function Strip(s: string): (r: string)
    ensures r == [] || (!IsSpace(r[0]) && !IsSpace(r[|r| - 1]))
    ensures AllSpace(s) ==> r == []
  {
    RStrip(LStrip(s))
  }

  /** `s.split()`: the maximal whitespace-free runs of `s`, in order. */
  function Words(s: string): (ws: seq<string>)
    ensures forall i | 0 <= i < |ws| :: ws[i] != [] && NoSpace(ws[i])
    decreases |s|
  {
    var a := SpaceRun(s);
    if a == |s| then []
    else
      var b := a + WordRun(s[a..]);
      [s[a..b]] + Words(s[b..])
  }

  /** `sep.join(parts)` */
  function Join(sep: string, parts: seq<string>): string {
    if parts == [] then ""
    else if |parts| == 1 then parts[0]
    else parts[0] + sep + Join(sep, parts[1..])
  }

  /** Every part followed by `sep`: a line built by repeated `line += part + sep`. */
  function Terminated(sep: string, parts: seq<string>): string {
    if parts == [] then "" else parts[0] + sep + Terminated(sep, parts[1..])
  }

  function Concat(parts: seq<string>): string {
    if parts == [] then "" else parts[0] + Concat(parts[1..])
  }

  /** Text holding neither character that text-mode reading ends a line at. */
  predicate Unbroken(s: string) {
    '\n' !in s && '\r' !in s
  }

  /** A complete line: it ends in "\n", holds no other, and holds no '\r'. */
  predicate IsLine(l: string) {
    l != [] && l[|l| - 1] == '\n' && Unbroken(l[..|l| - 1])
  }

  /** Length of the first line of `s`, line break included. */
  function LineLength(s: string): (k: nat)
    requires s != []
    ensures 0 < k <= |s|
    ensures '\n' !in s[..k - 1]
    ensures k < |s| ==> s[k - 1] == '\n'
  {
    if s[0] == '\n' || |s| == 1 then 1 else 1 + LineLength(s[1..])
  }

  /**
   * Universal newlines, as text-mode reading with the default `newline=None` applies them:
   * "\r\n" and a lone '\r' both become "\n".
   */
  function Newlines(s: string): (r: string)
    ensures '\r' !in r
    ensures |r| <= |s|
    decreases |s|
  {
    if s == [] then []
    else if s[0] == '\r' then
      if |s| > 1 && s[1] == '\n' then "\n" + Newlines(s[2..]) else "\n" + Newlines(s[1..])
    else [s[0]] + Newlines(s[1..])
  }

  /** Splits text at "\n"; every piece keeps its break, the last may lack one. */
  function SplitLines(s: string): (lines: seq<string>)
    ensures Concat(lines) == s
    ensures forall i | 0 <= i < |lines| :: lines[i] != []
    ensures forall i | 0 <= i < |lines| - 1 :: lines[i][|lines[i]| - 1] == '\n' && '\n' !in lines[i][..|lines[i]| - 1]
    decreases |s|
  {
    if s == [] then []
    else
      var k := LineLength(s);
      assert s == s[..k] + s[k..];
      [s[..k]] + SplitLines(s[k..])
  }

  /** `f.readlines()` on a text-mode file holding `s`: newlines translated, every line keeps its "\n", the last may lack one. */
  function ReadLines(s: string): (lines: seq<string>)
    ensures Concat(lines) == Newlines(s)
    ensures forall i | 0 <= i < |lines| :: lines[i] != [] && '\r' !in lines[i]
    ensures forall i | 0 <= i < |lines| - 1 :: IsLine(lines[i])
  {
    var lines := SplitLines(Newlines(s));
    NoReturnInPieces(lines, Newlines(s));
    lines
  }

  predicate IsDigit(c: char) {
    '0' <= c <= '9'
  }

  predicate AllDigits(s: string) {
    forall i | 0 <= i < |s| :: IsDigit(s[i])
  }

  function DigitChar(d: nat): (c: char)
    requires d < 10
    ensures IsDigit(c) && c as int - '0' as int == d
  {
    (48 + d) as char
  }

  /** Decimal digits of `n`, most significant first, without leading zeros. */
  function NatToString(n: nat): (s: string)
    ensures s != [] && AllDigits(s)
    ensures |s| > 1 ==> s[0] != '0'
  {
    if n < 10 then [DigitChar(n)] else NatToString(n / 10) + [DigitChar(n % 10)]
  }

  /** `str(n)` */
  function IntToString(n: int): (s: string)
    ensures s != [] && NoSpace(s)
  {
    if n < 0 then
      var digits := NatToString(-n);
      DigitsHaveNoSpace(digits);
      NotSpace('-');
      "-" + digits
    else
      var digits := NatToString(n);
      DigitsHaveNoSpace(digits);
      digits
  }

  lemma DigitsHaveNoSpace(s: string)
    requires AllDigits(s)
    ensures NoSpace(s)
  {
    forall i | 0 <= i < |s|
      ensures !IsSpace(s[i])
    {
      NotSpace(s[i]);
    }
  }

  /** The number written by the decimal digits `s`. */
  function DigitsValue(s: string): nat
    requires AllDigits(s)
  {
    if s == [] then 0 else DigitsValue(s[..|s| - 1]) * 10 + (s[|s| - 1] as int - '0' as int)
  }

  /**
   `int(s)`: surrounding whitespace is ignored, then an optional sign and at
   least one ASCII digit; anything else is a `ValueError`.
   */
  function ParseInt(s: string): Result<int> {
    var t := Strip(s);
    if t != [] && (t[0] == '-' || t[0] == '+') then
      if |t| > 1 && AllDigits(t[1..]) then
        var v: int := DigitsValue(t[1..]);
        Ok(if t[0] == '-' then -v else v)
      else Err(ValueError)
    else if t != [] && AllDigits(t) then Ok(DigitsValue(t))
    else Err(ValueError)
  }

  /** Counts the characters that start a whitespace-free run: a non-whitespace character after whitespace or at the start. */
  function RunStarts(afterSpace: bool, s: string): nat
    decreases |s|
  {
    if s == [] then 0
    else (if afterSpace && !IsSpace(s[0]) then 1 else 0) + RunStarts(IsSpace(s[0]), s[1..])
  }

  // ---------------------------------------------------------------- lemmas

  lemma {:induction false} SpaceRunAfterSpaces(a: string, b: string)
    requires AllSpace(a)
    ensures SpaceRun(a + b) == |a| + SpaceRun(b)
  {
    if a == [] {
      assert a + b == b;
    } else {
      assert (a + b)[1..] == a[1..] + b;
      SpaceRunAfterSpaces(a[1..], b);
    }
  }

  lemma {:induction false} WordRunOfWord(w: string, rest: string)
    requires NoSpace(w)
    requires rest == [] || IsSpace(rest[0])
    ensures WordRun(w + rest) == |w|
  {
    if w == [] {
      assert w + rest == rest;
    } else {
      assert (w + rest)[1..] == w[1..] + rest;
      WordRunOfWord(w[1..], rest);
    }
  }

  /** One step of `Words`: the first word, then the words of what follows it. */
  lemma WordsUnfold(s: string, n: nat, j: nat)
    requires SpaceRun(s) == n < |s|
    requires WordRun(s[n..]) == j
    ensures Words(s) == [s[n..n + j]] + Words(s[n + j..])
  {
  }

  lemma SliceShift(s: string, b: string, n: nat, k: nat, j: nat)
    requires n <= |s| && k <= |b| && s[n..] == b[k..] && j <= |s| - n
    ensures s[n + j..] == b[k + j..] && s[n..n + j] == b[k..k + j]
  {
    assert s[n + j..] == s[n..][j..];
    assert b[k + j..] == b[k..][j..];
    assert s[n..n + j] == s[n..][..j];
    assert b[k..k + j] == b[k..][..j];
  }

  lemma ConcatSlices(a: string, b: string, k: nat)
    requires k <= |b|
    ensures (a + b)[|a| + k..] == b[k..]
    ensures (a + b)[..|a|] == a && (a + b)[0..] == a + b && (a + b)[0..|a|] == a
  {
  }

  /** Two strings that agree after their leading whitespace split alike. */
  lemma WordsSameRest(s: string, b: string, n: nat, k: nat)
    requires SpaceRun(s) == n <= |s|
    requires SpaceRun(b) == k <= |b|
    requires s[n..] == b[k..]
    ensures Words(s) == Words(b)
  {
    if n < |s| {
      var j := WordRun(s[n..]);
      WordsUnfold(s, n, j);
      WordsUnfold(b, k, j);
      SliceShift(s, b, n, k, j);
    }
  }

  /** Leading whitespace does not change the split. */
  lemma WordsAfterSpaces(a: string, b: string)
    requires AllSpace(a)
    ensures Words(a + b) == Words(b)
  {
    SpaceRunAfterSpaces(a, b);
    ConcatSlices(a, b, SpaceRun(b));
    WordsSameRest(a + b, b, |a| + SpaceRun(b), SpaceRun(b));
  }

  lemma WordsOfAllSpace(a: string)
    requires AllSpace(a)
    ensures Words(a) == []
  {
  }

  /** A word followed by whitespace (or nothing) is split off whole. */
  lemma WordsOfWord(w: string, rest: string)
    requires w != [] && NoSpace(w)
    requires rest == [] || IsSpace(rest[0])
    ensures Words(w + rest) == [w] + Words(rest)
  {
    var s := w + rest;
    assert SpaceRun(s) == 0;
    WordRunOfWord(w, rest);
    ConcatSlices(w, rest, 0);
    WordsUnfold(s, 0, |w|);
  }

  /** Splitting text joined with single spaces, and followed by whitespace, gives the parts back. */
  lemma {:induction false} WordsOfJoin(parts: seq<string>, tail: string)
    requires forall i | 0 <= i < |parts| :: parts[i] != [] && NoSpace(parts[i])
    requires AllSpace(tail)
    ensures Words(Join(" ", parts) + tail) == parts
  {
    if parts == [] {
      WordsOfAllSpace(tail);
    } else if |parts| == 1 {
      WordsOfWord(parts[0], tail);
      WordsOfAllSpace(tail);
    } else {
      var rest := Join(" ", parts[1..]) + tail;
      JoinUnfold(parts, tail);
      WordsOfWordThenSpace(parts[0], rest);
      WordsOfJoin(parts[1..], tail);
      assert [parts[0]] + parts[1..] == parts;
    }
  }

  lemma JoinUnfold(parts: seq<string>, tail: string)
    requires |parts| > 1
    ensures Join(" ", parts) + tail == parts[0] + (" " + (Join(" ", parts[1..]) + tail))
  {
  }

  /** A word, a space, then anything: the word is split off and the space dropped. */
  lemma WordsOfWordThenSpace(w: string, rest: string)
    requires w != [] && NoSpace(w)
    ensures Words(w + (" " + rest)) == [w] + Words(rest)
  {
    assert IsSpace(' ');
    WordsOfWord(w, " " + rest);
    WordsAfterSpaces(" ", rest);
  }

  /** The leading whitespace, first word and remainder of a string that is not all whitespace. */
  lemma FirstWord(s: string) returns (lead: string, w: string, rest: string)
    requires SpaceRun(s) < |s|
    ensures s == lead + (w + rest) && AllSpace(lead)
    ensures w != [] && NoSpace(w) && (rest == [] || IsSpace(rest[0]))
    ensures |rest| < |s|
    ensures Words(s) == [w] + Words(rest)
  {
    var a := SpaceRun(s);
    var j := WordRun(s[a..]);
    WordsUnfold(s, a, j);
    lead, w, rest := s[..a], s[a..a + j], s[a + j..];
    SplitThree(s, a, a + j);
    RunPieces(s, a, j);
  }

  /** The pieces `FirstWord` cuts out have the shapes it promises. */
  lemma RunPieces(s: string, a: nat, j: nat)
    requires SpaceRun(s) == a < |s| && WordRun(s[a..]) == j
    ensures AllSpace(s[..a])
    ensures s[a..a + j] != [] && NoSpace(s[a..a + j])
    ensures s[a + j..] == [] || IsSpace(s[a + j..][0])
  {
    LeadPiece(s, a);
    WordPieceAt(s, a, j);
  }

  lemma WordPieceAt(s: string, a: nat, j: nat)
    requires a < |s| && !IsSpace(s[a]) && WordRun(s[a..]) == j
    ensures s[a..a + j] != [] && NoSpace(s[a..a + j])
    ensures s[a + j..] == [] || IsSpace(s[a + j..][0])
  {
    var w := s[a..];
    assert w[0] == s[a];
    WordPiece(w, j);
    assert s[a..a + j] == w[..j];
    assert s[a + j..] == w[j..];
  }

  lemma LeadPiece(s: string, a: nat)
    requires SpaceRun(s) == a
    ensures AllSpace(s[..a])
  {
    assert forall i | 0 <= i < a :: s[..a][i] == s[i];
  }

  lemma WordPiece(t: string, j: nat)
    requires t != [] && !IsSpace(t[0]) && WordRun(t) == j
    ensures t[..j] != [] && NoSpace(t[..j])
    ensures t[j..] == [] || IsSpace(t[j..][0])
  {
    assert forall i | 0 <= i < j :: t[..j][i] == t[i];
    if j < |t| {
      assert t[j..][0] == t[j];
    }
  }

  lemma SplitThree(s: string, a: nat, b: nat)
    requires a <= b <= |s|
    ensures s == s[..a] + (s[a..b] + s[b..])
  {
  }

  /** `s.split()` ignores trailing whitespace. */
  lemma {:induction false} WordsAppendSpaces(s: string, tail: string)
    requires AllSpace(tail)
    ensures Words(s + tail) == Words(s)
    decreases |s|
  {
    if SpaceRun(s) == |s| {
      AllSpaceWordsAppend(s, tail);
    } else {
      var lead, w, rest := FirstWord(s);
      RegroupTail(lead, w, rest, tail);
      assert rest + tail == [] || IsSpace((rest + tail)[0]);
      WordsAfterLeadAndWord(lead, w, rest + tail);
      WordsAppendSpaces(rest, tail);
    }
  }

  lemma RegroupTail(a: string, b: string, c: string, d: string)
    ensures (a + (b + c)) + d == a + (b + (c + d))
  {
  }

  lemma AllSpaceWordsAppend(s: string, tail: string)
    requires SpaceRun(s) == |s| && AllSpace(tail)
    ensures Words(s + tail) == Words(s) == []
  {
    assert AllSpace(s + tail);
    WordsOfAllSpace(s);
    WordsOfAllSpace(s + tail);
  }

  lemma WordsAfterLeadAndWord(lead: string, w: string, rest: string)
    requires AllSpace(lead) && w != [] && NoSpace(w) && (rest == [] || IsSpace(rest[0]))
    ensures Words(lead + (w + rest)) == [w] + Words(rest)
  {
    WordsAfterSpaces(lead, w + rest);
    WordsOfWord(w, rest);
  }

  /** `s.rstrip().split() == s.split()` */
  lemma WordsOfRStrip(s: string)
    ensures Words(RStrip(s)) == Words(s)
  {
    var r := RStrip(s);
    assert s == r + s[|r|..];
    WordsAppendSpaces(r, s[|r|..]);
  }

  lemma {:induction false} RunStartsAfterSpaces(a: string, b: string)
    requires AllSpace(a)
    ensures RunStarts(true, a + b) == RunStarts(true, b)
  {
    if a == [] {
      assert a + b == b;
    } else {
      assert (a + b)[1..] == a[1..] + b;
      RunStartsAfterSpaces(a[1..], b);
    }
  }

  lemma {:induction false} RunStartsInsideWord(w: string, rest: string)
    requires NoSpace(w)
    requires rest == [] || IsSpace(rest[0])
    ensures RunStarts(false, w + rest) == RunStarts(true, rest)
  {
    if w == [] {
      assert w + rest == rest;
    } else {
      assert (w + rest)[1..] == w[1..] + rest;
      RunStartsInsideWord(w[1..], rest);
    }
  }

  /** A word followed by whitespace or nothing starts exactly one run. */
  lemma RunStartsOfWord(w: string, rest: string)
    requires w != [] && NoSpace(w)
    requires rest == [] || IsSpace(rest[0])
    ensures RunStarts(true, w + rest) == 1 + RunStarts(true, rest)
  {
    var s := w + rest;
    assert !IsSpace(s[0]);
    assert RunStarts(true, s) == 1 + RunStarts(false, s[1..]);
    TailOfConcat(w, rest);
    NoSpaceTail(w);
    RunStartsInsideWord(w[1..], rest);
  }

  lemma TailOfConcat(a: string, b: string)
    requires a != []
    ensures (a + b)[1..] == a[1..] + b
  {
  }

  lemma NoSpaceTail(w: string)
    requires w != [] && NoSpace(w)
    ensures NoSpace(w[1..])
  {
  }

  /** `len(s.split())` is the number of maximal whitespace-free runs of `s`. */
  lemma {:induction false} WordCountIsRunCount(s: string)
    ensures |Words(s)| == RunStarts(true, s)
    decreases |s|
  {
    if SpaceRun(s) == |s| {
      assert s == s + [];
      RunStartsAfterSpaces(s, []);
    } else {
      var lead, w, rest := FirstWord(s);
      RunStartsAfterSpaces(lead, w + rest);
      RunStartsOfWord(w, rest);
      WordCountIsRunCount(rest);
    }
  }

  lemma {:induction false} LineLengthOfLine(l: string, rest: string)
    requires IsLine(l)
    ensures LineLength(l + rest) == |l|
    decreases |l|
  {
    var s := l + rest;
    if |l| == 1 {
      assert s[0] == '\n';
    } else {
      assert l[0] == l[..|l| - 1][0];
      assert l[1..][..|l| - 2] == l[..|l| - 1][1..];
      assert s[1..] == l[1..] + rest;
      LineLengthOfLine(l[1..], rest);
    }
  }

  /** Reading back lines that were written whole gives the same lines. */
  lemma ReadLinesOfConcat(lines: seq<string>)
    requires forall i | 0 <= i < |lines| :: IsLine(lines[i])
    ensures ReadLines(Concat(lines)) == lines
  {
    ConcatAvoidsReturn(lines);
    NewlinesOfPlain(Concat(lines));
    SplitLinesOfConcat(lines);
  }

  /** Text without '\r' is left alone by newline translation. */
  lemma {:induction false} NewlinesOfPlain(s: string)
    requires '\r' !in s
    ensures Newlines(s) == s
    decreases |s|
  {
    if s != [] {
      NewlinesOfPlain(s[1..]);
    }
  }

  /** Newline translation works piecewise when the first piece does not end in '\r'. */
  lemma {:induction false} NewlinesAppend(a: string, b: string)
    requires a == [] || a[|a| - 1] != '\r'
    ensures Newlines(a + b) == Newlines(a) + Newlines(b)
    decreases |a|
  {
    if a != [] {
      var s := a + b;
      assert s[0] == a[0];
      if a[0] == '\r' {
        assert |a| > 1 && s[1] == a[1];
        if a[1] == '\n' {
          assert s[2..] == a[2..] + b;
          NewlinesAppend(a[2..], b);
          assert Newlines(s) == "\n" + Newlines(s[2..]);
          assert Newlines(a) == "\n" + Newlines(a[2..]);
        } else {
          assert s[1..] == a[1..] + b;
          NewlinesAppend(a[1..], b);
          assert Newlines(s) == "\n" + Newlines(s[1..]);
          assert Newlines(a) == "\n" + Newlines(a[1..]);
        }
      } else {
        assert s[1..] == a[1..] + b;
        NewlinesAppend(a[1..], b);
        assert Newlines(s) == [a[0]] + Newlines(s[1..]);
        assert Newlines(a) == [a[0]] + Newlines(a[1..]);
      }
    } else {
      assert a + b == b;
    }
  }

  /** Text ending in "\n" still ends in "\n" after translation. */
  lemma {:induction false} NewlinesKeepsFinalBreak(s: string)
    requires s != [] && s[|s| - 1] == '\n'
    ensures Newlines(s) != [] && Newlines(s)[|Newlines(s)| - 1] == '\n'
    decreases |s|
  {
    if s[0] == '\r' {
      if |s| > 1 && s[1] == '\n' {
        if |s| > 2 {
          NewlinesKeepsFinalBreak(s[2..]);
        }
      } else {
        NewlinesKeepsFinalBreak(s[1..]);
      }
    } else if |s| > 1 {
      NewlinesKeepsFinalBreak(s[1..]);
    }
  }

  /** The pieces of `SplitLines` hold a "\n" only at their end, and all end in one when the text does. */
  lemma SplitLinesShape(s: string)
    ensures forall i | 0 <= i < |SplitLines(s)| :: '\n' !in SplitLines(s)[i][..|SplitLines(s)[i]| - 1]
    ensures s == [] || s[|s| - 1] == '\n' ==> forall i | 0 <= i < |SplitLines(s)| :: SplitLines(s)[i][|SplitLines(s)[i]| - 1] == '\n'
  {
    var lines := SplitLines(s);
    if lines != [] {
      var n := |lines| - 1;
      assert lines[n] != [];
      LastPieceShape(s);
    }
  }

  /** The last piece of `SplitLines` holds no inner "\n", and ends in one when the text does. */
  lemma {:induction false} LastPieceShape(s: string)
    requires s != []
    ensures var last := SplitLines(s)[|SplitLines(s)| - 1];
      '\n' !in last[..|last| - 1] && (s[|s| - 1] == '\n' ==> last[|last| - 1] == '\n')
    decreases |s|
  {
    var k := LineLength(s);
    var rest := SplitLines(s[k..]);
    assert SplitLines(s) == [s[..k]] + rest;
    if k < |s| {
      LastPieceShape(s[k..]);
      assert rest != [];
      assert SplitLines(s)[|SplitLines(s)| - 1] == rest[|rest| - 1];
      assert s[k..][|s[k..]| - 1] == s[|s| - 1];
    } else {
      assert s[..k] == s && rest == [];
      assert SplitLines(s) == [s];
    }
  }

  lemma {:induction false} SplitLinesOfConcat(lines: seq<string>)
    requires forall i | 0 <= i < |lines| :: IsLine(lines[i])
    ensures SplitLines(Concat(lines)) == lines
  {
    if lines != [] {
      LineLengthOfLine(lines[0], Concat(lines[1..]));
      var s := Concat(lines);
      assert s[..|lines[0]|] == lines[0];
      assert s[|lines[0]|..] == Concat(lines[1..]);
      SplitLinesOfConcat(lines[1..]);
    }
  }

  lemma {:induction false} ConcatAvoidsReturn(lines: seq<string>)
    requires forall i | 0 <= i < |lines| :: IsLine(lines[i])
    ensures '\r' !in Concat(lines)
  {
    if lines != [] {
      var l := lines[0];
      assert l == l[..|l| - 1] + ['\n'];
      ConcatAvoidsReturn(lines[1..]);
    }
  }

  /** Pieces of text without '\r' hold no '\r'. */
  lemma {:induction false} NoReturnInPieces(lines: seq<string>, s: string)
    requires Concat(lines) == s && '\r' !in s
    ensures forall i | 0 <= i < |lines| :: '\r' !in lines[i]
  {
    if lines != [] {
      assert s == lines[0] + Concat(lines[1..]);
      NoReturnInPieces(lines[1..], Concat(lines[1..]));
      forall i | 0 <= i < |lines| ensures '\r' !in lines[i] {
        if i > 0 {
          assert lines[i] == lines[1..][i - 1];
        }
      }
    }
  }

  lemma {:induction false} DigitsOfNat(n: nat)
    ensures DigitsValue(NatToString(n)) == n
  {
    if n >= 10 {
      var s := NatToString(n);
      assert s[..|s| - 1] == NatToString(n / 10);
      DigitsOfNat(n / 10);
    }
  }

  /** `int(str(n)) == n` */
  lemma ParseIntOfIntToString(n: int)
    ensures ParseInt(IntToString(n)) == Ok(n)
  {
    if n < 0 {
      NegativeRoundTrip(n);
    } else {
      var s := IntToString(n);
      assert s == NatToString(n);
      StripOfWord(s);
      ParseUnsigned(s);
      DigitsOfNat(n);
    }
  }

  lemma NegativeRoundTrip(n: int)
    requires n < 0
    ensures ParseInt(IntToString(n)) == Ok(n)
  {
    assert IntToString(n) == "-" + NatToString(-n);
    ParseNegative(-n);
  }

  lemma ParseNegative(m: nat)
    ensures ParseInt("-" + NatToString(m)) == Ok(-(m as int))
  {
    var digits := NatToString(m);
    DigitsOfNat(m);
    SignedHasNoSpace(digits);
    var t := "-" + digits;
    StripOfWord(t);
    assert t[0] == '-' && t[1..] == digits;
    ParseSigned(t, digits, m);
  }

  lemma SignedHasNoSpace(digits: string)
    requires AllDigits(digits)
    ensures NoSpace("-" + digits)
  {
    DigitsHaveNoSpace(digits);
    NotSpace('-');
    var s := "-" + digits;
    assert forall i | 1 <= i < |s| :: s[i] == digits[i - 1];
  }

  /** A string without whitespace is its own `strip()`. */
  lemma StripOfWord(s: string)
    requires s != [] && NoSpace(s)
    ensures Strip(s) == s
  {
    assert SpaceRun(s) == 0 && s[0..] == s;
    assert TrailingSpaceRun(s) == 0 && s[..|s|] == s;
  }

  lemma ParseSigned(t: string, digits: string, v: nat)
    requires |t| > 1 && t[0] == '-' && t[1..] == digits
    requires AllDigits(digits) && DigitsValue(digits) == v
    requires Strip(t) == t
    ensures ParseInt(t) == Ok(-(v as int))
  {
  }

  lemma ParseUnsigned(digits: string)
    requires digits != [] && AllDigits(digits)
    requires Strip(digits) == digits
    ensures ParseInt(digits) == Ok(DigitsValue(digits))
  {
    assert IsDigit(digits[0]);
  }

  lemma {:induction false} TerminatedIsJoin(sep: string, parts: seq<string>)
    requires parts != []
    ensures Terminated(sep, parts) == Join(sep, parts) + sep
  {
    if |parts| > 1 {
      TerminatedIsJoin(sep, parts[1..]);
    }
  }

  /** Splitting parts that are each followed by a space, then by whitespace, gives the parts back. */
  lemma WordsOfTerminated(parts: seq<string>, tail: string)
    requires forall i | 0 <= i < |parts| :: parts[i] != [] && NoSpace(parts[i])
    requires AllSpace(tail)
    ensures Words(Terminated(" ", parts) + tail) == parts
  {
    if parts == [] {
      WordsOfAllSpace(tail);
    } else {
      TerminatedIsJoin(" ", parts);
      assert Terminated(" ", parts) + tail == Join(" ", parts) + (" " + tail);
      assert IsSpace(' ');
      WordsOfJoin(parts, " " + tail);
    }
  }

  /** A line built from whitespace-free parts holds no line break before its end. */
  lemma {:induction false} TerminatedHasNoBreak(parts: seq<string>)
    requires forall i | 0 <= i < |parts| :: NoSpace(parts[i])
    ensures Unbroken(Terminated(" ", parts))
  {
    if parts != [] {
      assert IsSpace('\n') && IsSpace('\r');
      TerminatedHasNoBreak(parts[1..]);
      assert Unbroken(parts[0]);
    }
  }

  lemma TerminatedLine(parts: seq<string>)
    requires forall i | 0 <= i < |parts| :: NoSpace(parts[i])
    ensures IsLine(Terminated(" ", parts) + "\n")
  {
    TerminatedHasNoBreak(parts);
    LineOf(Terminated(" ", parts));
  }

  /** Unbroken text followed by "\n" is a line. */
  lemma LineOf(body: string)
    requires Unbroken(body)
    ensures IsLine(body + "\n")
  {
    var l := body + "\n";
    assert l[..|l| - 1] == body;
  }
}
