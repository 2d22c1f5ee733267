/**
 `delete_extra_whitespaces` from src/text.py: strip the text, turn every run
 of whitespace without a line break into one space and every run with a line
 break into one line break.
 */
module Text {
  import opened Strings

  /** Whitespace other than a line break: what `(?!\n)\s` matches. */
  predicate IsBlank(c: char) {
    IsSpace(c) && c != '\n'
  }

  /** Length of the longest prefix of `s` made of blanks. */
  function BlankRun(s: string): (k: nat)
    ensures k <= |s|
    ensures forall i | 0 <= i < k :: IsBlank(s[i])
    ensures k == |s| || !IsBlank(s[k])
  {
    if s != [] && IsBlank(s[0]) then 1 + BlankRun(s[1..]) else 0
  }

  /** `re.sub("((?!\\n)\\s)+", " ", s)`: every maximal run of blanks becomes one space. */
  function CollapseBlanks(s: string): (r: string)
    ensures |r| <= |s|
    ensures NonSpace(r) == NonSpace(s)
    decreases |s|
  {
    if s == [] then []
    else if IsBlank(s[0]) then
      var k := BlankRun(s);
      var rest := CollapseBlanks(s[k..]);
      RunKeepsNonSpace(s, k, " ", rest);
      " " + rest
    else
      var rest := CollapseBlanks(s[1..]);
      WordCharKeepsNonSpace(s, rest);
      [s[0]] + rest
  }

  /**
   `re.sub("\\s*\\n\\s*", "\n", s)`. At the start of a maximal whitespace run
   the greedy `\s*` backs off to the run's last line break and the second `\s*`
   takes the rest of the run, so a run holding a line break becomes one line
   break; a run without one never matches and is kept.
   */
  function JoinLineBreaks(s: string): (r: string)
    ensures |r| <= |s|
    ensures NonSpace(r) == NonSpace(s)
    decreases |s|
  {
    if s == [] then []
    else if IsSpace(s[0]) then
      var k := SpaceRun(s);
      var sep := if '\n' in s[..k] then "\n" else s[..k];
      var rest := JoinLineBreaks(s[k..]);
      assert IsSpace('\n');
      RunKeepsNonSpace(s, k, sep, rest);
      sep + rest
    else
      var rest := JoinLineBreaks(s[1..]);
      WordCharKeepsNonSpace(s, rest);
      [s[0]] + rest
  }

  /** The non-whitespace characters of `s`, in order. */
  function NonSpace(s: string): string {
    if s == [] then [] else (if IsSpace(s[0]) then [] else [s[0]]) + NonSpace(s[1..])
  }

  /**
   Every whitespace character of `s` is a space or a line break, and the
   character after it, if any, is not whitespace: no whitespace run is longer
   than one character.
   */
  predicate Canonical(s: string) {
    s == [] ||
    ((IsSpace(s[0]) ==> (s[0] == ' ' || s[0] == '\n') && (|s| > 1 ==> !IsSpace(s[1])))
     && Canonical(s[1..]))
  }

  /**
   The intended result, run by run: each maximal whitespace run becomes a line
   break if it holds one and a single space otherwise; everything else is kept.
   */
  function Squeeze(t: string): (r: string)
    ensures (r == []) == (t == [])
    ensures t != [] ==> (IsSpace(r[0]) <==> IsSpace(t[0]))
    ensures t != [] ==> (IsSpace(r[|r| - 1]) <==> IsSpace(t[|t| - 1]))
    ensures Canonical(r)
    decreases |t|
  {
    if t == [] then []
    else if IsSpace(t[0]) then
      var k := SpaceRun(t);
      var rest := Squeeze(t[k..]);
      var sep := if '\n' in t[..k] then "\n" else " ";
      SeparatorIsSpace(sep);
      SqueezeLastChar(t, k, sep, rest);
      sep + rest
    else
      var rest := Squeeze(t[1..]);
      WordCharThenCanonical(t[0], rest);
      [t[0]] + rest
  }

  /** `delete_extra_whitespaces(text)` */
  function DeleteExtraWhitespaces(s: string): (r: string)
    ensures r == [] || (!IsSpace(r[0]) && !IsSpace(r[|r| - 1]))
    ensures AllSpace(s) ==> r == []
    ensures Canonical(r)
    ensures NonSpace(r) == NonSpace(s)
  {
    var t := Strip(s);
    var r := JoinLineBreaks(CollapseBlanks(t));
    PipelineIsSqueeze(t);
    SqueezeKeepsNonSpace(t);
    StripKeepsNonSpace(s);
    r
  }

  // ---------------------------------------------------------------- lemmas

  lemma SeparatorIsSpace(sep: string)
    requires sep == "\n" || sep == " "
    ensures |sep| == 1 && IsSpace(sep[0]) && (sep[0] == ' ' || sep[0] == '\n')
  {
    assert IsSpace(' ') && IsSpace('\n');
  }

  lemma SqueezeLastChar(t: string, k: nat, sep: string, rest: string)
    requires 0 < k <= |t| && |sep| == 1 && IsSpace(sep[0]) && (sep[0] == ' ' || sep[0] == '\n')
    requires k == |t| || !IsSpace(t[k])
    requires (rest == []) == (t[k..] == [])
    requires t[k..] != [] ==> (IsSpace(rest[0]) <==> IsSpace(t[k..][0]))
    requires t[k..] != [] ==> (IsSpace(rest[|rest| - 1]) <==> IsSpace(t[|t| - 1]))
    requires forall i | 0 <= i < k :: IsSpace(t[i])
    requires Canonical(rest)
    ensures IsSpace((sep + rest)[|sep + rest| - 1]) <==> IsSpace(t[|t| - 1])
    ensures Canonical(sep + rest)
  {
    assert (sep + rest)[1..] == rest;
  }

  lemma WordCharThenCanonical(c: char, rest: string)
    requires !IsSpace(c) && Canonical(rest)
    ensures Canonical([c] + rest)
  {
    assert ([c] + rest)[1..] == rest;
  }

  lemma {:induction false} NonSpaceConcat(a: string, b: string)
    ensures NonSpace(a + b) == NonSpace(a) + NonSpace(b)
  {
    if a == [] {
      assert a + b == b;
    } else {
      assert (a + b)[1..] == a[1..] + b;
      NonSpaceConcat(a[1..], b);
    }
  }

  lemma {:induction false} NonSpaceOfSpaces(a: string)
    requires AllSpace(a)
    ensures NonSpace(a) == []
  {
    if a != [] {
      NonSpaceOfSpaces(a[1..]);
    }
  }

  /** Squeezing keeps every non-whitespace character, in order. */
  lemma {:induction false} SqueezeKeepsNonSpace(t: string)
    ensures NonSpace(Squeeze(t)) == NonSpace(t)
    decreases |t|
  {
    if t != [] {
      if IsSpace(t[0]) {
        var k := SpaceRun(t);
        var sep := if '\n' in t[..k] then "\n" else " ";
        SeparatorIsSpace(sep);
        SqueezeKeepsNonSpace(t[k..]);
        NonSpaceConcat(sep, Squeeze(t[k..]));
        NonSpaceOfSpaces(sep);
        SplitAt(t, k);
        NonSpaceConcat(t[..k], t[k..]);
        NonSpaceOfSpaces(t[..k]);
      } else {
        SqueezeKeepsNonSpace(t[1..]);
        NonSpaceConcat([t[0]], Squeeze(t[1..]));
        SplitAt(t, 1);
        NonSpaceConcat(t[..1], t[1..]);
      }
    }
  }

  /** Replacing a leading whitespace run by other whitespace keeps the non-whitespace characters. */
  lemma RunKeepsNonSpace(s: string, k: nat, sep: string, rest: string)
    requires 0 < k <= |s| && AllSpace(s[..k]) && AllSpace(sep) && |sep| <= k
    requires NonSpace(rest) == NonSpace(s[k..]) && |rest| <= |s| - k
    ensures NonSpace(sep + rest) == NonSpace(s) && |sep + rest| <= |s|
  {
    NonSpaceConcat(sep, rest);
    NonSpaceOfSpaces(sep);
    SplitAt(s, k);
    NonSpaceConcat(s[..k], s[k..]);
    NonSpaceOfSpaces(s[..k]);
  }

  /** Keeping a leading non-whitespace character keeps the non-whitespace characters. */
  lemma WordCharKeepsNonSpace(s: string, rest: string)
    requires s != [] && NonSpace(rest) == NonSpace(s[1..]) && |rest| <= |s| - 1
    ensures NonSpace([s[0]] + rest) == NonSpace(s) && |[s[0]] + rest| <= |s|
  {
    NonSpaceConcat([s[0]], rest);
    SplitAt(s, 1);
    NonSpaceConcat(s[..1], s[1..]);
  }

  lemma SplitAt(t: string, k: nat)
    requires k <= |t|
    ensures t == t[..k] + t[k..]
  {
  }

  /** Stripping removes only whitespace. */
  lemma StripKeepsNonSpace(s: string)
    ensures NonSpace(Strip(s)) == NonSpace(s)
  {
    LStripKeepsNonSpace(s);
    RStripKeepsNonSpace(LStrip(s));
  }

  lemma LStripKeepsNonSpace(s: string)
    ensures NonSpace(LStrip(s)) == NonSpace(s)
  {
    var a := SpaceRun(s);
    LeadingSpaces(s);
    SplitAt(s, a);
    NonSpaceConcat(s[..a], s[a..]);
    NonSpaceOfSpaces(s[..a]);
  }

  lemma RStripKeepsNonSpace(l: string)
    ensures NonSpace(RStrip(l)) == NonSpace(l)
  {
    var b := TrailingSpaceRun(l);
    TrailingSpaces(l);
    SplitAt(l, |l| - b);
    NonSpaceConcat(l[..|l| - b], l[|l| - b..]);
    NonSpaceOfSpaces(l[|l| - b..]);
  }

  lemma LeadingSpaces(s: string)
    ensures AllSpace(s[..SpaceRun(s)])
  {
  }

  lemma TrailingSpaces(s: string)
    ensures AllSpace(s[|s| - TrailingSpaceRun(s)..])
  {
  }

  lemma {:induction false} BlankRunOfConcat(a: string, b: string)
    requires b == [] || !IsBlank(b[0])
    ensures BlankRun(a + b) == BlankRun(a)
  {
    if a == [] {
      assert a + b == b;
    } else if IsBlank(a[0]) {
      assert (a + b)[1..] == a[1..] + b;
      BlankRunOfConcat(a[1..], b);
    }
  }

  lemma ConcatFrom(a: string, b: string, k: nat)
    requires k <= |a|
    ensures (a + b)[k..] == a[k..] + b
  {
  }

  /** The first substitution works run by run, so it distributes over a split before a non-blank. */
  lemma {:induction false} CollapseConcat(a: string, b: string)
    requires b == [] || !IsBlank(b[0])
    ensures CollapseBlanks(a + b) == CollapseBlanks(a) + CollapseBlanks(b)
    decreases |a|
  {
    if a == [] {
      assert a + b == b;
    } else {
      var k := if IsBlank(a[0]) then BlankRun(a) else 1;
      var lead := if IsBlank(a[0]) then " " else [a[0]];
      CollapseStep(a, b, k, lead);
      CollapseConcat(a[k..], b);
      Regroup(lead, CollapseBlanks(a[k..]), CollapseBlanks(b));
    }
  }

  lemma Regroup(a: string, b: string, c: string)
    ensures a + (b + c) == (a + b) + c
  {
  }

  /** One step of the first substitution at the head of `a`, alone and followed by `b`. */
  lemma CollapseStep(a: string, b: string, k: nat, lead: string)
    requires a != [] && (b == [] || !IsBlank(b[0]))
    requires k == (if IsBlank(a[0]) then BlankRun(a) else 1)
    requires lead == (if IsBlank(a[0]) then " " else [a[0]])
    ensures 0 < k <= |a|
    ensures CollapseBlanks(a) == lead + CollapseBlanks(a[k..])
    ensures CollapseBlanks(a + b) == lead + CollapseBlanks(a[k..] + b)
  {
    assert (a + b)[0] == a[0];
    if IsBlank(a[0]) {
      BlankRunOfConcat(a, b);
    }
    ConcatFrom(a, b, k);
  }

  /** What the first substitution makes of a whitespace run. */
  lemma {:induction false} CollapseOfSpaceRun(r: string)
    requires r != [] && AllSpace(r)
    ensures CollapseBlanks(r) != [] && AllSpace(CollapseBlanks(r))
    ensures '\n' in CollapseBlanks(r) <==> '\n' in r
    ensures '\n' !in r ==> CollapseBlanks(r) == " "
    decreases |r|
  {
    assert IsSpace(' ') && IsSpace('\n');
    if IsBlank(r[0]) {
      var k := BlankRun(r);
      SplitAt(r, k);
      if k < |r| {
        assert r[k..][0] == '\n';
        CollapseOfSpaceRun(r[k..]);
      }
    } else {
      assert r[0] == '\n';
      if |r| > 1 {
        CollapseOfSpaceRun(r[1..]);
      }
    }
  }

  /** The second substitution on a whitespace run followed by a non-whitespace character. */
  lemma JoinOfSpaceRun(run: string, v: string)
    requires run != [] && AllSpace(run)
    requires v == [] || !IsSpace(v[0])
    ensures JoinLineBreaks(run + v) == (if '\n' in run then "\n" else run) + JoinLineBreaks(v)
  {
    SpaceRunAfterSpaces(run, v);
    PrefixAndRest(run, v);
  }

  lemma PrefixAndRest(a: string, b: string)
    ensures (a + b)[..|a|] == a && (a + b)[|a|..] == b
  {
  }

  lemma JoinOfWordChar(c: char, v: string)
    requires !IsSpace(c)
    ensures JoinLineBreaks([c] + v) == [c] + JoinLineBreaks(v)
  {
    PrefixAndRest([c], v);
  }

  lemma CollapseOfWordStart(x: string)
    requires x != [] && !IsSpace(x[0])
    ensures CollapseBlanks(x) != [] && CollapseBlanks(x)[0] == x[0]
  {
  }

  /** The two substitutions together squeeze every whitespace run. */
  lemma {:induction false} PipelineIsSqueeze(t: string)
    ensures JoinLineBreaks(CollapseBlanks(t)) == Squeeze(t)
    decreases |t|
  {
    if t != [] {
      if IsSpace(t[0]) {
        var k := SpaceRun(t);
        var run, rest := t[..k], t[k..];
        SplitAt(t, k);
        CollapseConcat(run, rest);
        CollapseOfSpaceRun(run);
        if rest != [] {
          CollapseOfWordStart(rest);
        }
        JoinOfSpaceRun(CollapseBlanks(run), CollapseBlanks(rest));
        PipelineIsSqueeze(rest);
      } else {
        JoinOfWordChar(t[0], CollapseBlanks(t[1..]));
        PipelineIsSqueeze(t[1..]);
      }
    }
  }

  /** `delete_extra_whitespaces` is the run-by-run squeeze of the stripped text. */
  lemma DeleteExtraWhitespacesIsSqueeze(s: string)
    ensures DeleteExtraWhitespaces(s) == Squeeze(Strip(s))
  {
    PipelineIsSqueeze(Strip(s));
  }

  lemma {:induction false} SqueezeOfCanonical(x: string)
    requires Canonical(x)
    ensures Squeeze(x) == x
    decreases |x|
  {
    if x != [] {
      if IsSpace(x[0]) {
        assert SpaceRun(x) == 1;
        assert x[..1] == [x[0]];
        SqueezeOfCanonical(x[1..]);
      } else {
        SqueezeOfCanonical(x[1..]);
      }
      SplitAt(x, 1);
    }
  }

  lemma StripOfTrimmed(x: string)
    requires x == [] || (!IsSpace(x[0]) && !IsSpace(x[|x| - 1]))
    ensures Strip(x) == x
  {
    assert SpaceRun(x) == 0 && x[0..] == x;
    assert TrailingSpaceRun(x) == 0 && x[..|x|] == x;
  }

  /** Normalising normalised text changes nothing. */
  lemma DeleteExtraWhitespacesIdempotent(s: string)
    ensures DeleteExtraWhitespaces(DeleteExtraWhitespaces(s)) == DeleteExtraWhitespaces(s)
  {
    CanonicalIsFixed(DeleteExtraWhitespaces(s));
  }

  /** Trimmed canonical text is left alone: strip keeps it, and so does the squeeze. */
  lemma CanonicalIsFixed(r: string)
    requires r == [] || (!IsSpace(r[0]) && !IsSpace(r[|r| - 1]))
    requires Canonical(r)
    ensures DeleteExtraWhitespaces(r) == r
  {
    StripOfTrimmed(r);
    assert Strip(r) == r;
    SqueezeOfCanonical(r);
    assert Squeeze(r) == r;
    DeleteExtraWhitespacesIsSqueeze(r);
  }
}
