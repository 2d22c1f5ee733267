/**
 `is_correct` (src/task_4.py; the same function is repeated in task_2.py and
 task_3.py): which tokens of a page count as words. The morphological
 analyser and the NLTK stop-word list are outside the model and come in as an
 `Analyzer` value.
 */
module Tokens {

  /**
   What the pipeline takes from pymorphy3 and NLTK: the Russian stop words,
   the analyser's score of a token's best parse, and the token's normal form
   (`normal_form` when the analyser knows the word, `token.lower()` otherwise).
   */
  datatype Analyzer = Analyzer(stopWords: set<string>, score: string -> real, normalize: string -> string)

  /** `[а-яА-Я]`: the code points U+0410 to U+044F; `ё` and `Ё` lie outside. */
  predicate IsCyrillic(c: char) {
    0x410 <= c as int <= 0x44F
  }

  /** `[0-9]` */
  predicate IsAsciiDigit(c: char) {
    '0' <= c <= '9'
  }

  /** `c in string.punctuation`: the 32 ASCII punctuation characters. */
  predicate IsPunctuation(c: char) {
    var n := c as int;
    0x21 <= n <= 0x2F || 0x3A <= n <= 0x40 || 0x5B <= n <= 0x60 || 0x7B <= n <= 0x7E
  }

  /** `str.isupper` of one character, for Latin and the Cyrillic block U+0400 to U+045F. */
  predicate IsUpper(c: char) {
    'A' <= c <= 'Z' || 0x400 <= c as int <= 0x42F
  }

  /** `str.islower` of one character, for Latin and the Cyrillic block U+0400 to U+045F. */
  predicate IsLower(c: char) {
    'a' <= c <= 'z' || 0x430 <= c as int <= 0x45F
  }

  /** `str.lower` of one character, for Latin and the Cyrillic block U+0400 to U+045F. */
  function ToLower(c: char): char {
    if 'A' <= c <= 'Z' then (c as int + 32) as char
    else if 0x410 <= c as int <= 0x42F then (c as int + 32) as char
    else if 0x400 <= c as int <= 0x40F then (c as int + 80) as char
    else c
  }

  /** `token.lower()` */
  function Lower(t: string): (r: string)
    ensures |r| == |t|
    ensures forall i | 0 <= i < |t| :: r[i] == ToLower(t[i])
  {
    if t == [] then [] else [ToLower(t[0])] + Lower(t[1..])
  }

  /** `sum(map(p, s))`: how many characters of `s` satisfy `p`. */
  function CountWhere(s: string, p: char -> bool): nat {
    if s == [] then 0 else (if p(s[0]) then 1 else 0) + CountWhere(s[1..], p)
  }

  /** `token[1:]` */
  function Tail(t: string): string {
    if t == [] then [] else t[1..]
  }

  /**
   The "stuck words" heuristic: an uppercase letter after the first
   character, together with a lowercase letter after the first character or
   a lowercase first character. The first character is only looked at when
   the first test holds, so the empty token does not fail.
   */
  predicate AreStuckWords(t: string) {
    CountWhere(Tail(t), IsUpper) > 0 && (CountWhere(Tail(t), IsLower) > 0 || IsLower(t[0]))
  }

  /**
   `re.match(r'^[...]{n,}$', t)` for a character class `inClass`: at least
   `n` characters of the class fill the token, except that Python's `$` also
   matches just before a final line break.
   */
  predicate AnchoredRun(t: string, inClass: char -> bool, n: nat) {
    || (|t| >= n && forall i | 0 <= i < |t| :: inClass(t[i]))
    || (|t| > n && t[|t| - 1] == '\n' && forall i | 0 <= i < |t| - 1 :: inClass(t[i]))
  }

  predicate HasPunctuation(t: string) {
    exists i | 0 <= i < |t| :: IsPunctuation(t[i])
  }

  predicate IsNumber(t: string) {
    AnchoredRun(t, IsAsciiDigit, 1)
  }

  predicate IsRussian(t: string) {
    AnchoredRun(t, IsCyrillic, 2)
  }

  /** `is_correct(processing_context, token)` */
  function IsCorrect(a: Analyzer, t: string): (ok: bool)
    ensures ok ==> |t| >= 2 && forall i | 0 <= i < |t| :: IsCyrillic(t[i]) || (i == |t| - 1 && t[i] == '\n')
    ensures ok ==> Lower(t) !in a.stopWords && a.score(t) >= 0.5
  {
    && !HasPunctuation(t)
    && Lower(t) !in a.stopWords
    && !IsNumber(t)
    && IsRussian(t)
    && !AreStuckWords(t)
    && a.score(t) >= 0.5
  }

  /** `list(filter(lambda tk: is_correct(ctx, tk), tokens))` */
  function Accepted(a: Analyzer, tokens: seq<string>): (r: seq<string>)
    ensures forall t :: t in r <==> t in tokens && IsCorrect(a, t)
    ensures |r| <= |tokens|
  {
    if tokens == [] then []
    else (if IsCorrect(a, tokens[0]) then [tokens[0]] else []) + Accepted(a, tokens[1..])
  }

  // ---------------------------------------------------------------- lemmas

  lemma {:induction false} CountWherePositive(s: string, p: char -> bool)
    ensures CountWhere(s, p) > 0 <==> exists i | 0 <= i < |s| :: p(s[i])
  {
    if s != [] {
      CountWherePositive(s[1..], p);
      if p(s[0]) {
        assert p(s[0]);
      } else {
        assert forall i | 1 <= i < |s| :: s[i] == s[1..][i - 1];
      }
    }
  }

  /** The stuck-words test in terms of positions. */
  lemma StuckWordsMeaning(t: string)
    ensures AreStuckWords(t) <==>
      && (exists i | 1 <= i < |t| :: IsUpper(t[i]))
      && ((exists i | 1 <= i < |t| :: IsLower(t[i])) || (|t| > 0 && IsLower(t[0])))
  {
    CountWherePositive(Tail(t), IsUpper);
    CountWherePositive(Tail(t), IsLower);
    if t != [] {
      assert forall i | 1 <= i < |t| :: t[i] == Tail(t)[i - 1];
    }
  }

  /** All-lowercase, all-uppercase and capitalised words are never taken for stuck words. */
  lemma OrdinaryCaseIsNotStuck(t: string)
    requires
      || (forall i | 0 <= i < |t| :: IsLower(t[i]))
      || (forall i | 0 <= i < |t| :: IsUpper(t[i]))
      || (|t| > 0 && IsUpper(t[0]) && forall i | 1 <= i < |t| :: IsLower(t[i]))
    ensures !AreStuckWords(t)
  {
    StuckWordsMeaning(t);
  }

  /**
   Only Cyrillic tokens of at least two letters from `[а-яА-Я]` pass (a final
   line break aside), so the punctuation and number tests never decide
   anything; what remains are the stop words, the case heuristic and the
   analyser's score.
   */
  lemma IsCorrectMeaning(a: Analyzer, t: string)
    ensures IsCorrect(a, t) <==>
      && IsRussian(t)
      && !AreStuckWords(t)
      && Lower(t) !in a.stopWords
      && a.score(t) >= 0.5
    ensures IsCorrect(a, t) ==>
      && |t| >= 2
      && forall i | 0 <= i < |t| :: IsCyrillic(t[i]) || (i == |t| - 1 && t[i] == '\n')
  {
    if IsRussian(t) {
      assert IsCyrillic(t[0]) && !IsAsciiDigit(t[0]);
      assert !IsNumber(t);
      assert !HasPunctuation(t);
    }
  }
}
