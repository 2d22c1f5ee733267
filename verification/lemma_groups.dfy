/**
 The token and lemma lists of src/task_2.py: the accepted tokens of all pages,
 grouped by their normal form, and the line format of `lemmas.txt`.
 */
module LemmaGroups {
  import opened Results
  import opened Strings
  import opened Dicts
  import opened Tokens
  import opened TermStats

  /** `get_tokens` (task_2): the token set after adding the accepted tokens of each page file. */
  function CollectTokens(a: Analyzer, init: set<string>, pages: seq<seq<string>>): (r: set<string>)
    ensures init <= r
    decreases |pages|
    ensures forall t :: t in r <==> t in init || exists i | 0 <= i < |pages| :: t in pages[i] && IsCorrect(a, t)
  {
    if pages == [] then init
    else
      assert forall i | 1 <= i < |pages| :: pages[i] == pages[1..][i - 1];
      CollectTokens(a, init + (set t | t in pages[0] && IsCorrect(a, t)), pages[1..])
  }

  /** The tokens of `s` that normalise to `l`, in order. */
  function Normalizing(normalize: string -> string, s: seq<string>, l: string): seq<string> {
    if s == [] then []
    else
      var n := |s| - 1;
      Normalizing(normalize, s[..n], l) + (if normalize(s[n]) == l then [s[n]] else [])
  }

  /** The length of every list: the quantity `write_lemmas` writes one token per. */
  function Sizes(groups: Dict<string, seq<string>>): (m: map<string, nat>)
    ensures m.Keys == groups.items.Keys
  {
    map l | l in groups.items :: |groups.items[l]|
  }

  /**
   `group_tokens_by_lemmas`, starting from an empty dictionary. `order` is
   the order in which the token set yields its elements.
   */
  function GroupByLemma(normalize: string -> string, order: seq<string>): (g: Dict<string, seq<string>>)
    ensures forall l :: l in g.items <==> exists t | t in order :: normalize(t) == l
    ensures forall l | l in g.items :: g.items[l] == Normalizing(normalize, order, l)
    ensures SumOver(g.keys, Sizes(g)) == |order|
  {
    if order == [] then Empty()
    else
      var n := |order| - 1;
      var prev := GroupByLemma(normalize, order[..n]);
      var g := Set(prev, normalize(order[n]), Extended(prev, normalize(order[n]), order[n]));
      GroupStep(normalize, order, prev, g);
      g
  }

  /** `lemma + ': '`, then `token + ' '` per token, then a line break. */
  function LemmaLine(l: string, tokens: seq<string>): string {
    Terminated(" ", [l + ":"] + tokens) + "\n"
  }

  /** `write_lemmas`: one line per lemma, in dictionary order. */
  function WriteLemmas(groups: Dict<string, seq<string>>): (content: string)
    ensures Writable(groups) ==> |ReadLines(content)| == |groups.keys|
  {
    if Writable(groups) then LemmaLinesWhole(groups); Concat(GroupLines(groups)) else Concat(GroupLines(groups))
  }

  /** The line of each lemma, in dictionary order. */
  function GroupLines(groups: Dict<string, seq<string>>): (lines: seq<string>)
    ensures |lines| == |groups.keys|
  {
    seq(|groups.keys|, i requires 0 <= i < |groups.keys| => LemmaLine(groups.keys[i], groups.items[groups.keys[i]]))
  }

  /** Lemmas and tokens that hold no whitespace, and no empty token: each group then fits on one line. */
  predicate Writable(groups: Dict<string, seq<string>>) {
    && (forall l | l in groups.items :: NoSpace(l))
    && (forall l, i | l in groups.items && 0 <= i < |groups.items[l]| :: groups.items[l][i] != [] && NoSpace(groups.items[l][i]))
  }

  lemma LemmaLinesWhole(groups: Dict<string, seq<string>>)
    requires Writable(groups)
    ensures ReadLines(Concat(GroupLines(groups))) == GroupLines(groups)
  {
    var lines := GroupLines(groups);
    forall i | 0 <= i < |lines| ensures IsLine(lines[i]) {
      GroupLineWhole(groups, i, lines[i]);
    }
    ReadLinesOfConcat(lines);
  }

  lemma GroupLineWhole(groups: Dict<string, seq<string>>, i: nat, line: string)
    requires Writable(groups) && i < |groups.keys|
    requires line == LemmaLine(groups.keys[i], groups.items[groups.keys[i]])
    ensures IsLine(line)
  {
    var l := groups.keys[i];
    assert l in groups.items;
    LemmaLineRoundTrip(l, groups.items[l]);
  }

  /** `write_tokens`: every token on a line of its own, in the order the set yields them. */
  function WriteTokens(order: seq<string>): (content: string)
    ensures (forall i | 0 <= i < |order| :: Unbroken(order[i])) ==> |ReadLines(content)| == |order|
  {
    var lines := seq(|order|, i requires 0 <= i < |order| => order[i] + "\n");
    if forall i | 0 <= i < |order| :: Unbroken(order[i]) then TokenLinesWhole(order, lines); Concat(lines) else Concat(lines)
  }

  lemma TokenLinesWhole(order: seq<string>, lines: seq<string>)
    requires forall i | 0 <= i < |order| :: Unbroken(order[i])
    requires |lines| == |order| && forall i | 0 <= i < |lines| :: lines[i] == order[i] + "\n"
    ensures ReadLines(Concat(lines)) == lines
  {
    forall i | 0 <= i < |lines| ensures IsLine(lines[i]) {
      assert lines[i][..|lines[i]| - 1] == order[i];
    }
    ReadLinesOfConcat(lines);
  }

  /** A lemma and its tokens, as read back from one line of `lemmas.txt`. */
  datatype LemmaEntry = LemmaEntry(head: string, tokens: seq<string>)

  /** Reads a line of `lemmas.txt`: the first word less its closing colon, then the tokens. */
  function ParseLemmaLine(line: string): (r: Option<LemmaEntry>)
    ensures r.Some? ==> [r.value.head + ":"] + r.value.tokens == Words(line)
  {
    var ws := Words(line);
    if ws == [] || ws[0][|ws[0]| - 1] != ':' then None
    else
      assert ws[0] == ws[0][..|ws[0]| - 1] + ":";
      Some(LemmaEntry(ws[0][..|ws[0]| - 1], ws[1..]))
  }

  // ---------------------------------------------------------------- lemmas

  lemma GroupStep(normalize: string -> string, order: seq<string>, prev: Dict<string, seq<string>>, g: Dict<string, seq<string>>)
    requires order != []
    requires forall l | l in prev.items :: prev.items[l] == Normalizing(normalize, order[..|order| - 1], l)
    requires forall l :: l in prev.items <==> exists t | t in order[..|order| - 1] :: normalize(t) == l
    requires SumOver(prev.keys, Sizes(prev)) == |order| - 1
    requires g == Set(prev, normalize(order[|order| - 1]), Extended(prev, normalize(order[|order| - 1]), order[|order| - 1]))
    ensures forall l :: l in g.items <==> exists t | t in order :: normalize(t) == l
    ensures forall l | l in g.items :: g.items[l] == Normalizing(normalize, order, l)
    ensures SumOver(g.keys, Sizes(g)) == |order|
  {
    GroupStepKeys(normalize, order, prev, g);
    GroupStepItems(normalize, order, prev, g);
    GroupStepSum(normalize(order[|order| - 1]), order[|order| - 1], prev, g);
  }

  lemma GroupStepKeys(normalize: string -> string, order: seq<string>, prev: Dict<string, seq<string>>, g: Dict<string, seq<string>>)
    requires order != []
    requires forall l :: l in prev.items <==> exists t | t in order[..|order| - 1] :: normalize(t) == l
    requires forall l :: l in g.items <==> l in prev.items || l == normalize(order[|order| - 1])
    ensures forall l :: l in g.items <==> exists t | t in order :: normalize(t) == l
  {
    var n := |order| - 1;
    assert order == order[..n] + [order[n]];
    assert forall t | t in order :: t in order[..n] || t == order[n];
  }

  /** The list of `l` with `t` appended, or `[t]` when `l` has none yet. */
  function Extended(groups: Dict<string, seq<string>>, l: string, t: string): (r: seq<string>)
    ensures |r| == (if l in groups.items then |groups.items[l]| else 0) + 1
  {
    (if l in groups.items then groups.items[l] else []) + [t]
  }

  lemma GroupStepItems(normalize: string -> string, order: seq<string>, prev: Dict<string, seq<string>>, g: Dict<string, seq<string>>)
    requires order != []
    requires forall l | l in prev.items :: prev.items[l] == Normalizing(normalize, order[..|order| - 1], l)
    requires forall l :: l in prev.items <==> exists t | t in order[..|order| - 1] :: normalize(t) == l
    requires g == Set(prev, normalize(order[|order| - 1]), Extended(prev, normalize(order[|order| - 1]), order[|order| - 1]))
    ensures forall l | l in g.items :: g.items[l] == Normalizing(normalize, order, l)
  {
    var n := |order| - 1;
    NormalizingAbsent(normalize, order[..n], normalize(order[n]));
  }

  lemma GroupStepSum(l: string, t: string, prev: Dict<string, seq<string>>, g: Dict<string, seq<string>>)
    requires g == Set(prev, l, Extended(prev, l, t))
    ensures SumOver(g.keys, Sizes(g)) == SumOver(prev.keys, Sizes(prev)) + 1
  {
    var v := Extended(prev, l, t);
    SizesOfSet(prev, l, v);
    if l in prev.items {
      SumOverUpdate(prev.keys, Sizes(prev), l, |v|);
    } else {
      SumOverUnchanged(prev.keys, Sizes(prev), l, 1);
      SumOverAppended(prev.keys, Sizes(prev)[l := 1], l);
    }
  }

  lemma SizesOfSet(groups: Dict<string, seq<string>>, l: string, v: seq<string>)
    ensures Sizes(Set(groups, l, v)) == Sizes(groups)[l := |v|]
  {
  }

  lemma SumOverAppended(keys: seq<string>, m: map<string, nat>, k: string)
    requires forall j | j in keys :: j in m
    requires k in m
    ensures SumOver(keys + [k], m) == SumOver(keys, m) + m[k]
  {
    assert (keys + [k])[..|keys|] == keys;
  }

  lemma {:induction false} NormalizingAbsent(normalize: string -> string, s: seq<string>, l: string)
    ensures (forall t | t in s :: normalize(t) != l) ==> Normalizing(normalize, s, l) == []
  {
    if s != [] {
      NormalizingAbsent(normalize, s[..|s| - 1], l);
    }
  }

  /** Every token in the list of `l` normalises to `l`, and no list is empty. */
  lemma {:induction false} NormalizingMeaning(normalize: string -> string, s: seq<string>, l: string)
    ensures forall t | t in Normalizing(normalize, s, l) :: normalize(t) == l && t in s
    ensures (exists t | t in s :: normalize(t) == l) ==> Normalizing(normalize, s, l) != []
  {
    if s != [] {
      var n := |s| - 1;
      var init := s[..n];
      NormalizingMeaning(normalize, init, l);
      assert s == init + [s[n]];
      var last := if normalize(s[n]) == l then [s[n]] else [];
      assert Normalizing(normalize, s, l) == Normalizing(normalize, init, l) + last;
      assert forall t | t in init :: t in s;
      if t :| t in s && normalize(t) == l {
        if t != s[n] {
          assert t in init;
        }
      }
    }
  }

  /** A token occurs in the list of its own normal form as often as in `s`, and in no other list. */
  lemma {:induction false} NormalizingCounts(normalize: string -> string, s: seq<string>, l: string, t: string)
    ensures multiset(Normalizing(normalize, s, l))[t] == if normalize(t) == l then multiset(s)[t] else 0
  {
    if s != [] {
      var n := |s| - 1;
      NormalizingCounts(normalize, s[..n], l, t);
      assert s == s[..n] + [s[n]];
    }
  }

  lemma {:induction false} DistinctCountsOnce(s: seq<string>, t: string)
    requires Distinct(s) && t in s
    ensures multiset(s)[t] == 1
  {
    var n := |s| - 1;
    assert s == s[..n] + [s[n]];
    if s[n] == t {
      assert t !in s[..n];
    } else {
      DistinctCountsOnce(s[..n], t);
    }
  }

  /**
   Grouping a set's enumeration puts every token in the list of its normal
   form exactly once and in no other list; every list is non-empty and
   holds only tokens of that normal form.
   */
  lemma GroupsPartitionTokens(normalize: string -> string, order: seq<string>)
    requires Distinct(order)
    ensures var g := GroupByLemma(normalize, order);
      && (forall t | t in order :: normalize(t) in g.items && multiset(g.items[normalize(t)])[t] == 1)
      && (forall t, l | t in order && l in g.items && l != normalize(t) :: t !in g.items[l])
      && (forall l | l in g.items :: g.items[l] != [] && forall t | t in g.items[l] :: normalize(t) == l)
  {
    var g := GroupByLemma(normalize, order);
    forall t | t in order ensures normalize(t) in g.items && multiset(g.items[normalize(t)])[t] == 1 {
      NormalizingCounts(normalize, order, normalize(t), t);
      DistinctCountsOnce(order, t);
    }
    forall t, l | t in order && l in g.items && l != normalize(t) ensures t !in g.items[l] {
      NormalizingCounts(normalize, order, l, t);
    }
    forall l | l in g.items ensures g.items[l] != [] && forall t | t in g.items[l] :: normalize(t) == l {
      NormalizingMeaning(normalize, order, l);
    }
  }

  /** A line of `lemmas.txt` reads back as the lemma and its tokens. */
  lemma LemmaLineRoundTrip(l: string, tokens: seq<string>)
    requires NoSpace(l)
    requires forall i | 0 <= i < |tokens| :: tokens[i] != [] && NoSpace(tokens[i])
    ensures IsLine(LemmaLine(l, tokens))
    ensures ParseLemmaLine(LemmaLine(l, tokens)) == Some(LemmaEntry(l, tokens))
  {
    var parts := [l + ":"] + tokens;
    assert !IsSpace(':') by {
      NotSpace(':');
    }
    assert NoSpace(l + ":");
    TerminatedLine(parts);
    assert IsSpace('\n');
    WordsOfTerminated(parts, "\n");
    assert (l + ":")[..|l|] == l;
  }

  /** Reading `lemmas.txt` line by line gives the lemmas in dictionary order with their tokens. */
  lemma WriteLemmasRoundTrip(groups: Dict<string, seq<string>>)
    requires forall l | l in groups.items :: NoSpace(l)
    requires forall l, i | l in groups.items && 0 <= i < |groups.items[l]| :: groups.items[l][i] != [] && NoSpace(groups.items[l][i])
    ensures |ReadLines(WriteLemmas(groups))| == |groups.keys|
    ensures forall i | 0 <= i < |groups.keys| ::
      ParseLemmaLine(ReadLines(WriteLemmas(groups))[i]) == Some(LemmaEntry(groups.keys[i], groups.items[groups.keys[i]]))
  {
    var lines := seq(|groups.keys|, i requires 0 <= i < |groups.keys| => LemmaLine(groups.keys[i], groups.items[groups.keys[i]]));
    forall i | 0 <= i < |lines| ensures IsLine(lines[i]) && ParseLemmaLine(lines[i]) == Some(LemmaEntry(groups.keys[i], groups.items[groups.keys[i]])) {
      LemmaLineRoundTrip(groups.keys[i], groups.items[groups.keys[i]]);
    }
    ReadLinesOfConcat(lines);
  }

  /** Reading `tokens.txt` line by line gives one line per token, the token followed by its line break. */
  lemma WriteTokensRoundTrip(order: seq<string>)
    requires forall i | 0 <= i < |order| :: Unbroken(order[i])
    ensures |ReadLines(WriteTokens(order))| == |order|
    ensures forall i | 0 <= i < |order| :: ReadLines(WriteTokens(order))[i] == order[i] + "\n"
  {
    var lines := seq(|order|, i requires 0 <= i < |order| => order[i] + "\n");
    forall i | 0 <= i < |lines| ensures IsLine(lines[i]) {
      assert lines[i][..|lines[i]| - 1] == order[i];
    }
    ReadLinesOfConcat(lines);
  }
}
