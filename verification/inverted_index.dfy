/**
 The inverted index of src/task_3.py: the accepted tokens and lemmas of each
 page listed in the page index, and the map from every lemma to the ids of the
 pages that hold it.
 */
module InvertedIndex {
  import opened Strings
  import opened Dicts
  import opened Tokens
  import opened TermStats

  /** `get_tokens` (task_3): the set of accepted tokens of a page. */
  function PageTokenSet(a: Analyzer, tokens: seq<string>): (r: set<string>)
    ensures forall t | t in r :: IsCorrect(a, t)
  {
    set t | t in tokens && IsCorrect(a, t)
  }

  /** The normal forms of a set of tokens. */
  function Lemmas(normalize: string -> string, tokens: set<string>): set<string> {
    set t | t in tokens :: normalize(t)
  }

  /** `get_lemmas`: the loop over the token set, in whatever order the set yields them. */
  method GetLemmas(normalize: string -> string, tokens: set<string>) returns (lemmas: set<string>)
    ensures forall l :: l in lemmas <==> exists t | t in tokens :: normalize(t) == l
    ensures |lemmas| <= |tokens|
  {
    lemmas := {};
    var rest := tokens;
    while rest != {}
      invariant rest <= tokens
      invariant forall l :: l in lemmas <==> exists t | t in tokens - rest :: normalize(t) == l
      invariant |lemmas| <= |tokens - rest|
      decreases |rest|
    {
      var t :| t in rest;
      var l := normalize(t);
      if l !in lemmas {
        lemmas := lemmas + {l};
      }
      assert tokens - (rest - {t}) == (tokens - rest) + {t};
      rest := rest - {t};
    }
  }

  /** `line.rsplit(' ', 1)[0]`: the part of an index line before its last space, or the whole line. */
  function RSplitHead(line: string): (id: string)
    ensures ' ' !in line ==> id == line
    ensures ' ' in line ==> |id| < |line| && line[|id|] == ' ' && id == line[..|id|] && ' ' !in line[|id| + 1..]
  {
    if ' ' !in line then line
    else if line[|line| - 1] == ' ' then line[..|line| - 1]
    else
      var init := line[..|line| - 1];
      assert ' ' in init;
      var id := RSplitHead(init);
      assert line[|id| + 1..] == init[|id| + 1..] + [line[|line| - 1]];
      id
  }

  /** A page id with the lemmas of its page. */
  datatype IndexedPage = IndexedPage(id: string, lemmas: set<string>)

  /**
   The pages of the main loop: the id read from each index line and the lemmas
   of the page file `<id>.txt`, whose tokens come from `tokensOf`.
   */
  function IndexedPages(a: Analyzer, lines: seq<string>, tokensOf: string -> seq<string>): (r: seq<IndexedPage>)
    ensures |r| == |lines|
    ensures forall i | 0 <= i < |lines| :: r[i].id == RSplitHead(lines[i])
    ensures forall i | 0 <= i < |lines| :: r[i].lemmas == Lemmas(a.normalize, PageTokenSet(a, tokensOf(RSplitHead(lines[i]))))
    ensures forall i, l | 0 <= i < |lines| ::
      l in r[i].lemmas <==> exists t | t in tokensOf(r[i].id) && IsCorrect(a, t) :: a.normalize(t) == l
  {
    seq(|lines|, i requires 0 <= i < |lines| =>
      var id := RSplitHead(lines[i]);
      IndexedPage(id, Lemmas(a.normalize, PageTokenSet(a, tokensOf(id)))))
  }

  /** `set(page_id[0])`: iterating a string yields its characters, so this is the set of one-character strings. */
  function Chars(id: string): set<string> {
    set i | 0 <= i < |id| :: [id[i]]
  }

  /**
   One pass of the main loop as written: a lemma already in the index gets the
   page id added, a new lemma starts from the characters of the id.
   */
  function AddPage(index: map<string, set<string>>, page: IndexedPage): (r: map<string, set<string>>)
    ensures r.Keys == index.Keys + page.lemmas
    ensures forall l | l in index :: index[l] <= r[l]
    ensures forall l | l in r && l !in page.lemmas :: r[l] == index[l]
  {
    map l | l in index.Keys + page.lemmas ::
      if l !in page.lemmas then index[l]
      else if l in index then index[l] + {page.id}
      else Chars(page.id)
  }

  /** The main loop of task_3.py over all pages, as written. */
  function Build(pages: seq<IndexedPage>): (r: map<string, set<string>>)
    ensures forall l :: l in r <==> exists i | 0 <= i < |pages| :: l in pages[i].lemmas
  {
    if pages == [] then map[]
    else
      var n := |pages| - 1;
      assert forall i | 0 <= i < n :: pages[..n][i] == pages[i];
      AddPage(Build(pages[..n]), pages[n])
  }

  /** One pass of the main loop as intended: a new lemma starts from the set holding the page id. */
  function AddPageCorrected(index: map<string, set<string>>, page: IndexedPage): (r: map<string, set<string>>)
    ensures r.Keys == index.Keys + page.lemmas
    ensures forall l | l in index :: index[l] <= r[l]
    ensures forall l | l in r && l !in page.lemmas :: r[l] == index[l]
    ensures forall l | l in page.lemmas :: page.id in r[l]
  {
    map l | l in index.Keys + page.lemmas ::
      if l !in page.lemmas then index[l]
      else if l in index then index[l] + {page.id}
      else {page.id}
  }

  /** The ids of the pages that hold `l`. */
  function PagesWith(pages: seq<IndexedPage>, l: string): set<string> {
    set i | 0 <= i < |pages| && l in pages[i].lemmas :: pages[i].id
  }

  /** The position of the first page that holds `l`. */
  function FirstHolding(pages: seq<IndexedPage>, l: string): (f: nat)
    requires exists i | 0 <= i < |pages| :: l in pages[i].lemmas
    ensures f < |pages| && l in pages[f].lemmas
    ensures forall i | 0 <= i < f :: l !in pages[i].lemmas
  {
    if l in pages[0].lemmas then 0
    else
      assert forall i | 1 <= i < |pages| :: pages[i] == pages[1..][i - 1];
      1 + FirstHolding(pages[1..], l)
  }

  /** The ids of the pages after position `f` that hold `l`. */
  function PagesWithAfter(pages: seq<IndexedPage>, l: string, f: nat): set<string> {
    set i | f < i < |pages| && l in pages[i].lemmas :: pages[i].id
  }

  /** The main loop with the seeding corrected: every lemma maps to the ids of the pages that hold it. */
  function BuildCorrected(pages: seq<IndexedPage>): (r: map<string, set<string>>)
    ensures forall l :: l in r <==> exists i | 0 <= i < |pages| :: l in pages[i].lemmas
    ensures forall l | l in r :: r[l] == PagesWith(pages, l)
  {
    if pages == [] then map[]
    else
      var n := |pages| - 1;
      var prev := BuildCorrected(pages[..n]);
      var r := AddPageCorrected(prev, pages[n]);
      PagesWithStep(pages, pages[..n], prev, r);
      r
  }

  /** `write_inverted_index`: one line per lemma, the lemma and each id followed by a space. */
  function IndexLine(l: string, ids: seq<string>): string {
    Terminated(" ", [l] + ids) + "\n"
  }

  /** `line` is the line of some lemma of the index. */
  predicate IsIndexLine(index: map<string, set<string>>, idOrder: string -> seq<string>, line: string) {
    exists l | l in index :: line == IndexLine(l, idOrder(l))
  }

  /**
   The lines of the index file. Sets and the dictionary built from them have
   no order the program controls, so `order` enumerates the lemmas and
   `idOrder` the ids of each.
   */
  function IndexLines(index: map<string, set<string>>, order: seq<string>, idOrder: string -> seq<string>): (r: seq<string>)
    requires Distinct(order) && forall l :: l in order <==> l in index
    requires forall l | l in index :: Distinct(idOrder(l)) && forall x :: x in idOrder(l) <==> x in index[l]
    ensures |r| == |index|
    ensures forall l | l in index :: exists i | 0 <= i < |r| :: r[i] == IndexLine(l, idOrder(l))
    ensures forall i | 0 <= i < |r| :: IsIndexLine(index, idOrder, r[i])
  {
    DistinctCard(order, index.Keys);
    var r := seq(|order|, i requires 0 <= i < |order| => IndexLine(order[i], idOrder(order[i])));
    LinesCoverIndex(index, order, idOrder, r);
    r
  }

  /** Lines written in an enumeration of the index's lemmas: a line for every lemma, and only for them. */
  lemma LinesCoverIndex(index: map<string, set<string>>, order: seq<string>, idOrder: string -> seq<string>, r: seq<string>)
    requires forall l :: l in order <==> l in index
    requires |r| == |order| && forall i | 0 <= i < |order| :: r[i] == IndexLine(order[i], idOrder(order[i]))
    ensures forall l | l in index :: exists i | 0 <= i < |r| :: r[i] == IndexLine(l, idOrder(l))
    ensures forall i | 0 <= i < |r| :: IsIndexLine(index, idOrder, r[i])
  {
    forall l | l in index ensures exists i | 0 <= i < |r| :: r[i] == IndexLine(l, idOrder(l)) {
      var i :| 0 <= i < |order| && order[i] == l;
      assert r[i] == IndexLine(l, idOrder(l));
    }
    forall i | 0 <= i < |r| ensures IsIndexLine(index, idOrder, r[i]) {
      var l := order[i];
      assert l in order;
      assert l in index && r[i] == IndexLine(l, idOrder(l));
    }
  }

  /** A sequence of distinct elements that enumerates a set has the set's size. */
  lemma {:induction false} DistinctCard(order: seq<string>, keys: set<string>)
    requires Distinct(order) && forall l :: l in order <==> l in keys
    ensures |order| == |keys|
    decreases |order|
  {
    if order == [] {
      assert keys == {};
    } else {
      var n := |order| - 1;
      var init := order[..n];
      assert forall l :: l in init <==> l in keys - {order[n]};
      DistinctCard(init, keys - {order[n]});
    }
  }

  // ---------------------------------------------------------------- lemmas

  /** The token set of task_3 is the key set of the token counts of task_4. */
  lemma PageTokenSetIsCountKeys(a: Analyzer, tokens: seq<string>)
    ensures PageTokenSet(a, tokens) == GetTokens(a, tokens).items.Keys
  {
  }

  /** `get_lemmas` loses nothing and invents nothing. */
  lemma LemmasMeaning(normalize: string -> string, tokens: set<string>)
    ensures forall l :: l in Lemmas(normalize, tokens) <==> exists t | t in tokens :: normalize(t) == l
  {
  }

  /** An index line `"<id> <url>"` with a space-free url yields the id. */
  lemma {:induction false} RSplitHeadOfRecord(id: string, rest: string)
    requires ' ' !in rest
    ensures RSplitHead(id + " " + rest) == id
    decreases |rest|
  {
    var line := id + " " + rest;
    assert line[|id|] == ' ';
    if rest == [] {
      assert line[..|line| - 1] == id;
    } else {
      var init := rest[..|rest| - 1];
      assert line[..|line| - 1] == id + " " + init;
      assert line[|line| - 1] == rest[|rest| - 1];
      RSplitHeadOfRecord(id, init);
    }
  }

  lemma PagesWithStep(pages: seq<IndexedPage>, init: seq<IndexedPage>, prev: map<string, set<string>>, r: map<string, set<string>>)
    requires pages != [] && init == pages[..|pages| - 1]
    requires forall l | l in prev :: prev[l] == PagesWith(init, l)
    requires forall l :: l in prev <==> exists i | 0 <= i < |init| :: l in init[i].lemmas
    requires r == AddPageCorrected(prev, pages[|pages| - 1])
    ensures forall l :: l in r <==> exists i | 0 <= i < |pages| :: l in pages[i].lemmas
    ensures forall l | l in r :: r[l] == PagesWith(pages, l)
  {
    var n := |pages| - 1;
    assert forall i | 0 <= i < n :: init[i] == pages[i];
    forall l | l in r ensures r[l] == PagesWith(pages, l) {
      PagesWithOfPrefix(pages, l);
      if l !in prev {
        assert PagesWith(init, l) == {};
      }
    }
  }

  lemma PagesWithOfPrefix(pages: seq<IndexedPage>, l: string)
    requires pages != []
    ensures
      var n := |pages| - 1;
      PagesWith(pages, l) == PagesWith(pages[..n], l) + (if l in pages[n].lemmas then {pages[n].id} else {})
  {
    var n := |pages| - 1;
    assert forall i | 0 <= i < n :: pages[..n][i] == pages[i];
  }

  /** Processing a page never removes an id from an entry. */
  lemma {:induction false} BuildOnlyGrows(pages: seq<IndexedPage>, k: nat)
    requires k <= |pages|
    ensures forall l | l in Build(pages[..k]) :: l in Build(pages) && Build(pages[..k])[l] <= Build(pages)[l]
    decreases |pages| - k
  {
    if k == |pages| {
      assert pages[..k] == pages;
    } else {
      var n := |pages| - 1;
      var init := pages[..n];
      assert init[..k] == pages[..k];
      BuildOnlyGrows(init, k);
      BuildSnoc(pages);
    }
  }

  lemma BuildSnoc(pages: seq<IndexedPage>)
    requires pages != []
    ensures Build(pages) == AddPage(Build(pages[..|pages| - 1]), pages[|pages| - 1])
  {
  }

  /**
   What the main loop as written computes: the characters of the id of the
   first page holding the lemma, and the whole ids of the later ones.
   */
  lemma {:induction false} BuildAsWritten(pages: seq<IndexedPage>)
    ensures forall l | l in Build(pages) ::
      Build(pages)[l] == Chars(pages[FirstHolding(pages, l)].id) + PagesWithAfter(pages, l, FirstHolding(pages, l))
  {
    if pages != [] {
      var n := |pages| - 1;
      var init := pages[..n];
      BuildAsWritten(init);
      var prev := Build(init);
      BuildSnoc(pages);
      forall l | l in Build(pages)
        ensures Build(pages)[l] == Chars(pages[FirstHolding(pages, l)].id) + PagesWithAfter(pages, l, FirstHolding(pages, l))
      {
        BuildAsWrittenStep(pages, prev, l);
      }
    }
  }

  lemma BuildAsWrittenStep(pages: seq<IndexedPage>, prev: map<string, set<string>>, l: string)
    requires pages != [] && prev == Build(pages[..|pages| - 1])
    requires forall l | l in prev ::
      prev[l] == Chars(pages[..|pages| - 1][FirstHolding(pages[..|pages| - 1], l)].id) + PagesWithAfter(pages[..|pages| - 1], l, FirstHolding(pages[..|pages| - 1], l))
    requires l in AddPage(prev, pages[|pages| - 1])
    ensures
      var r := AddPage(prev, pages[|pages| - 1]);
      r[l] == Chars(pages[FirstHolding(pages, l)].id) + PagesWithAfter(pages, l, FirstHolding(pages, l))
  {
    var n := |pages| - 1;
    var init := pages[..n];
    if l in prev {
      var f := FirstHolding(init, l);
      BuildStepKnown(pages, init, prev, l, f);
    } else {
      BuildStepNew(pages, prev, l);
    }
  }

  /** A lemma some earlier page holds: its first holder stays first, and the new page's id joins the rest. */
  lemma BuildStepKnown(pages: seq<IndexedPage>, init: seq<IndexedPage>, prev: map<string, set<string>>, l: string, f: nat)
    requires pages != [] && init == pages[..|pages| - 1] && f < |init| && l in prev
    requires l in init[f].lemmas && forall i | 0 <= i < f :: l !in init[i].lemmas
    requires prev[l] == Chars(init[f].id) + PagesWithAfter(init, l, f)
    ensures FirstHolding(pages, l) == f
    ensures AddPage(prev, pages[|pages| - 1])[l] == Chars(pages[f].id) + PagesWithAfter(pages, l, f)
  {
    var n := |pages| - 1;
    assert forall i | 0 <= i < f :: pages[..n][i] == pages[i];
    FirstHoldingUnique(pages, l, f);
    PagesWithAfterStep(pages, l, f);
  }

  /** A lemma no earlier page holds: the new page is its first holder, and no page comes after it. */
  lemma BuildStepNew(pages: seq<IndexedPage>, prev: map<string, set<string>>, l: string)
    requires pages != [] && prev == Build(pages[..|pages| - 1])
    requires l !in prev && l in AddPage(prev, pages[|pages| - 1])
    ensures FirstHolding(pages, l) == |pages| - 1
    ensures AddPage(prev, pages[|pages| - 1])[l] == Chars(pages[|pages| - 1].id) + PagesWithAfter(pages, l, |pages| - 1)
  {
    var n := |pages| - 1;
    assert forall i | 0 <= i < n :: pages[..n][i] == pages[i];
    FirstHoldingUnique(pages, l, n);
    assert PagesWithAfter(pages, l, n) == {};
  }

  /** Any position holding `l` with no earlier one holding it is the first. */
  lemma FirstHoldingUnique(pages: seq<IndexedPage>, l: string, f: nat)
    requires f < |pages| && l in pages[f].lemmas
    requires forall i | 0 <= i < f :: l !in pages[i].lemmas
    ensures FirstHolding(pages, l) == f
  {
    var g := FirstHolding(pages, l);
    assert l in pages[g].lemmas;
    assert l in pages[f].lemmas;
  }

  lemma PagesWithAfterStep(pages: seq<IndexedPage>, l: string, f: nat)
    requires f < |pages| - 1
    ensures
      var n := |pages| - 1;
      PagesWithAfter(pages, l, f) == PagesWithAfter(pages[..n], l, f) + (if l in pages[n].lemmas then {pages[n].id} else {})
  {
    var n := |pages| - 1;
    assert forall i | 0 <= i < n :: pages[..n][i] == pages[i];
  }

  /** With one-character ids the index as written is the intended one. */
  lemma {:induction false} SingleCharIdsAgree(pages: seq<IndexedPage>)
    requires forall i | 0 <= i < |pages| :: |pages[i].id| == 1
    ensures Build(pages) == BuildCorrected(pages)
  {
    if pages != [] {
      var n := |pages| - 1;
      SingleCharIdsAgree(pages[..n]);
      assert Chars(pages[n].id) == {pages[n].id} by {
        assert pages[n].id == [pages[n].id[0]];
      }
    }
  }

  /** The page with id "12" holds a lemma never seen before. */
  const TwelfthPage: IndexedPage := IndexedPage("12", {"мир"})

  /** The entry is seeded with the characters "1" and "2" instead of the id "12". */
  lemma MultiCharIdIsSplit()
    ensures Build([TwelfthPage])["мир"] == {"1", "2"}
    ensures BuildCorrected([TwelfthPage])["мир"] == {"12"}
  {
    assert [TwelfthPage][..0] == [];
    assert Chars("12") == {"1", "2"} by {
      assert "12"[0] == '1' && "12"[1] == '2';
      assert ['1'] == "1" && ['2'] == "2";
    }
    assert PagesWith([TwelfthPage], "мир") == {"12"} by {
      assert "мир" in [TwelfthPage][0].lemmas;
    }
  }

  /** Splitting an index line on whitespace gives back the lemma and the ids. */
  lemma IndexLineWords(l: string, ids: seq<string>)
    requires l != [] && NoSpace(l)
    requires forall i | 0 <= i < |ids| :: ids[i] != [] && NoSpace(ids[i])
    ensures Words(IndexLine(l, ids)) == [l] + ids
  {
    assert IsSpace('\n');
    WordsOfTerminated([l] + ids, "\n");
  }
}
