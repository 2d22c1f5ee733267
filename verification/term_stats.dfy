/**
 Term statistics of src/task_4.py: token counts per page, token and lemma TF,
 document frequency and the linear IDF `pages / df`, and the records that
 `write_tf_idf` emits. Python floats are exact `real`s here.
 */
module TermStats {
  import opened Results
  import opened Dicts
  import opened Tokens

  /** The occurrence counts of one page's accepted tokens, keyed in first-occurrence order. */
  type Counts = Dict<string, nat>

  // ---------------------------------------------------------------- sums

  /** The sum of `m` over the listed keys. */
  function SumOver<K>(keys: seq<K>, m: map<K, nat>): nat
    requires forall k | k in keys :: k in m
  {
    if keys == [] then 0 else SumOver(keys[..|keys| - 1], m) + m[keys[|keys| - 1]]
  }

  function SumOverReal<K>(keys: seq<K>, m: map<K, real>): real
    requires forall k | k in keys :: k in m
  {
    if keys == [] then 0.0 else SumOverReal(keys[..|keys| - 1], m) + m[keys[|keys| - 1]]
  }

  /** `sum(d.values())` */
  function Total(d: Dict<string, nat>): nat {
    SumOver(d.keys, d.items)
  }

  function Get(d: Dict<string, nat>, k: string): nat {
    if k in d.items then d.items[k] else 0
  }

  /** `d[k] += w` when `k` is a key, `d[k] = w` otherwise. */
  function Accumulate(d: Dict<string, nat>, k: string, w: nat): (r: Dict<string, nat>)
    ensures forall j :: j in r.items <==> j in d.items || j == k
    ensures r.items[k] == Get(d, k) + w
    ensures forall j | j in d.items && j != k :: r.items[j] == d.items[j]
    ensures Total(r) == Total(d) + w
  {
    AccumulateTotal(d, k, w);
    Set(d, k, Get(d, k) + w)
  }

  // ---------------------------------------------------------------- token counts

  /** The counting loop of `get_tokens`: each token with the number of its occurrences. */
  function CountTokens(s: seq<string>): (r: Counts)
    ensures forall t :: t in r.items <==> t in s
    ensures forall t | t in r.items :: r.items[t] == multiset(s)[t] && r.items[t] >= 1
    ensures Total(r) == |s|
  {
    if s == [] then Empty()
    else
      var init := s[..|s| - 1];
      assert s == init + [s[|s| - 1]];
      Accumulate(CountTokens(init), s[|s| - 1], 1)
  }

  /** `get_tokens`: the counts of the tokens that `is_correct` accepts. */
  function GetTokens(a: Analyzer, tokens: seq<string>): (r: Counts)
    ensures forall t :: t in r.items <==> t in tokens && IsCorrect(a, t)
    ensures forall t | t in r.items :: r.items[t] == multiset(tokens)[t]
    ensures Total(r) == |Accepted(a, tokens)|
  {
    AcceptedKeepsCounts(a, tokens);
    CountTokens(Accepted(a, tokens))
  }

  /** `get_pages_tokens`: the counts of every page listed in the index, in index order. */
  function PagesTokens(a: Analyzer, pagesTokens: seq<seq<string>>): (r: seq<Counts>)
    ensures |r| == |pagesTokens|
    ensures forall i | 0 <= i < |r| :: r[i] == GetTokens(a, pagesTokens[i])
    ensures forall i, t | 0 <= i < |r| :: t in r[i].items <==> t in pagesTokens[i] && IsCorrect(a, t)
    ensures forall i, t | 0 <= i < |r| && t in r[i].items :: r[i].items[t] == multiset(pagesTokens[i])[t]
  {
    seq(|pagesTokens|, i requires 0 <= i < |pagesTokens| => GetTokens(a, pagesTokens[i]))
  }

  // ---------------------------------------------------------------- token TF

  /** One page of `calculate_token_tf`: each count divided by the page's total. */
  function PageTf(page: Counts): (r: Result<Dict<string, real>>)
    ensures r.Err? <==> page.keys != [] && Total(page) == 0
    ensures r.Err? ==> r.error == ZeroDivisionError
    ensures r.Ok? ==> r.value.keys == page.keys
    ensures r.Ok? ==> forall t | t in r.value.items :: r.value.items[t] == page.items[t] as real / Total(page) as real
    ensures r.Ok? && page.keys != [] ==> SumOverReal(r.value.keys, r.value.items) == 1.0
  {
    if page.keys == [] then Ok(Empty())
    else if Total(page) == 0 then Err(ZeroDivisionError)
    else
      var tf := FromKeys(page.keys, t requires t in page.items => page.items[t] as real / Total(page) as real);
      FractionsSumToOne(page, tf);
      Ok(tf)
  }

  /** `calculate_token_tf`: the first page whose division fails aborts the whole list. */
  function TokenTf(pages: seq<Counts>): (r: Result<seq<Dict<string, real>>>)
    ensures r.Ok? <==> forall i | 0 <= i < |pages| :: PageTf(pages[i]).Ok?
    ensures r.Err? ==> r.error == ZeroDivisionError
    ensures r.Ok? ==> |r.value| == |pages|
    ensures r.Ok? ==> forall i | 0 <= i < |pages| :: r.value[i] == PageTf(pages[i]).value
  {
    if pages == [] then Ok([])
    else
      match PageTf(pages[0])
      case Err(e) => Err(e)
      case Ok(first) =>
        match TokenTf(pages[1..])
        case Err(e) => Err(e)
        case Ok(rest) =>
          assert forall i | 1 <= i < |pages| :: pages[i] == pages[1..][i - 1];
          Ok([first] + rest)
  }

  // ---------------------------------------------------------------- document frequency and IDF

  /** `find_token_entrance_count_among_pages` */
  function DocFreq<V>(pages: seq<Dict<string, V>>, k: string): (n: nat)
    ensures n <= |pages|
    ensures n > 0 <==> exists i | 0 <= i < |pages| :: k in pages[i].items
  {
    if pages == [] then 0
    else
      var m := |pages| - 1;
      assert forall i | 0 <= i < m :: pages[..m][i] == pages[i];
      DocFreq(pages[..m], k) + (if k in pages[m].items then 1 else 0)
  }

  /** Appends the elements of `ks` that are not yet in `v`, in order. */
  function AddNew(v: seq<string>, ks: seq<string>): (r: seq<string>)
    decreases |ks|
    requires Distinct(v)
    ensures Distinct(r)
    ensures forall k :: k in r <==> k in v || k in ks
  {
    if ks == [] then v
    else AddNew(if ks[0] in v then v else v + [ks[0]], ks[1..])
  }

  /** Every key of every page, each once, in the order the pages and their keys list them. */
  function Vocabulary<V>(pages: seq<Dict<string, V>>): (r: seq<string>)
    ensures Distinct(r)
    ensures forall k :: k in r <==> exists i | 0 <= i < |pages| :: k in pages[i].items
  {
    if pages == [] then []
    else
      var m := |pages| - 1;
      assert forall i | 0 <= i < m :: pages[..m][i] == pages[i];
      AddNew(Vocabulary(pages[..m]), pages[m].keys)
  }

  /**
   `calculate_token_idf` and, applied to the lemma TF maps, `calculate_lemmas_idf`:
   `len(pages) / df` for every key of every page.
   */
  function Idf<V>(pages: seq<Dict<string, V>>): (r: Dict<string, real>)
    ensures forall k :: k in r.items <==> exists i | 0 <= i < |pages| :: k in pages[i].items
    ensures forall k | k in r.items :: 1 <= DocFreq(pages, k) <= |pages|
    ensures forall k | k in r.items :: r.items[k] == |pages| as real / DocFreq(pages, k) as real >= 1.0
  {
    var vocabulary := Vocabulary(pages);
    forall i | 0 <= i < |vocabulary| ensures DocFreq(pages, vocabulary[i]) > 0 {
      assert vocabulary[i] in vocabulary;
    }
    var r := FromKeys(vocabulary, k requires DocFreq(pages, k) > 0 => |pages| as real / DocFreq(pages, k) as real);
    forall k | k in r.items ensures r.items[k] >= 1.0 {
      RatioAtLeastOne(|pages|, DocFreq(pages, k));
    }
    r
  }

  // ---------------------------------------------------------------- lemma TF

  /** The sum of the counts of the listed tokens that normalise to `l`. */
  function GroupSum(normalize: string -> string, keys: seq<string>, counts: map<string, nat>, l: string): nat
    requires forall t | t in keys :: t in counts
  {
    if keys == [] then 0
    else
      var m := |keys| - 1;
      GroupSum(normalize, keys[..m], counts, l) + (if normalize(keys[m]) == l then counts[keys[m]] else 0)
  }

  /** The first loop of `calculate_lemma_tf`: the counts of one page added up per normal form. */
  function GroupCounts(normalize: string -> string, keys: seq<string>, counts: map<string, nat>): (g: Dict<string, nat>)
    requires forall t | t in keys :: t in counts
    ensures forall l :: l in g.items <==> exists t | t in keys :: normalize(t) == l
    ensures forall l | l in g.items :: g.items[l] == GroupSum(normalize, keys, counts, l)
    ensures Total(g) == SumOver(keys, counts)
  {
    if keys == [] then Empty()
    else
      var m := |keys| - 1;
      var prev := GroupCounts(normalize, keys[..m], counts);
      var g := Accumulate(prev, normalize(keys[m]), counts[keys[m]]);
      GroupStep(normalize, keys, keys[..m], counts, prev, g);
      g
  }

  /**
   One page of `calculate_lemma_tf`: per normal form, the summed counts divided
   by the number of DISTINCT tokens of the page, not by their total.
   */
  function PageLemmaTf(normalize: string -> string, page: Counts): (r: Dict<string, real>)
    ensures forall l :: l in r.items <==> exists t | t in page.items :: normalize(t) == l
    ensures forall l | l in r.items :: r.items[l] == GroupSum(normalize, page.keys, page.items, l) as real / |page.keys| as real
    ensures page.keys != [] ==> SumOverReal(r.keys, r.items) == Total(page) as real / |page.keys| as real
  {
    if page.keys == [] then
      assert forall t | t in page.items :: t in page.keys;
      Empty()
    else
      var g := GroupCounts(normalize, page.keys, page.items);
      var n := |page.keys| as real;
      var tf := FromKeys(g.keys, l requires l in g.items => g.items[l] as real / n);
      PageLemmaTfFacts(normalize, page, g, tf);
      tf
  }

  lemma PageLemmaTfFacts(normalize: string -> string, page: Counts, g: Dict<string, nat>, tf: Dict<string, real>)
    requires page.keys != [] && g == GroupCounts(normalize, page.keys, page.items)
    requires tf.keys == g.keys
    requires forall l | l in tf.items :: l in g.items && tf.items[l] == g.items[l] as real / |page.keys| as real
    ensures forall l :: l in tf.items <==> exists t | t in page.items :: normalize(t) == l
    ensures forall l | l in tf.items :: tf.items[l] == GroupSum(normalize, page.keys, page.items, l) as real / |page.keys| as real
    ensures SumOverReal(tf.keys, tf.items) == Total(page) as real / |page.keys| as real
  {
    SameKeys(tf, g);
    assert forall t :: t in page.items <==> t in page.keys;
    SumScaled(g.keys, g.items, tf.items, |page.keys| as real);
  }

  /** Dictionaries with the same key list have the same keys. */
  lemma SameKeys<V, W>(a: Dict<string, V>, b: Dict<string, W>)
    requires a.keys == b.keys
    ensures forall k :: k in a.items <==> k in b.items
  {
    forall k ensures k in a.items <==> k in b.items {
      if k in a.items {
        assert k in a.keys;
      }
      if k in b.items {
        assert k in b.keys;
      }
    }
  }

  /** `calculate_lemma_tf` */
  function LemmaTf(normalize: string -> string, pages: seq<Counts>): (r: seq<Dict<string, real>>)
    ensures |r| == |pages|
    ensures forall i | 0 <= i < |pages| :: r[i] == PageLemmaTf(normalize, pages[i])
    ensures forall i, l | 0 <= i < |pages| :: l in r[i].items <==> exists t | t in pages[i].items :: normalize(t) == l
    ensures forall i | 0 <= i < |pages| && pages[i].keys != [] ::
      SumOverReal(r[i].keys, r[i].items) == Total(pages[i]) as real / |pages[i].keys| as real
  {
    seq(|pages|, i requires 0 <= i < |pages| => PageLemmaTf(normalize, pages[i]))
  }

  // ---------------------------------------------------------------- write_tf_idf

  /** One line of a TF-IDF file: the term, its TF on the page and its IDF. */
  datatype TfIdfRecord = TfIdfRecord(term: string, tf: real, idf: real)

  function PageRecords(terms: seq<string>, tf: map<string, real>, idf: Dict<string, real>): (r: Result<seq<TfIdfRecord>>)
    requires forall t | t in terms :: t in tf
    ensures r.Ok? <==> forall t | t in terms :: t in idf.items
    ensures r.Err? ==> r.error == KeyError
    ensures r.Ok? ==> |r.value| == |terms|
    ensures r.Ok? ==> forall i | 0 <= i < |terms| :: r.value[i] == TfIdfRecord(terms[i], tf[terms[i]], idf.items[terms[i]])
  {
    if terms == [] then Ok([])
    else if terms[0] !in idf.items then Err(KeyError)
    else
      match PageRecords(terms[1..], tf, idf)
      case Err(e) => Err(e)
      case Ok(rest) =>
        assert forall i | 1 <= i < |terms| :: terms[i] == terms[1..][i - 1];
        Ok([TfIdfRecord(terms[0], tf[terms[0]], idf.items[terms[0]])] + rest)
  }

  /** `write_tf_idf`: per page, one record per term of its TF map; a term missing from the IDF map raises `KeyError`. */
  function WriteTfIdf(tf: seq<Dict<string, real>>, idf: Dict<string, real>): (r: Result<seq<seq<TfIdfRecord>>>)
    ensures r.Ok? <==> forall i, t | 0 <= i < |tf| && t in tf[i].items :: t in idf.items
    ensures r.Err? ==> r.error == KeyError
    ensures r.Ok? ==> |r.value| == |tf|
    ensures r.Ok? ==> forall i | 0 <= i < |tf| :: PageRecords(tf[i].keys, tf[i].items, idf) == Ok(r.value[i])
  {
    if tf == [] then Ok([])
    else
      match PageRecords(tf[0].keys, tf[0].items, idf)
      case Err(e) => Err(e)
      case Ok(first) =>
        match WriteTfIdf(tf[1..], idf)
        case Err(e) => Err(e)
        case Ok(rest) =>
          assert forall i | 1 <= i < |tf| :: tf[i] == tf[1..][i - 1];
          Ok([first] + rest)
  }

  // ---------------------------------------------------------------- lemmas

  lemma {:induction false} GroupSumAbsent(normalize: string -> string, keys: seq<string>, counts: map<string, nat>, l: string)
    requires forall t | t in keys :: t in counts
    ensures (forall t | t in keys :: normalize(t) != l) ==> GroupSum(normalize, keys, counts, l) == 0
  {
    if keys != [] {
      GroupSumAbsent(normalize, keys[..|keys| - 1], counts, l);
    }
  }

  lemma FractionsSumToOne(page: Counts, tf: Dict<string, real>)
    requires Total(page) != 0 && tf.keys == page.keys
    requires forall t | t in tf.items :: tf.items[t] == page.items[t] as real / Total(page) as real
    ensures SumOverReal(tf.keys, tf.items) == 1.0
  {
    var n := Total(page) as real;
    SumScaled(page.keys, page.items, tf.items, n);
    SelfDiv(n);
  }

  /** Adding the last token's count to its group extends the group sums by that token. */
  lemma GroupStep(normalize: string -> string, keys: seq<string>, init: seq<string>, counts: map<string, nat>, prev: Dict<string, nat>, g: Dict<string, nat>)
    requires keys != [] && init == keys[..|keys| - 1] && forall t | t in keys :: t in counts
    requires forall l :: l in prev.items <==> exists t | t in init :: normalize(t) == l
    requires forall l | l in prev.items :: prev.items[l] == GroupSum(normalize, init, counts, l)
    requires Total(prev) == SumOver(init, counts)
    requires g == Accumulate(prev, normalize(keys[|keys| - 1]), counts[keys[|keys| - 1]])
    ensures forall l :: l in g.items <==> exists t | t in keys :: normalize(t) == l
    ensures forall l | l in g.items :: g.items[l] == GroupSum(normalize, keys, counts, l)
    ensures Total(g) == SumOver(keys, counts)
  {
    GroupItemsStep(normalize, keys, init, counts, prev, g);
    GroupKeysStep(normalize, keys, init, prev.items.Keys, g.items.Keys);
    SumOverSnoc(keys, counts);
  }

  lemma GroupItemsStep(normalize: string -> string, keys: seq<string>, init: seq<string>, counts: map<string, nat>, prev: Dict<string, nat>, g: Dict<string, nat>)
    requires keys != [] && init == keys[..|keys| - 1] && forall t | t in keys :: t in counts
    requires forall l :: l in prev.items <==> exists t | t in init :: normalize(t) == l
    requires forall l | l in prev.items :: prev.items[l] == GroupSum(normalize, init, counts, l)
    requires g == Accumulate(prev, normalize(keys[|keys| - 1]), counts[keys[|keys| - 1]])
    ensures forall l | l in g.items :: g.items[l] == GroupSum(normalize, keys, counts, l)
  {
    var m := |keys| - 1;
    GroupSumAbsent(normalize, init, counts, normalize(keys[m]));
  }

  lemma GroupKeysStep(normalize: string -> string, keys: seq<string>, init: seq<string>, before: set<string>, after: set<string>)
    requires keys != [] && init == keys[..|keys| - 1]
    requires forall l :: l in before <==> exists t | t in init :: normalize(t) == l
    requires forall l :: l in after <==> l in before || l == normalize(keys[|keys| - 1])
    ensures forall l :: l in after <==> exists t | t in keys :: normalize(t) == l
  {
    var m := |keys| - 1;
    assert keys == init + [keys[m]];
    assert forall t | t in keys :: t in init || t == keys[m];
  }

  lemma SumOverSnoc<K>(keys: seq<K>, m: map<K, nat>)
    requires keys != [] && forall k | k in keys :: k in m
    ensures SumOver(keys, m) == SumOver(keys[..|keys| - 1], m) + m[keys[|keys| - 1]]
  {
  }

  lemma DivAdd(a: real, b: real, c: real)
    requires c != 0.0
    ensures a / c + b / c == (a + b) / c
  {
  }

  lemma DivMul(a: real, c: real)
    requires c != 0.0
    ensures a / c * c == a
  {
  }

  lemma SelfDiv(c: real)
    requires c != 0.0
    ensures c / c == 1.0
  {
  }

  lemma RatioAtLeastOne(p: nat, d: nat)
    requires 1 <= d <= p
    ensures p as real / d as real >= 1.0
  {
    DivMul(p as real, d as real);
  }

  lemma {:induction false} SumOverUnchanged<K>(keys: seq<K>, m: map<K, nat>, k: K, v: nat)
    requires forall j | j in keys :: j in m
    requires k !in keys
    ensures SumOver(keys, m[k := v]) == SumOver(keys, m)
  {
    if keys != [] {
      SumOverUnchanged(keys[..|keys| - 1], m, k, v);
    }
  }

  lemma {:induction false} SumOverUpdate<K>(keys: seq<K>, m: map<K, nat>, k: K, v: nat)
    requires forall j | j in keys :: j in m
    requires Distinct(keys) && k in keys
    ensures SumOver(keys, m[k := v]) == SumOver(keys, m) - m[k] + v
  {
    var n := |keys| - 1;
    var init := keys[..n];
    if keys[n] == k {
      assert k !in init;
      SumOverUnchanged(init, m, k, v);
    } else {
      assert Distinct(init);
      SumOverUpdate(init, m, k, v);
    }
  }

  lemma AccumulateTotal(d: Dict<string, nat>, k: string, w: nat)
    ensures Total(Set(d, k, Get(d, k) + w)) == Total(d) + w
  {
    if k in d.items {
      assert k in d.keys;
      SumOverUpdate(d.keys, d.items, k, Get(d, k) + w);
    } else {
      AccumulateNewKey(d, k, w);
    }
  }

  lemma AccumulateNewKey(d: Dict<string, nat>, k: string, w: nat)
    requires k !in d.items
    ensures Total(Set(d, k, w)) == Total(d) + w
  {
    var r := Set(d, k, w);
    assert k !in d.keys;
    assert r.keys[..|r.keys| - 1] == d.keys;
    SumOverUnchanged(d.keys, d.items, k, w);
  }

  /** Dividing every summand by `c` divides the sum by `c`. */
  lemma {:induction false} SumScaled<K>(keys: seq<K>, m: map<K, nat>, q: map<K, real>, c: real)
    requires c != 0.0
    requires forall k | k in keys :: k in m && k in q && q[k] == m[k] as real / c
    ensures SumOverReal(keys, q) == SumOver(keys, m) as real / c
  {
    if keys != [] {
      var n := |keys| - 1;
      SumScaled(keys[..n], m, q, c);
      DivAdd(SumOver(keys[..n], m) as real, m[keys[n]] as real, c);
    }
  }

  lemma {:induction false} AcceptedKeepsCounts(a: Analyzer, tokens: seq<string>)
    ensures forall t | IsCorrect(a, t) :: multiset(Accepted(a, tokens))[t] == multiset(tokens)[t]
  {
    if tokens != [] {
      AcceptedKeepsCounts(a, tokens[1..]);
      assert tokens == [tokens[0]] + tokens[1..];
    }
  }

  /** The positions of the pages that hold `k`. */
  function Holding<V>(pages: seq<Dict<string, V>>, k: string): set<nat> {
    set i: nat | i < |pages| && k in pages[i].items
  }

  lemma HoldingOfPrefix<V>(pages: seq<Dict<string, V>>, k: string)
    requires pages != []
    ensures
      var n := |pages| - 1;
      Holding(pages, k) == Holding(pages[..n], k) + (if k in pages[n].items then {n} else {})
  {
    var n := |pages| - 1;
    assert forall i | 0 <= i < n :: pages[..n][i] == pages[i];
  }

  /** The document frequency is the number of pages that hold the key. */
  lemma {:induction false} DocFreqCountsPages<V>(pages: seq<Dict<string, V>>, k: string)
    ensures DocFreq(pages, k) == |Holding(pages, k)|
  {
    if pages != [] {
      var n := |pages| - 1;
      DocFreqCountsPages(pages[..n], k);
      HoldingOfPrefix(pages, k);
      assert n !in Holding(pages[..n], k);
    }
  }

  /**
   Every term of a TF map is a key of the IDF map computed from pages with at
   least those keys, so `write_tf_idf` never misses.
   */
  lemma IdfCoversTf<V>(tf: seq<Dict<string, real>>, pages: seq<Dict<string, V>>)
    requires |tf| == |pages|
    requires forall i, t | 0 <= i < |tf| && t in tf[i].items :: t in pages[i].items
    ensures WriteTfIdf(tf, Idf(pages)).Ok?
  {
  }

  /** Pages whose counts come from `get_tokens` never make `calculate_token_tf` divide by zero. */
  lemma TokenTfOfPages(a: Analyzer, pagesTokens: seq<seq<string>>)
    ensures TokenTf(PagesTokens(a, pagesTokens)).Ok?
  {
    var pages := PagesTokens(a, pagesTokens);
    forall i | 0 <= i < |pages| ensures PageTf(pages[i]).Ok? {
      if pages[i].keys != [] {
        assert pages[i].keys[0] in Accepted(a, pagesTokens[i]);
      }
    }
  }

  /** Both `write_tf_idf` calls of `main` find every term in their IDF map. */
  lemma TfIdfTablesWritten(a: Analyzer, pagesTokens: seq<seq<string>>)
    ensures TokenTf(PagesTokens(a, pagesTokens)).Ok?
    ensures WriteTfIdf(TokenTf(PagesTokens(a, pagesTokens)).value, Idf(PagesTokens(a, pagesTokens))).Ok?
    ensures WriteTfIdf(LemmaTf(a.normalize, PagesTokens(a, pagesTokens)), Idf(LemmaTf(a.normalize, PagesTokens(a, pagesTokens)))).Ok?
  {
    var pages := PagesTokens(a, pagesTokens);
    TokenTfOfPages(a, pagesTokens);
    var tf := TokenTf(pages).value;
    assert forall i, t | 0 <= i < |tf| && t in tf[i].items :: t in pages[i].items;
    IdfCoversTf(tf, pages);
    var lemmaTf := LemmaTf(a.normalize, pages);
    IdfCoversTf(lemmaTf, lemmaTf);
  }
}
