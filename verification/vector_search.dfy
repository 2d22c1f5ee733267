/**
 The vector-space search of src/task_5.py: page and query TF-IDF vectors, the
 positional scalar product, the "distance" `1 - dot / (len · len)` and the
 threshold search.
 */
module VectorSearch {
  import opened Results
  import opened Dicts
  import opened Tokens
  import opened TermStats

  /** `self.__distance_threshold` */
  const DistanceThreshold: real := 1.0

  /** `scalar_product`: `map` over two lists pairs them by position and stops at the shorter one. */
  function ScalarProduct(u: seq<real>, v: seq<real>): (p: real)
    ensures NonNegative(u) && NonNegative(v) ==> p >= 0.0
  {
    if u == [] || v == [] then 0.0
    else
      assert NonNegative(u) ==> NonNegative(u[1..]);
      assert NonNegative(v) ==> NonNegative(v[1..]);
      u[0] * v[0] + ScalarProduct(u[1..], v[1..])
  }

  predicate NonNegative(u: seq<real>) {
    forall i | 0 <= i < |u| :: u[i] >= 0.0
  }

  /** `calculate_distance`: the lengths are element counts, so an empty vector divides by zero. */
  function CalculateDistance(u: seq<real>, v: seq<real>): (r: Result<real>)
    ensures r.Err? <==> u == [] || v == []
    ensures r.Err? ==> r.error == ZeroDivisionError
    ensures r.Ok? ==> (r.value < 1.0 <==> ScalarProduct(u, v) > 0.0)
  {
    if u == [] || v == [] then Err(ZeroDivisionError)
    else
      var n := (|u| * |v|) as real;
      BelowOne(ScalarProduct(u, v), n);
      Ok(1.0 - ScalarProduct(u, v) / n)
  }

  // ---------------------------------------------------------------- TF-IDF maps

  /** One page of `calculate_pages_tf_idf`: each lemma's TF times its IDF. */
  function PageTfIdf(tf: Dict<string, real>, idf: Dict<string, real>): (r: Result<Dict<string, real>>)
    ensures r.Ok? <==> forall l | l in tf.items :: l in idf.items
    ensures r.Err? ==> r.error == KeyError
    ensures r.Ok? ==> r.value.keys == tf.keys
    ensures r.Ok? ==> forall l | l in r.value.items :: r.value.items[l] == tf.items[l] * idf.items[l]
  {
    if exists l | l in tf.items :: l !in idf.items then Err(KeyError)
    else Ok(FromKeys(tf.keys, l requires l in tf.items && l in idf.items => tf.items[l] * idf.items[l]))
  }

  /** The loop of `calculate_pages_tf_idf` over the lemma TF maps. */
  function PagesTfIdf(tf: seq<Dict<string, real>>, idf: Dict<string, real>): (r: Result<seq<Dict<string, real>>>)
    ensures r.Ok? <==> forall i | 0 <= i < |tf| :: PageTfIdf(tf[i], idf).Ok?
    ensures r.Err? ==> r.error == KeyError
    ensures r.Ok? ==> |r.value| == |tf|
    ensures r.Ok? ==> forall i | 0 <= i < |tf| :: PageTfIdf(tf[i], idf) == Ok(r.value[i])
  {
    if tf == [] then Ok([])
    else
      match PageTfIdf(tf[0], idf)
      case Err(e) => Err(e)
      case Ok(first) =>
        match PagesTfIdf(tf[1..], idf)
        case Err(e) => Err(e)
        case Ok(rest) =>
          assert forall i | 1 <= i < |tf| :: tf[i] == tf[1..][i - 1];
          Ok([first] + rest)
  }

  /** A query lemma's count times its IDF. */
  function Weight(query: map<string, nat>, idf: Dict<string, real>, l: string): real
    requires l in query && l in idf.items
  {
    query[l] as real * idf.items[l]
  }

  /** Sets each listed query lemma that the IDF map knows to its count times its IDF. */
  function FillQuery(acc: Dict<string, real>, ks: seq<string>, query: map<string, nat>, idf: Dict<string, real>): (r: Dict<string, real>)
    requires acc.keys == idf.keys
    requires forall k | k in ks :: k in query
    ensures r.keys == idf.keys
    ensures forall l | l in r.items :: r.items[l] == if l in ks then Weight(query, idf, l) else acc.items[l]
    decreases |ks|
  {
    if ks == [] then acc
    else
      var l := ks[0];
      var next := if l in idf.items then Set(acc, l, Weight(query, idf, l)) else acc;
      var r := FillQuery(next, ks[1..], query, idf);
      FillQueryStep(acc, next, r, ks, query, idf);
      r
  }

  /**
   `calculate_query_tf_idf`: a vector over the whole IDF vocabulary, in its
   order; query lemmas the IDF map does not know are dropped.
   */
  function QueryTfIdf(query: Dict<string, nat>, idf: Dict<string, real>): (r: Dict<string, real>)
    ensures r.keys == idf.keys
    ensures forall l | l in r.items :: r.items[l] == if l in query.items then query.items[l] as real * idf.items[l] else 0.0
  {
    FillQuery(FromKeys(idf.keys, l => 0.0), query.keys, query.items, idf)
  }

  /** `map(f, s)` */
  function MapSeq(f: string -> string, s: seq<string>): (r: seq<string>)
    ensures |r| == |s|
    ensures forall i | 0 <= i < |s| :: r[i] == f(s[i])
  {
    if s == [] then [] else [f(s[0])] + MapSeq(f, s[1..])
  }

  /** How many elements of `s` normalise to `l`. */
  function CountNormalizingTo(normalize: string -> string, s: seq<string>, l: string): nat {
    if s == [] then 0 else (if normalize(s[0]) == l then 1 else 0) + CountNormalizingTo(normalize, s[1..], l)
  }

  /**
   `calculate_query_tf`: each lemma of the accepted query tokens with the raw
   number of tokens that normalise to it (a count, not a fraction).
   */
  function QueryTf(a: Analyzer, tokens: seq<string>): (r: Dict<string, nat>)
    ensures forall l :: l in r.items <==> exists t | t in tokens :: IsCorrect(a, t) && a.normalize(t) == l
    ensures forall l | l in r.items :: r.items[l] == CountNormalizingTo(a.normalize, Accepted(a, tokens), l)
  {
    var lemmas := MapSeq(a.normalize, Accepted(a, tokens));
    MapSeqCounts(a.normalize, Accepted(a, tokens));
    forall l | l in lemmas ensures exists t | t in tokens :: IsCorrect(a, t) && a.normalize(t) == l {
      var i :| 0 <= i < |lemmas| && lemmas[i] == l;
      assert Accepted(a, tokens)[i] in Accepted(a, tokens);
    }
    forall t | t in tokens && IsCorrect(a, t) ensures a.normalize(t) in lemmas {
      var i :| 0 <= i < |Accepted(a, tokens)| && Accepted(a, tokens)[i] == t;
      assert lemmas[i] == a.normalize(t);
    }
    CountTokens(lemmas)
  }

  // ---------------------------------------------------------------- search

  /** Whether `search` keeps page `i`: its distance to the query lies below the threshold. */
  predicate Kept(pages: seq<Dict<string, real>>, query: Dict<string, real>, threshold: real, i: nat)
    requires i < |pages|
  {
    var d := CalculateDistance(Values(pages[i]), Values(query));
    d.Ok? && d.value < threshold
  }

  predicate StrictlyIncreasing(s: seq<nat>) {
    forall i, j | 0 <= i < j < |s| :: s[i] < s[j]
  }

  /** The positions from `i` up to `n` that satisfy `keep`, in increasing order. */
  function IndicesFrom(keep: nat -> bool, i: nat, n: nat): (r: seq<nat>)
    requires i <= n
    ensures StrictlyIncreasing(r)
    ensures forall j: nat :: j in r <==> i <= j < n && keep(j)
    decreases n - i
  {
    if i == n then []
    else
      var rest := IndicesFrom(keep, i + 1, n);
      assert forall k | 0 <= k < |rest| :: i < rest[k] by {
        forall k | 0 <= k < |rest| ensures i < rest[k] {
          assert rest[k] in rest;
        }
      }
      (if keep(i) then [i] else []) + rest
  }

  /**
   `search`: the indices of the pages whose distance to the query lies below
   the threshold, in page order. The loop raises `ZeroDivisionError` at the
   first page whose distance it cannot compute: a page with an empty vector,
   or any page at all when the query vector is empty.
   */
  function Search(pages: seq<Dict<string, real>>, query: Dict<string, real>, threshold: real): (r: Result<seq<nat>>)
    ensures r.Err? <==> exists j | 0 <= j < |pages| :: pages[j].keys == [] || query.keys == []
    ensures r.Err? ==> r.error == ZeroDivisionError
    ensures r.Ok? ==> StrictlyIncreasing(r.value)
    ensures r.Ok? ==> forall j: nat :: j in r.value <==> j < |pages| && Kept(pages, query, threshold, j)
  {
    if exists j | 0 <= j < |pages| :: CalculateDistance(Values(pages[j]), Values(query)).Err? then Err(ZeroDivisionError)
    else Ok(IndicesFrom((j: nat) => j < |pages| && Kept(pages, query, threshold, j), 0, |pages|))
  }

  /** The page vectors of `search` with each page's values re-indexed by the query's keys. */
  function Aligned(page: Dict<string, real>, keys: seq<string>): (v: seq<real>)
    ensures |v| == |keys|
    ensures forall i | 0 <= i < |keys| :: v[i] == if keys[i] in page.items then page.items[keys[i]] else 0.0
    ensures keys == page.keys ==> v == Values(page)
    ensures (forall k | k in page.items :: k in keys) ==>
      forall k | k in page.items :: exists i | 0 <= i < |keys| :: keys[i] == k && v[i] == page.items[k]
  {
    seq(|keys|, i requires 0 <= i < |keys| => if keys[i] in page.items then page.items[keys[i]] else 0.0)
  }

  /** Whether the aligned search keeps page `i`. */
  predicate AlignedKept(pages: seq<Dict<string, real>>, query: Dict<string, real>, threshold: real, i: nat)
    requires i < |pages|
  {
    var d := CalculateDistance(Aligned(pages[i], query.keys), Values(query));
    d.Ok? && d.value < threshold
  }

  /**
   The search as intended: each page vector is aligned with the query vector
   lemma by lemma, and with no query vector there is nothing to find.
   */
  function AlignedSearch(pages: seq<Dict<string, real>>, query: Dict<string, real>, threshold: real): (r: seq<nat>)
    ensures StrictlyIncreasing(r)
    ensures forall j: nat :: j in r <==> j < |pages| && AlignedKept(pages, query, threshold, j)
  {
    IndicesFrom((j: nat) => j < |pages| && AlignedKept(pages, query, threshold, j), 0, |pages|)
  }

  /**
   `search` with its division guarded: a page or query without values is
   not kept, and every other page is judged as before.
   */
  function SearchGuarded(pages: seq<Dict<string, real>>, query: Dict<string, real>, threshold: real): (r: seq<nat>)
    ensures StrictlyIncreasing(r)
    ensures forall j: nat :: j in r <==> j < |pages| && pages[j].keys != [] && query.keys != [] && Kept(pages, query, threshold, j)
  {
    IndicesFrom((j: nat) => j < |pages| && Kept(pages, query, threshold, j), 0, |pages|)
  }

  // ---------------------------------------------------------------- lemmas

  lemma FillQueryStep(acc: Dict<string, real>, next: Dict<string, real>, r: Dict<string, real>, ks: seq<string>, query: map<string, nat>, idf: Dict<string, real>)
    requires ks != [] && acc.keys == idf.keys
    requires forall k | k in ks :: k in query
    requires ks[0] in idf.items ==> next.keys == acc.keys && next.items == acc.items[ks[0] := Weight(query, idf, ks[0])]
    requires ks[0] !in idf.items ==> next == acc
    requires r.keys == idf.keys
    requires forall l | l in r.items :: r.items[l] == if l in ks[1..] then Weight(query, idf, l) else next.items[l]
    ensures forall l | l in r.items :: r.items[l] == if l in ks then Weight(query, idf, l) else acc.items[l]
  {
    forall l | l in r.items ensures r.items[l] == if l in ks then Weight(query, idf, l) else acc.items[l] {
      assert l in ks <==> l == ks[0] || l in ks[1..];
    }
  }

  lemma DivMulBack(d: real, n: real)
    requires n > 0.0
    ensures d / n * n == d
  {
  }

  lemma BelowOne(d: real, n: real)
    requires n > 0.0
    ensures 1.0 - d / n < 1.0 <==> d > 0.0
  {
    DivMulBack(d, n);
    if d / n <= 0.0 {
      assert d / n * n <= 0.0;
    }
  }

  lemma {:induction false} ScalarProductSymmetric(u: seq<real>, v: seq<real>)
    ensures ScalarProduct(u, v) == ScalarProduct(v, u)
  {
    if u != [] && v != [] {
      ScalarProductSymmetric(u[1..], v[1..]);
    }
  }

  /** For non-negative vectors the product is non-negative, and positive iff some paired product is. */
  lemma {:induction false} ScalarProductPositive(u: seq<real>, v: seq<real>)
    requires NonNegative(u) && NonNegative(v)
    ensures ScalarProduct(u, v) >= 0.0
    ensures ScalarProduct(u, v) > 0.0 <==> exists i | 0 <= i < |u| && i < |v| :: u[i] * v[i] > 0.0
  {
    if u != [] && v != [] {
      ScalarProductPositive(u[1..], v[1..]);
      assert u[0] * v[0] >= 0.0;
      assert forall i | 1 <= i < |u| && i < |v| :: u[1..][i - 1] * v[1..][i - 1] == u[i] * v[i];
    }
  }

  lemma DistanceSymmetric(u: seq<real>, v: seq<real>)
    ensures CalculateDistance(u, v) == CalculateDistance(v, u)
  {
    ScalarProductSymmetric(u, v);
    assert |u| * |v| == |v| * |u|;
  }

  /** With the default threshold a page is kept iff its positional scalar product with the query is positive. */
  lemma SearchAtDefaultThreshold(pages: seq<Dict<string, real>>, query: Dict<string, real>)
    requires Search(pages, query, DistanceThreshold).Ok?
    ensures forall j: nat :: j in Search(pages, query, DistanceThreshold).value <==>
      j < |pages| && ScalarProduct(Values(pages[j]), Values(query)) > 0.0
  {
  }

  /** Every lemma of the lemma TF maps is in their IDF map, so `calculate_pages_tf_idf` never raises. */
  lemma PagesTfIdfNeverMisses(normalize: string -> string, pages: seq<Counts>)
    ensures PagesTfIdf(LemmaTf(normalize, pages), Idf(LemmaTf(normalize, pages))).Ok?
  {
    var tf := LemmaTf(normalize, pages);
    var idf := Idf(tf);
    forall i | 0 <= i < |tf| ensures PageTfIdf(tf[i], idf).Ok? {
      assert forall l | l in tf[i].items :: l in idf.items;
    }
  }

  /** The guarded search keeps the same pages as `search` whenever `search` does not raise. */
  lemma SearchGuardedAgrees(pages: seq<Dict<string, real>>, query: Dict<string, real>, threshold: real)
    requires Search(pages, query, threshold).Ok?
    ensures SearchGuarded(pages, query, threshold) == Search(pages, query, threshold).value
  {
  }

  lemma {:induction false} MapSeqCounts(normalize: string -> string, s: seq<string>)
    ensures forall l :: multiset(MapSeq(normalize, s))[l] == CountNormalizingTo(normalize, s, l)
  {
    if s != [] {
      MapSeqCounts(normalize, s[1..]);
      assert MapSeq(normalize, s) == [normalize(s[0])] + MapSeq(normalize, s[1..]);
    }
  }

  predicate NonNegativeValues(d: Dict<string, real>) {
    forall l | l in d.items :: d.items[l] >= 0.0
  }

  /** The aligned page vector pairs a positive product with the query exactly where they share a lemma of positive weight. */
  lemma AlignedProductsMeaning(page: Dict<string, real>, query: Dict<string, real>)
    ensures
      (exists i | 0 <= i < |query.keys| :: Aligned(page, query.keys)[i] * Values(query)[i] > 0.0) <==>
      (exists l | l in query.items && l in page.items :: page.items[l] * query.items[l] > 0.0)
  {
    var u := Aligned(page, query.keys);
    var v := Values(query);
    if exists i | 0 <= i < |query.keys| :: u[i] * v[i] > 0.0 {
      var i :| 0 <= i < |query.keys| && u[i] * v[i] > 0.0;
      assert query.keys[i] in page.items;
    }
    if exists l | l in query.items && l in page.items :: page.items[l] * query.items[l] > 0.0 {
      var l :| l in query.items && l in page.items && page.items[l] * query.items[l] > 0.0;
      var i :| 0 <= i < |query.keys| && query.keys[i] == l;
      assert u[i] * v[i] > 0.0;
    }
  }

  /**
   With non-negative weights and the default threshold, the aligned search
   keeps exactly the pages that share a lemma of positive weight with the query.
   */
  lemma AlignedSearchFindsSharedLemmas(pages: seq<Dict<string, real>>, query: Dict<string, real>, j: nat)
    requires j < |pages| && NonNegativeValues(pages[j]) && NonNegativeValues(query)
    ensures j in AlignedSearch(pages, query, DistanceThreshold) <==>
      exists l | l in query.items && l in pages[j].items :: pages[j].items[l] * query.items[l] > 0.0
  {
    var u := Aligned(pages[j], query.keys);
    var v := Values(query);
    assert NonNegative(u) && NonNegative(v);
    ScalarProductPositive(u, v);
    AlignedProductsMeaning(pages[j], query);
  }

  /** Two pages, the second without any accepted token, and a query for the first one's only lemma. */
  const MatchedPage: Dict<string, real> := Set(Empty(), "мир", 1.0)
  const EmptyPages: seq<Dict<string, real>> := [MatchedPage, Empty()]
  const SingleLemmaQuery: Dict<string, real> := Set(Empty(), "мир", 1.0)

  /**
   A page without accepted tokens has an empty vector, and `search` raises on
   it even though another page matches the query exactly; the guarded search
   keeps that page.
   */
  lemma EmptyPageAbortsSearch()
    ensures Search(EmptyPages, SingleLemmaQuery, DistanceThreshold).Err?
    ensures 0 in SearchGuarded(EmptyPages, SingleLemmaQuery, DistanceThreshold)
    ensures 1 !in SearchGuarded(EmptyPages, SingleLemmaQuery, DistanceThreshold)
  {
    assert EmptyPages[1].keys == [];
    assert Values(EmptyPages[0]) == [1.0] && Values(SingleLemmaQuery) == [1.0];
    assert ScalarProduct([1.0], [1.0]) == 1.0;
    assert CalculateDistance([1.0], [1.0]) == Ok(0.0);
    assert Kept(EmptyPages, SingleLemmaQuery, DistanceThreshold, 0);
  }

  /** A vocabulary of two lemmas, a page holding only the second, and a query for it. */
  const TwoLemmaIdf: Dict<string, real> := Set(Set(Empty(), "мир", 2.0), "дом", 2.0)
  const SecondLemmaPages: seq<Dict<string, real>> := [Set(Empty(), "дом", 0.5)]
  const SecondLemmaQuery: Dict<string, nat> := Set(Empty(), "дом", 1)

  lemma SecondLemmaQueryVector()
    ensures QueryTfIdf(SecondLemmaQuery, TwoLemmaIdf).keys == ["мир", "дом"]
    ensures Values(QueryTfIdf(SecondLemmaQuery, TwoLemmaIdf)) == [0.0, 2.0]
  {
    assert TwoLemmaIdf.keys == ["мир", "дом"] && TwoLemmaIdf.items["дом"] == 2.0;
    assert "дом" in SecondLemmaQuery.items && SecondLemmaQuery.items["дом"] == 1 && "мир" !in SecondLemmaQuery.items;
    QueryVectorOf(SecondLemmaQuery, TwoLemmaIdf, QueryTfIdf(SecondLemmaQuery, TwoLemmaIdf));
  }

  lemma QueryVectorOf(query: Dict<string, nat>, idf: Dict<string, real>, q: Dict<string, real>)
    requires q == QueryTfIdf(query, idf)
    requires idf.keys == ["мир", "дом"] && idf.items["дом"] == 2.0
    requires "дом" in query.items && query.items["дом"] == 1 && "мир" !in query.items
    ensures q.keys == ["мир", "дом"] && Values(q) == [0.0, 2.0]
  {
    assert idf.keys[0] in idf.items && idf.keys[1] in idf.items;
    assert q.items["мир"] == 0.0 && q.items["дом"] == 2.0;
  }

  /**
   `search` pairs the page vector, in the page's own lemma order, with the
   query vector, in the order of the whole vocabulary. A page holding the only
   query lemma is then paired with a zero and missed; the aligned search finds it.
   */
  lemma MisalignedVectorsMissPage()
    ensures Search(SecondLemmaPages, QueryTfIdf(SecondLemmaQuery, TwoLemmaIdf), DistanceThreshold).Ok?
    ensures 0 !in Search(SecondLemmaPages, QueryTfIdf(SecondLemmaQuery, TwoLemmaIdf), DistanceThreshold).value
    ensures 0 in AlignedSearch(SecondLemmaPages, QueryTfIdf(SecondLemmaQuery, TwoLemmaIdf), DistanceThreshold)
  {
    var pages := SecondLemmaPages;
    var query := QueryTfIdf(SecondLemmaQuery, TwoLemmaIdf);
    SecondLemmaQueryVector();
    MissedByPosition(pages, query);
    FoundWhenAligned(pages, query);
  }

  lemma MissedByPosition(pages: seq<Dict<string, real>>, query: Dict<string, real>)
    requires pages == SecondLemmaPages && Values(query) == [0.0, 2.0]
    ensures Search(pages, query, DistanceThreshold).Ok?
    ensures 0 !in Search(pages, query, DistanceThreshold).value
  {
    assert Values(pages[0]) == [0.5];
    assert ScalarProduct([0.5], [0.0, 2.0]) == 0.0;
    assert !Kept(pages, query, DistanceThreshold, 0);
  }

  lemma FoundWhenAligned(pages: seq<Dict<string, real>>, query: Dict<string, real>)
    requires pages == SecondLemmaPages && query.keys == ["мир", "дом"] && Values(query) == [0.0, 2.0]
    ensures 0 in AlignedSearch(pages, query, DistanceThreshold)
  {
    assert Aligned(pages[0], query.keys) == [0.0, 0.5];
    assert ScalarProduct([0.0, 0.5], [0.0, 2.0]) == 1.0;
    assert AlignedKept(pages, query, DistanceThreshold, 0);
  }
}
