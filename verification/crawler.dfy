/**
 The crawler of src/crawler.py: the breadth-first frontier over pages, the
 word-count filter, link validation, and the `links.txt` file of outgoing
 links between saved pages. Downloading, HTML parsing, link extraction and
 URL parsing are parameters.
 */
module Crawler {
  import opened Results
  import opened Strings
  import opened Dicts
  import opened Text
  import opened RawPages

  /** The parts of `urlparse(url)` that `is_url_valid` reads. */
  datatype ParsedUrl = ParsedUrl(scheme: string, netloc: string, path: string)

  /** `validators.url` and `urlparse`. */
  datatype UrlTools = UrlTools(validate: string -> bool, parse: string -> ParsedUrl)

  /** A link of a page: the `href` as written, and the url it resolves to with its fragment removed. */
  datatype Anchor = Anchor(href: string, url: string)

  /** What downloading and parsing a page gives. */
  datatype Download =
    | Skipped      // `_download` returned `None`: the request was redirected to a page already seen
    | Failed       // `_download` returned an exception
    | Unparsable   // BeautifulSoup raised
    | Fetched(markup: string, text: string, anchors: seq<Anchor>)
      // `text` is `get_text(" ")` of the page, `anchors` the `a` tags of its body

  datatype Config = Config(
    root: string,
    maxPages: int,
    minWords: int,
    whitelist: Option<set<string>>,
    blacklist: set<string>,
    tools: UrlTools)

  const Schemes: set<string> := {"", "http", "https"}

  /** `is_url_valid` */
  function IsUrlValid(tools: UrlTools, originalUrl: string, url: string, whitelist: Option<set<string>>, blacklist: set<string>): (ok: bool)
    ensures ok ==> tools.validate(url) && url !in blacklist
    ensures ok && whitelist.Some? ==> tools.parse(url).netloc in whitelist.value
    ensures ok ==> tools.parse(originalUrl).scheme in {"", "http", "https"}
    ensures tools.parse(originalUrl).scheme == "" && ':' in tools.parse(originalUrl).path ==> !ok
  {
    if !tools.validate(url) || url in blacklist then false
    else
      var original := tools.parse(originalUrl);
      && (whitelist.None? || tools.parse(url).netloc in whitelist.value)
      && original.scheme in Schemes
      && !(original.scheme == "" && ':' in original.path)
  }

  /** `count_words`: `len(text.split())`. */
  function CountWords(text: string): (n: nat)
    ensures n == RunStarts(true, text)
    ensures AllSpace(text) ==> n == 0
  {
    WordCountIsRunCount(text);
    var n := |Words(text)|;
    if AllSpace(text) then WordsOfAllSpace(text); n else n
  }

  /** `_get_link_urls` after HTML traversal: the resolved urls of the links that pass `is_url_valid`, in page order. */
  function LinkUrls(cfg: Config, anchors: seq<Anchor>): (urls: seq<string>)
    ensures forall u :: u in urls <==> exists a | a in anchors :: a.url == u && IsUrlValid(cfg.tools, a.href, a.url, cfg.whitelist, cfg.blacklist)
  {
    if anchors == [] then []
    else
      var a := anchors[0];
      var rest := LinkUrls(cfg, anchors[1..]);
      assert forall b | b in anchors[1..] :: b in anchors;
      assert forall b | b in anchors :: b == a || b in anchors[1..];
      if IsUrlValid(cfg.tools, a.href, a.url, cfg.whitelist, cfg.blacklist) then [a.url] + rest else rest
  }

  /** The test in `main` for saving a page: the words of its text, whitespace runs collapsed, reach the minimum. */
  predicate WorthSaving(cfg: Config, text: string) {
    CountWords(DeleteExtraWhitespaces(text)) >= cfg.minWords
  }

  /** `set(_get_link_urls(...))`: every child passed validation and is not blacklisted. */
  function Children(cfg: Config, anchors: seq<Anchor>): (children: set<string>)
    ensures forall u | u in children :: cfg.tools.validate(u) && u !in cfg.blacklist
  {
    set u | u in LinkUrls(cfg, anchors)
  }

  /** The crawler's state between iterations of the loop in `main`. */
  datatype Crawl = Crawl(
    repo: Repository,
    pageIds: Dict<string, int>,
    outcomeLinks: Dict<string, set<string>>,
    queue: seq<string>,
    seen: set<string>)

  /** The state before the loop: an emptied repository and the root alone in the queue. */
  function Start(cfg: Config, repo: Repository): (c: Crawl)
  {
    Crawl(DeleteAll(repo), Empty(), Empty(), [cfg.root], {cfg.root})
  }

  /** An enumeration of `s`: each element once, as iterating a set gives them. */
  predicate Enumerates(order: seq<string>, s: set<string>) {
    Distinct(order) && (set u | u in order) == s
  }

  /** Saving a page: `create` on the repository, and its id recorded under its url. */
  function Save(c: Crawl, url: string, markup: string): (r: Crawl)
    ensures r.queue == c.queue && r.seen == c.seen && r.outcomeLinks == c.outcomeLinks
    ensures r.pageIds.items == c.pageIds.items[url := c.repo.maxId + 1]
  {
    var created := Create(c.repo, url, markup);
    c.(repo := created.repo, pageIds := Set(c.pageIds, created.page.url, created.page.id))
  }

  /** One iteration of the loop in `main`: take the oldest url off the queue, and if its download
      succeeded, save it when it has enough words, remember its valid links, and queue those not seen yet. */
  function Step(cfg: Config, fetch: (string, set<string>) -> Download, order: set<string> -> seq<string>, c: Crawl): (r: Crawl)
    requires c.queue != []
    ensures c.seen <= r.seen && c.queue[1..] <= r.queue
    ensures forall u | u in c.pageIds.items && u != c.queue[0] :: u in r.pageIds.items && r.pageIds.items[u] == c.pageIds.items[u]
    ensures forall u | u in r.pageIds.items :: u in c.pageIds.items || u == c.queue[0]
  {
    match fetch(c.queue[0], c.seen)
    case Fetched(markup, text, anchors) => Visit(cfg, order, c, markup, text, anchors)
    case _ => c.(queue := c.queue[1..])
  }

  /** The part of an iteration after the page at the head of the queue was downloaded and parsed. */
  function Visit(cfg: Config, order: set<string> -> seq<string>, c: Crawl, markup: string, text: string, anchors: seq<Anchor>): (r: Crawl)
    requires c.queue != []
    ensures c.seen <= r.seen && c.queue[1..] <= r.queue
    ensures forall u | u in c.pageIds.items && u != c.queue[0] :: u in r.pageIds.items && r.pageIds.items[u] == c.pageIds.items[u]
    ensures forall u | u in r.pageIds.items :: u in c.pageIds.items || u == c.queue[0]
  {
    var url := c.queue[0];
    var saved := if WorthSaving(cfg, text) then Save(c, url, markup) else c;
    var children := Children(cfg, anchors);
    var outcome := if |children| > 0 then Set(c.outcomeLinks, url, children) else c.outcomeLinks;
    var unseen := children - c.seen;
    saved.(outcomeLinks := outcome, queue := c.queue[1..] + order(unseen), seen := c.seen + unseen)
  }

  /** The queue holds no url twice and only urls already seen; every seen url but the root passed validation. */
  predicate FrontierOk(cfg: Config, c: Crawl) {
    && Distinct(c.queue)
    && (forall i | 0 <= i < |c.queue| :: c.queue[i] in c.seen)
    && cfg.root in c.seen
    && (forall u | u in c.seen :: u == cfg.root || (cfg.tools.validate(u) && u !in cfg.blacklist))
  }

  /** Saved pages and pages with outgoing links have been seen and have left the queue; no recorded link set is empty. */
  predicate RecordsOk(c: Crawl) {
    && (forall u | u in c.pageIds.items :: u in c.seen && u !in c.queue)
    && (forall u | u in c.outcomeLinks.items :: u in c.seen && u !in c.queue && c.outcomeLinks.items[u] != {})
  }

  /** Saved pages have the ids 0, 1, ... in the order they were saved, and the repository maps each id back to its url. */
  predicate IdsOk(c: Crawl) {
    && c.repo.maxId == |c.pageIds.keys| - 1
    && (forall i | 0 <= i < |c.pageIds.keys| :: c.pageIds.items[c.pageIds.keys[i]] == i)
    && (forall k | k in c.repo.urls.items :: 0 <= k < |c.pageIds.keys| && c.repo.urls.items[k] == c.pageIds.keys[k])
    && (forall i | 0 <= i < |c.pageIds.keys| :: i in c.repo.urls.items)
  }

  /** What holds before and after every iteration of the loop. */
  predicate Invariant(cfg: Config, c: Crawl) {
    FrontierOk(cfg, c) && RecordsOk(c) && IdsOk(c)
  }

  /** `main` without its last line: the loop, run for at most `fuel` iterations. */
  method Run(cfg: Config, fetch: (string, set<string>) -> Download, order: set<string> -> seq<string>, repo: Repository, fuel: nat)
    returns (c: Crawl, steps: nat)
    requires forall s: set<string> :: Enumerates(order(s), s)
    ensures Invariant(cfg, c)
    ensures |c.pageIds.keys| <= if cfg.maxPages < 0 then 0 else cfg.maxPages
    ensures steps <= fuel
    ensures steps < fuel ==> c.queue == [] || |c.pageIds.keys| >= cfg.maxPages
  {
    c := Start(cfg, repo);
    StartInvariant(cfg, repo);
    steps := 0;
    while steps < fuel && c.queue != [] && |c.pageIds.keys| < cfg.maxPages
      invariant steps <= fuel
      invariant Invariant(cfg, c)
      invariant |c.pageIds.keys| <= if cfg.maxPages < 0 then 0 else cfg.maxPages
      decreases fuel - steps
    {
      StepPreserves(cfg, fetch, order, c);
      c := Step(cfg, fetch, order, c);
      steps := steps + 1;
    }
  }

  // ---------------------------------------------------------------- links.txt

  /** `[page_ids[link] for link in links if link in page_ids]`, with the links in the order given. */
  function LinkIds(pageIds: Dict<string, int>, links: seq<string>): (ids: seq<int>)
    ensures |ids| <= |links|
  {
    if links == [] then []
    else (if links[0] in pageIds.items then [pageIds.items[links[0]]] else []) + LinkIds(pageIds, links[1..])
  }

  /** One line per saved page that has outgoing links, in the order the pages were first given links:
      the page's id, then the ids of the saved pages it links to. */
  function LinkRows(pageIds: Dict<string, int>, outcome: Dict<string, set<string>>, order: set<string> -> seq<string>, sources: seq<string>): (rows: seq<seq<int>>)
    ensures |rows| <= |sources|
    ensures forall i | 0 <= i < |rows| :: rows[i] != []
    ensures forall i | 0 <= i < |rows| :: RowOfSaved(pageIds, outcome, order, sources, rows[i])
    ensures forall u | u in sources && u in pageIds.items && u in outcome.items :: LinkRow(pageIds, outcome, order, u) in rows
  {
    if sources == [] then []
    else
      var n := |sources| - 1;
      var u := sources[n];
      var prev := LinkRows(pageIds, outcome, order, sources[..n]);
      var rows := prev + (if u in pageIds.items && u in outcome.items then [LinkRow(pageIds, outcome, order, u)] else []);
      LinkRowsSnoc(pageIds, outcome, order, sources, prev, rows);
      rows
  }

  /** `row` is the row of some saved page among `sources` that has links. */
  predicate RowOfSaved(pageIds: Dict<string, int>, outcome: Dict<string, set<string>>, order: set<string> -> seq<string>, sources: seq<string>, row: seq<int>) {
    exists u | u in sources && u in pageIds.items && u in outcome.items :: row == LinkRow(pageIds, outcome, order, u)
  }

  /** The rows of `sources` are those of all but its last source, then the last source's row if it is saved and has links. */
  lemma LinkRowsSnoc(pageIds: Dict<string, int>, outcome: Dict<string, set<string>>, order: set<string> -> seq<string>, sources: seq<string>, prev: seq<seq<int>>, rows: seq<seq<int>>)
    requires sources != []
    requires forall i | 0 <= i < |prev| :: RowOfSaved(pageIds, outcome, order, sources[..|sources| - 1], prev[i])
    requires forall u | u in sources[..|sources| - 1] && u in pageIds.items && u in outcome.items :: LinkRow(pageIds, outcome, order, u) in prev
    requires var u := sources[|sources| - 1];
      rows == prev + (if u in pageIds.items && u in outcome.items then [LinkRow(pageIds, outcome, order, u)] else [])
    ensures forall i | 0 <= i < |rows| :: RowOfSaved(pageIds, outcome, order, sources, rows[i])
    ensures forall u | u in sources && u in pageIds.items && u in outcome.items :: LinkRow(pageIds, outcome, order, u) in rows
  {
    var n := |sources| - 1;
    assert forall v | v in sources[..n] :: v in sources;
    assert forall v | v in sources :: v in sources[..n] || v == sources[n];
    forall i | 0 <= i < |rows| ensures RowOfSaved(pageIds, outcome, order, sources, rows[i]) {
      if i < |prev| {
        assert rows[i] == prev[i];
        var v :| v in sources[..n] && v in pageIds.items && v in outcome.items && prev[i] == LinkRow(pageIds, outcome, order, v);
        assert v in sources;
      } else {
        assert sources[n] in sources;
      }
    }
  }

  /** The row of a saved page: its own id, then those of the saved pages among its links. */
  function LinkRow(pageIds: Dict<string, int>, outcome: Dict<string, set<string>>, order: set<string> -> seq<string>, u: string): (row: seq<int>)
    requires u in pageIds.items && u in outcome.items
    ensures row != [] && row[0] == pageIds.items[u]
  {
    [pageIds.items[u]] + LinkIds(pageIds, order(outcome.items[u]))
  }

  function IdStrings(ids: seq<int>): (ws: seq<string>)
    ensures |ws| == |ids|
    ensures forall i | 0 <= i < |ws| :: ws[i] != [] && NoSpace(ws[i])
  {
    seq(|ids|, i requires 0 <= i < |ids| => IntToString(ids[i]))
  }

  /** A line of `links.txt`: the ids separated by single spaces. */
  function LinkLine(ids: seq<int>): string {
    Join(" ", IdStrings(ids)) + "\n"
  }

  function LinkLines(rows: seq<seq<int>>): (lines: seq<string>)
    ensures |lines| == |rows|
  {
    seq(|rows|, i requires 0 <= i < |rows| => LinkLine(rows[i]))
  }

  /** The content `_save_page_outcome_links` writes to `links.txt`. */
  function SaveLinks(pageIds: Dict<string, int>, outcome: Dict<string, set<string>>, order: set<string> -> seq<string>): (content: string)
    ensures ReadLines(content) == LinkLines(LinkRows(pageIds, outcome, order, outcome.keys))
    ensures forall u | u in outcome.items && u in pageIds.items :: LinkLine(LinkRow(pageIds, outcome, order, u)) in ReadLines(content)
  {
    var rows := LinkRows(pageIds, outcome, order, outcome.keys);
    LinkLinesWhole(rows);
    ReadLinesOfConcat(LinkLines(rows));
    assert forall u | u in outcome.items :: u in outcome.keys;
    Concat(LinkLines(rows))
  }

  lemma LinkLinesWhole(rows: seq<seq<int>>)
    requires forall i | 0 <= i < |rows| :: rows[i] != []
    ensures forall i | 0 <= i < |rows| :: IsLine(LinkLines(rows)[i])
    ensures forall r | r in rows :: LinkLine(r) in LinkLines(rows)
  {
    forall i | 0 <= i < |rows| ensures IsLine(LinkLines(rows)[i]) {
      LinkLineIsLine(rows[i]);
    }
    forall r | r in rows ensures LinkLine(r) in LinkLines(rows) {
      var i :| 0 <= i < |rows| && rows[i] == r;
      assert LinkLines(rows)[i] == LinkLine(r);
    }
  }

  /** `[int(id_) for id_ in words]`: the first word that is not a number raises `ValueError`. */
  function ParseIds(words: seq<string>): (r: Result<seq<int>>)
    ensures r.Ok? ==> |r.value| == |words|
    ensures r.Err? ==> r.error == ValueError
    ensures r.Ok? <==> forall i | 0 <= i < |words| :: ParseInt(words[i]).Ok?
    ensures r.Ok? ==> forall i | 0 <= i < |words| :: ParseInt(words[i]) == Ok(r.value[i])
  {
    if words == [] then Ok([])
    else
      var first := ParseInt(words[0]);
      var rest := ParseIds(words[1..]);
      ParsedCons(words, first, rest);
      match first
      case Err(e) => Err(ValueError)
      case Ok(n) =>
        match rest
        case Err(e) => Err(e)
        case Ok(ns) => Ok([n] + ns)
  }

  /** The words of a line that `read_page_outcome_links` accepts: all numbers, and at least one. */
  predicate IdRow(words: seq<string>) {
    ParseIds(words).Ok? && ParseIds(words).value != []
  }

  /** A property holds of every element exactly when it holds of all but the last and of the last. */
  lemma AllSnoc<T>(s: seq<T>, init: seq<T>, p: T -> bool)
    requires s != [] && init == s[..|s| - 1]
    ensures (forall i | 0 <= i < |s| :: p(s[i])) <==> (forall i | 0 <= i < |init| :: p(init[i])) && p(s[|s| - 1])
  {
    assert forall i | 0 <= i < |init| :: init[i] == s[i];
  }

  /** The words parse when the first one does and the rest do, and the values line up one place on. */
  lemma ParsedCons(words: seq<string>, first: Result<int>, rest: Result<seq<int>>)
    requires words != [] && first == ParseInt(words[0])
    requires rest.Ok? <==> forall i | 0 <= i < |words| - 1 :: ParseInt(words[1..][i]).Ok?
    requires rest.Ok? ==> |rest.value| == |words| - 1 && forall i | 0 <= i < |words| - 1 :: ParseInt(words[1..][i]) == Ok(rest.value[i])
    ensures (first.Ok? && rest.Ok?) <==> forall i | 0 <= i < |words| :: ParseInt(words[i]).Ok?
    ensures first.Ok? && rest.Ok? ==> forall i | 0 <= i < |words| :: ParseInt(words[i]) == Ok(([first.value] + rest.value)[i])
  {
    assert forall i | 1 <= i < |words| :: words[i] == words[1..][i - 1];
  }

  /** The loop body of `read_page_outcome_links` over the words of each line read:
      the first id keys the remaining ones; a line without words raises `IndexError`. */
  function Tabulate(lines: seq<seq<string>>): (r: Result<Dict<int, seq<int>>>)
    ensures r.Ok? ==> |r.value.keys| <= |lines|
    ensures r.Ok? <==> forall i | 0 <= i < |lines| :: IdRow(lines[i])
    ensures r.Err? ==> r.error == ValueError || r.error == IndexError
  {
    if lines == [] then Ok(Empty())
    else
      var n := |lines| - 1;
      AllSnoc(lines, lines[..n], IdRow);
      match Tabulate(lines[..n])
      case Err(e) => Err(e)
      case Ok(d) =>
        match ParseIds(lines[n])
        case Err(e) => Err(e)
        case Ok(ids) => if ids == [] then Err(IndexError) else Ok(Set(d, ids[0], ids[1..]))
  }

  function WordRows(lines: seq<string>): (ws: seq<seq<string>>)
    ensures |ws| == |lines|
  {
    seq(|lines|, i requires 0 <= i < |lines| => Words(lines[i]))
  }

  /** `read_page_outcome_links` on a file holding `content`: only the first line is stripped, and a blank
      first line ends the reading at once. */
  function ReadLinks(content: string): (r: Result<Dict<int, seq<int>>>)
    ensures r.Ok? ==> |r.value.keys| <= |ReadLines(content)|
    ensures r.Err? ==> r.error == ValueError || r.error == IndexError
    ensures r.Err? ==> exists i | 0 <= i < |ReadLines(content)| :: !AllSpace(ReadLines(content)[i])
  {
    var lines := ReadLines(content);
    if lines == [] || RStrip(lines[0]) == [] then Ok(Empty())
    else Tabulate(WordRows([RStrip(lines[0])] + lines[1..]))
  }

  /** The dictionary the rows describe: each row's first id keys the rest, a later row replacing an earlier one. */
  function Table(rows: seq<seq<int>>): (d: Dict<int, seq<int>>)
    requires forall i | 0 <= i < |rows| :: rows[i] != []
  {
    if rows == [] then Empty()
    else
      var last := rows[|rows| - 1];
      Set(Table(rows[..|rows| - 1]), last[0], last[1..])
  }

  // ---------------------------------------------------------------- lemmas

  lemma StartInvariant(cfg: Config, repo: Repository)
    ensures Invariant(cfg, Start(cfg, repo))
  {
  }

  /** An iteration keeps the invariant and saves at most one page. */
  lemma StepPreserves(cfg: Config, fetch: (string, set<string>) -> Download, order: set<string> -> seq<string>, c: Crawl)
    requires forall s: set<string> :: Enumerates(order(s), s)
    requires Invariant(cfg, c) && c.queue != []
    ensures Invariant(cfg, Step(cfg, fetch, order, c))
    ensures |Step(cfg, fetch, order, c).pageIds.keys| <= |c.pageIds.keys| + 1
  {
    match fetch(c.queue[0], c.seen)
    case Fetched(markup, text, anchors) =>
      VisitPreserves(cfg, order, c, markup, text, anchors);
    case _ =>
      assert c.queue[0] !in c.queue[1..];
  }

  lemma VisitPreserves(cfg: Config, order: set<string> -> seq<string>, c: Crawl, markup: string, text: string, anchors: seq<Anchor>)
    requires forall s: set<string> :: Enumerates(order(s), s)
    requires Invariant(cfg, c) && c.queue != []
    ensures Invariant(cfg, Visit(cfg, order, c, markup, text, anchors))
    ensures |Visit(cfg, order, c, markup, text, anchors).pageIds.keys| <= |c.pageIds.keys| + 1
  {
    var r := Visit(cfg, order, c, markup, text, anchors);
    VisitIds(cfg, order, c, markup, text, anchors);
    VisitOutcome(cfg, order, c, markup, text, anchors);
    var children := Children(cfg, anchors);
    var unseen := children - c.seen;
    assert Enumerates(order(unseen), unseen);
    FrontierStep(cfg, c, children, order(unseen), r);
  }

  lemma VisitIds(cfg: Config, order: set<string> -> seq<string>, c: Crawl, markup: string, text: string, anchors: seq<Anchor>)
    requires RecordsOk(c) && IdsOk(c) && c.queue != []
    ensures IdsOk(Visit(cfg, order, c, markup, text, anchors))
    ensures |Visit(cfg, order, c, markup, text, anchors).pageIds.keys| <= |c.pageIds.keys| + 1
  {
    var url := c.queue[0];
    var r := Visit(cfg, order, c, markup, text, anchors);
    var saved := if WorthSaving(cfg, text) then Save(c, url, markup) else c;
    if saved != c {
      assert url !in c.pageIds.items;
      SaveKeepsIds(c, url, markup);
    }
    assert r.pageIds == saved.pageIds && r.repo == saved.repo;
  }

  lemma VisitOutcome(cfg: Config, order: set<string> -> seq<string>, c: Crawl, markup: string, text: string, anchors: seq<Anchor>)
    requires c.queue != []
    ensures var r := Visit(cfg, order, c, markup, text, anchors);
      forall u | u in r.outcomeLinks.items :: (u in c.outcomeLinks.items && r.outcomeLinks.items[u] == c.outcomeLinks.items[u]) || (u == c.queue[0] && r.outcomeLinks.items[u] != {})
  {
  }

  lemma SaveKeepsIds(c: Crawl, url: string, markup: string)
    requires IdsOk(c) && url !in c.pageIds.items
    ensures IdsOk(Save(c, url, markup))
    ensures Save(c, url, markup).pageIds.keys == c.pageIds.keys + [url]
  {
    var r := Save(c, url, markup);
    var n := |c.pageIds.keys|;
    assert forall k | k in c.repo.urls.items :: k <= c.repo.maxId;
    var created := Create(c.repo, url, markup);
    assert r.repo == created.repo && created.page.id == n && created.page.url == url;
    assert r.pageIds.keys == c.pageIds.keys + [url];
    assert r.repo.urls.items == c.repo.urls.items[n := url];
    IdsAppended(c.pageIds, c.repo.urls.items, url, r.pageIds, r.repo.urls.items);
  }

  /** Appending the url with the next id to both directions of the url/id correspondence keeps them inverse. */
  lemma IdsAppended(ids: Dict<string, int>, urls: map<int, string>, url: string, ids': Dict<string, int>, urls': map<int, string>)
    requires forall i | 0 <= i < |ids.keys| :: ids.items[ids.keys[i]] == i
    requires forall k | k in urls :: 0 <= k < |ids.keys| && urls[k] == ids.keys[k]
    requires forall i | 0 <= i < |ids.keys| :: i in urls
    requires ids'.keys == ids.keys + [url] && ids'.items == ids.items[url := |ids.keys|] && url !in ids.items
    requires urls' == urls[|ids.keys| := url]
    requires forall i | 0 <= i < |ids.keys| :: ids.keys[i] in ids.items
    ensures forall i | 0 <= i < |ids'.keys| :: ids'.items[ids'.keys[i]] == i
    ensures forall k | k in urls' :: 0 <= k < |ids'.keys| && urls'[k] == ids'.keys[k]
    ensures forall i | 0 <= i < |ids'.keys| :: i in urls'
  {
  }

  /** The queue and the seen set after an iteration that fetched a page whose valid links are `children`. */
  lemma FrontierStep(cfg: Config, c: Crawl, children: set<string>, added: seq<string>, r: Crawl)
    requires FrontierOk(cfg, c) && RecordsOk(c) && c.queue != []
    requires forall u | u in children :: cfg.tools.validate(u) && u !in cfg.blacklist
    requires Enumerates(added, children - c.seen)
    requires r.queue == c.queue[1..] + added && r.seen == c.seen + (children - c.seen)
    requires forall u | u in r.pageIds.items :: u in c.pageIds.items || u == c.queue[0]
    requires forall u | u in r.outcomeLinks.items :: (u in c.outcomeLinks.items && r.outcomeLinks.items[u] == c.outcomeLinks.items[u]) || (u == c.queue[0] && r.outcomeLinks.items[u] != {})
    ensures FrontierOk(cfg, r) && RecordsOk(r)
  {
  }

  lemma {:induction false} ParseIdsOfIdStrings(ids: seq<int>)
    ensures ParseIds(IdStrings(ids)) == Ok(ids)
  {
    if ids != [] {
      ParseIntOfIntToString(ids[0]);
      assert IdStrings(ids)[1..] == IdStrings(ids[1..]);
      ParseIdsOfIdStrings(ids[1..]);
      assert [ids[0]] + ids[1..] == ids;
    }
  }

  /** A line of ids holds no line break before its end. */
  lemma LinkLineIsLine(ids: seq<int>)
    requires ids != []
    ensures IsLine(LinkLine(ids))
  {
    var parts := IdStrings(ids);
    TerminatedHasNoBreak(parts);
    TerminatedIsJoin(" ", parts);
    var j := Join(" ", parts);
    assert j == (j + " ")[..|j|];
    assert LinkLine(ids)[..|LinkLine(ids)| - 1] == j;
  }

  /** The words of a written line, stripped or not, are the ids' decimal forms. */
  lemma LinkLineWords(ids: seq<int>)
    ensures Words(LinkLine(ids)) == IdStrings(ids)
    ensures Words(RStrip(LinkLine(ids))) == IdStrings(ids)
  {
    assert IsSpace('\n');
    WordsOfJoin(IdStrings(ids), "\n");
    WordsOfRStrip(LinkLine(ids));
  }

  /** Reading back lines of ids gives the table of those rows. */
  lemma {:induction false} TabulateRows(rows: seq<seq<int>>, ws: seq<seq<string>>)
    requires forall i | 0 <= i < |rows| :: rows[i] != []
    requires |ws| == |rows| && forall i | 0 <= i < |rows| :: ws[i] == IdStrings(rows[i])
    ensures Tabulate(ws) == Ok(Table(rows))
  {
    if rows != [] {
      var n := |rows| - 1;
      TabulateRows(rows[..n], ws[..n]);
      ParseIdsOfIdStrings(rows[n]);
    }
  }

  /** Reading a file of lines of ids gives the table of those rows. */
  lemma ReadLinksOfRows(rows: seq<seq<int>>)
    requires forall i | 0 <= i < |rows| :: rows[i] != []
    ensures ReadLinks(Concat(LinkLines(rows))) == Ok(Table(rows))
  {
    var lines := LinkLines(rows);
    forall i | 0 <= i < |lines| ensures IsLine(lines[i]) {
      LinkLineIsLine(rows[i]);
    }
    ReadLinesOfConcat(lines);
    if lines != [] {
      FirstLineKept(rows);
      var ws := WordRows([RStrip(lines[0])] + lines[1..]);
      LinesReadAsIds(rows);
      TabulateRows(rows, ws);
      ReadLinksUnfold(Concat(lines), lines);
    }
  }

  /** The words of each line as `read_page_outcome_links` sees it, the first line stripped. */
  lemma LinesReadAsIds(rows: seq<seq<int>>)
    requires rows != []
    ensures var lines := LinkLines(rows);
      var ws := WordRows([RStrip(lines[0])] + lines[1..]);
      |ws| == |rows| && forall i | 0 <= i < |rows| :: ws[i] == IdStrings(rows[i])
  {
    var lines := LinkLines(rows);
    var read := [RStrip(lines[0])] + lines[1..];
    forall i | 0 <= i < |rows| ensures WordRows(read)[i] == IdStrings(rows[i]) {
      LineReadAsIds(rows, read, i);
    }
  }

  lemma LineReadAsIds(rows: seq<seq<int>>, read: seq<string>, i: nat)
    requires rows != [] && i < |rows|
    requires read == [RStrip(LinkLines(rows)[0])] + LinkLines(rows)[1..]
    ensures WordRows(read)[i] == IdStrings(rows[i])
  {
    LinkLineWords(rows[i]);
    assert LinkLines(rows)[i] == LinkLine(rows[i]);
    if i == 0 {
      assert read[i] == RStrip(LinkLine(rows[i]));
    } else {
      assert read[i] == LinkLine(rows[i]);
    }
  }

  lemma ReadLinksUnfold(content: string, lines: seq<string>)
    requires ReadLines(content) == lines && lines != [] && RStrip(lines[0]) != []
    ensures ReadLinks(content) == Tabulate(WordRows([RStrip(lines[0])] + lines[1..]))
  {
  }

  lemma FirstLineKept(rows: seq<seq<int>>)
    requires rows != [] && rows[0] != []
    ensures RStrip(LinkLines(rows)[0]) != []
  {
    LinkLineWords(rows[0]);
  }

  /** `read_page_outcome_links` gives back what `_save_page_outcome_links` wrote: the row of each saved
      page with links, keyed by the page's id. */
  lemma SaveLinksRoundTrip(pageIds: Dict<string, int>, outcome: Dict<string, set<string>>, order: set<string> -> seq<string>)
    ensures ReadLinks(SaveLinks(pageIds, outcome, order)) == Ok(Table(LinkRows(pageIds, outcome, order, outcome.keys)))
  {
    ReadLinksOfRows(LinkRows(pageIds, outcome, order, outcome.keys));
  }

  /** No two saved pages share an id. */
  predicate IdsDistinct(pageIds: Dict<string, int>) {
    forall u, v | u in pageIds.items && v in pageIds.items && u != v :: pageIds.items[u] != pageIds.items[v]
  }

  /** The table read back from the rows of `sources`: a row for each saved page among them that has links, and nothing else. */
  lemma {:induction false} LinkRowsTable(pageIds: Dict<string, int>, outcome: Dict<string, set<string>>, order: set<string> -> seq<string>, sources: seq<string>)
    requires Distinct(sources) && IdsDistinct(pageIds)
    ensures forall u | u in sources && u in outcome.items && u in pageIds.items ::
      var t := Table(LinkRows(pageIds, outcome, order, sources));
      pageIds.items[u] in t.items && t.items[pageIds.items[u]] == LinkIds(pageIds, order(outcome.items[u]))
    ensures forall k | k in Table(LinkRows(pageIds, outcome, order, sources)).items ::
      exists u | u in sources && u in outcome.items && u in pageIds.items :: pageIds.items[u] == k
  {
    if sources != [] {
      var n := |sources| - 1;
      var u := sources[n];
      var prefix := sources[..n];
      assert forall v | v in prefix :: v in sources && v != u;
      LinkRowsTable(pageIds, outcome, order, prefix);
      var before := LinkRows(pageIds, outcome, order, prefix);
      var rows := LinkRows(pageIds, outcome, order, sources);
      assert sources == prefix + [u];
      if u in pageIds.items && u in outcome.items {
        assert rows == before + [LinkRow(pageIds, outcome, order, u)];
        assert rows[..|rows| - 1] == before;
      } else {
        assert rows == before;
      }
      LinkRowsTableStep(pageIds, outcome, order, sources, prefix, u, Table(before), Table(rows));
    }
  }

  /** One more source: its row, if it has one, lands under its own id and leaves the other sources' rows alone. */
  lemma LinkRowsTableStep(pageIds: Dict<string, int>, outcome: Dict<string, set<string>>, order: set<string> -> seq<string>,
                          sources: seq<string>, prefix: seq<string>, u: string, before: Dict<int, seq<int>>, t: Dict<int, seq<int>>)
    requires sources == prefix + [u] && u !in prefix && IdsDistinct(pageIds)
    requires u in pageIds.items && u in outcome.items ==> t.items == before.items[pageIds.items[u] := LinkIds(pageIds, order(outcome.items[u]))]
    requires !(u in pageIds.items && u in outcome.items) ==> t == before
    requires forall v | v in prefix && v in outcome.items && v in pageIds.items ::
      pageIds.items[v] in before.items && before.items[pageIds.items[v]] == LinkIds(pageIds, order(outcome.items[v]))
    requires forall k | k in before.items :: exists v | v in prefix && v in outcome.items && v in pageIds.items :: pageIds.items[v] == k
    ensures forall v | v in sources && v in outcome.items && v in pageIds.items ::
      pageIds.items[v] in t.items && t.items[pageIds.items[v]] == LinkIds(pageIds, order(outcome.items[v]))
    ensures forall k | k in t.items :: exists v | v in sources && v in outcome.items && v in pageIds.items :: pageIds.items[v] == k
  {
    LinkRowsTableKept(pageIds, outcome, order, sources, prefix, u, before, t);
    LinkRowsTableOnly(pageIds, outcome, sources, prefix, u, before, t);
  }

  lemma LinkRowsTableKept(pageIds: Dict<string, int>, outcome: Dict<string, set<string>>, order: set<string> -> seq<string>,
                          sources: seq<string>, prefix: seq<string>, u: string, before: Dict<int, seq<int>>, t: Dict<int, seq<int>>)
    requires sources == prefix + [u] && u !in prefix && IdsDistinct(pageIds)
    requires u in pageIds.items && u in outcome.items ==> t.items == before.items[pageIds.items[u] := LinkIds(pageIds, order(outcome.items[u]))]
    requires !(u in pageIds.items && u in outcome.items) ==> t == before
    requires forall v | v in prefix && v in outcome.items && v in pageIds.items ::
      pageIds.items[v] in before.items && before.items[pageIds.items[v]] == LinkIds(pageIds, order(outcome.items[v]))
    ensures forall v | v in sources && v in outcome.items && v in pageIds.items ::
      pageIds.items[v] in t.items && t.items[pageIds.items[v]] == LinkIds(pageIds, order(outcome.items[v]))
  {
    forall v | v in sources && v in outcome.items && v in pageIds.items
      ensures pageIds.items[v] in t.items && t.items[pageIds.items[v]] == LinkIds(pageIds, order(outcome.items[v]))
    {
      if v != u {
        assert v in prefix;
        if u in pageIds.items && u in outcome.items {
          assert pageIds.items[v] != pageIds.items[u];
        }
      }
    }
  }

  lemma LinkRowsTableOnly(pageIds: Dict<string, int>, outcome: Dict<string, set<string>>,
                          sources: seq<string>, prefix: seq<string>, u: string, before: Dict<int, seq<int>>, t: Dict<int, seq<int>>)
    requires sources == prefix + [u]
    requires t.items.Keys <= before.items.Keys + (if u in pageIds.items && u in outcome.items then {pageIds.items[u]} else {})
    requires forall k | k in before.items :: exists v | v in prefix && v in outcome.items && v in pageIds.items :: pageIds.items[v] == k
    ensures forall k | k in t.items :: exists v | v in sources && v in outcome.items && v in pageIds.items :: pageIds.items[v] == k
  {
    forall k | k in t.items ensures exists v | v in sources && v in outcome.items && v in pageIds.items :: pageIds.items[v] == k {
      if k in before.items {
        var v :| v in prefix && v in outcome.items && v in pageIds.items && pageIds.items[v] == k;
        assert v in sources;
      } else {
        assert u in sources;
      }
    }
  }

  /** Under the invariant, `links.txt` reads back as one entry per saved page with links: the ids of the
      saved pages it links to, under its own id; pages that were not saved have no entry. */
  lemma SavedLinksReadBack(c: Crawl, order: set<string> -> seq<string>)
    requires IdsOk(c)
    ensures ReadLinks(SaveLinks(c.pageIds, c.outcomeLinks, order)).Ok?
    ensures forall u | u in c.outcomeLinks.items && u in c.pageIds.items ::
      var t := ReadLinks(SaveLinks(c.pageIds, c.outcomeLinks, order)).value;
      c.pageIds.items[u] in t.items && t.items[c.pageIds.items[u]] == LinkIds(c.pageIds, order(c.outcomeLinks.items[u]))
    ensures forall k | k in ReadLinks(SaveLinks(c.pageIds, c.outcomeLinks, order)).value.items ::
      exists u | u in c.outcomeLinks.items && u in c.pageIds.items :: c.pageIds.items[u] == k
  {
    SaveLinksRoundTrip(c.pageIds, c.outcomeLinks, order);
    IdsOkDistinct(c);
    LinkRowsTable(c.pageIds, c.outcomeLinks, order, c.outcomeLinks.keys);
  }

  lemma IdsOkDistinct(c: Crawl)
    requires IdsOk(c)
    ensures IdsDistinct(c.pageIds)
  {
    forall u, v | u in c.pageIds.items && v in c.pageIds.items && u != v ensures c.pageIds.items[u] != c.pageIds.items[v] {
      var i :| 0 <= i < |c.pageIds.keys| && c.pageIds.keys[i] == u;
      var j :| 0 <= j < |c.pageIds.keys| && c.pageIds.keys[j] == v;
    }
  }

  /** A link's id is written exactly when the link is to a saved page. */
  lemma {:induction false} LinkIdsMeaning(pageIds: Dict<string, int>, links: seq<string>)
    ensures forall l | l in links && l in pageIds.items :: pageIds.items[l] in LinkIds(pageIds, links)
    ensures forall k | k in LinkIds(pageIds, links) :: exists l | l in links && l in pageIds.items :: pageIds.items[l] == k
  {
    if links != [] {
      LinkIdsMeaning(pageIds, links[1..]);
      assert forall l | l in links :: l == links[0] || l in links[1..];
    }
  }
}
