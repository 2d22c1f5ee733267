# Information retrieval pipeline of Information_Search_2024, in Dafny

This project models the text-retrieval pipeline of the repository's `src/` scripts and proves properties about it. It is written as pure functions over immutable values.

- **`crawler.py`.** A breadth-first crawler. It saves pages with enough words into a raw page repository and writes the links between saved pages to `links.txt`.
- **`raw_pages.py`.** The raw page repository. It is an id allocator, backed by an index file of `"<id> <url>\n"` records and a directory of page files.
- **`text.py`.** The whitespace normaliser `delete_extra_whitespaces`.
- **`task_2.py`.** Collects the accepted tokens of all pages and groups them by lemma.
- **`task_3.py`.** Builds an inverted index from lemmas to page ids.
- **`task_4.py`.** Counts tokens per page and computes token and lemma TF and IDF (linear IDF, pages / document frequency).
- **`task_5.py`.** Builds TF-IDF vectors for pages and for a query, and returns the pages whose "distance" `1 - dot / (len * len)` is below 1.

Modules, one file each:

| module | file | models |
|---|---|---|
| `Results` | results.dfy | Python exceptions as `Err(ValueError \| IndexError \| ZeroDivisionError \| KeyError)`; `Option` |
| `Dicts` | dicts.dfy | a Python `dict`: a map plus its insertion order |
| `Strings` | strings.dfy | the `str` built-ins the code uses: `isspace`, `strip`/`rstrip`, `split()`, `" ".join`, `readlines`, `int`/`str` on integers |
| `Text` | text.dfy | `delete_extra_whitespaces` |
| `Tokens` | tokens.dfy | `is_correct` |
| `TermStats` | term_stats.dfy | token counts, TF, document frequency, IDF, lemma TF, the `write_tf_idf` lookups |
| `VectorSearch` | vector_search.dfy | the `VectorSearch` class |
| `InvertedIndex` | inverted_index.dfy | `get_tokens`, `get_lemmas`, the index loop of `main`, `write_inverted_index` |
| `LemmaGroups` | lemma_groups.dfy | token collection, `group_tokens_by_lemmas`, `write_lemmas`, `write_tokens` |
| `RawPages` | raw_pages.dfy | `RawPageRepository` and its index file |
| `Crawler` | crawler.dfy | the frontier loop of `main`, `count_words`, `is_url_valid`, `links.txt` |

Things that lie outside the program are parameters:

- **`Analyzer`.** The morphological analyser and the stop-word list: the stop words, `score` and `normalize`.
- **`UrlTools`.** `validators.url` and `urlparse`.
- **`fetch`.** Downloading plus HTML parsing.
- **`order`.** The iteration order of a Python set: one fixed enumeration per set value, so two equal sets always come out in the same order. Python need not do that (the stored `child_urls` and `child_urls.difference(seen)` of src/crawler.py:74-79 can be iterated in different orders); no proof depends on it.
- **`Disk`.** The file system, as the index text plus a map from page id to page contents. Every file is opened in text mode with the default `newline=None`, so reading turns "\r\n" and a lone '\r' into "\n" before lines are cut.

Floats are modelled as exact reals.

## Model

| member | source | states |
|---|---|---|
| Dicts.Set | src/task_4.py:33-36 | assigning `d[k] = v` updates the value under `k`; a new key goes to the end of the iteration order and an existing key keeps its place |
| Dicts.ValuesOfSet | src/task_5.py:65-66 | in `list(d.values())` after `d[k] = v`, an existing key's value is replaced in its own position and nothing else moves; a new key's value is appended at the end |
| Dicts.FromKeys | src/task_5.py:45 | a dict comprehension over distinct keys has exactly those keys, in that order, each mapped to its value |
| Strings.Strip | src/text.py:7 | `strip()` leaves no whitespace at either end, and all-whitespace text becomes empty |
| Strings.Words | src/crawler.py:143 | every word `split()` returns is non-empty and free of whitespace |
| Strings.WordCountIsRunCount | src/crawler.py:142-143 | the number of words of `split()` equals the number of maximal non-whitespace runs |
| Strings.WordsOfJoin | src/crawler.py:154 | splitting words joined by single spaces, followed by any whitespace, gives the words back |
| Strings.WordsOfRStrip | src/crawler.py:160 | `rstrip()` does not change what `split()` returns |
| Strings.Newlines | src/raw_pages.py:28-31 | text-mode reading with `newline=None` leaves no '\r': "\r\n" and a lone '\r' both become "\n", and the text never grows |
| Strings.NewlinesOfPlain | src/raw_pages.py:28-31 | text without '\r' is read exactly as written |
| Strings.NewlinesAppend | src/raw_pages.py:28-31 | translation works piece by piece when the first piece does not end in '\r' |
| Strings.ReadLines | src/raw_pages.py:67 | `readlines()` cuts the newline-translated text into non-empty lines that concatenate back to it; no line holds '\r', and all but the last end in their only "\n" |
| Strings.ReadLinesOfConcat | src/raw_pages.py:67 | reading back the concatenation of whole lines, each ending in its only "\n" and holding no '\r', gives those lines |
| Strings.ParseIntOfIntToString | src/raw_pages.py:96-103 | `int(str(n)) == n` for every integer, negative ones included |
| Strings.IntToString | src/raw_pages.py:98 | `str(n)` is non-empty and holds no whitespace |
| Strings.WordsOfTerminated | src/task_3.py:45-48 | splitting words that are each followed by a space, then by whitespace, gives the words back |
| Text.DeleteExtraWhitespaces | src/text.py:6-15 | the result has no whitespace at either end; all-whitespace input gives ""; every whitespace character left is a single space or line break, with a non-whitespace character after it; the non-whitespace characters are kept in order |
| Text.Squeeze | src/text.py:9-13 | reference definition: each whitespace run becomes one line break if it holds one and one space otherwise; the result has no run longer than one |
| Text.PipelineIsSqueeze | src/text.py:9-13 | the two regular-expression substitutions, in order, equal the run-by-run reference |
| Text.DeleteExtraWhitespacesIsSqueeze | src/text.py:6-15 | the whole function is `strip` followed by the reference |
| Text.CollapseBlanks | src/text.py:10 | the first substitution never lengthens the text and removes only whitespace: the non-whitespace characters are kept, in order |
| Text.JoinLineBreaks | src/text.py:13 | the second substitution never lengthens the text and removes only whitespace: the non-whitespace characters are kept, in order |
| Text.CollapseConcat | src/text.py:10 | the first substitution works on the pieces independently when the second piece does not start with a blank |
| Text.CollapseOfSpaceRun | src/text.py:10 | a whitespace run without a line break becomes exactly one space; with one it keeps a line break |
| Text.JoinOfSpaceRun | src/text.py:13 | a whitespace run holding a line break becomes exactly one line break; one without is left alone |
| Text.StripKeepsNonSpace | src/text.py:7 | `strip()` removes only whitespace |
| Text.SqueezeKeepsNonSpace | src/text.py:9-13 | the substitutions remove only whitespace |
| Text.SqueezeOfCanonical | src/text.py:9-13 | text whose whitespace is already single spaces and line breaks is left unchanged |
| Text.DeleteExtraWhitespacesIdempotent | src/text.py:6-15 | applying the function to its own result changes nothing |
| Tokens.Lower | src/task_4.py:47 | `lower()` maps each character to its lower-case form and keeps the length |
| Tokens.CountWherePositive | src/task_4.py:43 | `sum(map(pred, s)) > 0` holds exactly when some character satisfies the predicate |
| Tokens.StuckWordsMeaning | src/task_4.py:42-44 | a token counts as stuck words iff some character after the first is upper case and (some character after the first is lower case or the first is) |
| Tokens.OrdinaryCaseIsNotStuck | src/task_4.py:42-44 | all-lower-case, all-upper-case and capitalised tokens are never stuck words |
| Tokens.IsCorrect | src/task_4.py:41-51 | an accepted token has at least two characters, all Cyrillic letters from `[а-яА-Я]` except possibly a final line break; it is not a stop word in lower case, and the analyser scores it at least 0.5 |
| Tokens.IsCorrectMeaning | src/task_4.py:41-51 | a token is accepted iff it fully matches `[а-яА-Я]{2,}` (a final line break tolerated by `$`), is not stuck words, is not a stop word in lower case, and scores at least 0.5; so accepted tokens have at least two letters from U+0410 to U+044F, with no digit, Latin letter, `ё` or punctuation |
| Tokens.Accepted | src/task_4.py:30-31 | the filter keeps exactly the tokens `is_correct` accepts |
| TermStats.Accumulate | src/task_4.py:33-36 | one counting step adds the weight under its key, leaves the other keys alone, and adds the weight to the total |
| TermStats.CountTokens | src/task_4.py:32-36 | the counts have exactly the tokens of the sequence as keys, each with its number of occurrences, at least 1, and sum to the sequence length |
| TermStats.GetTokens | src/task_4.py:24-38 | a page's counts have exactly the accepted tokens as keys, each counted as often as it occurs in the page; the counts sum to the number of accepted tokens |
| TermStats.AcceptedKeepsCounts | src/task_4.py:30-31 | filtering keeps every occurrence of an accepted token |
| TermStats.PagesTokens | src/task_4.py:54-64 | one count table per index line, in order; the table of line i has exactly the accepted tokens of that page as keys, each mapped to how often it occurs there |
| TermStats.PageTf | src/task_4.py:70-75 | TF is count / total for every token, with the same keys; an empty page gives an empty map without dividing; the values of a non-empty page sum to 1; division by zero happens only for a non-empty page whose counts sum to 0 |
| TermStats.FractionsSumToOne | src/task_4.py:71-73 | counts divided by their sum add up to 1 |
| TermStats.TokenTf | src/task_4.py:67-77 | `calculate_token_tf` succeeds iff every page's TF does, and then gives each page's TF |
| TermStats.TokenTfOfPages | src/task_4.py:67-77 | on count tables built from pages, TF never divides by zero |
| TermStats.DocFreq | src/task_4.py:91-97 | the document frequency lies between 0 and the page count and is positive iff some page holds the token |
| TermStats.DocFreqCountsPages | src/task_4.py:91-97 | the document frequency is the number of pages whose map holds the token |
| TermStats.AddNew | src/task_4.py:84-85 | adding keys not yet present keeps the key list distinct and yields the union |
| TermStats.Vocabulary | src/task_4.py:83-85 | the IDF keys are the union of the page keys, each once |
| TermStats.Idf | src/task_4.py:80-88 | the IDF keys are exactly the union of the page keys; each value is pages / df with 1 <= df <= pages, hence no division by zero and every value at least 1; the same function serves `calculate_lemmas_idf` |
| TermStats.GroupCounts | src/task_4.py:104-110 | the lemma totals have exactly the lemmas of the page's tokens as keys, each the sum of the counts of its tokens, and they add up to the page's total |
| TermStats.PageLemmaTf | src/task_4.py:100-117 | lemma TF has keys `{normalize(t)}`; each value is the lemma's summed count over the number of distinct tokens of the page; the values sum to total count / distinct tokens |
| TermStats.LemmaTf | src/task_4.py:100-117 | one lemma TF map per page, in order; its keys are exactly the normal forms of the page's tokens; for a non-empty page the values add up to the page's token total over its number of distinct tokens, so 1 only when every token occurs once |
| TermStats.PageRecords | src/task_4.py:136-141 | writing a page's table succeeds iff each term has an IDF entry, and then writes one (term, tf, idf) record per term in key order |
| TermStats.WriteTfIdf | src/task_4.py:131-141 | writing fails with `KeyError` iff some page term has no IDF entry |
| TermStats.IdfCoversTf | src/task_4.py:136-139 | the `idf[term]` lookup never misses when the IDF comes from maps that cover each TF map's keys |
| TermStats.TfIdfTablesWritten | src/task_4.py:144-152 | both the token table and the lemma table are written without error |
| VectorSearch.ScalarProduct | src/task_5.py:22-23 | the dot product of two vectors without negative entries is never negative |
| VectorSearch.ScalarProductSymmetric | src/task_5.py:22-23 | the positional dot product, which stops at the shorter list, is symmetric |
| VectorSearch.ScalarProductPositive | src/task_5.py:22-23 | for non-negative vectors the dot product is non-negative, and positive iff some aligned pair has a positive product |
| VectorSearch.CalculateDistance | src/task_5.py:25-26 | the distance divides by zero iff a vector is empty; otherwise it is below 1 iff the dot product is positive |
| VectorSearch.DistanceSymmetric | src/task_5.py:25-26 | the distance is symmetric |
| VectorSearch.PageTfIdf | src/task_5.py:36-38 | a page's TF-IDF has exactly its TF keys, in order, with values tf * idf; a term missing from the IDF raises `KeyError` |
| VectorSearch.PagesTfIdf | src/task_5.py:28-42 | one TF-IDF map per page, and it fails iff some page fails |
| VectorSearch.PagesTfIdfNeverMisses | src/task_5.py:28-42 | on lemma TF maps and their own IDF the IDF lookup never misses |
| VectorSearch.FillQuery | src/task_5.py:46-48 | the update loop keeps the IDF key order and sets every visited lemma known to the IDF |
| VectorSearch.QueryTfIdf | src/task_5.py:44-50 | the query vector has exactly the IDF keys in IDF order; a lemma in both gets query tf * idf and every other key 0; query lemmas unknown to the IDF are dropped |
| VectorSearch.SecondLemmaQueryVector | src/task_5.py:44-50 | a query holding only the second of two lemmas has the vector [0, 2] |
| VectorSearch.QueryTf | src/task_5.py:52-59 | the query's lemma counts have as keys the normal forms of the accepted tokens, each with its raw count rather than a fraction |
| VectorSearch.MapSeqCounts | src/task_5.py:57 | `Counter` over the normal forms counts, per lemma, the tokens normalising to it |
| VectorSearch.IndicesFrom | src/task_5.py:64-68 | the loop returns, in ascending order, exactly the indices that pass the test |
| VectorSearch.Search | src/task_5.py:61-70 | the search raises `ZeroDivisionError` iff some page vector or the query vector is empty; otherwise it returns a strictly increasing list of exactly the indices whose distance is below the threshold |
| VectorSearch.SearchAtDefaultThreshold | src/task_5.py:61-70 | with threshold 1 a page is returned iff the positional dot product of its values with the query's values is positive |
| VectorSearch.EmptyPageAbortsSearch | src/task_5.py:25-26 | a page with no lemmas makes the whole search fail, though the other page shares the query's lemma |
| VectorSearch.SearchGuarded | src/task_5.py:61-70 | corrected search: pages with an empty vector are skipped and the rest are judged as before |
| VectorSearch.SearchGuardedAgrees | src/task_5.py:61-70 | whenever the original search succeeds, the corrected one returns the same list |
| VectorSearch.MisalignedVectorsMissPage | src/task_5.py:64-66 | pairing page values with query values by position misses a page that holds the query's lemma |
| VectorSearch.Aligned | src/task_5.py:65 | the page vector laid out along the query's keys: laid out along the page's own keys it is `list(page.values())`, and when the query's keys cover the page, every page weight sits at the position of its lemma, so none is lost |
| VectorSearch.AlignedProductsMeaning | src/task_5.py:64-67 | in aligned vectors, a positive product at some position means a shared lemma with positive weights on both sides |
| VectorSearch.AlignedSearch | src/task_5.py:61-70 | corrected search: a strictly increasing list of exactly the pages whose aligned vector is near the query |
| VectorSearch.AlignedSearchFindsSharedLemmas | src/task_5.py:61-70 | with threshold 1 and non-negative weights, the corrected search returns a page iff it shares a lemma with the query with positive weights |
| InvertedIndex.PageTokenSet | src/task_3.py:22-29 | a page's token set holds only accepted tokens |
| InvertedIndex.PageTokenSetIsCountKeys | src/task_3.py:22-29 | the token set is exactly the set of accepted tokens, the keys of the page's counts |
| InvertedIndex.GetLemmas | src/task_3.py:32-39 | the lemma set is exactly `{normalize(t)}` over the tokens, and no larger than the token set |
| InvertedIndex.LemmasMeaning | src/task_3.py:32-39 | the set-comprehension form of the lemma set has the same members |
| InvertedIndex.RSplitHead | src/task_3.py:71-72 | the page id is the part of the line before its last space, or the whole line when there is none |
| InvertedIndex.RSplitHeadOfRecord | src/task_3.py:71-72 | on an index line `"<id> <url>\n"` whose url has no space, the id read is the record's id |
| InvertedIndex.IndexedPages | src/task_3.py:69-74 | one entry per index line, in order; a string is a lemma of entry i iff it is the normal form of some accepted token of the page file named by that entry's id |
| InvertedIndex.AddPage | src/task_3.py:75-79 | one page adds its lemmas as keys, never removes an id, and leaves other lemmas alone |
| InvertedIndex.Build | src/task_3.py:67-80 | the index keys are exactly the union of the pages' lemma sets |
| InvertedIndex.BuildOnlyGrows | src/task_3.py:75-79 | processing more pages never removes a key or an id |
| InvertedIndex.BuildAsWritten | src/task_3.py:75-79 | an entry holds the characters of the id of the first page with that lemma, plus the whole ids of the later ones |
| InvertedIndex.SingleCharIdsAgree | src/task_3.py:75-79 | when every id is one character, the index as written equals the corrected one |
| InvertedIndex.MultiCharIdIsSplit | src/task_3.py:77 | the first page with id "12" is entered as {"1", "2"} |
| InvertedIndex.AddPageCorrected | src/task_3.py:75-79 | corrected step: the page's whole id is added under each of its lemmas |
| InvertedIndex.BuildCorrected | src/task_3.py:67-80 | corrected index: the keys are the union of the lemma sets, and each entry is exactly the set of ids of the pages holding the lemma |
| InvertedIndex.IndexLines | src/task_3.py:42-49 | given enumerations of the index's lemmas and of each lemma's ids, every lemma gets exactly one line, holding that lemma and its ids; there are as many lines as lemmas and no other lines |
| InvertedIndex.IndexLineWords | src/task_3.py:45-48 | a written index line splits back into the lemma followed by its ids |
| LemmaGroups.CollectTokens | src/task_2.py:20-27 | the token set is the previous set joined with every page's accepted tokens |
| LemmaGroups.GroupByLemma | src/task_2.py:30-37 | the groups are keyed by exactly the normal forms of the tokens; each group lists the tokens normalising to its key, in iteration order; the group lengths sum to the number of tokens |
| LemmaGroups.GroupsPartitionTokens | src/task_2.py:31-36 | every token is in exactly one group, exactly once; every group is non-empty and holds only tokens normalising to its key |
| LemmaGroups.NormalizingMeaning | src/task_2.py:32-36 | a group's members normalise to its key, and a lemma reached by some token has a non-empty group |
| LemmaGroups.NormalizingCounts | src/task_2.py:31-36 | a group holds each of its tokens as often as the token occurs in the input |
| LemmaGroups.LemmaLineRoundTrip | src/task_2.py:42-47 | a `lemma: t1 t2 \n` line is one line and reads back as the lemma and its tokens |
| LemmaGroups.WriteLemmas | src/task_2.py:40-47 | when lemmas and tokens hold no whitespace and no token is empty, `lemmas.txt` reads back as exactly one line per lemma |
| LemmaGroups.WriteTokens | src/task_2.py:50-53 | when no token holds '\n' or '\r', `tokens.txt` reads back as exactly one line per token |
| LemmaGroups.WriteLemmasRoundTrip | src/task_2.py:40-47 | `lemmas.txt` holds one line per group, in order, each reading back as that group |
| LemmaGroups.WriteTokensRoundTrip | src/task_2.py:50-53 | `tokens.txt` holds one line per token, in iteration order |
| RawPages.Fields | src/raw_pages.py:102 | `split(" ")` returns at least one field, none holding a space, and joining them with spaces gives the text back |
| RawPages.RStripBreaks | src/raw_pages.py:102 | `rstrip("\n")` removes exactly the trailing line breaks |
| RawPages.DeserializeRecord | src/raw_pages.py:100-103 | a parsed url holds no space; `IndexError` is raised only for a line without a space |
| RawPages.SerializeRecord | src/raw_pages.py:96-98 | an index record starts with the id's digits and a space, and is one whole line when the url holds neither '\n' nor '\r' |
| RawPages.RecordRoundTrip | src/raw_pages.py:96-103 | a serialised record parses back to its id and the url's first space-separated field, which is the url iff the url has no space |
| RawPages.CollectMeaning | src/raw_pages.py:70-71 | reading records fails iff some line fails, with the error of the first failing line |
| RawPages.ParseRecordsMeaning | src/raw_pages.py:70-71 | each index line is parsed in turn and the first bad line's error is raised |
| RawPages.ParseSerialized | src/raw_pages.py:96-103 | lines written for records whose urls have no space, '\n' or '\r' read back as those records |
| RawPages.Assign | src/raw_pages.py:69-74 | the dictionary holds only ids whose page file exists, and every such record's id |
| RawPages.AssignLastWins | src/raw_pages.py:70-74 | each entry comes from the last record with that id |
| RawPages.AssignRecords | src/raw_pages.py:79-83 | reading the records of a dictionary, with every page present, gives the same dictionary back |
| RawPages.SerializeAll | src/raw_pages.py:79-83 | one serialised line per entry, in order; when no url holds '\n' or '\r', `readlines()` on the written text gives back exactly those lines |
| RawPages.Reload | src/raw_pages.py:65-74 | reading the index fails only with `ValueError` or `IndexError`; otherwise every entry has a page file and a url with no space, '\n' or '\r' |
| RawPages.ReloadIndexText | src/raw_pages.py:79-83 | a rewritten index of urls without space, '\n' or '\r' is whole lines, one per entry, and reopening it gives the dictionary back |
| RawPages.MaxId | src/raw_pages.py:36 | `max(keys, default=-1)` is at least every key, is -1 for no keys, and is itself a key otherwise |
| RawPages.Init | src/raw_pages.py:20-36 | opening fails iff reading the index does; it then holds what reading gives, `maxId` is `max(keys, default=-1)` of that dictionary, so every id is at most it, and the index changes only when rewriting is asked for |
| RawPages.InitRewritesIff | src/raw_pages.py:76-77 | the index is rewritten iff rewriting is asked for and the entry count differs from the line count; the rewritten file has one line per entry |
| RawPages.InitConsistent | src/raw_pages.py:65-77 | opening an index made of whole lines leaves the repository consistent with its directory |
| RawPages.Create | src/raw_pages.py:38-49 | the page gets id max + 1, which becomes the new maximum; exactly one entry id to url is added, not previously a key; the page file is written |
| RawPages.CreateConsistent | src/raw_pages.py:38-49 | creating a page whose url has no space, '\n' or '\r' keeps the repository consistent |
| RawPages.CreateReadsBack | src/raw_pages.py:44-47 | after the index line of a url without space, '\n' or '\r' is appended, reopening the directory gives the updated dictionary |
| RawPages.AppendRecord | src/raw_pages.py:89-91 | appending the serialised record of a url without space, '\n' or '\r' to whole lines adds exactly that record to what is read |
| RawPages.DeleteAll | src/raw_pages.py:51-58 | afterwards the dictionary is empty and agrees with the emptied directory |
| RawPages.DeleteAllRestartsIds | src/raw_pages.py:51-55 | after `delete_all` the next page created, with a url without space, '\n' or '\r', gets id 0 and is the only entry |
| RawPages.ReturnInUrlBreaksIndex | src/raw_pages.py:65-70 | after `delete_all`, `create` with url "a\rb" writes the one line "0 a\rb\n"; `readlines()` gives "0 a\n" and "b\n", so reopening the directory raises `ValueError` at `int("b")` |
| RawPages.CutIndexLosesNextPage | src/raw_pages.py:65-77 | opening an index that lacks its final line break keeps it as it is; the next page's line is glued onto the last one and that page is lost on reopening |
| RawPages.InitCorrected | src/raw_pages.py:65-77 | corrected opening, which also rewrites an index without a final line break, reads the same dictionary |
| RawPages.InitCorrectedConsistent | src/raw_pages.py:65-77 | corrected opening always leaves the repository consistent, so later pages read back |
| Crawler.CountWords | src/crawler.py:142-143 | `count_words` is the number of maximal non-whitespace runs, 0 for empty or all-whitespace text |
| Crawler.IsUrlValid | src/crawler.py:122-133 | a url passes only if the validator accepts it, it is not blacklisted, its host is whitelisted when a whitelist is given, and the page's scheme is "", "http" or "https"; a scheme-less page path holding ':' (tel:, mailto:) never passes |
| Crawler.LinkUrls | src/crawler.py:103-133 | a link is kept iff `is_url_valid` holds: valid and not blacklisted, host whitelisted when a whitelist is given, scheme "", "http" or "https", and not a scheme-less path with ':' |
| Crawler.Children | src/crawler.py:74 | every child url passed validation and is not blacklisted |
| Crawler.Save | src/crawler.py:64-69 | saving records the url under the id the repository hands out and changes nothing of the frontier |
| Crawler.Visit | src/crawler.py:54-80 | after a successful download, `seen` only grows, the rest of the queue stays at the front, and only the visited url can gain an id |
| Crawler.Step | src/crawler.py:44-80 | one iteration drops the head of the queue, only grows `seen`, and assigns an id at most to the visited url |
| Crawler.SaveKeepsIds | src/crawler.py:64-69 | saving a new url appends it to the ids, keeping ids 0, 1, ... in saving order and the repository's id-to-url map its inverse |
| Crawler.FrontierStep | src/crawler.py:74-80 | adding only unseen children to both queue and `seen` keeps the queue free of duplicates and inside `seen`; link sets are recorded only when non-empty |
| Crawler.VisitPreserves | src/crawler.py:54-80 | a visit keeps the crawl invariant and saves at most one page |
| Crawler.StepPreserves | src/crawler.py:44-80 | every iteration keeps the crawl invariant and saves at most one page |
| Crawler.Run | src/crawler.py:44-80 | the loop keeps the invariant and never saves more than max(max_pages_count, 0) pages; stopping before the fuel runs out means the queue is empty or the page limit reached |
| Crawler.LinkIdsMeaning | src/crawler.py:153 | a source's row lists the id of every saved target and nothing else |
| Crawler.LinkRow | src/crawler.py:152-153 | a row starts with the source's own id |
| Crawler.LinkRows | src/crawler.py:148-154 | every row is the row of a saved source with links, starting with its id, and every such source has its row; unsaved sources are skipped; there are no more rows than sources |
| Crawler.IdStrings | src/crawler.py:154 | each id is written as a non-empty word without whitespace |
| Crawler.LinkLineIsLine | src/crawler.py:154 | each written line is exactly one line |
| Crawler.LinkLineWords | src/crawler.py:154-161 | a written line, with or without `rstrip()`, splits back into the id words |
| Crawler.ParseIds | src/crawler.py:162 | parsing succeeds iff every word is a number, giving the value of word i at position i; otherwise it raises `ValueError` |
| Crawler.ParseIdsOfIdStrings | src/crawler.py:162 | written id words parse back to the ids |
| Crawler.FirstLineKept | src/crawler.py:160 | a written first line is never empty after `rstrip()`, so the reading loop starts |
| Crawler.SaveLinks | src/crawler.py:146-154 | `links.txt` reads back line by line as the lines of the rows, and every saved page with links has its line there |
| Crawler.Tabulate | src/crawler.py:161-164 | the loop succeeds iff every line is non-empty and all numbers; its errors are `ValueError` and `IndexError` only; no more keys than lines |
| Crawler.ReadLinks | src/crawler.py:157-166 | reading fails only with `ValueError` or `IndexError`, and only when some line is not blank; no more keys than lines |
| Crawler.ReadLinksOfRows | src/crawler.py:157-166 | reading the written lines of any rows gives the table that assigning each row's tail to its head would give |
| Crawler.SaveLinksRoundTrip | src/crawler.py:146-166 | reading `links.txt` back gives exactly the table of the rows written |
| Crawler.LinkRowsTable | src/crawler.py:148-154 | in that table every saved source with links maps to its saved targets' ids, and every key is such a source's id |
| Crawler.SavedLinksReadBack | src/crawler.py:146-166 | under the crawl invariant, `links.txt` reads back as each saved source id mapped to the ids of its saved targets, and nothing else |

## Left out

- File I/O is modelled as values: opening, reading, writing, truncating, `mkdir` and `rmtree`. The file system is a `Disk` value, file contents are strings, and a page file exists when its id is in the page map. Errors raised by I/O are not modelled.
- Downloading (`_download`, `requests`, content-type checks, redirect detection), BeautifulSoup parsing and `get_text`, and the HTML traversal and `urljoin`/`urldefrag` of `_get_link_urls` are represented by a `Download` oracle result and a list of `Anchor`s.
- `validators.url` and `urlparse` are abstract functions.
- pymorphy3 (`normal_form`, `is_known`, `score`), the NLTK stop-word list, `nltk.download`, and `wordpunct_tokenize` come in through `Analyzer`, or as token sequences given per page.
- IEEE-754 rounding is left out; TF, IDF and the distance use exact reals. `str(float)` in `write_tf_idf` is not modelled: records are (term, tf, idf) triples.
- The interactive `main` of src/task_5.py and `get_index` are console I/O. So are src/logs.py, src/demo.py and `format_exception`.
- The copies of `is_correct` in src/task_2.py and src/task_3.py decide the same as the one in src/task_4.py, which is modelled once. The src/task_2.py copy also calls `nltk.download('stopwords')` on every call (src/task_2.py:57), a network download that is left out with the rest of the I/O.
- `int()` accepts more than the model does: underscores between digits and non-ASCII decimal digits. The model accepts surrounding whitespace, a sign and ASCII digits. The index and links files only ever hold what `str(int)` writes.
- `str.isspace`, `isupper` and `islower` are modelled for the characters these files meet: the ASCII and Unicode whitespace list, and the Latin and Cyrillic alphabets.
- Crawler.Run: the loop is bounded by a `fuel` parameter, because a crawl of an unbounded web need not end. An iteration the fuel cuts off is not modelled.
- An exception from `create` inside the crawl loop is logged and skipped. The model's `Create` cannot fail, because it has no I/O.
- The repository behind `Crawler` starts from `delete_all`, as `main` does. Reopening an existing repository is covered by `RawPages.Init`.
- Writing with `newline=None` turns "\n" into `os.linesep`. The model writes "\n" as on POSIX systems. Where "\r\n" is written instead, reading turns it back into "\n", so nothing read back changes.
- Boolean query evaluation and PageRank do not appear in these files.

## Findings

| source | as written | input that shows it | evidently intended | confidence | as-written member | corrected member |
|---|---|---|---|---|---|---|
| src/task_3.py:77 | a new index entry is `set(page_id[0])`, the set of the id's characters | a first page with id "12" holding lemma "мир" gives {"1", "2"} | the set holding the whole id, {"12"} | high; not executed | InvertedIndex.MultiCharIdIsSplit | InvertedIndex.BuildCorrected |
| src/task_5.py:25-26 | the distance divides by the product of the lengths, and `search` checks every page | pages [{"мир": 1.0}, {}] with query {"мир": 1.0}: `ZeroDivisionError`, so the matching page 0 is never returned | a page without lemmas is skipped | high; not executed | VectorSearch.EmptyPageAbortsSearch | VectorSearch.SearchGuarded |
| src/task_5.py:64-66 | page values and query values are paired by position, while the page keys are that page's lemmas and the query keys are the whole IDF vocabulary | vocabulary ["мир", "дом"], page {"дом": 0.5}, query on "дом": the vectors [0.5] and [0.0, 2.0] give product 0, so the page is not returned | values paired by lemma | high; not executed | VectorSearch.MisalignedVectorsMissPage | VectorSearch.AlignedSearch |
| src/raw_pages.py:65-77 | the index is rewritten only when the entry count differs from the line count; a last line without "\n" is kept as it is, and `create` appends to it | index "0 a" with page 0, then create "b": the file becomes "0 a1 b\n", and on reopening page 1 is gone and page 0's url is "a1" | the next record starts on a line of its own | medium; not executed | RawPages.CutIndexLosesNextPage | RawPages.InitCorrected |
