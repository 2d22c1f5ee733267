/**
 The raw page repository of src/raw_pages.py: a directory of page files named
 by id, and an index file with one `<id> <url>` line per page. The directory
 is the `Disk` value the operations take and return.
 */
module RawPages {
  import opened Results
  import opened Strings
  import opened Dicts

  /** One line of the index file. */
  datatype IndexRecord = IndexRecord(id: int, url: string)

  datatype RawPage = RawPage(id: int, url: string, markup: string)

  /** The repository directory: the index file's content and the page files by id. */
  datatype Disk = Disk(index: string, pages: map<int, string>)

  /** The repository object: the largest id handed out, the id-to-url dictionary, and its directory. */
  datatype Repository = Repository(maxId: int, urls: Dict<int, string>, disk: Disk)

  /** `s.split(" ")`: the pieces between single spaces, empty ones included. */
  function Fields(s: string): (r: seq<string>)
    ensures |r| >= 1
    ensures forall i | 0 <= i < |r| :: ' ' !in r[i]
    ensures Join(" ", r) == s
    decreases |s|
  {
    if s == [] then [""]
    else
      var rest := Fields(s[1..]);
      if s[0] == ' ' then
        assert s == " " + s[1..];
        [""] + rest
      else
        assert s == [s[0]] + s[1..];
        [[s[0]] + rest[0]] + rest[1..]
  }

  /** `s.rstrip("\n")`: every trailing line break removed. */
  function RStripBreaks(s: string): (r: string)
    ensures r <= s
    ensures r == [] || r[|r| - 1] != '\n'
    ensures forall i | |r| <= i < |s| :: s[i] == '\n'
  {
    if s != [] && s[|s| - 1] == '\n' then RStripBreaks(s[..|s| - 1]) else s
  }

  /** `_serialize_index_record` */
  function SerializeRecord(id: int, url: string): (line: string)
    ensures IntToString(id) + " " <= line
    ensures Unbroken(url) ==> IsLine(line)
  {
    var digits := IntToString(id);
    assert IsSpace('\n');
    assert (digits + " " + url + "\n")[..|digits| + 1] == digits + " ";
    assert (digits + " " + url + "\n")[..|digits + " " + url|] == digits + " " + url;
    IntToString(id) + " " + url + "\n"
  }

  /**
   `_deserialize_index_record`: the first field must be a number
   (`ValueError` otherwise), and a second field must exist (`IndexError`
   otherwise); anything after the second field is ignored.
   */
  function DeserializeRecord(line: string): (r: Result<IndexRecord>)
    ensures r.Ok? ==> ' ' !in r.value.url
    ensures r == Err(IndexError) ==> ' ' !in line
    ensures r.Err? ==> r.error == ValueError || r.error == IndexError
  {
    var stripped := RStripBreaks(line);
    var fields := Fields(stripped);
    match ParseInt(fields[0])
    case Err(_) => Err(ValueError)
    case Ok(id) =>
      if |fields| < 2 then
        assert fields == [fields[0]];
        assert Join(" ", fields) == fields[0];
        Err(IndexError)
      else
        Ok(IndexRecord(id, fields[1]))
  }

  /** The outcome of reading each line on its own. */
  function DeserializeAll(lines: seq<string>): (rs: seq<Result<IndexRecord>>)
    ensures |rs| == |lines|
  {
    seq(|lines|, i requires 0 <= i < |lines| => DeserializeRecord(lines[i]))
  }

  /** All the values, or the first error: the loop stops at the first line that raises. */
  function Collect<T>(rs: seq<Result<T>>): (r: Result<seq<T>>)
    ensures r.Ok? ==> |r.value| == |rs|
    ensures r.Err? ==> exists i | 0 <= i < |rs| :: rs[i] == Err(r.error)
  {
    if rs == [] then Ok([])
    else
      var n := |rs| - 1;
      match Collect(rs[..n])
      case Err(e) => Err(e)
      case Ok(vs) =>
        match rs[n]
        case Err(e) => Err(e)
        case Ok(v) => Ok(vs + [v])
  }

  /** The records of the index lines, or the error of the first line that fails. */
  function ParseRecords(lines: seq<string>): (r: Result<seq<IndexRecord>>)
    ensures r.Ok? ==> |r.value| == |lines|
    ensures r.Err? ==> r.error == ValueError || r.error == IndexError
  {
    Collect(DeserializeAll(lines))
  }

  /** The dictionary the loop of `_initialize_index_from_file` fills: records whose page file exists, later lines winning. */
  function Assign(recs: seq<IndexRecord>, pages: map<int, string>): (d: Dict<int, string>)
    ensures forall k | k in d.items :: k in pages
    ensures forall i | 0 <= i < |recs| :: recs[i].id in pages ==> recs[i].id in d.items
    ensures |d.keys| <= |recs|
  {
    if recs == [] then Empty()
    else
      var n := |recs| - 1;
      var prev := Assign(recs[..n], pages);
      var rec := recs[n];
      assert forall i | 0 <= i < n :: recs[..n][i] == recs[i];
      if rec.id in pages then Set(prev, rec.id, rec.url) else prev
  }

  /** The index file's content is empty or ends in a line break. */
  predicate WholeLines(s: string) {
    s == [] || s[|s| - 1] == '\n'
  }

  /** The records of the given keys with their values. */
  function RecordsOf(keys: seq<int>, items: map<int, string>): (recs: seq<IndexRecord>)
    requires forall i | 0 <= i < |keys| :: keys[i] in items
    ensures |recs| == |keys|
    ensures forall i | 0 <= i < |recs| :: recs[i] == IndexRecord(keys[i], items[keys[i]])
  {
    seq(|keys|, i requires 0 <= i < |keys| => IndexRecord(keys[i], items[keys[i]]))
  }

  /** The records of a dictionary, in key order. */
  function Records(d: Dict<int, string>): (recs: seq<IndexRecord>)
    ensures |recs| == |d.keys|
    ensures forall i | 0 <= i < |recs| :: recs[i] == IndexRecord(d.keys[i], d.items[d.keys[i]])
  {
    RecordsOf(d.keys, d.items)
  }

  /** The lines `_recreate_index_file` writes, one per record, in order. */
  function SerializeAll(recs: seq<IndexRecord>): (lines: seq<string>)
    ensures |lines| == |recs|
    ensures forall i | 0 <= i < |recs| :: lines[i] == SerializeRecord(recs[i].id, recs[i].url)
    ensures (forall i | 0 <= i < |recs| :: Unbroken(recs[i].url)) ==> ReadLines(Concat(lines)) == lines
  {
    var lines := seq(|recs|, i requires 0 <= i < |recs| => SerializeRecord(recs[i].id, recs[i].url));
    SerializedLines(recs, lines);
    lines
  }

  /** `_recreate_index_file`: the content the index file is rewritten with. */
  function IndexText(d: Dict<int, string>): (content: string)
  {
    Concat(SerializeAll(Records(d)))
  }

  /** `max(keys, default = -1)` */
  function MaxId(keys: seq<int>): (m: int)
    ensures forall i | 0 <= i < |keys| :: keys[i] <= m
    ensures keys == [] ==> m == -1
    ensures keys != [] ==> m in keys
  {
    if keys == [] then -1
    else
      var m := MaxId(keys[..|keys| - 1]);
      assert keys == keys[..|keys| - 1] + [keys[|keys| - 1]];
      if keys[|keys| - 1] > m || |keys| == 1 then keys[|keys| - 1] else m
  }

  /** What a repository opened on `disk` would hold, or the error that opening it raises. */
  function Reload(disk: Disk): (r: Result<Dict<int, string>>)
    ensures r.Err? ==> r.error == ValueError || r.error == IndexError
    ensures r.Ok? ==> forall k | k in r.value.items :: k in disk.pages && ' ' !in r.value.items[k] && Unbroken(r.value.items[k])
  {
    match ParseRecords(ReadLines(disk.index))
    case Err(e) => Err(e)
    case Ok(recs) =>
      ParsedUrlsClean(disk.index);
      AssignUrlsClean(recs, disk.pages);
      Ok(Assign(recs, disk.pages))
  }

  /**
   `RawPageRepository(...)`, whose constructor calls
   `_initialize_index_from_file(True)`: the index is read, and rewritten when
   the dictionary has fewer entries than the file has lines.
   */
  function Init(disk: Disk, recreateIfInconsistent: bool): (r: Result<Repository>)
    ensures r.Ok? <==> Reload(disk).Ok?
    ensures r.Ok? ==> r.value.urls == Reload(disk).value && r.value.disk.pages == disk.pages
    ensures r.Ok? ==> r.value.maxId == MaxId(r.value.urls.keys)
    ensures r.Ok? ==> forall k | k in r.value.urls.items :: k <= r.value.maxId
    ensures r.Ok? && r.value.disk.index != disk.index ==> recreateIfInconsistent
  {
    var lines := ReadLines(disk.index);
    match ParseRecords(lines)
    case Err(e) => Err(e)
    case Ok(recs) =>
      var urls := Assign(recs, disk.pages);
      var index := if recreateIfInconsistent && |urls.keys| != |lines| then IndexText(urls) else disk.index;
      Ok(Repository(MaxId(urls.keys), urls, Disk(index, disk.pages)))
  }

  /**
   `Init` with the index also rewritten when it does not end in a line
   break, so that the next appended line starts a line of its own.
   */
  function InitCorrected(disk: Disk, recreateIfInconsistent: bool): (r: Result<Repository>)
    ensures r.Ok? <==> Reload(disk).Ok?
    ensures r.Ok? ==> r.value.urls == Reload(disk).value && r.value.disk.pages == disk.pages
  {
    var lines := ReadLines(disk.index);
    match ParseRecords(lines)
    case Err(e) => Err(e)
    case Ok(recs) =>
      var urls := Assign(recs, disk.pages);
      var rewrite := recreateIfInconsistent && (|urls.keys| != |lines| || !WholeLines(disk.index));
      var index := if rewrite then IndexText(urls) else disk.index;
      Ok(Repository(MaxId(urls.keys), urls, Disk(index, disk.pages)))
  }

  datatype Created = Created(repo: Repository, page: RawPage)

  /** `create`: the page gets the next id, its file is written, and its index line appended. */
  function Create(repo: Repository, url: string, markup: string): (r: Created)
    ensures r.page == RawPage(repo.maxId + 1, url, markup)
    ensures r.repo.maxId == r.page.id
    ensures r.repo.urls.items == repo.urls.items[r.page.id := url]
    ensures r.repo.disk.pages == repo.disk.pages[r.page.id := markup]
    ensures (forall k | k in repo.urls.items :: k <= repo.maxId) ==>
      r.page.id !in repo.urls.items && r.repo.urls.keys == repo.urls.keys + [r.page.id]
  {
    var id := repo.maxId + 1;
    var disk := Disk(repo.disk.index + SerializeRecord(id, url), repo.disk.pages[id := markup]);
    Created(Repository(id, Set(repo.urls, id, url), disk), RawPage(id, url, markup))
  }

  /** `delete_all`: the index file and the page directory are emptied. */
  function DeleteAll(repo: Repository): (r: Repository)
    ensures Reload(r.disk) == Ok(r.urls) && r.urls.keys == []
    ensures Consistent(r)
  {
    Repository(-1, Empty(), Disk("", map[]))
  }

  /**
   The repository agrees with its directory: reopening the directory gives the
   same dictionary, every index line names a page in it, every id is at most
   the largest handed out, and the index file ends in a line break.
   */
  predicate Consistent(repo: Repository) {
    && (forall k | k in repo.urls.items :: k <= repo.maxId)
    && WholeLines(repo.disk.index)
    && Reload(repo.disk) == Ok(repo.urls)
    && IdsListed(ParseRecords(ReadLines(repo.disk.index)), repo.urls)
  }

  /** Every record read names an entry of the dictionary. */
  predicate IdsListed(recs: Result<seq<IndexRecord>>, urls: Dict<int, string>) {
    recs.Ok? && forall i | 0 <= i < |recs.value| :: recs.value[i].id in urls.items
  }

  // ---------------------------------------------------------------- lemmas

  lemma {:induction false} FieldsAvoid(s: string, c: char)
    requires c !in s
    ensures forall i | 0 <= i < |Fields(s)| :: c !in Fields(s)[i]
    decreases |s|
  {
    if s != [] {
      FieldsAvoid(s[1..], c);
    }
  }

  lemma {:induction false} FieldsOfWord(w: string)
    requires ' ' !in w
    ensures Fields(w) == [w]
    decreases |w|
  {
    if w != [] {
      FieldsOfWord(w[1..]);
      assert [w[0]] + w[1..] == w;
    }
  }

  lemma {:induction false} FieldsAfterWord(w: string, rest: string)
    requires ' ' !in w
    ensures Fields(w + " " + rest) == [w] + Fields(rest)
    decreases |w|
  {
    var s := w + " " + rest;
    if w == [] {
      assert s[1..] == rest;
    } else {
      assert s[1..] == w[1..] + " " + rest;
      FieldsAfterWord(w[1..], rest);
      assert [w[0]] + w[1..] == w;
    }
  }

  lemma RStripOneBreak(s: string)
    requires s != [] && s[|s| - 1] != '\n'
    ensures RStripBreaks(s + "\n") == s
  {
    assert (s + "\n")[..|s|] == s;
  }

  /**
   Reading back a serialized index line gives its id, and its url up to the
   url's first space: the url survives exactly when it holds no space.
   */
  lemma RecordRoundTrip(id: int, url: string)
    requires Unbroken(url)
    ensures DeserializeRecord(SerializeRecord(id, url)) == Ok(IndexRecord(id, Fields(url)[0]))
    ensures Fields(url)[0] == url <==> ' ' !in url
  {
    var digits := IntToString(id);
    assert IsSpace(' ');
    assert ' ' !in digits;
    var body := digits + " " + url;
    RStripOneBreak(body);
    FieldsAfterWord(digits, url);
    FieldsOfWord(digits);
    ParseIntOfIntToString(id);
    if ' ' !in url {
      FieldsOfWord(url);
    }
  }

  /** Every line `f.readlines()` yields holds a line break only at its end; all are whole when the content ends in "\n". */
  lemma ReadLinesShape(s: string)
    ensures forall i | 0 <= i < |ReadLines(s)| :: Unbroken(ReadLines(s)[i][..|ReadLines(s)[i]| - 1])
    ensures WholeLines(s) ==> forall i | 0 <= i < |ReadLines(s)| :: IsLine(ReadLines(s)[i])
  {
    var t := Newlines(s);
    var lines := ReadLines(s);
    SplitLinesShape(t);
    if s != [] && WholeLines(s) {
      NewlinesKeepsFinalBreak(s);
    }
    forall i | 0 <= i < |lines| ensures Unbroken(lines[i][..|lines[i]| - 1]) {
      assert '\r' !in lines[i];
    }
  }

  lemma {:induction false} ConcatAppend(lines: seq<string>, last: string)
    ensures Concat(lines + [last]) == Concat(lines) + last
  {
    if lines != [] {
      assert (lines + [last])[1..] == lines[1..] + [last];
      ConcatAppend(lines[1..], last);
    }
  }

  /** Appending a whole line to an index made of whole lines appends it to the lines read back. */
  lemma ReadLinesAppend(s: string, line: string)
    requires WholeLines(s) && IsLine(line)
    ensures ReadLines(s + line) == ReadLines(s) + [line]
    ensures WholeLines(s + line)
  {
    var lines := ReadLines(s);
    ReadLinesShape(s);
    NewlinesOfLine(s, line);
    SplitAppendedLine(lines, line);
  }

  lemma NewlinesOfLine(s: string, line: string)
    requires WholeLines(s) && IsLine(line)
    ensures Newlines(s + line) == Newlines(s) + line
  {
    NewlinesAppend(s, line);
    assert line == line[..|line| - 1] + ['\n'];
    NewlinesOfPlain(line);
  }

  lemma SplitAppendedLine(lines: seq<string>, line: string)
    requires forall i | 0 <= i < |lines| :: IsLine(lines[i])
    requires IsLine(line)
    ensures SplitLines(Concat(lines) + line) == lines + [line]
  {
    ConcatAppend(lines, line);
    var all := lines + [line];
    forall i | 0 <= i < |all| ensures IsLine(all[i]) {
      if i < |lines| {
        assert all[i] == lines[i];
      }
    }
    SplitLinesOfConcat(all);
  }

  /** Each entry comes from a record, and holds the url of the last record with its id. */
  lemma {:induction false} AssignLastWins(recs: seq<IndexRecord>, pages: map<int, string>, k: int)
    requires k in Assign(recs, pages).items
    ensures exists i | 0 <= i < |recs| ::
      recs[i] == IndexRecord(k, Assign(recs, pages).items[k]) && forall j | i < j < |recs| :: recs[j].id != k
  {
    var n := |recs| - 1;
    var d := Assign(recs, pages);
    var prev := Assign(recs[..n], pages);
    if recs[n].id != k || recs[n].id !in pages {
      assert d.items[k] == prev.items[k];
      AssignLastWins(recs[..n], pages, k);
      var i :| 0 <= i < n && recs[..n][i] == IndexRecord(k, prev.items[k]) && forall j | i < j < n :: recs[..n][j].id != k;
      LastWinsStep(recs, recs[..n], k, d.items[k], i);
    } else {
      assert recs[n] == IndexRecord(k, d.items[k]);
    }
  }

  lemma LastWinsStep(recs: seq<IndexRecord>, prefix: seq<IndexRecord>, k: int, url: string, i: nat)
    requires recs != [] && prefix == recs[..|recs| - 1]
    requires i < |prefix| && recs[|recs| - 1].id != k
    requires prefix[i] == IndexRecord(k, url)
    requires forall j | i < j < |prefix| :: prefix[j].id != k
    ensures recs[i] == IndexRecord(k, url) && forall j | i < j < |recs| :: recs[j].id != k
  {
    forall j | i < j < |recs| ensures recs[j].id != k {
      if j < |prefix| {
        assert recs[j] == prefix[j];
      }
    }
  }

  /** As many entries as records means every record's id has its page and no id repeats. */
  lemma {:induction false} AssignFull(recs: seq<IndexRecord>, pages: map<int, string>)
    requires |Assign(recs, pages).keys| == |recs|
    ensures forall i | 0 <= i < |recs| :: recs[i].id in Assign(recs, pages).items
  {
    if recs != [] {
      var n := |recs| - 1;
      var prev := Assign(recs[..n], pages);
      var d := Assign(recs, pages);
      AssignSnoc(recs, pages);
      assert recs[n].id in pages && recs[n].id !in prev.items;
      AssignFull(recs[..n], pages);
      forall i | 0 <= i < |recs| ensures recs[i].id in d.items {
        if i < n {
          assert recs[i] == recs[..n][i];
          assert recs[i].id in prev.items;
        }
      }
    }
  }

  lemma {:induction false} AssignIgnoresPage(recs: seq<IndexRecord>, pages: map<int, string>, id: int, markup: string)
    requires forall i | 0 <= i < |recs| :: recs[i].id != id
    ensures Assign(recs, pages[id := markup]) == Assign(recs, pages)
  {
    if recs != [] {
      AssignIgnoresPage(recs[..|recs| - 1], pages, id, markup);
    }
  }

  /** Serialized records with urls free of line breaks are whole lines, which read back as themselves. */
  lemma SerializedLines(recs: seq<IndexRecord>, lines: seq<string>)
    requires |lines| == |recs|
    requires forall i | 0 <= i < |recs| :: lines[i] == SerializeRecord(recs[i].id, recs[i].url)
    ensures (forall i | 0 <= i < |recs| :: Unbroken(recs[i].url)) ==> ReadLines(Concat(lines)) == lines
  {
    if forall i | 0 <= i < |recs| :: Unbroken(recs[i].url) {
      forall i | 0 <= i < |lines| ensures IsLine(lines[i]) {
        SerializedLine(recs[i]);
      }
      ReadLinesOfConcat(lines);
    }
  }

  lemma SerializedLine(rec: IndexRecord)
    requires Unbroken(rec.url)
    ensures IsLine(SerializeRecord(rec.id, rec.url))
  {
    var line := SerializeRecord(rec.id, rec.url);
    var digits := IntToString(rec.id);
    assert IsSpace('\n');
    assert IsSpace('\r') && Unbroken(digits);
    assert line[..|line| - 1] == digits + " " + rec.url;
  }

  /**
   The values are collected in order: collecting succeeds exactly when every
   outcome is a value, and otherwise fails with the first error.
   */
  lemma {:induction false} CollectMeaning<T>(rs: seq<Result<T>>)
    ensures Collect(rs).Ok? <==> forall i | 0 <= i < |rs| :: rs[i].Ok?
    ensures Collect(rs).Ok? ==> forall i | 0 <= i < |rs| :: rs[i] == Ok(Collect(rs).value[i])
    ensures Collect(rs).Err? ==> exists i | 0 <= i < |rs| ::
      && rs[i] == Err(Collect(rs).error)
      && forall j | 0 <= j < i :: rs[j].Ok?
  {
    if rs != [] {
      var n := |rs| - 1;
      CollectMeaning(rs[..n]);
      assert forall i | 0 <= i < n :: rs[..n][i] == rs[i];
    }
  }

  /**
   The records are read line by line: reading succeeds exactly when every
   line deserializes, and otherwise fails with the error of the first line
   that does not.
   */
  lemma ParseRecordsMeaning(lines: seq<string>)
    ensures ParseRecords(lines).Ok? <==> forall i | 0 <= i < |lines| :: DeserializeRecord(lines[i]).Ok?
    ensures ParseRecords(lines).Ok? ==> forall i | 0 <= i < |lines| :: DeserializeRecord(lines[i]) == Ok(ParseRecords(lines).value[i])
    ensures ParseRecords(lines).Err? ==> exists i | 0 <= i < |lines| ::
      && DeserializeRecord(lines[i]) == Err(ParseRecords(lines).error)
      && forall j | 0 <= j < i :: DeserializeRecord(lines[j]).Ok?
  {
    var rs := DeserializeAll(lines);
    CollectMeaning(rs);
    assert forall i | 0 <= i < |lines| :: rs[i] == DeserializeRecord(lines[i]);
  }

  lemma ParseRecordsSnoc(lines: seq<string>, line: string, recs: seq<IndexRecord>, rec: IndexRecord)
    requires ParseRecords(lines) == Ok(recs) && DeserializeRecord(line) == Ok(rec)
    ensures ParseRecords(lines + [line]) == Ok(recs + [rec])
  {
    var rs := DeserializeAll(lines + [line]);
    assert rs[..|lines|] == DeserializeAll(lines);
    assert rs[|lines|] == Ok(rec);
  }

  lemma ParseSerialized(recs: seq<IndexRecord>)
    requires forall i | 0 <= i < |recs| :: ' ' !in recs[i].url && Unbroken(recs[i].url)
    ensures ParseRecords(SerializeAll(recs)) == Ok(recs)
  {
    var lines := SerializeAll(recs);
    forall i | 0 <= i < |lines| ensures DeserializeRecord(lines[i]) == Ok(recs[i]) {
      RecordRoundTrip(recs[i].id, recs[i].url);
      FieldsOfWord(recs[i].url);
    }
    ParseRecordsMeaning(lines);
    assert ParseRecords(lines).Ok?;
    var parsed := ParseRecords(lines).value;
    assert |parsed| == |recs|;
    forall i | 0 <= i < |recs| ensures parsed[i] == recs[i] {
      assert Ok(parsed[i]) == DeserializeRecord(lines[i]);
    }
    assert parsed == recs;
  }

  /** Assigning the records of distinct keys, whose pages all exist, rebuilds the dictionary they came from. */
  lemma {:induction false} AssignDistinct(keys: seq<int>, items: map<int, string>, pages: map<int, string>)
    requires Distinct(keys)
    requires forall i | 0 <= i < |keys| :: keys[i] in items && keys[i] in pages
    ensures Assign(RecordsOf(keys, items), pages).keys == keys
    ensures forall k | k in Assign(RecordsOf(keys, items), pages).items :: k in items && Assign(RecordsOf(keys, items), pages).items[k] == items[k]
  {
    if keys != [] {
      var n := |keys| - 1;
      var recs := RecordsOf(keys, items);
      assert recs[..n] == RecordsOf(keys[..n], items);
      AssignDistinct(keys[..n], items, pages);
      AssignSnoc(recs, pages);
      AssignNewKey(Assign(recs[..n], pages), keys, items);
    }
  }

  /** One step of `Assign`: the last record on top of the earlier ones. */
  lemma AssignSnoc(recs: seq<IndexRecord>, pages: map<int, string>)
    requires recs != []
    ensures var n := |recs| - 1;
      Assign(recs, pages) == if recs[n].id in pages then Set(Assign(recs[..n], pages), recs[n].id, recs[n].url) else Assign(recs[..n], pages)
  {
  }

  lemma AssignNewKey(prev: Dict<int, string>, keys: seq<int>, items: map<int, string>)
    requires Distinct(keys) && keys != []
    requires forall i | 0 <= i < |keys| :: keys[i] in items
    requires prev.keys == keys[..|keys| - 1]
    requires forall k | k in prev.items :: k in items && prev.items[k] == items[k]
    ensures var k := keys[|keys| - 1];
      var d := Set(prev, k, items[k]);
      d.keys == keys && forall j | j in d.items :: j in items && d.items[j] == items[j]
  {
    var n := |keys| - 1;
    assert keys[n] !in keys[..n];
    assert keys == keys[..n] + [keys[n]];
  }

  /** A rewritten index reads back as the dictionary it was written from. */
  lemma ReloadIndexText(d: Dict<int, string>, pages: map<int, string>)
    requires forall k | k in d.items :: k in pages && ' ' !in d.items[k] && Unbroken(d.items[k])
    ensures WholeLines(IndexText(d))
    ensures ReadLines(IndexText(d)) == SerializeAll(Records(d))
    ensures ParseRecords(ReadLines(IndexText(d))) == Ok(Records(d))
    ensures Reload(Disk(IndexText(d), pages)) == Ok(d)
  {
    var recs := Records(d);
    var lines := SerializeAll(recs);
    forall i | 0 <= i < |lines| ensures IsLine(lines[i]) {
      SerializedLine(recs[i]);
    }
    ReadLinesOfConcat(lines);
    ConcatWhole(lines);
    ParseSerialized(recs);
    AssignRecords(d, pages);
  }

  lemma AssignRecords(d: Dict<int, string>, pages: map<int, string>)
    requires forall k | k in d.items :: k in pages
    ensures Assign(Records(d), pages) == d
  {
    forall i | 0 <= i < |d.keys| ensures d.keys[i] in d.items && d.keys[i] in pages {
      var k := d.keys[i];
      assert k in d.items;
      assert k in pages;
    }
    AssignDistinct(d.keys, d.items, pages);
    SameDict(Assign(RecordsOf(d.keys, d.items), pages), d);
  }

  /** Two dictionaries with the same keys in the same order and the same values are equal. */
  lemma SameDict(a: Dict<int, string>, b: Dict<int, string>)
    requires a.keys == b.keys
    requires forall k | k in a.items :: k in b.items && a.items[k] == b.items[k]
    ensures a == b
  {
    forall k | k in b.items ensures k in a.items {
      assert k in b.keys;
      var i :| 0 <= i < |a.keys| && a.keys[i] == k;
    }
    assert a.items.Keys == b.items.Keys;
    assert forall k | k in a.items :: a.items[k] == b.items[k];
    assert a.items == b.items;
  }

  /** Urls without spaces or line breaks in the records give a dictionary of such urls. */
  lemma AssignUrlsClean(recs: seq<IndexRecord>, pages: map<int, string>)
    requires forall i | 0 <= i < |recs| :: ' ' !in recs[i].url && Unbroken(recs[i].url)
    ensures forall k | k in Assign(recs, pages).items :: ' ' !in Assign(recs, pages).items[k] && Unbroken(Assign(recs, pages).items[k])
  {
    var d := Assign(recs, pages);
    forall k | k in d.items ensures ' ' !in d.items[k] && Unbroken(d.items[k]) {
      AssignLastWins(recs, pages, k);
    }
  }

  lemma {:induction false} ConcatWhole(lines: seq<string>)
    requires forall i | 0 <= i < |lines| :: IsLine(lines[i])
    ensures WholeLines(Concat(lines))
  {
    if lines != [] {
      ConcatWhole(lines[1..]);
    }
  }

  /** A record read from a line with no inner line break has a url without one. */
  lemma DeserializedUrlClean(line: string)
    requires line != [] && '\r' !in line && '\n' !in line[..|line| - 1]
    ensures DeserializeRecord(line).Ok? ==> Unbroken(DeserializeRecord(line).value.url)
  {
    var stripped := RStripBreaks(line);
    forall p | 0 <= p < |stripped| ensures stripped[p] != '\n' && stripped[p] != '\r' {
      assert stripped[p] == line[p];
      if p < |line| - 1 {
        assert stripped[p] == line[..|line| - 1][p];
      }
    }
    FieldsAvoid(stripped, '\n');
    FieldsAvoid(stripped, '\r');
  }

  /** Records read from index lines carry urls without spaces or line breaks. */
  lemma ParsedUrlsClean(s: string)
    requires ParseRecords(ReadLines(s)).Ok?
    ensures var recs := ParseRecords(ReadLines(s)).value;
      forall i | 0 <= i < |recs| :: ' ' !in recs[i].url && Unbroken(recs[i].url)
  {
    var lines := ReadLines(s);
    var recs := ParseRecords(lines).value;
    ReadLinesShape(s);
    ParseRecordsMeaning(lines);
    forall i | 0 <= i < |recs| ensures ' ' !in recs[i].url && Unbroken(recs[i].url) {
      assert DeserializeRecord(lines[i]) == Ok(recs[i]);
      DeserializedUrlClean(lines[i]);
    }
  }

  /** A repository opened without rewriting, whose index has a line per entry and ends in a line break, is consistent. */
  lemma KeptConsistent(disk: Disk, recs: seq<IndexRecord>, repo: Repository)
    requires WholeLines(disk.index) && ParseRecords(ReadLines(disk.index)) == Ok(recs)
    requires repo == Repository(MaxId(Assign(recs, disk.pages).keys), Assign(recs, disk.pages), disk)
    requires |repo.urls.keys| == |ReadLines(disk.index)|
    ensures Consistent(repo)
  {
    var lines := ReadLines(disk.index);
    assert |recs| == |lines|;
    AssignFull(recs, disk.pages);
    assert Reload(disk) == Ok(repo.urls);
    assert IdsListed(ParseRecords(lines), repo.urls);
  }

  /** A repository opened with its index rewritten is consistent. */
  lemma RecreatedConsistent(disk: Disk, recs: seq<IndexRecord>, repo: Repository)
    requires ParseRecords(ReadLines(disk.index)) == Ok(recs)
    requires repo == Repository(MaxId(Assign(recs, disk.pages).keys), Assign(recs, disk.pages), Disk(IndexText(Assign(recs, disk.pages)), disk.pages))
    ensures Consistent(repo)
  {
    ParsedUrlsClean(disk.index);
    AssignUrlsClean(recs, disk.pages);
    ReloadIndexText(repo.urls, disk.pages);
    AssignFull(Records(repo.urls), disk.pages);
  }

  /**
   Opening a repository whose index file ends in a line break leaves it
   consistent with its directory, whether or not the index is rewritten.
   */
  lemma InitConsistent(disk: Disk)
    requires WholeLines(disk.index)
    ensures Init(disk, true).Ok? ==> Consistent(Init(disk, true).value)
  {
    var lines := ReadLines(disk.index);
    if ParseRecords(lines).Ok? {
      var recs := ParseRecords(lines).value;
      var repo := Init(disk, true).value;
      if |repo.urls.keys| == |lines| {
        KeptConsistent(disk, recs, repo);
      } else {
        RecreatedConsistent(disk, recs, repo);
      }
    }
  }

  /**
   Opening rewrites the index exactly when asked to and the dictionary has a
   different number of entries than the file has lines; the rewritten file
   has one line per entry.
   */
  lemma InitRewritesIff(disk: Disk, recreateIfInconsistent: bool)
    requires Init(disk, recreateIfInconsistent).Ok?
    ensures var r := Init(disk, recreateIfInconsistent).value;
      r.disk.index != disk.index <==> recreateIfInconsistent && |r.urls.keys| != |ReadLines(disk.index)|
    ensures var r := Init(disk, recreateIfInconsistent).value;
      r.disk.index != disk.index ==> |ReadLines(r.disk.index)| == |r.urls.keys|
  {
    var lines := ReadLines(disk.index);
    var recs := ParseRecords(lines).value;
    var urls := Assign(recs, disk.pages);
    if recreateIfInconsistent && |urls.keys| != |lines| {
      ParsedUrlsClean(disk.index);
      AssignUrlsClean(recs, disk.pages);
      ReloadIndexText(urls, disk.pages);
      assert |ReadLines(IndexText(urls))| == |urls.keys|;
    }
  }

  /** After `delete_all` the next page created gets id 0 and is the only entry. */
  lemma DeleteAllRestartsIds(repo: Repository, url: string, markup: string)
    requires ' ' !in url && Unbroken(url)
    ensures var c := Create(DeleteAll(repo), url, markup);
      c.page.id == 0 && c.repo.urls.keys == [0] && Consistent(c.repo)
  {
    CreateConsistent(DeleteAll(repo), url, markup);
  }

  /** Creating a page whose url holds no space or line break keeps the repository consistent. */
  lemma CreateConsistent(repo: Repository, url: string, markup: string)
    requires Consistent(repo)
    requires ' ' !in url && Unbroken(url)
    ensures Consistent(Create(repo, url, markup).repo)
  {
    CreateReadsBack(repo, url, markup, ParseRecords(ReadLines(repo.disk.index)).value, Create(repo, url, markup).repo);
  }

  lemma RecordIdsKept(recs: seq<IndexRecord>, rec: IndexRecord, urls: Dict<int, string>, urls': Dict<int, string>)
    requires forall i | 0 <= i < |recs| :: recs[i].id in urls.items
    requires urls'.items == urls.items[rec.id := rec.url]
    ensures IdsListed(Ok(recs + [rec]), urls')
  {
    forall i | 0 <= i < |recs + [rec]| ensures (recs + [rec])[i].id in urls'.items {
      if i < |recs| {
        assert (recs + [rec])[i] == recs[i];
      }
    }
  }

  lemma CreateReadsBack(repo: Repository, url: string, markup: string, recs: seq<IndexRecord>, r: Repository)
    requires Consistent(repo) && recs == ParseRecords(ReadLines(repo.disk.index)).value
    requires ' ' !in url && Unbroken(url)
    requires r == Create(repo, url, markup).repo
    ensures WholeLines(r.disk.index)
    ensures Reload(r.disk) == Ok(r.urls)
    ensures IdsListed(ParseRecords(ReadLines(r.disk.index)), r.urls)
  {
    var id := repo.maxId + 1;
    var rec := IndexRecord(id, url);
    assert forall i | 0 <= i < |recs| :: recs[i].id in repo.urls.items;
    AppendRecord(repo.disk.index, recs, id, url);
    CreateReloads(recs, rec, repo.disk.pages, markup, repo.urls, repo.maxId);
    RecordIdsKept(recs, rec, repo.urls, r.urls);
  }

  /** Reassigning the old records plus the new one, with the new page file present, gives the old dictionary plus the new entry. */
  lemma CreateReloads(recs: seq<IndexRecord>, rec: IndexRecord, pages: map<int, string>, markup: string, urls: Dict<int, string>, maxId: int)
    requires Assign(recs, pages) == urls
    requires forall i | 0 <= i < |recs| :: recs[i].id in urls.items
    requires forall k | k in urls.items :: k <= maxId
    requires rec.id == maxId + 1
    ensures Assign(recs + [rec], pages[rec.id := markup]) == Set(urls, rec.id, rec.url)
  {
    AssignIgnoresPage(recs, pages, rec.id, markup);
    assert (recs + [rec])[..|recs|] == recs;
  }

  lemma AppendRecord(index: string, recs: seq<IndexRecord>, id: int, url: string)
    requires WholeLines(index) && ParseRecords(ReadLines(index)) == Ok(recs)
    requires ' ' !in url && Unbroken(url)
    ensures WholeLines(index + SerializeRecord(id, url))
    ensures ParseRecords(ReadLines(index + SerializeRecord(id, url))) == Ok(recs + [IndexRecord(id, url)])
  {
    var line := SerializeRecord(id, url);
    SerializedLine(IndexRecord(id, url));
    ReadLinesAppend(index, line);
    RecordRoundTrip(id, url);
    FieldsOfWord(url);
    ParseRecordsSnoc(ReadLines(index), line, recs, IndexRecord(id, url));
  }

  /** The corrected opening leaves every repository it opens consistent with its directory. */
  lemma InitCorrectedConsistent(disk: Disk)
    ensures InitCorrected(disk, true).Ok? ==> Consistent(InitCorrected(disk, true).value)
  {
    var lines := ReadLines(disk.index);
    if ParseRecords(lines).Ok? {
      var recs := ParseRecords(lines).value;
      var repo := InitCorrected(disk, true).value;
      if |repo.urls.keys| == |lines| && WholeLines(disk.index) {
        KeptConsistent(disk, recs, repo);
      } else {
        RecreatedConsistent(disk, recs, repo);
      }
    }
  }

  // An index whose last line lacks its line break, as a crash between
  // writing a line and its break leaves it: page 0 is listed, page 0 exists.
  const CutIndex: Disk := Disk("0 a", map[0 := ""])

  lemma CutIndexReads()
    ensures ReadLines(CutIndex.index) == ["0 a"]
    ensures DeserializeRecord("0 a") == Ok(IndexRecord(0, "a"))
    ensures ParseRecords(["0 a"]) == Ok([IndexRecord(0, "a")])
  {
    CutIndexLine();
    ZeroDigits();
    FieldsAfterWord("0", "a");
    FieldsOfWord("a");
    FieldsOfWord("0");
    SingleLine("0 a", IndexRecord(0, "a"));
  }

  lemma CutIndexLine()
    ensures ReadLines("0 a") == ["0 a"]
  {
    NewlinesOfPlain("0 a");
    assert LineLength("0 a") == 3;
    assert "0 a"[..3] == "0 a";
    assert "0 a"[3..] == [];
  }

  /**
   A url holding '\r' is written as one line, but text-mode reading ends a
   line at '\r' too: the index reads back as two lines, and the second does
   not start with a number, so reopening the directory raises `ValueError`.
   */
  lemma ReturnInUrlBreaksIndex(repo: Repository)
    ensures var c := Create(DeleteAll(repo), "a\rb", "");
      && c.repo.disk.index == "0 a\rb\n"
      && ReadLines(c.repo.disk.index) == ["0 a\n", "b\n"]
      && Init(c.repo.disk, true) == Err(ValueError)
  {
    ZeroDigits();
    var index := Create(DeleteAll(repo), "a\rb", "").repo.disk.index;
    assert index == "0 a\rb\n";
    ReturnIndexLines();
    ReturnIndexFails();
  }

  lemma ReturnIndexLines()
    ensures ReadLines("0 a\rb\n") == ["0 a\n", "b\n"]
  {
    ReturnTranslated();
    var lines := ["0 a\n", "b\n"];
    LineOf("0 a");
    LineOf("b");
    assert Concat(lines) == "0 a\nb\n" by {
      assert Concat(lines[1..]) == "b\n";
    }
    SplitLinesOfConcat(lines);
  }

  lemma ReturnTranslated()
    ensures Newlines("0 a\rb\n") == "0 a\nb\n"
  {
    assert "0 a\rb\n" == "0 a" + "\rb\n";
    NewlinesAppend("0 a", "\rb\n");
    NewlinesOfPlain("0 a");
    assert "\rb\n"[1..] == "b\n";
    NewlinesOfPlain("b\n");
  }

  lemma ReturnIndexFails()
    ensures ParseRecords(["0 a\n", "b\n"]) == Err(ValueError)
  {
    FirstReturnLine();
    SecondReturnLine();
    FailsOnSecond("0 a\n", "b\n", IndexRecord(0, "a"), ValueError);
  }

  lemma FailsOnSecond(first: string, second: string, rec: IndexRecord, e: Error)
    requires DeserializeRecord(first) == Ok(rec) && DeserializeRecord(second) == Err(e)
    ensures ParseRecords([first, second]) == Err(e)
  {
    var lines := [first, second];
    var rs := DeserializeAll(lines);
    assert rs[0] == DeserializeRecord(lines[0]) == Ok(rec);
    assert rs[1] == DeserializeRecord(lines[1]) == Err(e);
    assert rs == [Ok(rec), Err(e)];
    CollectAfterValue(rec, e);
  }

  /** A value followed by an error collects to that error. */
  lemma CollectAfterValue<T>(v: T, e: Error)
    ensures Collect([Ok(v), Err(e)]) == Err(e)
  {
    var rs: seq<Result<T>> := [Ok(v), Err(e)];
    var first: seq<Result<T>> := [Ok(v)];
    var none: seq<Result<T>> := [];
    assert rs[..1] == first && first[..0] == none;
    var noValues: seq<T> := [];
    assert Collect(none) == Ok(noValues);
    assert noValues + [v] == [v];
    assert Collect(first) == Ok([v]);
  }

  lemma FirstReturnLine()
    ensures DeserializeRecord("0 a\n") == Ok(IndexRecord(0, "a"))
  {
    RStripOneBreak("0 a");
    ZeroDigits();
    FieldsAfterWord("0", "a");
    FieldsOfWord("a");
    DeserializeOfFields("0 a\n", "0 a", ["0", "a"], 0);
  }

  lemma SecondReturnLine()
    ensures DeserializeRecord("b\n") == Err(ValueError)
  {
    RStripOneBreak("b");
    FieldsOfWord("b");
    assert !IsDigit('b');
    NotSpace('b');
    StripOfWord("b");
    assert ParseInt("b") == Err(ValueError);
  }

  lemma SingleLine(line: string, rec: IndexRecord)
    requires DeserializeRecord(line) == Ok(rec)
    ensures ParseRecords([line]) == Ok([rec])
  {
    var none: seq<string> := [];
    assert DeserializeAll(none) == [];
    assert ParseRecords(none) == Ok([]);
    ParseRecordsSnoc(none, line, [], rec);
    assert none + [line] == [line];
    assert [] + [rec] == [rec];
  }

  lemma ZeroDigits()
    ensures IntToString(0) == "0"
    ensures ParseInt("0") == Ok(0)
  {
    ParseIntOfIntToString(0);
  }

  lemma MergedLineReads()
    ensures ReadLines("0 a1 b\n") == ["0 a1 b\n"]
    ensures DeserializeRecord("0 a1 b\n") == Ok(IndexRecord(0, "a1"))
    ensures ParseRecords(["0 a1 b\n"]) == Ok([IndexRecord(0, "a1")])
  {
    MergedLineIsLine();
    MergedLineFields();
    SingleLine("0 a1 b\n", IndexRecord(0, "a1"));
  }

  lemma MergedLineIsLine()
    ensures ReadLines("0 a1 b\n") == ["0 a1 b\n"]
  {
    assert IsLine("0 a1 b\n") by {
      assert "0 a1 b\n"[..6] == "0 a1 b";
    }
    ReadLinesOfConcat(["0 a1 b\n"]);
    assert Concat(["0 a1 b\n"]) == "0 a1 b\n";
  }

  lemma MergedLineFields()
    ensures DeserializeRecord("0 a1 b\n") == Ok(IndexRecord(0, "a1"))
  {
    MergedLineFieldsOf("0 a1 b\n", "0 a1 b");
  }

  lemma MergedLineFieldsOf(line: string, stripped: string)
    requires line == "0 a1 b\n" && stripped == "0 a1 b"
    ensures DeserializeRecord(line) == Ok(IndexRecord(0, "a1"))
  {
    assert line == stripped + "\n";
    RStripOneBreak(stripped);
    MergedFields();
    ZeroDigits();
    DeserializeOfFields(line, stripped, ["0", "a1", "b"], 0);
  }

  lemma MergedFields()
    ensures Fields("0 a1 b") == ["0", "a1", "b"]
  {
    assert "0 a1 b" == "0" + " " + "a1 b";
    assert "a1 b" == "a1" + " " + "b";
    FieldsAfterWord("0", "a1 b");
    FieldsAfterWord("a1", "b");
    FieldsOfWord("b");
  }

  /** A line whose first field is a number and which has a second field is read as those two. */
  lemma DeserializeOfFields(line: string, stripped: string, fields: seq<string>, id: int)
    requires RStripBreaks(line) == stripped && Fields(stripped) == fields
    requires |fields| >= 2 && ParseInt(fields[0]) == Ok(id)
    ensures DeserializeRecord(line) == Ok(IndexRecord(id, fields[1]))
  {
  }

  lemma CutIndexOpens()
    ensures Init(CutIndex, true) == Ok(Repository(0, DictRep([0], map[0 := "a"]), CutIndex))
  {
    CutIndexReads();
    var urls := Assign([IndexRecord(0, "a")], CutIndex.pages);
    assert urls == DictRep([0], map[0 := "a"]);
  }

  lemma MergedIndexReloads()
    ensures Reload(Disk("0 a1 b\n", map[0 := "", 1 := ""])) == Ok(DictRep([0], map[0 := "a1"]))
  {
    MergedLineReads();
    var urls := Assign([IndexRecord(0, "a1")], map[0 := "", 1 := ""]);
    assert urls == DictRep([0], map[0 := "a1"]);
  }

  /**
   Opening that index keeps it as it is, so the next `create` glues its
   line onto the cut one: reopening then reads page 0 with url "a1" and
   loses page 1, while the corrected opening rewrites the index first.
   */
  lemma CutIndexLosesNextPage()
    ensures Init(CutIndex, true).Ok? && Init(CutIndex, true).value.disk.index == "0 a"
    ensures var created := Create(Init(CutIndex, true).value, "b", "").repo;
      && 1 in created.urls.items
      && Reload(created.disk) == Ok(DictRep([0], map[0 := "a1"]))
    ensures InitCorrected(CutIndex, true).Ok? && Consistent(InitCorrected(CutIndex, true).value)
  {
    CutIndexOpens();
    CreateAfterCutIndex(Init(CutIndex, true).value);
    InitCorrectedConsistent(CutIndex);
  }

  lemma CreateAfterCutIndex(repo: Repository)
    requires repo == Repository(0, DictRep([0], map[0 := "a"]), CutIndex)
    ensures var created := Create(repo, "b", "").repo;
      && 1 in created.urls.items
      && Reload(created.disk) == Ok(DictRep([0], map[0 := "a1"]))
  {
    CreatedDisk(repo);
    MergedIndexReloads();
  }

  lemma CreatedDisk(repo: Repository)
    requires repo == Repository(0, DictRep([0], map[0 := "a"]), CutIndex)
    ensures Create(repo, "b", "").repo.disk == Disk("0 a1 b\n", map[0 := "", 1 := ""])
  {
    assert IntToString(1) == "1";
    assert SerializeRecord(1, "b") == "1 b\n";
  }
}
