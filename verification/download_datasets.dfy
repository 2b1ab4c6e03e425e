/**
 * The bookkeeping of the paginated dataset downloader: the dataset name,
 * the index a resumed download starts from, the index of the next archive
 * of old data, and the download loop that gathers pages of results into
 * numbered data files. The archive's replies are given as the sequence of
 * responses the server sends; files on disk are given as the set of their
 * indices.
 */
module DownloadDatasets {
  import opened Wrappers
  import opened Grouping
  import Frames

  /** Entries per data file and per request: `FILE_ENTRY_LIMIT` and
      `REQUEST_ENTRY_LIMIT`. */
  const FileEntryLimit: nat := 5000
  const RequestEntryLimit: nat := 100
  /** Requests gathered into one data file. */
  const PagesPerFile: nat := 50

  // ---------------------------------------------------------------------
  // create_data_name
  // ---------------------------------------------------------------------

  /** The six C whitespace characters, on which `str.split()` with no
      argument splits (its other separators are not modelled). */
  predicate IsSpace(c: char)
  {
    c == ' ' || c == '\t' || c == '\n' || c == '\r' || c == '\U{B}' || c == '\U{C}'
  }

  /** The index of the first non-space character of `s` at or after `i`
      (`|s|` when there is none). */
  function SkipSpace(s: string, i: nat): (j: nat)
    requires i <= |s|
    ensures i <= j <= |s|
    ensures forall k :: i <= k < j ==> IsSpace(s[k])
    ensures j == |s| || !IsSpace(s[j])
    decreases |s| - i
  {
    if i == |s| || !IsSpace(s[i]) then i else SkipSpace(s, i + 1)
  }

  /** The index of the first space character of `s` at or after `i`
      (`|s|` when there is none). */
  function SkipWord(s: string, i: nat): (j: nat)
    requires i <= |s|
    ensures i <= j <= |s|
    ensures forall k :: i <= k < j ==> !IsSpace(s[k])
    ensures j == |s| || IsSpace(s[j])
    decreases |s| - i
  {
    if i == |s| || IsSpace(s[i]) then i else SkipWord(s, i + 1)
  }

  /** `s.split()[0]`; `None` stands for the `IndexError` a blank `s`
      raises. */
  function FirstToken(s: string): Option<string>
  {
    var i := SkipSpace(s, 0);
    if i == |s| then None else Some(s[i..SkipWord(s, i)])
  }

  /** The first token is the non-empty run of non-space characters that
      follows the leading spaces and ends at a space or at the end of the
      string; there is none exactly when `s` is all spaces. */
  lemma FirstTokenMeaning(s: string)
    ensures FirstToken(s).None? <==> forall k :: 0 <= k < |s| ==> IsSpace(s[k])
    ensures FirstToken(s).Some? ==> exists i, j ::
      && 0 <= i < j <= |s|
      && FirstToken(s).value == s[i..j]
      && (forall k :: 0 <= k < i ==> IsSpace(s[k]))
      && (forall k :: i <= k < j ==> !IsSpace(s[k]))
      && (j == |s| || IsSpace(s[j]))
  {
    var i := SkipSpace(s, 0);
    if i < |s| {
      var j := SkipWord(s, i);
      assert FirstToken(s).value == s[i..j];
    }
  }

  /** `sep.join(parts)`. */
  function Join(parts: seq<string>, sep: char): string
  {
    if |parts| == 0 then ""
    else if |parts| == 1 then parts[0]
    else parts[0] + [sep] + Join(parts[1..], sep)
  }

  /** `s.split(sep)`: the pieces between separators, empty ones included. */
  function Split(s: string, sep: char): (r: seq<string>)
    ensures |r| >= 1
  {
    if |s| == 0 then [""]
    else if s[0] == sep then [""] + Split(s[1..], sep)
    else
      var rest := Split(s[1..], sep);
      [[s[0]] + rest[0]] + rest[1..]
  }

  /** The dataset parameters `create_data_name` reads. */
  datatype ParamSet = ParamSet(siteid: string, telid: string, start: string, end: string)

  /** `create_data_name`: SITEID, TELID and the dates of `start` and `end`
      (their first whitespace-separated token) joined with '_'; `None` for a
      blank `start` or `end`. */
  function CreateDataName(p: ParamSet): Option<string>
  {
    var start := FirstToken(p.start);
    var end := FirstToken(p.end);
    if start.None? || end.None? then None
    else Some(Join([p.siteid, p.telid, start.value, end.value], '_'))
  }

  lemma {:induction false} SplitPrefix(a: string, rest: string, sep: char)
    requires sep !in a
    ensures Split(a + rest, sep) == [a + Split(rest, sep)[0]] + Split(rest, sep)[1..]
  {
    if |a| > 0 {
      SplitPrefix(a[1..], rest, sep);
      assert (a + rest)[1..] == a[1..] + rest;
      assert [a[0]] + (a[1..] + Split(rest, sep)[0]) == a + Split(rest, sep)[0];
    } else {
      assert a + rest == rest;
      var r := Split(rest, sep);
      assert a + r[0] == r[0];
      assert [r[0]] + r[1..] == r;
    }
  }

  lemma SplitAfterSeparator(a: string, rest: string, sep: char)
    requires sep !in a
    ensures Split(a + [sep] + rest, sep) == [a] + Split(rest, sep)
  {
    SplitPrefix(a, [sep] + rest, sep);
    assert a + [sep] + rest == a + ([sep] + rest);
    assert ([sep] + rest)[1..] == rest;
    assert a + "" == a;
  }

  /** Splitting a joined list on the separator gives the list back when no
      part holds the separator. */
  lemma {:induction false} SplitJoin(parts: seq<string>, sep: char)
    requires |parts| > 0
    requires forall k :: 0 <= k < |parts| ==> sep !in parts[k]
    ensures Split(Join(parts, sep), sep) == parts
  {
    if |parts| == 1 {
      SplitPrefix(parts[0], "", sep);
      assert parts[0] + "" == parts[0];
    } else {
      SplitJoin(parts[1..], sep);
      SplitAfterSeparator(parts[0], Join(parts[1..], sep), sep);
      assert parts == [parts[0]] + parts[1..];
    }
  }

  /** A dataset name splits on '_' back into SITEID, TELID and the two
      dates when none of them holds a '_'. */
  lemma DataNameSplits(p: ParamSet)
    requires CreateDataName(p).Some?
    requires '_' !in p.siteid && '_' !in p.telid
    requires '_' !in FirstToken(p.start).value && '_' !in FirstToken(p.end).value
    ensures Split(CreateDataName(p).value, '_') ==
      [p.siteid, p.telid, FirstToken(p.start).value, FirstToken(p.end).value]
  {
    SplitJoin([p.siteid, p.telid, FirstToken(p.start).value, FirstToken(p.end).value], '_');
  }

  // ---------------------------------------------------------------------
  // determine_start_index, zip_old_data
  // ---------------------------------------------------------------------

  /** `n` is the least index not taken, every smaller one being taken. */
  predicate LeastAbsent(n: nat, taken: set<nat>)
  {
    n !in taken && forall k :: 0 <= k < n ==> k in taken
  }

  lemma {:induction false} RangeBound(taken: set<nat>, n: nat)
    requires forall k :: 0 <= k < n ==> k in taken
    ensures n <= |taken|
  {
    if n > 0 {
      var rest := taken - {n - 1};
      assert forall k :: 0 <= k < n - 1 ==> k in rest;
      RangeBound(rest, n - 1);
    }
  }

  /** The loop both scripts use to find a free file name: count up from 0
      while the file with that index exists. */
  method FirstFreeIndex(taken: set<nat>) returns (index: nat)
    ensures LeastAbsent(index, taken)
  {
    index := 0;
    while index in taken
      invariant forall k :: 0 <= k < index ==> k in taken
      decreases |taken| - index
    {
      RangeBound(taken, index + 1);
      index := index + 1;
    }
  }

  /** `determine_start_index`: the index of the first `datafile_<n>.json`
      missing from the dataset's directory. */
  method DetermineStartIndex(dataFiles: set<nat>) returns (fileIndex: nat)
    ensures LeastAbsent(fileIndex, dataFiles)
  {
    fileIndex := FirstFreeIndex(dataFiles);
  }

  /** The archive name `zip_old_data` picks: nothing when the data
      directory holds no files, else the first `old_data_<i>.zip` missing
      from the old data directory. */
  method ZipOldData(fileCount: nat, oldZips: set<nat>) returns (zipIndex: Option<nat>)
    ensures zipIndex.None? <==> fileCount == 0
    ensures zipIndex.Some? ==> LeastAbsent(zipIndex.value, oldZips)
  {
    if fileCount == 0 {
      return None;
    }
    var currentIndex := FirstFreeIndex(oldZips);
    zipIndex := Some(currentIndex);
  }

  // ---------------------------------------------------------------------
  // download_data
  // ---------------------------------------------------------------------

  /** The part of a reply the loop reads: its `results` and whether it has
      a `next` link. */
  datatype Page<T> = Page(results: seq<T>, hasNext: bool)

  /** A reply: status 200 with a page, or any other status. */
  datatype Response<T> = Fetched(page: Page<T>) | Failed(status: int)

  /** The replies to a download, one per request: every reply but the last
      is a page with a `next` link, and the last one either failed or has
      none. */
  predicate Script<T>(responses: seq<Response<T>>)
  {
    && |responses| > 0
    && (forall j :: 0 <= j < |responses| - 1 ==> responses[j].Fetched? && responses[j].page.hasNext)
    && (responses[|responses| - 1].Fetched? ==> !responses[|responses| - 1].page.hasNext)
  }

  /** The number of replies that are pages. */
  function PageCount<T>(responses: seq<Response<T>>): (n: nat)
    requires Script(responses)
    ensures n <= |responses|
  {
    if responses[|responses| - 1].Fetched? then |responses| else |responses| - 1
  }

  /** The `results` of the pages, in the order they arrived. */
  function Pages<T>(responses: seq<Response<T>>): (ps: seq<seq<T>>)
    requires Script(responses)
    ensures |ps| == PageCount(responses)
  {
    seq(PageCount(responses), j requires 0 <= j < PageCount(responses) => responses[j].page.results)
  }

  function Min(a: int, b: int): int { if a <= b then a else b }

  /** The contents of the data files for a run of pages: the results of
      every `PagesPerFile` consecutive pages, the last file holding what is
      left (at least one page). */
  function Chunks<T>(ps: seq<seq<T>>): (cs: seq<seq<T>>)
    requires |ps| > 0
    ensures |cs| == (|ps| - 1) / PagesPerFile + 1
  {
    var n := (|ps| - 1) / PagesPerFile + 1;
    seq(n, k requires 0 <= k < n => Concat(ps[k * PagesPerFile .. Min(k * PagesPerFile + PagesPerFile, |ps|)]))
  }

  /** One written data file: `datafile_<index>.json` and its entries. */
  datatype DataFile<T> = DataFile(index: nat, entries: seq<T>)

  function EntriesOf<T>(files: seq<DataFile<T>>): (es: seq<seq<T>>)
    ensures |es| == |files|
    ensures forall k :: 0 <= k < |files| ==> es[k] == files[k].entries
  {
    seq(|files|, k requires 0 <= k < |files| => files[k].entries)
  }

  /** How a download ends: the first request failed (the script then fails
      on the missing reply), a later request failed (return without the
      `_complete` marker), or the last page was reached (the last file and
      `_complete` are written). */
  datatype Outcome = Crashed | Aborted | Completed

  /** `download_data`. It resumes at the first missing data file, asking the
      archive for entries from `offset` on; every `PagesPerFile` followed
      links it writes the gathered entries to the next data file. */
  method DownloadData<T>(dataFiles: set<nat>, responses: seq<Response<T>>)
    returns (outcome: Outcome, startIndex: nat, offset: nat, counter: nat, files: seq<DataFile<T>>)
    requires Script(responses)
    ensures LeastAbsent(startIndex, dataFiles) && offset == startIndex * FileEntryLimit
    ensures outcome == Crashed <==> responses[0].Failed?
    ensures outcome == Completed <==> responses[|responses| - 1].Fetched?
    ensures outcome == Crashed ==> files == []
    ensures outcome != Crashed ==> counter == offset + RequestEntryLimit * (|responses| - 1)
    ensures forall k :: 0 <= k < |files| ==> files[k].index == startIndex + k
    ensures outcome == Completed ==> EntriesOf(files) == Chunks(Pages(responses))
    ensures outcome == Aborted ==>
      var cs := Chunks(Pages(responses));
      EntriesOf(files) == cs[..|cs| - 1]
  {
    var fileIndex := DetermineStartIndex(dataFiles);
    startIndex := fileIndex;
    offset := fileIndex * FileEntryLimit;
    if responses[0].Failed? {
      return Crashed, startIndex, offset, 0, [];
    }
    outcome, counter, files := FetchPages(responses, startIndex, offset);
  }

  /** The `while True` loop of `download_data`, from the first reply on. */
  method FetchPages<T>(responses: seq<Response<T>>, startIndex: nat, offset: nat)
    returns (outcome: Outcome, counter: nat, files: seq<DataFile<T>>)
    requires Script(responses) && responses[0].Fetched?
    ensures outcome != Crashed
    ensures outcome == Completed <==> responses[|responses| - 1].Fetched?
    ensures counter == offset + RequestEntryLimit * (|responses| - 1)
    ensures forall k :: 0 <= k < |files| ==> files[k].index == startIndex + k
    ensures outcome == Completed ==> EntriesOf(files) == Chunks(Pages(responses))
    ensures outcome == Aborted ==>
      var cs := Chunks(Pages(responses));
      EntriesOf(files) == cs[..|cs| - 1]
  {
    var fileIndex := startIndex;
    files := [];
    var requestData := responses[0].page;
    ghost var ps := Pages(responses);
    counter := offset;
    var currentCounter := 0;
    var tempFrameList: seq<T> := [];
    var i := 0;
    while true
      invariant i < PageCount(responses) && requestData == responses[i].page
      invariant i <= 50 * |files| + 50
      invariant currentCounter == 100 * (i - 50 * |files|)
      invariant counter == offset + 100 * i
      invariant fileIndex == startIndex + |files|
      invariant Gathered(ps, files, tempFrameList, startIndex, i)
      decreases |responses| - i
    {
      files, tempFrameList, currentCounter, fileIndex :=
        GatherPage(ps, files, tempFrameList, currentCounter, fileIndex, startIndex, i, requestData.results);
      if !requestData.hasNext {
        break;
      }
      ScriptNext(responses, i);
      counter := counter + RequestEntryLimit;
      currentCounter := currentCounter + RequestEntryLimit;
      i := i + 1;
      if responses[i].Failed? {
        AbortedFiles(responses, files, tempFrameList, startIndex, i);
        return Aborted, counter, files;
      }
      requestData := responses[i].page;
    }
    CompletedFiles(responses, files, tempFrameList, startIndex, i);
    files := files + [DataFile(fileIndex, tempFrameList)];
    outcome := Completed;
  }

  /** A page with a `next` link is followed by another reply. */
  lemma ScriptNext<T>(responses: seq<Response<T>>, i: nat)
    requires Script(responses) && i < PageCount(responses) && responses[i].page.hasNext
    ensures i + 1 < |responses|
    ensures responses[i + 1].Fetched? ==> i + 1 < PageCount(responses)
  {
  }

  /** The loop stops at the last reply: a failed one, or a page without a
      `next` link. */
  lemma ScriptStop<T>(responses: seq<Response<T>>, i: nat)
    requires Script(responses) && i < |responses|
    requires responses[i].Failed? || !responses[i].page.hasNext
    ensures i == |responses| - 1
    ensures PageCount(responses) == if responses[i].Fetched? then i + 1 else i
  {
  }

  /** After a failed reply the written files are all chunks but the
      pending last one. */
  lemma AbortedFiles<T>(responses: seq<Response<T>>, files: seq<DataFile<T>>, temp: seq<T>, startIndex: nat, i: nat)
    requires Script(responses) && i < |responses| && responses[i].Failed?
    requires PagesPerFile * |files| < i <= PagesPerFile * |files| + PagesPerFile
    requires Gathered(Pages(responses), files, temp, startIndex, i)
    ensures i == |responses| - 1
    ensures var cs := Chunks(Pages(responses)); EntriesOf(files) == cs[..|cs| - 1]
  {
    var ps := Pages(responses);
    ScriptStop(responses, i);
    FilesAreChunks(ps, files, temp, startIndex, i);
    assert ps[..i] == ps;
  }

  /** After the last page the written files and the pending one are all
      the chunks. */
  lemma CompletedFiles<T>(responses: seq<Response<T>>, files: seq<DataFile<T>>, temp: seq<T>, startIndex: nat, i: nat)
    requires Script(responses) && i < PageCount(responses) && !responses[i].page.hasNext
    requires PagesPerFile * |files| < i + 1 <= PagesPerFile * |files| + PagesPerFile
    requires Gathered(Pages(responses), files, temp, startIndex, i + 1)
    ensures i == |responses| - 1 && responses[i].Fetched?
    ensures EntriesOf(files + [DataFile(startIndex + |files|, temp)]) == Chunks(Pages(responses))
  {
    var ps := Pages(responses);
    ScriptStop(responses, i);
    FilesAreChunks(ps, files, temp, startIndex, i + 1);
    assert ps[..i + 1] == ps;
  }

  /** One pass of the loop up to the `next` check: write the pending
      entries to the next data file once `current_counter` has reached
      `FILE_ENTRY_LIMIT`, then add the page's results to the pending list. */
  method GatherPage<T>(ghost ps: seq<seq<T>>, files: seq<DataFile<T>>, tempFrameList: seq<T>,
                       currentCounter: nat, fileIndex: nat, ghost startIndex: nat, ghost i: nat, results: seq<T>)
    returns (files': seq<DataFile<T>>, tempFrameList': seq<T>, currentCounter': nat, fileIndex': nat)
    requires i < |ps| && results == ps[i]
    requires i <= 50 * |files| + 50
    requires currentCounter == 100 * (i - 50 * |files|)
    requires fileIndex == startIndex + |files|
    requires Gathered(ps, files, tempFrameList, startIndex, i)
    ensures i < 50 * |files'| + 50
    ensures currentCounter' == 100 * (i - 50 * |files'|)
    ensures fileIndex' == startIndex + |files'|
    ensures Gathered(ps, files', tempFrameList', startIndex, i + 1)
  {
    files', tempFrameList', currentCounter', fileIndex' := files, tempFrameList, currentCounter, fileIndex;
    if currentCounter' >= FileEntryLimit {
      FlushStep(ps, files', tempFrameList', startIndex, i);
      files' := files' + [DataFile(fileIndex', tempFrameList')];
      tempFrameList' := [];
      currentCounter' := 0;
      fileIndex' := fileIndex' + 1;
    }
    AppendStep(ps, files', tempFrameList', startIndex, i);
    tempFrameList' := AppendResults(tempFrameList', results);
  }

  /** `for frame in results: temp_frame_list.append(frame)`. */
  method AppendResults<T>(tempFrameList: seq<T>, results: seq<T>) returns (extended: seq<T>)
    ensures extended == tempFrameList + results
  {
    extended := tempFrameList;
    var j := 0;
    while j < |results|
      invariant j <= |results|
      invariant extended == tempFrameList + results[..j]
    {
      extended := extended + [results[j]];
      j := j + 1;
    }
    assert results[..j] == results;
  }

  /** The state of the download loop after `i` pages: the files written
      hold the first `|files|` chunks of `PagesPerFile` pages, and the
      pending list holds the pages since. */
  ghost predicate Gathered<T>(ps: seq<seq<T>>, files: seq<DataFile<T>>, temp: seq<T>, startIndex: nat, i: nat)
  {
    && i <= |ps|
    && PagesPerFile * |files| <= i
    && temp == Concat(ps[PagesPerFile * |files| .. i])
    && forall k :: 0 <= k < |files| ==>
      k * PagesPerFile + PagesPerFile <= |ps| &&
      files[k] == DataFile(startIndex + k, Concat(ps[k * PagesPerFile .. k * PagesPerFile + PagesPerFile]))
  }

  lemma FlushStep<T>(ps: seq<seq<T>>, files: seq<DataFile<T>>, temp: seq<T>, startIndex: nat, i: nat)
    requires Gathered(ps, files, temp, startIndex, i)
    requires i == PagesPerFile * |files| + PagesPerFile
    ensures Gathered(ps, files + [DataFile(startIndex + |files|, temp)], [], startIndex, i)
  {
    var fs := files + [DataFile(startIndex + |files|, temp)];
    assert ps[PagesPerFile * |fs| .. i] == [];
    forall k | 0 <= k < |fs|
      ensures k * PagesPerFile + PagesPerFile <= |ps|
      ensures fs[k] == DataFile(startIndex + k, Concat(ps[k * PagesPerFile .. k * PagesPerFile + PagesPerFile]))
    {
      if k < |files| {
        assert fs[k] == files[k];
      }
    }
  }

  lemma AppendStep<T>(ps: seq<seq<T>>, files: seq<DataFile<T>>, temp: seq<T>, startIndex: nat, i: nat)
    requires Gathered(ps, files, temp, startIndex, i)
    requires i < |ps|
    ensures Gathered(ps, files, temp + ps[i], startIndex, i + 1)
  {
    ConcatStep(ps, PagesPerFile * |files|, i);
  }

  lemma ConcatStep<T>(ps: seq<seq<T>>, a: nat, i: nat)
    requires a <= i < |ps|
    ensures Concat(ps[a..i + 1]) == Concat(ps[a..i]) + ps[i]
  {
    assert ps[a..i + 1] == ps[a..i] + [ps[i]];
    ConcatAppend(ps[a..i], [ps[i]]);
    assert Concat([ps[i]]) == ps[i] + Concat([ps[i]][1..]);
    assert [ps[i]][1..] == [];
  }

  /** Once `n` pages are in, the files written so far are the chunks of
      those pages but the last, and the pending list is the last chunk. */
  lemma FilesAreChunks<T>(ps: seq<seq<T>>, files: seq<DataFile<T>>, temp: seq<T>, startIndex: nat, n: nat)
    requires PagesPerFile * |files| < n <= PagesPerFile * |files| + PagesPerFile
    requires Gathered(ps, files, temp, startIndex, n)
    ensures var cs := Chunks(ps[..n]);
      && EntriesOf(files) == cs[..|cs| - 1]
      && EntriesOf(files + [DataFile(startIndex + |files|, temp)]) == cs
  {
    var f := |files|;
    var cs := Chunks(ps[..n]);
    Frames.DivModOf(n - 1, PagesPerFile, f, n - 1 - PagesPerFile * f);
    forall k | 0 <= k < f ensures cs[k] == files[k].entries {
      assert ps[..n][k * PagesPerFile .. k * PagesPerFile + PagesPerFile] == ps[k * PagesPerFile .. k * PagesPerFile + PagesPerFile];
    }
    assert ps[..n][f * PagesPerFile .. n] == ps[f * PagesPerFile .. n];
  }

  /** Gathering pages into files loses and reorders nothing: the files read
      in index order hold every page's results in the order they arrived. */
  lemma {:induction false} ChunksConcat<T>(ps: seq<seq<T>>)
    requires |ps| > 0
    ensures Concat(Chunks(ps)) == Concat(ps)
    decreases |ps|
  {
    var cs := Chunks(ps);
    if |ps| <= PagesPerFile {
      Frames.DivModOf(|ps| - 1, PagesPerFile, 0, |ps| - 1);
      assert ps[0..|ps|] == ps;
      assert cs == [Concat(ps)];
      assert cs[1..] == [];
    } else {
      var rest := ps[PagesPerFile..];
      ChunksConcat(rest);
      ChunksShift(ps);
      assert ps == ps[..PagesPerFile] + rest;
      ConcatAppend(ps[..PagesPerFile], rest);
    }
  }

  /** Past the first file, the chunks are those of the remaining pages. */
  lemma ChunksShift<T>(ps: seq<seq<T>>)
    requires |ps| > PagesPerFile
    ensures Chunks(ps) == [Concat(ps[..PagesPerFile])] + Chunks(ps[PagesPerFile..])
  {
    var cs := Chunks(ps);
    var rest := ps[PagesPerFile..];
    var rs := Chunks(rest);
    Frames.DivModOf(|ps| - 1, PagesPerFile, (|rest| - 1) / PagesPerFile + 1, (|rest| - 1) % PagesPerFile);
    forall k | 0 <= k < |rs| ensures cs[k + 1] == rs[k] {
      var lo := k * PagesPerFile;
      var hi := Min(lo + PagesPerFile, |rest|);
      assert (k + 1) * PagesPerFile == lo + PagesPerFile;
      assert Min((k + 1) * PagesPerFile + PagesPerFile, |ps|) == hi + PagesPerFile;
      SliceShift(ps, PagesPerFile, lo, hi);
    }
    assert ps[0..Min(PagesPerFile, |ps|)] == ps[..PagesPerFile];
  }

  lemma SliceShift<T>(ps: seq<T>, d: nat, lo: nat, hi: nat)
    requires lo <= hi && d + hi <= |ps|
    ensures ps[d + lo .. d + hi] == ps[d..][lo..hi]
  {
  }

  /** Every data file but the last holds the results of exactly
      `PagesPerFile` requests: a file is written only once the request
      counter has reached `FileEntryLimit`. */
  lemma ChunkPages<T>(ps: seq<seq<T>>, k: nat)
    requires |ps| > 0 && k < |Chunks(ps)| - 1
    ensures Chunks(ps)[k] == Concat(ps[k * PagesPerFile .. k * PagesPerFile + PagesPerFile])
    ensures (k + 1) * PagesPerFile < |ps|
  {
    Frames.DivModOf(|ps| - 1, PagesPerFile, (|ps| - 1) / PagesPerFile, (|ps| - 1) % PagesPerFile);
  }
}
