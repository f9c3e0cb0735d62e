/** The searcher object: the archive path it was built for, and the two
    counters that each call of `SearchInZip` resets and updates in place
    while it builds the result array. */
module ZipTextSearcher {
  import opened Wrappers
  import opened PhpStrings
  import opened LineStream
  import opened SearchModel

  class RAZipTextSearcher {
    const zipFilePath: string
    const zipFileSize: nat
    var filesSearched: nat
    var filesWithMatch: nat

    /** `readable` is the answer of `is_readable` for the path and
        `zipFileSize` that of `filesize`; an unreadable path throws, so a
        searcher only exists for a readable one. */
    constructor (zipFilePath: string, readable: bool, zipFileSize: nat)
      requires readable
      ensures this.zipFilePath == zipFilePath && this.zipFileSize == zipFileSize
      ensures filesSearched == 0 && filesWithMatch == 0
    {
      this.zipFilePath := zipFilePath;
      this.zipFileSize := zipFileSize;
      filesSearched := 0;
      filesWithMatch := 0;
    }

    /** `searchInZip($searchText)`. `archive` is what opening `zipFilePath`
        gives: None when `ZipArchive::open` fails, otherwise the entries in
        index order. */
    method SearchInZip(archive: Option<seq<Entry>>, searchText: string) returns (results: seq<Bucket>)
      modifies this
      ensures Report(results, filesSearched, filesWithMatch) == Search(archive, Trim(searchText))
      ensures archive.None? ==> results == [] && filesSearched == 0 && filesWithMatch == 0
      ensures archive.Some? ==> filesSearched == |archive.value|
      ensures filesWithMatch == |results| <= filesSearched
      ensures WellFormed(results)
    {
      results := [];
      filesSearched := 0;
      filesWithMatch := 0;
      var needle := Trim(searchText);
      if archive.Some? {
        var entries := archive.value;
        var i := 0;
        while i < |entries|
          invariant 0 <= i <= |entries|
          invariant filesSearched == i
          invariant Hits(results, filesWithMatch) == ScanAll(entries[..i], needle)
        {
          filesSearched := filesSearched + 1;
          var entry := entries[i];
          ghost var before := Hits(results, filesWithMatch);
          if entry.content.Some? {
            results := ReadStream(entry.name, StreamLines(entry.content.value), needle, results);
          }
          assert Hits(results, filesWithMatch) == AddAll(before, entry.name, EntryHits(entry, needle));
          ScanAllStep(entries, i, needle);
          i := i + 1;
        }
        assert entries[..|entries|] == entries;
      }
      assert Report(results, filesSearched, filesWithMatch) == Search(archive, needle);
    }

    /** The read loop of one entry whose stream opened: `lines` are what the
        `fgets` calls return, numbered from 1 by `lineCount`, which goes up by
        one per line whether it matched or not. */
    method ReadStream(name: string, lines: seq<string>, needle: string, resultsIn: seq<Bucket>)
      returns (results: seq<Bucket>)
      modifies this`filesWithMatch
      ensures Hits(results, filesWithMatch)
           == AddAll(Hits(resultsIn, old(filesWithMatch)), name, EntryRecords(lines, needle))
    {
      ghost var before := Hits(resultsIn, filesWithMatch);
      results := resultsIn;
      var lineCount := 1;
      while lineCount <= |lines|
        invariant 1 <= lineCount <= |lines| + 1
        invariant Hits(results, filesWithMatch) == ReadLines(before, name, lines[..lineCount - 1], needle)
      {
        var line := lines[lineCount - 1];
        ReadLinesStep(before, name, lines, lineCount - 1, needle);
        if Contains(line, needle) {
          results := AppendMatch(name, Record(lineCount, line), results);
        }
        lineCount := lineCount + 1;
      }
      assert lines[..|lines|] == lines;
      ReadLinesIsAddAll(before, name, lines, needle);
    }

    /** A matching line: when the entry is not yet a key, create its empty
        bucket and count the entry; then append the record to its bucket. */
    method AppendMatch(name: string, rec: string, resultsIn: seq<Bucket>) returns (results: seq<Bucket>)
      modifies this`filesWithMatch
      ensures Hits(results, filesWithMatch) == AddRecord(Hits(resultsIn, old(filesWithMatch)), name, rec)
    {
      ghost var now := Hits(resultsIn, filesWithMatch);
      AppendRecord(now, name, rec);
      results := resultsIn;
      var slot := IndexOf(results, name);
      ghost var isNew := slot.None?;
      if slot.None? {
        results := results + [Bucket(name, [])];
        filesWithMatch := filesWithMatch + 1;
        slot := Some(|results| - 1);
      }
      ghost var grown := results;
      results := results[slot.value := Bucket(name, results[slot.value].lines + [rec])];
      assert isNew ==> grown == now.results + [Bucket(name, [])] && slot.value == |now.results|;
      assert !isNew ==> grown == now.results && Some(slot.value) == IndexOf(now.results, name);
    }
  }

  /** PHP `empty` on a string: true for "" and for "0". Both are already
      trimmed, so `empty` refuses a text that `trim` leaves as it is. */
  predicate PhpEmpty(s: string)
    ensures PhpEmpty(s) ==> |s| <= 1 && Trim(s) == s
  {
    TrimOfZero();
    TrimOfEmpty();
    s == "" || s == "0"
  }

  /** The request handler's test of the posted search text before it calls
      `searchInZip`: the trimmed text must not be `empty`. */
  function FormAcceptsSearch(postedText: string): (ok: bool)
    ensures ok ==> Trim(Trim(postedText)) != []
  {
    TrimIdempotent(postedText);
    !PhpEmpty(Trim(postedText))
  }

  /** Only the handler refuses an empty needle: what it lets through reaches
      `searchInZip` as a non-empty needle, so a zero-byte entry gives no
      record; the text "0" is refused although it is not blank. */
  lemma FormGuardNeedle(postedText: string, name: string)
    ensures FormAcceptsSearch(postedText) ==> EntryHits(Entry(name, Some([])), Trim(Trim(postedText))) == []
    ensures !FormAcceptsSearch("0") && Trim("0") == "0"
  {
    ZeroByteEntry(name, Trim(Trim(postedText)));
    TrimOfZero();
  }

  /** The empty text trims to itself. */
  lemma TrimOfEmpty()
    ensures Trim("") == ""
  {
    TrimUnique("", "", 0);
  }

  /** "0" holds no trim character. */
  lemma TrimOfZero()
    ensures Trim("0") == "0"
  {
    assert LeadingTrimCount("0") == 0 && TrailingTrimCount("0") == 0;
    assert "0"[0..] == "0";
  }
}
