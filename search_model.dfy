/** The value-level meaning of `RAZipTextSearcher::searchInZip`: the result
    array and the two counters a call leaves, as functions of the archive's
    entries and the trimmed search text, and the properties they have. */
module SearchModel {
  import opened Wrappers
  import opened PhpStrings
  import opened LineStream

  /** One archive member as the scan sees it: the name `getNameIndex` gives,
      and the text its stream yields, or None when `getStream` fails. */
  datatype Entry = Entry(name: string, content: Option<string>)

  /** One key of the result array with the records appended under it, in
      the order they were appended. */
  datatype Bucket = Bucket(name: string, lines: seq<string>)

  /** The result array under construction and the `filesWithMatch` counter. */
  datatype Hits = Hits(results: seq<Bucket>, filesWithMatch: nat)

  /** What a call leaves behind: the returned array and both counters. */
  datatype Report = Report(results: seq<Bucket>, filesSearched: nat, filesWithMatch: nat)

  // ---------------------------------------------------------------------------
  // Records
  // ---------------------------------------------------------------------------

  /** The record appended for a matching line: `"Line " . $lineCount . ": " . trim($line)`. */
  function Record(lineNumber: nat, line: string): string {
    "Line " + NatToString(lineNumber) + ": " + Trim(line)
  }

  /** Reads a record back into its line number and text; a number written
      with a leading zero is not PHP's decimal form and is refused. */
  function ParseRecord(rec: string): Option<(nat, string)> {
    if |rec| < 5 || rec[..5] != "Line " then None
    else
      var rest := rec[5..];
      var k := DigitRun(rest);
      if k == 0 || (k > 1 && rest[0] == '0') || |rest| < k + 2 || rest[k..k + 2] != ": " then None
      else Some((DigitsValue(rest[..k]), rest[k + 2..]))
  }

  /** A record says which line it came from and what that line held once
      trimmed: the format loses neither. */
  lemma ParseRecordOfRecord(n: nat, line: string)
    ensures ParseRecord(Record(n, line)) == Some((n, Trim(line)))
  {
    var d, t := NatToString(n), Trim(line);
    ParseRecordOfParts(d, t);
    DigitsValueOfNatToString(n);
  }

  /** "Line ", a number in decimal form, ": " and a text read back as the
      number and the text. */
  lemma {:induction false} ParseRecordOfParts(d: string, t: string)
    requires d != [] && forall i :: 0 <= i < |d| ==> IsDigit(d[i])
    requires d[0] == '0' ==> |d| == 1
    ensures ParseRecord("Line " + d + ": " + t) == Some((DigitsValue(d), t))
  {
    var rec := "Line " + d + ": " + t;
    var rest := d + (": " + t);
    assert |rec| >= 5 && rec[..5] == "Line " && rec[5..] == rest by {
      assert rec == "Line " + rest;
    }
    DigitRunOfDigitsThen(d, ": " + t);
    assert rest[0] == d[0] && rest[..|d|] == d && rest[|d|..|d| + 2] == ": " && rest[|d| + 2..] == t;
  }

  // ---------------------------------------------------------------------------
  // One entry
  // ---------------------------------------------------------------------------

  /** The 1-based numbers of the lines that contain `needle`, ascending. */
  function MatchNumbers(lines: seq<string>, needle: string): (ns: seq<nat>)
    ensures |ns| <= |lines|
    ensures forall j :: 0 <= j < |ns| ==> 1 <= ns[j] <= |lines| && Contains(lines[ns[j] - 1], needle)
  {
    if lines == [] then []
    else
      var n := |lines| - 1;
      MatchNumbers(lines[..n], needle) + (if Contains(lines[n], needle) then [n + 1] else [])
  }

  /** The numbers strictly ascend: lines are numbered in reading order. */
  lemma {:induction false} MatchNumbersAscend(lines: seq<string>, needle: string, j: nat, j': nat)
    requires j < j' < |MatchNumbers(lines, needle)|
    ensures MatchNumbers(lines, needle)[j] < MatchNumbers(lines, needle)[j']
  {
    var n := |lines| - 1;
    var ns0 := MatchNumbers(lines[..n], needle);
    assert MatchNumbers(lines, needle) == ns0 + (if Contains(lines[n], needle) then [n + 1] else []);
    if j' < |ns0| {
      MatchNumbersAscend(lines[..n], needle, j, j');
    }
  }

  /** No matching line is skipped: each one's number is listed. */
  lemma {:induction false} MatchNumbersComplete(lines: seq<string>, needle: string, i: nat)
    requires i < |lines| && Contains(lines[i], needle)
    ensures i + 1 in MatchNumbers(lines, needle)
  {
    var n := |lines| - 1;
    if i < n {
      MatchNumbersComplete(lines[..n], needle, i);
    }
  }

  /** The records the read loop appends for an entry whose stream yields
      `lines`: one per matching line, in line order. */
  function EntryRecords(lines: seq<string>, needle: string): seq<string> {
    var ns := MatchNumbers(lines, needle);
    seq(|ns|, j requires 0 <= j < |ns| => Record(ns[j], lines[ns[j] - 1]))
  }

  /** `recs` lists, in strictly ascending line order, a record for exactly
      the lines of `lines` that contain `needle`, each carrying the trimmed line. */
  ghost predicate IsRecordListFor(lines: seq<string>, needle: string, recs: seq<string>) {
    RecordsOfMatches(lines, needle, recs) && RecordsAscend(recs) && RecordsComplete(lines, needle, recs)
  }

  /** Every record names a line containing `needle` and carries that line trimmed. */
  ghost predicate RecordsOfMatches(lines: seq<string>, needle: string, recs: seq<string>) {
    forall j :: 0 <= j < |recs| ==>
      var p := ParseRecord(recs[j]);
      p.Some? && 1 <= p.value.0 <= |lines|
      && Contains(lines[p.value.0 - 1], needle) && p.value.1 == Trim(lines[p.value.0 - 1])
  }

  /** The line numbers of the records strictly ascend. */
  ghost predicate RecordsAscend(recs: seq<string>) {
    forall j, j' :: 0 <= j < j' < |recs| ==> NumberedBefore(recs[j], recs[j'])
  }

  /** Both strings are records and the first names an earlier line. */
  ghost predicate NumberedBefore(rec: string, rec': string) {
    ParseRecord(rec).Some? && ParseRecord(rec').Some? && ParseRecord(rec).value.0 < ParseRecord(rec').value.0
  }

  /** Every line containing `needle` has its record. */
  ghost predicate RecordsComplete(lines: seq<string>, needle: string, recs: seq<string>) {
    forall i :: 0 <= i < |lines| && Contains(lines[i], needle) ==>
      exists j :: 0 <= j < |recs| && ParseRecord(recs[j]) == Some((i + 1, Trim(lines[i])))
  }

  /** Line numbers start at 1 and go up by one per line read, matched or not:
      an entry's records are its matching lines, ascending, none missing. */
  lemma EntryRecordsSpec(lines: seq<string>, needle: string)
    ensures IsRecordListFor(lines, needle, EntryRecords(lines, needle))
  {
    EntryRecordsOfMatches(lines, needle);
    EntryRecordsAscend(lines, needle);
    EntryRecordsComplete(lines, needle);
  }

  /** Each record names a matching line and carries it trimmed. */
  lemma EntryRecordsOfMatches(lines: seq<string>, needle: string)
    ensures RecordsOfMatches(lines, needle, EntryRecords(lines, needle))
  {
    var recs := EntryRecords(lines, needle);
    forall j | 0 <= j < |recs|
      ensures var p := ParseRecord(recs[j]);
        p.Some? && 1 <= p.value.0 <= |lines|
        && Contains(lines[p.value.0 - 1], needle) && p.value.1 == Trim(lines[p.value.0 - 1])
    {
      EntryRecordParse(lines, needle, j);
    }
  }

  /** The records' line numbers strictly ascend. */
  lemma EntryRecordsAscend(lines: seq<string>, needle: string)
    ensures RecordsAscend(EntryRecords(lines, needle))
  {
    var recs := EntryRecords(lines, needle);
    forall j, j' | 0 <= j < j' < |recs| ensures NumberedBefore(recs[j], recs[j']) {
      EntryRecordsAscendAt(lines, needle, j, j');
    }
  }

  lemma EntryRecordsAscendAt(lines: seq<string>, needle: string, j: nat, j': nat)
    requires j < j' < |EntryRecords(lines, needle)|
    ensures NumberedBefore(EntryRecords(lines, needle)[j], EntryRecords(lines, needle)[j'])
  {
    EntryRecordParse(lines, needle, j);
    EntryRecordParse(lines, needle, j');
    MatchNumbersAscend(lines, needle, j, j');
  }

  /** Every matching line has its record. */
  lemma EntryRecordsComplete(lines: seq<string>, needle: string)
    ensures RecordsComplete(lines, needle, EntryRecords(lines, needle))
  {
    var ns, recs := MatchNumbers(lines, needle), EntryRecords(lines, needle);
    forall i | 0 <= i < |lines| && Contains(lines[i], needle)
      ensures exists j :: 0 <= j < |recs| && ParseRecord(recs[j]) == Some((i + 1, Trim(lines[i])))
    {
      MatchNumbersComplete(lines, needle, i);
      var j :| 0 <= j < |ns| && ns[j] == i + 1;
      EntryRecordParse(lines, needle, j);
    }
  }

  /** Record `j` of an entry reads back as its match number and trimmed line. */
  lemma EntryRecordParse(lines: seq<string>, needle: string, j: nat)
    requires j < |EntryRecords(lines, needle)|
    ensures ParseRecord(EntryRecords(lines, needle)[j])
        == Some((MatchNumbers(lines, needle)[j], Trim(lines[MatchNumbers(lines, needle)[j] - 1])))
  {
    var ns := MatchNumbers(lines, needle);
    var n, line := ns[j], lines[ns[j] - 1];
    assert EntryRecords(lines, needle)[j] == Record(n, line);
    ParseRecordOfRecord(n, line);
  }

  /** One more line read: its record, if it matches, goes after the others. */
  lemma {:induction false} EntryRecordsStep(lines: seq<string>, k: nat, needle: string)
    requires k < |lines|
    ensures EntryRecords(lines[..k + 1], needle)
         == EntryRecords(lines[..k], needle) + (if Contains(lines[k], needle) then [Record(k + 1, lines[k])] else [])
  {
    assert lines[..k + 1][..k] == lines[..k];
    var ns := MatchNumbers(lines[..k], needle);
    forall j | 0 <= j < |ns| ensures lines[..k + 1][ns[j] - 1] == lines[..k][ns[j] - 1] {}
  }

  /** An empty needle matches every line read, so every line gets a record. */
  lemma {:induction false} EmptyNeedleMatchesEveryLine(lines: seq<string>)
    ensures |MatchNumbers(lines, [])| == |EntryRecords(lines, [])| == |lines|
    ensures forall i :: 0 <= i < |lines| ==> MatchNumbers(lines, [])[i] == i + 1
  {
    if lines != [] {
      var n := |lines| - 1;
      EmptyNeedleMatchesEveryLine(lines[..n]);
      ContainsEmpty(lines[n], []);
      var before := MatchNumbers(lines[..n], []);
      assert MatchNumbers(lines, []) == before + [n + 1];
    }
  }

  /** The records of one entry: none when its stream could not be opened,
      otherwise at most one per line its stream yields. */
  function EntryHits(e: Entry, needle: string): (recs: seq<string>)
    ensures e.content.None? ==> recs == []
    ensures e.content.Some? ==> |recs| <= |StreamLines(e.content.value)|
  {
    match e.content
    case None => []
    case Some(c) => EntryRecords(StreamLines(c), needle)
  }

  /** A zero-byte entry matches no non-empty needle; with an empty needle its
      single read, `fgets` giving `false`, yields the record "Line 1: ". */
  lemma ZeroByteEntry(name: string, needle: string)
    ensures EntryHits(Entry(name, Some([])), needle) == if needle == [] then ["Line 1: "] else []
  {
    var lines := StreamLines([]);
    assert lines == [""];
    if needle == [] {
      EmptyNeedleMatchesEveryLine(lines);
      RecordOfEmptyFirstLine();
    } else {
      ContainsEmpty("", needle);
      assert MatchNumbers(lines, needle) == MatchNumbers([], needle) + [];
    }
  }

  /** The record of an empty first line. */
  lemma RecordOfEmptyFirstLine()
    ensures Record(1, "") == "Line 1: "
  {
    assert Trim("") == "" by {
      TrimUnique("", "", 0);
    }
    assert NatToString(1) == "1";
  }

  // ---------------------------------------------------------------------------
  // The result array
  // ---------------------------------------------------------------------------

  /** The keys of the array, in insertion order. */
  function Keys(results: seq<Bucket>): (ks: seq<string>)
    ensures |ks| == |results|
    ensures forall j :: 0 <= j < |results| ==> ks[j] == results[j].name
  {
    seq(|results|, j requires 0 <= j < |results| => results[j].name)
  }

  /** Every key is unique and holds at least one record. */
  ghost predicate WellFormed(results: seq<Bucket>) {
    && (forall j :: 0 <= j < |results| ==> results[j].lines != [])
    && (forall j, k :: 0 <= j < k < |results| ==> results[j].name != results[k].name)
  }

  /** The invariant of the scan: the array is well formed and the match
      counter equals its number of keys. */
  ghost predicate Valid(h: Hits) {
    WellFormed(h.results) && h.filesWithMatch == |h.results|
  }

  /** `isset($results[$name])`, with the position of the key when it is set. */
  function IndexOf(results: seq<Bucket>, name: string): (r: Option<nat>)
    ensures r.Some? ==> r.value < |results| && results[r.value].name == name
    ensures forall j :: 0 <= j < |results| && (r.None? || j < r.value) ==> results[j].name != name
  {
    if results == [] then None
    else if results[0].name == name then Some(0)
    else
      match IndexOf(results[1..], name)
      case None => None
      case Some(j) => Some(j + 1)
  }

  /** One matching line of entry `name`: create its bucket and count the
      entry when the key is new, then append the record. A key is added
      exactly when it was missing, at the end. */
  function AddRecord(h: Hits, name: string, rec: string): (h': Hits)
    ensures Valid(h) ==> Valid(h')
    ensures Keys(h'.results) == Keys(h.results) + (if name in Keys(h.results) then [] else [name])
  {
    match IndexOf(h.results, name)
    case Some(j) =>
      var r := h.results[j := Bucket(name, h.results[j].lines + [rec])];
      assert Keys(r) == Keys(h.results);
      Hits(r, h.filesWithMatch)
    case None =>
      var r := h.results + [Bucket(name, [rec])];
      assert Keys(r) == Keys(h.results) + [name];
      Hits(r, h.filesWithMatch + 1)
  }

  /** The two ways the loop body adds a record: into the bucket already
      under key `name`, or into a new, at first empty, bucket at the end,
      counting the entry once. */
  lemma AppendRecord(h: Hits, name: string, rec: string)
    ensures IndexOf(h.results, name).Some? ==>
      var j := IndexOf(h.results, name).value;
      AddRecord(h, name, rec) == Hits(h.results[j := Bucket(name, h.results[j].lines + [rec])], h.filesWithMatch)
    ensures IndexOf(h.results, name).None? ==>
      var grown := h.results + [Bucket(name, [])];
      AddRecord(h, name, rec) == Hits(grown[|h.results| := Bucket(name, grown[|h.results|].lines + [rec])], h.filesWithMatch + 1)
  {
    var grown := h.results + [Bucket(name, [])];
    assert grown[|h.results|].lines + [rec] == [rec];
    assert grown[|h.results| := Bucket(name, [rec])] == h.results + [Bucket(name, [rec])];
  }

  /** All the records of entry `name`, appended in order. */
  function AddAll(h: Hits, name: string, recs: seq<string>): (h': Hits)
    ensures Valid(h) ==> Valid(h')
    ensures Keys(h'.results) == Keys(h.results) + (if recs == [] || name in Keys(h.results) then [] else [name])
  {
    if recs == [] then h
    else AddRecord(AddAll(h, name, recs[..|recs| - 1]), name, recs[|recs| - 1])
  }

  lemma AddAllSnoc(h: Hits, name: string, recs: seq<string>, rec: string)
    ensures AddAll(h, name, recs + [rec]) == AddRecord(AddAll(h, name, recs), name, rec)
  {
    assert (recs + [rec])[..|recs|] == recs;
  }

  /** The names of the entries that have a matching line, each once, in the
      order in which the first of them is met. */
  ghost function MatchedNames(entries: seq<Entry>, needle: string): (ns: seq<string>)
    ensures |ns| <= |entries|
  {
    if entries == [] then []
    else
      var n := |entries| - 1;
      var ns0 := MatchedNames(entries[..n], needle);
      ns0 + (if !EntryMatches(entries[n], needle) || entries[n].name in ns0 then [] else [entries[n].name])
  }

  /** Some entry called `name` has a line containing `needle`. */
  ghost predicate HasMatchingEntry(entries: seq<Entry>, needle: string, name: string) {
    exists i :: 0 <= i < |entries| && entries[i].name == name && EntryMatches(entries[i], needle)
  }

  /** Whether the stream of entry `e` opens and one of its lines contains
      `needle`. */
  ghost predicate EntryMatches(e: Entry, needle: string) {
    e.content.Some? && exists line :: line in StreamLines(e.content.value) && Contains(line, needle)
  }

  /** An entry gets records exactly when it has a matching line. */
  lemma EntryMatchesHits(e: Entry, needle: string)
    ensures EntryMatches(e, needle) <==> EntryHits(e, needle) != []
  {
    if e.content.Some? {
      SomeLineMatches(StreamLines(e.content.value), needle);
    }
  }

  /** Some line matches exactly when there is a match number. */
  lemma SomeLineMatches(lines: seq<string>, needle: string)
    ensures MatchNumbers(lines, needle) != [] <==> exists line :: line in lines && Contains(line, needle)
  {
    var ns := MatchNumbers(lines, needle);
    if ns != [] {
      assert lines[ns[0] - 1] in lines;
    }
    if line :| line in lines && Contains(line, needle) {
      var i :| 0 <= i < |lines| && lines[i] == line;
      MatchNumbersComplete(lines, needle, i);
    }
  }

  lemma {:induction false} PrefixMatchingEntry(entries: seq<Entry>, needle: string, name: string)
    requires entries != []
    ensures HasMatchingEntry(entries, needle, name)
        <==> HasMatchingEntry(entries[..|entries| - 1], needle, name)
             || (entries[|entries| - 1].name == name && EntryMatches(entries[|entries| - 1], needle))
  {
    var n := |entries| - 1;
    var init, e := entries[..n], entries[n];
    assert HasMatchingEntry(init, needle, name) ==> HasMatchingEntry(entries, needle, name) by {
      if HasMatchingEntry(init, needle, name) {
        var i :| 0 <= i < |init| && init[i].name == name && EntryMatches(init[i], needle);
        assert entries[i] == init[i];
      }
    }
    assert e.name == name && EntryMatches(e, needle) ==> HasMatchingEntry(entries, needle, name) by {
      if e.name == name && EntryMatches(e, needle) {
        assert entries[n] == e;
      }
    }
    assert HasMatchingEntry(entries, needle, name) && !(e.name == name && EntryMatches(e, needle))
        ==> HasMatchingEntry(init, needle, name) by {
      if HasMatchingEntry(entries, needle, name) && !(e.name == name && EntryMatches(e, needle)) {
        var i :| 0 <= i < |entries| && entries[i].name == name && EntryMatches(entries[i], needle);
        assert i != n;
        assert init[i] == entries[i];
      }
    }
  }

  /** A name is among the matched names exactly when some entry of that name
      has a matching line. */
  lemma {:induction false} MatchedNamesSpec(entries: seq<Entry>, needle: string, name: string)
    ensures name in MatchedNames(entries, needle) <==> HasMatchingEntry(entries, needle, name)
  {
    if entries != [] {
      MatchedNamesSpec(entries[..|entries| - 1], needle, name);
      PrefixMatchingEntry(entries, needle, name);
    }
  }

  /** The result array and match counter once every entry has been scanned,
      in archive order. */
  function ScanAll(entries: seq<Entry>, needle: string): (h: Hits)
    ensures Valid(h)
    ensures Keys(h.results) == MatchedNames(entries, needle)
  {
    if entries == [] then Hits([], 0)
    else
      var n := |entries| - 1;
      EntryMatchesHits(entries[n], needle);
      AddAll(ScanAll(entries[..n], needle), entries[n].name, EntryHits(entries[n], needle))
  }

  /** One more entry scanned. */
  lemma ScanAllStep(entries: seq<Entry>, i: nat, needle: string)
    requires i < |entries|
    ensures ScanAll(entries[..i + 1], needle) == AddAll(ScanAll(entries[..i], needle), entries[i].name, EntryHits(entries[i], needle))
  {
    assert entries[..i + 1][..i] == entries[..i];
  }

  /** One more line of an entry read: its record, if it matches, is added
      after the earlier ones. */
  lemma AddAllLineStep(h: Hits, name: string, lines: seq<string>, k: nat, needle: string)
    requires k < |lines|
    ensures AddAll(h, name, EntryRecords(lines[..k + 1], needle))
         == if Contains(lines[k], needle)
            then AddRecord(AddAll(h, name, EntryRecords(lines[..k], needle)), name, Record(k + 1, lines[k]))
            else AddAll(h, name, EntryRecords(lines[..k], needle))
  {
    var r0, r1 := EntryRecords(lines[..k], needle), EntryRecords(lines[..k + 1], needle);
    EntryRecordsStep(lines, k, needle);
    if Contains(lines[k], needle) {
      var rec := Record(k + 1, lines[k]);
      assert r1 == r0 + [rec];
      AddAllSnoc(h, name, r0, rec);
    } else {
      assert r1 == r0;
    }
  }

  /** The read loop of one entry, line by line: a line containing `needle`
      adds its record, numbered by its position from 1. It keeps the
      invariant and adds at most the key `name`, at the end. */
  function ReadLines(h: Hits, name: string, lines: seq<string>, needle: string): (h': Hits)
    ensures Valid(h) ==> Valid(h')
    ensures Keys(h'.results) == Keys(h.results) || Keys(h'.results) == Keys(h.results) + [name]
    ensures name in Keys(h.results) ==> Keys(h'.results) == Keys(h.results)
  {
    if lines == [] then h
    else
      var n := |lines| - 1;
      var h0 := ReadLines(h, name, lines[..n], needle);
      if Contains(lines[n], needle) then AddRecord(h0, name, Record(n + 1, lines[n])) else h0
  }

  /** One more line read by the loop. */
  lemma ReadLinesStep(h: Hits, name: string, lines: seq<string>, k: nat, needle: string)
    requires k < |lines|
    ensures ReadLines(h, name, lines[..k + 1], needle)
         == if Contains(lines[k], needle)
            then AddRecord(ReadLines(h, name, lines[..k], needle), name, Record(k + 1, lines[k]))
            else ReadLines(h, name, lines[..k], needle)
  {
    assert lines[..k + 1][..k] == lines[..k];
  }

  /** Reading an entry line by line appends exactly its records, in order. */
  lemma {:induction false} ReadLinesIsAddAll(h: Hits, name: string, lines: seq<string>, needle: string)
    ensures ReadLines(h, name, lines, needle) == AddAll(h, name, EntryRecords(lines, needle))
    decreases |lines|
  {
    if lines != [] {
      var n := |lines| - 1;
      ReadLinesIsAddAll(h, name, lines[..n], needle);
      AddAllLineStep(h, name, lines, n, needle);
      assert lines[..n + 1] == lines;
    }
  }

  /** `searchInZip` on `archive` (None when it cannot be opened) with the
      trimmed search text `needle`. */
  function Search(archive: Option<seq<Entry>>, needle: string): (r: Report)
    ensures archive.None? ==> r.results == [] && r.filesSearched == 0 && r.filesWithMatch == 0
    ensures archive.Some? ==> r.filesSearched == |archive.value|
    ensures r.filesWithMatch == |r.results| <= r.filesSearched
    ensures WellFormed(r.results)
    ensures archive.Some? ==> Keys(r.results) == MatchedNames(archive.value, needle)
  {
    match archive
    case None => Report([], 0, 0)
    case Some(entries) =>
      var h := ScanAll(entries, needle);
      Report(h.results, |entries|, h.filesWithMatch)
  }

  /** An entry is a key of the result exactly when the archive opened and an
      entry of that name has a line containing the needle. */
  lemma SearchKeys(archive: Option<seq<Entry>>, needle: string, name: string)
    ensures name in Keys(Search(archive, needle).results)
        <==> archive.Some? && HasMatchingEntry(archive.value, needle, name)
  {
    if archive.Some? {
      MatchedNamesSpec(archive.value, needle, name);
    }
  }

  // ---------------------------------------------------------------------------
  // Entries whose stream cannot be opened
  // ---------------------------------------------------------------------------

  /** The entries whose stream opens, in archive order. */
  function Available(entries: seq<Entry>): (r: seq<Entry>)
    ensures forall i :: 0 <= i < |r| ==> r[i].content.Some?
  {
    if entries == [] then []
    else
      var n := |entries| - 1;
      Available(entries[..n]) + (if entries[n].content.Some? then [entries[n]] else [])
  }

  /** An entry whose stream cannot be opened contributes nothing, and the
      entries after it are scanned as if it were not there. */
  lemma {:induction false} UnavailableEntriesIgnored(entries: seq<Entry>, needle: string)
    ensures ScanAll(entries, needle) == ScanAll(Available(entries), needle)
  {
    if entries != [] {
      var n := |entries| - 1;
      var e, init := entries[n], entries[..n];
      UnavailableEntriesIgnored(init, needle);
      var av := Available(init);
      assert ScanAll(entries, needle) == AddAll(ScanAll(init, needle), e.name, EntryHits(e, needle));
      if e.content.Some? {
        assert Available(entries) == av + [e];
        assert (av + [e])[..|av|] == av;
      } else {
        assert Available(entries) == av;
      }
    }
  }

  // ---------------------------------------------------------------------------
  // Distinct entry names: the reference result
  // ---------------------------------------------------------------------------

  ghost predicate DistinctNames(entries: seq<Entry>) {
    forall i, k :: 0 <= i < k < |entries| ==> entries[i].name != entries[k].name
  }

  /** The result an entry-at-a-time reading promises: one key per entry with
      at least one matching line, in archive order, holding that entry's
      records. */
  function Expected(entries: seq<Entry>, needle: string): seq<Bucket> {
    if entries == [] then []
    else
      var n := |entries| - 1;
      var recs := EntryHits(entries[n], needle);
      Expected(entries[..n], needle) + (if recs == [] then [] else [Bucket(entries[n].name, recs)])
  }

  /** Each reference bucket is the record list of one entry whose stream
      opened. */
  lemma {:induction false} ExpectedSource(entries: seq<Entry>, needle: string, j: nat) returns (i: nat)
    requires j < |Expected(entries, needle)|
    ensures i < |entries| && entries[i].content.Some?
    ensures Expected(entries, needle)[j] == Bucket(entries[i].name, EntryHits(entries[i], needle))
  {
    var n := |entries| - 1;
    var init := entries[..n];
    if j < |Expected(init, needle)| {
      i := ExpectedSource(init, needle, j);
      assert init[i] == entries[i];
    } else {
      i := n;
    }
  }

  /** Appending the records of an entry whose name is not yet a key adds one
      bucket holding exactly those records. */
  lemma {:induction false} AddAllFresh(h: Hits, name: string, recs: seq<string>)
    requires name !in Keys(h.results)
    ensures AddAll(h, name, recs).results == h.results + (if recs == [] then [] else [Bucket(name, recs)])
    decreases |recs|
  {
    if recs != [] {
      var init, rec := recs[..|recs| - 1], recs[|recs| - 1];
      AddAllFresh(h, name, init);
      AddAllFreshStep(h, name, init, rec);
      assert init + [rec] == recs;
    }
  }

  /** One more record of a name that was not a key before the entry. */
  lemma AddAllFreshStep(h: Hits, name: string, init: seq<string>, rec: string)
    requires name !in Keys(h.results)
    requires AddAll(h, name, init).results == h.results + (if init == [] then [] else [Bucket(name, init)])
    ensures AddAll(h, name, init + [rec]).results == h.results + [Bucket(name, init + [rec])]
  {
    var h1 := AddAll(h, name, init);
    AddAllSnoc(h, name, init, rec);
    if init != [] {
      AppendToLastBucket(h, h1, name, init, rec);
    } else {
      forall j | 0 <= j < |h.results| ensures h.results[j].name != name {
        assert Keys(h.results)[j] == h.results[j].name;
      }
      assert IndexOf(h1.results, name).None?;
      assert init + [rec] == [rec];
    }
  }

  /** When the last bucket is the only one called `name`, a record of `name`
      is appended to it. */
  lemma AppendToLastBucket(h: Hits, h1: Hits, name: string, init: seq<string>, rec: string)
    requires name !in Keys(h.results)
    requires h1.results == h.results + [Bucket(name, init)]
    ensures AddRecord(h1, name, rec).results == h.results + [Bucket(name, init + [rec])]
  {
    var k := |h.results|;
    forall j | 0 <= j < k ensures h1.results[j].name != name {
      assert Keys(h.results)[j] == h.results[j].name;
    }
    IndexOfFirst(h1.results, name, k);
    assert h1.results[k := Bucket(name, init + [rec])] == h.results + [Bucket(name, init + [rec])];
  }

  /** `isset` finds the first bucket with the name. */
  lemma IndexOfFirst(results: seq<Bucket>, name: string, k: nat)
    requires k < |results| && results[k].name == name
    requires forall j :: 0 <= j < k ==> results[j].name != name
    ensures IndexOf(results, name) == Some(k)
  {
  }

  /** With distinct entry names, the scan builds exactly the reference result. */
  lemma {:induction false} ScanAllDistinct(entries: seq<Entry>, needle: string)
    requires DistinctNames(entries)
    ensures ScanAll(entries, needle).results == Expected(entries, needle)
  {
    if entries != [] {
      var n := |entries| - 1;
      var e, init := entries[n], entries[..n];
      assert DistinctNames(init) by {
        forall i, k | 0 <= i < k < |init| ensures init[i].name != init[k].name {
          assert init[i] == entries[i] && init[k] == entries[k];
        }
      }
      ScanAllDistinct(init, needle);
      var h0 := ScanAll(init, needle);
      assert forall i :: 0 <= i < |init| ==> init[i].name != e.name by {
        forall i | 0 <= i < |init| ensures init[i].name != e.name {
          assert init[i] == entries[i];
        }
      }
      MatchedNamesSpec(init, needle, e.name);
      AddAllFresh(h0, e.name, EntryHits(e, needle));
    }
  }

  /** With distinct entry names, each key of the returned array is an entry
      whose stream opened, and its records are exactly that entry's matching
      lines, in strictly ascending line order. */
  lemma SearchResultsSpec(archive: Option<seq<Entry>>, needle: string, j: nat) returns (i: nat)
    requires archive.Some? && DistinctNames(archive.value)
    requires j < |Search(archive, needle).results|
    ensures i < |archive.value| && archive.value[i].content.Some?
    ensures Search(archive, needle).results[j].name == archive.value[i].name
    ensures IsRecordListFor(StreamLines(archive.value[i].content.value), needle, Search(archive, needle).results[j].lines)
  {
    var entries := archive.value;
    ScanAllDistinct(entries, needle);
    i := ExpectedSource(entries, needle, j);
    EntryRecordsSpec(StreamLines(entries[i].content.value), needle);
  }
}
