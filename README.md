# RA_ZipTextSearcher in Dafny

This project models `RAZipTextSearcher::searchInZip`, the core of RA_ZipTextSearcher.
The method opens a ZIP archive and visits its entries in index order. For every
entry whose stream opens, it reads the entry line by line with `feof`/`fgets`.
Each line that contains the trimmed search text adds a record
`"Line <n>: <trimmed line>"` under the entry's name in an insertion-ordered
result array. Along the way it keeps two counters on the object: `filesSearched`
and `filesWithMatch`.

Modules:

- `Wrappers` (wrappers.dfy): `Option`.
- `PhpStrings` (php_strings.dfy): PHP `trim` with its default character list
  " \t\n\r\0\x0B", `str_contains`, and the decimal text of an integer in string
  concatenation. Each comes with an independent characterisation: `IsTrimOf`,
  `OccursAt`, and a digit reader.
- `LineStream` (line_stream.dfy): the pieces successive `fgets` calls return for
  an entry's text, and the proof that they are the unique `fgets`-shaped split
  of it.
- `SearchModel` (search_model.dfy): the value-level meaning of a call. The
  results are a sequence of `Bucket(name, lines)` standing for the PHP
  associative array. `filesWithMatch` is paired with them in `Hits`, and the
  whole outcome is a `Report`. This module also holds the properties: keys,
  counters, record format, line order, and unavailable entries.
- `ZipTextSearcher` (zip_text_searcher.dfy): the class `RAZipTextSearcher`.
  - Its counters are mutable fields.
  - Its `SearchInZip` and `ReadStream` methods are the two loops of the source,
    each proved against `SearchModel`.
  - `AppendMatch` is the isset-create-append step for one matching line.
  - It also models the request handler's guard on the posted search text.
- `SearchExample` (search_example.dfy): a worked search, proved.

The archive is a parameter: `None` when `ZipArchive::open` fails, otherwise the
entries in index order. An entry has `content == None` when `getStream` fails.
Otherwise its content is the entry's decompressed text.

Two behaviours of the code are easy to miss:

- **Zero-byte entries.** A freshly opened stream does not report end-of-file
  before its first read, so the loop body runs once even for an empty entry.
  That `fgets` returns `false`, which `str_contains` and `trim` take as "".
  `StreamLines([]) == [""]` models this, and `ZeroByteEntry` states the
  consequence.
- **Empty search text.** `searchInZip` does not reject an empty needle: an
  empty needle matches every line read (`EmptyNeedleMatchesEveryLine`). Only
  the request handler's `empty()` test keeps it out, and that test also refuses
  the text "0" (`FormAcceptsSearch`, `FormGuardNeedle`).

## Model

| member | source | states |
|---|---|---|
| `ZipTextSearcher.RAZipTextSearcher.constructor` | RA_ZipTextSearcher.php:34-41 | A searcher exists only for a readable path. It keeps the path and size, and both counters start at 0. |
| `ZipTextSearcher.RAZipTextSearcher.SearchInZip` | RA_ZipTextSearcher.php:55-96 | The returned array and the new counters are `Search(archive, Trim(searchText))`, whatever the counters held before, so they are reset on every call. A failed open gives `[]` and 0/0. Otherwise `filesSearched` is the number of entries, `filesWithMatch` is the number of keys and at most `filesSearched`, and no bucket is empty or keyed twice. |
| `ZipTextSearcher.RAZipTextSearcher.ReadStream` | RA_ZipTextSearcher.php:71-84 | The read loop over one opened stream. The array and `filesWithMatch` end as if each record of the entry's matching lines, numbered from 1, had been appended in line order under the entry's key, creating the key and counting the entry when it was missing. |
| `ZipTextSearcher.RAZipTextSearcher.AppendMatch` | RA_ZipTextSearcher.php:76-81 | For a matching line, the array and `filesWithMatch` become `AddRecord` of the old ones. The entry's key is created, and the entry counted, only when it was missing, and the record goes last in its bucket. |
| `ZipTextSearcher.FormAcceptsSearch` | RA_ZipTextSearcher.php:136-141 | A posted text that passes the `empty()` guard reaches `searchInZip` as a non-empty needle after the second trim. |
| `ZipTextSearcher.PhpEmpty` | RA_ZipTextSearcher.php:141 | PHP `empty()` on a string, true for "" and "0". Both are at most one character long and unchanged by `trim`, so the guard refuses "0" though it is not blank. |
| `ZipTextSearcher.FormGuardNeedle` | RA_ZipTextSearcher.php:136-147 | Only the handler keeps an empty needle out. With any accepted text, a zero-byte entry gives no record. The text "0" is refused although its trim is not blank. |
| `ZipTextSearcher.TrimOfZero` | RA_ZipTextSearcher.php:136 | The posted text "0" is unchanged by `trim`. |
| `ZipTextSearcher.TrimOfEmpty` | RA_ZipTextSearcher.php:136 | The empty posted text is unchanged by `trim`. |
| `PhpStrings.IsTrimChar` | RA_ZipTextSearcher.php:62 | `trim`'s default list " \t\n\r\0\x0B". Each of its characters is a space or an ASCII control character, never a digit. |
| `PhpStrings.LeadingTrimCount` | RA_ZipTextSearcher.php:62 | Counts exactly the run of trim characters at the front of a string. |
| `PhpStrings.TrailingTrimCount` | RA_ZipTextSearcher.php:62 | Counts exactly the run of trim characters at the back of a string. |
| `PhpStrings.Trim` | RA_ZipTextSearcher.php:62 | The result is a slice of the input with only trim characters outside it and none at either end of it. |
| `PhpStrings.TrimUnique` | RA_ZipTextSearcher.php:62 | Any slice with that shape is `Trim`'s result, so the shape defines `trim` on its own. |
| `PhpStrings.TrimIdempotent` | RA_ZipTextSearcher.php:136-147 | Trimming twice (handler, then `searchInZip`) equals trimming once. |
| `PhpStrings.Contains` | RA_ZipTextSearcher.php:75 | True exactly when the needle occurs as a contiguous slice of the line, matched case-sensitively. |
| `PhpStrings.ContainsEmpty` | RA_ZipTextSearcher.php:75 | The empty needle occurs in every line, and the empty line contains no non-empty needle. |
| `PhpStrings.ContainsIgnoresLineTrim` | RA_ZipTextSearcher.php:75-81 | For a trimmed needle, matching the raw line finds exactly what matching the trimmed line would. |
| `PhpStrings.OccurrenceInsideTrim` | RA_ZipTextSearcher.php:75-81 | An occurrence at position i of a trimmed, non-empty needle in a line is an occurrence in the trimmed line at i minus the number of trim characters cut from the front. For any trimmed needle, the trimmed line contains it too. |
| `PhpStrings.TrimmedOccurrenceInLine` | RA_ZipTextSearcher.php:75-81 | An occurrence at position j in the trimmed line is an occurrence in the raw line at j plus the number of trim characters cut from the front. |
| `PhpStrings.OccurrenceWithinTrimBounds` | RA_ZipTextSearcher.php:75-81 | An occurrence of a trimmed, non-empty needle starts no earlier than the trimmed part and ends no later than it. |
| `PhpStrings.NatToString` | RA_ZipTextSearcher.php:81 | A line number becomes a non-empty run of decimal digits in PHP's form: it starts with '0' only for 0, and then it is "0" alone. |
| `PhpStrings.DigitsValueOfNatToString` | RA_ZipTextSearcher.php:81 | Reading that digit run back gives the line number. |
| `LineStream.FirstLineLength` | RA_ZipTextSearcher.php:74 | One `fgets` takes at least one byte and stops just after the first '\n', or at the end. |
| `LineStream.Lines` | RA_ZipTextSearcher.php:73-74 | Every piece is non-empty and has '\n' only at its end, and every piece but the last ends with '\n'. |
| `LineStream.LinesJoin` | RA_ZipTextSearcher.php:73-74 | The pieces put back together are the entry's text, with nothing lost or repeated. |
| `LineStream.LinesUnique` | RA_ZipTextSearcher.php:73-74 | Any split with the `fgets` shape that concatenates to the text is `Lines` of it. |
| `LineStream.StreamLines` | RA_ZipTextSearcher.php:71-74 | The loop always reads at least once, the pieces concatenate to the text, and every piece but the last is a complete '\n'-terminated line. |
| `SearchModel.Record` | RA_ZipTextSearcher.php:81 | The record text `"Line " . n . ": " . trim(line)`. It has no contract of its own; `ParseRecordOfRecord` states what it keeps. |
| `SearchModel.ParseRecordOfRecord` | RA_ZipTextSearcher.php:81 | A record reads back into its line number and the trimmed line. The reader refuses a number with a leading zero, so only the decimal form PHP writes is accepted. |
| `SearchModel.ParseRecordOfParts` | RA_ZipTextSearcher.php:81 | "Line ", a decimal number without leading zero, ": " and a text read back as that number and that text. |
| `SearchModel.MatchNumbers` | RA_ZipTextSearcher.php:72-83 | Every listed number is a 1-based line number within the entry, and its line contains the needle. |
| `SearchModel.MatchNumbersAscend` | RA_ZipTextSearcher.php:72-83 | The listed numbers strictly ascend, because lines are numbered in reading order. |
| `SearchModel.MatchNumbersComplete` | RA_ZipTextSearcher.php:73-83 | No matching line is skipped: the number of every line containing the needle is listed. |
| `SearchModel.EntryRecords` | RA_ZipTextSearcher.php:72-83 | The records the read loop appends for one opened entry: the record of each line `MatchNumbers` lists, in that order. It has no contract of its own; `EntryRecordsSpec` states its properties. |
| `SearchModel.EntryRecordsSpec` | RA_ZipTextSearcher.php:72-83 | An entry's records are, in strictly ascending line order, one per matching line, each with its line number and trimmed text. |
| `SearchModel.EntryRecordsOfMatches` | RA_ZipTextSearcher.php:75-81 | Every record reads back as the number of a line containing the needle and that line's trimmed text. |
| `SearchModel.EntryRecordsAscend` | RA_ZipTextSearcher.php:72-83 | The records' line numbers strictly ascend. |
| `SearchModel.EntryRecordsComplete` | RA_ZipTextSearcher.php:73-83 | Every line containing the needle has its record. |
| `SearchModel.EntryRecordsStep` | RA_ZipTextSearcher.php:73-83 | Reading one more line appends its record, if it matches, after the earlier ones. |
| `SearchModel.EmptyNeedleMatchesEveryLine` | RA_ZipTextSearcher.php:75 | With an empty needle every line read is matched, numbered 1, 2, …, so an entry gets one record per line. |
| `SearchModel.EntryHits` | RA_ZipTextSearcher.php:71-84 | An entry whose stream did not open (`if ($stream)` fails) gives no record. An opened entry gives at most one record per line read. |
| `SearchModel.ZeroByteEntry` | RA_ZipTextSearcher.php:71-84 | A zero-byte entry gives no record for a non-empty needle, and the single record "Line 1: " for the empty one. |
| `SearchModel.RecordOfEmptyFirstLine` | RA_ZipTextSearcher.php:81 | The record of the empty read on line 1 is "Line 1: ". |
| `SearchModel.IndexOf` | RA_ZipTextSearcher.php:76 | The `isset` lookup gives the first bucket with the name, or None when no bucket has it. |
| `SearchModel.AddRecord` | RA_ZipTextSearcher.php:75-81 | Appending one record keeps buckets non-empty, keys distinct and `filesWithMatch` equal to the number of keys. It adds the key at the end exactly when it was missing. |
| `SearchModel.AppendRecord` | RA_ZipTextSearcher.php:76-81 | `AddRecord` is either the append into the existing bucket, or creating an empty bucket at the end plus counting the entry, then the append. |
| `SearchModel.AddAll` | RA_ZipTextSearcher.php:73-84 | Appending all records of an entry keeps the same invariant. It adds the entry's key exactly when there was a record and the key was missing. |
| `SearchModel.AddAllSnoc` | RA_ZipTextSearcher.php:81 | The records of an entry are appended one at a time, in order. |
| `SearchModel.ReadLines` | RA_ZipTextSearcher.php:73-83 | The read loop as a line-by-line fold. It keeps the invariant (non-empty buckets, distinct keys, `filesWithMatch` equal to the number of keys), and it adds at most the entry's own key, at the end, and none when the key was already set. |
| `SearchModel.ReadLinesStep` | RA_ZipTextSearcher.php:73-83 | One iteration of the line-by-line loop: a matching line adds its record numbered by its position, and any other line changes nothing. |
| `SearchModel.ReadLinesIsAddAll` | RA_ZipTextSearcher.php:72-84 | Reading an entry line by line appends exactly that entry's records, in order, to the result array and the match counter. |
| `SearchModel.AddAllLineStep` | RA_ZipTextSearcher.php:73-83 | One iteration of the read loop: a matching line adds its record, and any other line changes nothing. |
| `SearchModel.AddAllFresh` | RA_ZipTextSearcher.php:76-81 | For a name not yet a key, the entry's records form exactly one new bucket at the end, or none when there are no records. |
| `SearchModel.MatchedNames` | RA_ZipTextSearcher.php:76-79 | The keys the scan creates, each once, in first-match order. There are at most as many as entries. |
| `SearchModel.EntryMatchesHits` | RA_ZipTextSearcher.php:71-82 | An entry gets records exactly when its stream opens and one of its lines contains the needle. |
| `SearchModel.SomeLineMatches` | RA_ZipTextSearcher.php:73-82 | There is a match number exactly when some line contains the needle. |
| `SearchModel.PrefixMatchingEntry` | RA_ZipTextSearcher.php:65-87 | A matching entry of a given name is among the first n entries, or is the last one. |
| `SearchModel.MatchedNamesSpec` | RA_ZipTextSearcher.php:65-87 | A name is matched exactly when some entry of that name has a matching line. |
| `SearchModel.ScanAll` | RA_ZipTextSearcher.php:65-87 | After the scan, buckets are non-empty, keys are distinct, `filesWithMatch` equals the number of keys, and the keys are the matched names in first-match order. |
| `SearchModel.ScanAllStep` | RA_ZipTextSearcher.php:65-87 | Scanning one more entry appends that entry's records. |
| `SearchModel.Search` | RA_ZipTextSearcher.php:55-96 | A failed open gives `[]` and both counters 0. Otherwise `filesSearched` is the number of entries, `filesWithMatch` equals the number of keys and is at most `filesSearched`, buckets are non-empty, and the keys are the matched names. |
| `SearchModel.SearchKeys` | RA_ZipTextSearcher.php:64-92 | A name is a key exactly when the archive opened and an entry of that name has a line containing the needle. |
| `SearchModel.Available` | RA_ZipTextSearcher.php:68-71 | Keeps only the entries whose stream opened. |
| `SearchModel.UnavailableEntriesIgnored` | RA_ZipTextSearcher.php:68-86 | Entries whose stream cannot be opened leave the array and `filesWithMatch` as if they were absent. They still count in `filesSearched` (`Search`). |
| `SearchModel.ExpectedSource` | RA_ZipTextSearcher.php:51-53 | Each bucket of the reference result is the full record list of one entry whose stream opened. |
| `SearchModel.ScanAllDistinct` | RA_ZipTextSearcher.php:51-53 | With distinct entry names, the scan builds exactly the reference result: one bucket per entry with a matching line, in archive order. |
| `SearchModel.SearchResultsSpec` | RA_ZipTextSearcher.php:51-53 | With distinct entry names, each key of the result is an opened entry. Its records are exactly that entry's matching lines with their numbers, in strictly ascending order. |
| `SearchExample.ExampleSearch` | RA_ZipTextSearcher.php:55-96 | An unreadable entry followed by "a\nab\nabc", searched for "ab", gives `{"notes.txt": ["Line 2: ab", "Line 3: abc"]}` with 2 entries searched and 1 matched. |
| `SearchExample.ExampleScan` | RA_ZipTextSearcher.php:65-87 | The scan of those two entries leaves the single key "notes.txt" with its two records, and `filesWithMatch` 1. |
| `SearchExample.ExampleScanFirst` | RA_ZipTextSearcher.php:68-71 | The unreadable entry alone leaves the array empty and `filesWithMatch` 0. |
| `SearchExample.ExampleEntryHits` | RA_ZipTextSearcher.php:71-84 | The text entry yields the records "Line 2: ab" and "Line 3: abc". |
| `SearchExample.ExampleLines` | RA_ZipTextSearcher.php:73-74 | "a\nab\nabc" is read as "a\n", "ab\n", "abc". |
| `SearchExample.ExampleTailLines` | RA_ZipTextSearcher.php:73-74 | After the first line, "ab\nabc" is read as "ab\n", "abc". |
| `SearchExample.ExampleMatches` | RA_ZipTextSearcher.php:75 | Of those lines, only lines 2 and 3 contain "ab". |
| `SearchExample.ExampleContains` | RA_ZipTextSearcher.php:75 | "a\n" does not contain "ab"; "ab\n" and "abc" do. |
| `SearchExample.ExampleRecords` | RA_ZipTextSearcher.php:81 | Their records are "Line 2: ab" and "Line 3: abc". |
| `SearchExample.ExampleLeadingZero` | RA_ZipTextSearcher.php:81 | "Line 01: ab" is not read back as a record, because PHP never writes a line number with a leading zero. |
| `SearchExample.ExampleRecordTexts` | RA_ZipTextSearcher.php:81 | The record of line 2 ("ab\n") loses its newline, and that of line 3 ("abc") keeps its text. |
| `SearchExample.ExampleTrims` | RA_ZipTextSearcher.php:81 | `trim` removes only the trailing newline of "ab\n" and leaves "abc" unchanged. |

## Left out

- ZIP parsing and DEFLATE decompression are not modelled. `ZipArchive::open`, `numFiles`, `getNameIndex` and `getStream` are replaced by the `archive` parameter (the entries and their decompressed text). `fclose` and `$zip->close()` release resources and are not modelled.
- `fgets` buffering is not modelled. A stream reads its source in chunks, and `feof` turns true only after a read has met the end. When an entry's text ends with '\n' exactly where a read request is filled, the loop makes one more `fgets` call. That call gets `false`, and the loop tests an extra "" line. An unterminated last line at such a boundary gives no extra read, because `fgets` keeps reading while it looks for '\n'. The extra "" line matters only for an empty needle, which the handler refuses.
- A `char` stands for one byte. PHP's `trim`, `str_contains` and `fgets` work on bytes, and the model applies no character encoding.
- The `auto_detect_line_endings` setting is not modelled. It is off by default, and then '\n' is the only line end `fgets` stops at.
- A read error in the middle of a stream is not modelled: `fgets` returning `false` before the end. The content is taken to be read whole.
- `is_readable` and `filesize` are file-system I/O. They are parameters of the constructor, and readability is its precondition, in place of the `InvalidArgumentException`.
- `microtime`, `startTime` and `endTime` are not modelled. `generateReport` only formats and echoes the counters, path, size and time as HTML, and it is not modelled.
- `error_log` on a failed open is a side effect. Only its outcome is modelled: an empty result and zero counters.
- The rest of the HTML page and request handler is not modelled: the directory listing (`glob`), the `zip_file` whitelist check and the rendering. Only the search-text guard is modelled.
- `$foundInThisFile` is written but never read, so it has no counterpart.
- PHP turns array keys that are decimal-integer strings into integer keys. Key identity is unchanged, so the model keeps names as strings.
- `SearchModel.SearchResultsSpec`: states the bucket-per-entry correspondence only for archives with distinct entry names. With a repeated name, PHP's `getStream($entryName)` opens one of the same-named entries, which the model does not resolve. The model then gives each entry its own content, and their records share one key. The counter and key properties (`Search`, `SearchKeys`) hold for every archive.
- `SearchModel.ScanAllDistinct`: holds only for distinct entry names, for the same reason.
- Concurrency is not modelled: a single request runs one search at a time.
