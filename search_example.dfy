/** A worked search: an archive whose first entry cannot be streamed and whose
    second holds three lines, searched for "ab". */
module SearchExample {
  import opened Wrappers
  import opened PhpStrings
  import opened LineStream
  import opened SearchModel

  /** The unreadable entry is counted but gives no key; the text entry gets
      the records of its lines 2 and 3, trimmed, in line order. */
  lemma ExampleSearch()
    ensures Search(Some([Entry("logo.png", None), Entry("notes.txt", Some("a\nab\nabc"))]), "ab")
         == Report([Bucket("notes.txt", ["Line 2: ab", "Line 3: abc"])], 2, 1)
  {
    ExampleScan([Entry("logo.png", None), Entry("notes.txt", Some("a\nab\nabc"))]);
  }

  /** The scan leaves one key, for the text entry, and counts one match. */
  lemma ExampleScan(entries: seq<Entry>)
    requires entries == [Entry("logo.png", None), Entry("notes.txt", Some("a\nab\nabc"))]
    ensures ScanAll(entries, "ab") == Hits([Bucket("notes.txt", ["Line 2: ab", "Line 3: abc"])], 1)
  {
    var recs := ["Line 2: ab", "Line 3: abc"];
    ExampleEntryHits();
    ExampleScanFirst();
    assert entries[..1] == [Entry("logo.png", None)];
    assert ScanAll(entries, "ab") == AddAll(Hits([], 0), "notes.txt", recs);
    AddAllFresh(Hits([], 0), "notes.txt", recs);
  }

  /** The unreadable entry alone leaves the array empty. */
  lemma ExampleScanFirst()
    ensures ScanAll([Entry("logo.png", None)], "ab") == Hits([], 0)
  {
    var entries := [Entry("logo.png", None)];
    assert entries[..0] == [];
  }

  /** The records of the text entry. */
  lemma ExampleEntryHits()
    ensures EntryHits(Entry("notes.txt", Some("a\nab\nabc")), "ab") == ["Line 2: ab", "Line 3: abc"]
  {
    var lines := ExampleLines("a\nab\nabc");
    var recs := ExampleRecords(lines);
  }

  /** The three pieces `fgets` returns for the text entry. */
  lemma ExampleLines(c: string) returns (lines: seq<string>)
    requires c == "a\nab\nabc"
    ensures lines == ["a\n", "ab\n", "abc"] && StreamLines(c) == lines
  {
    var c1 := c[2..];
    ExampleTailLines(c1);
    assert FirstLineLength(c) == 2 by {
      assert c[0] != '\n' && c[1..][0] == '\n';
    }
    assert c[..2] == "a\n";
    lines := ["a\n", "ab\n", "abc"];
  }

  /** The pieces after the first line. */
  lemma ExampleTailLines(c1: string)
    requires c1 == "ab\nabc"
    ensures Lines(c1) == ["ab\n", "abc"]
  {
    var c2 := c1[3..];
    assert c1[..3] == "ab\n" && c2 == "abc";
    assert FirstLineLength(c1) == 3 by {
      assert c1[1..][1..] == c1[2..] && c1[2..][0] == '\n';
      assert FirstLineLength(c1[2..]) == 1;
      assert FirstLineLength(c1[1..]) == 2;
    }
    assert FirstLineLength(c2) == 3 by {
      assert c2[1..][1..] == c2[2..] && |c2[2..]| == 1;
      assert FirstLineLength(c2[2..]) == 1;
      assert FirstLineLength(c2[1..]) == 2;
    }
    assert c2[..3] == c2 && c2[3..] == [];
    assert Lines(c2) == ["abc"];
  }

  /** Only the second and third lines contain "ab". */
  lemma ExampleMatches(lines: seq<string>)
    requires lines == ["a\n", "ab\n", "abc"]
    ensures MatchNumbers(lines, "ab") == [2, 3]
  {
    ExampleContains();
    assert lines[..1][..0] == [] && lines[..1] == ["a\n"];
    assert lines[..2][..1] == lines[..1] && lines[..2] == ["a\n", "ab\n"];
    assert MatchNumbers(lines[..1], "ab") == [];
    assert MatchNumbers(lines[..2], "ab") == [2];
  }

  /** Which of the three lines contain "ab". */
  lemma ExampleContains()
    ensures !Contains("a\n", "ab") && Contains("ab\n", "ab") && Contains("abc", "ab")
  {
    assert !Contains("a\n", "ab") by {
      assert "a\n"[..2][1] != "ab"[1];
      assert "a\n"[1..] == "\n";
    }
    assert OccursAt("ab\n", "ab", 0);
    assert OccursAt("abc", "ab", 0);
  }

  /** The records of those two lines. */
  lemma ExampleRecords(lines: seq<string>) returns (recs: seq<string>)
    requires lines == ["a\n", "ab\n", "abc"]
    ensures recs == EntryRecords(lines, "ab") == ["Line 2: ab", "Line 3: abc"]
  {
    ExampleMatches(lines);
    ExampleRecordTexts();
    recs := EntryRecords(lines, "ab");
    assert |recs| == 2;
    assert recs[0] == Record(2, lines[1]);
    assert recs[1] == Record(3, lines[2]);
  }

  /** A line number written with a leading zero is not a record PHP writes,
      and the reader refuses it. */
  lemma ExampleLeadingZero(rec: string)
    requires rec == "Line 01: ab"
    ensures ParseRecord(rec) == None
  {
    var rest := rec[5..];
    assert rec[..5] == "Line " && rest == "01: ab";
    assert DigitRun(rest) > 1 by {
      assert IsDigit(rest[0]) && IsDigit(rest[1..][0]);
    }
  }

  /** The trailing '\n' is trimmed off the record text. */
  lemma ExampleRecordTexts()
    ensures Record(2, "ab\n") == "Line 2: ab"
    ensures Record(3, "abc") == "Line 3: abc"
  {
    ExampleTrims();
    assert NatToString(2) == "2" && NatToString(3) == "3";
  }

  /** Only the newline is a trim character in those lines. */
  lemma ExampleTrims()
    ensures Trim("ab\n") == "ab" && Trim("abc") == "abc"
  {
    assert LeadingTrimCount("ab\n") == 0 && LeadingTrimCount("abc") == 0;
    assert "ab\n"[..2] == "ab" && "ab\n"[0..] == "ab\n" && "abc"[0..] == "abc";
    assert TrailingTrimCount("ab") == 0;
    assert TrailingTrimCount("ab\n") == 1;
    assert TrailingTrimCount("abc") == 0;
  }
}
