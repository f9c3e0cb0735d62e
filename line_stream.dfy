/** What the `while (!feof($stream)) { $line = fgets($stream); … }` loop of
    `searchInZip` receives from an entry's decompressed text: the text cut
    after every '\n', the last piece possibly unterminated. */
module LineStream {

  /** A piece `fgets` can return: not empty, and a '\n' at most at its end. */
  ghost predicate IsLine(l: string) {
    l != [] && forall i :: 0 <= i < |l| - 1 ==> l[i] != '\n'
  }

  /** A line `fgets` stopped at because it met a '\n'. */
  ghost predicate EndsWithNewline(l: string) {
    l != [] && l[|l| - 1] == '\n'
  }

  /** The length of the first line of `s`: up to and including the first
      '\n', or all of `s` when it has none. */
  function FirstLineLength(s: string): (k: nat)
    requires s != []
    ensures 0 < k <= |s|
    ensures forall i :: 0 <= i < k - 1 ==> s[i] != '\n'
    ensures k < |s| ==> s[k - 1] == '\n'
  {
    if s[0] == '\n' || |s| == 1 then 1 else 1 + FirstLineLength(s[1..])
  }

  /** The lines successive `fgets` calls return for the text `s`; the empty
      text has none. */
  function Lines(s: string): (ls: seq<string>)
    ensures forall j :: 0 <= j < |ls| ==> IsLine(ls[j])
    ensures forall j :: 0 <= j < |ls| - 1 ==> EndsWithNewline(ls[j])
    decreases |s|
  {
    if s == [] then []
    else
      var k := FirstLineLength(s);
      [s[..k]] + Lines(s[k..])
  }

  /** The lines put back together. */
  function Concat(ls: seq<string>): string {
    if ls == [] then [] else ls[0] + Concat(ls[1..])
  }

  /** `ls` cuts `s` into lines the way `fgets` does. */
  ghost predicate IsLineSplit(s: string, ls: seq<string>) {
    && Concat(ls) == s
    && (forall j :: 0 <= j < |ls| ==> IsLine(ls[j]))
    && (forall j :: 0 <= j < |ls| - 1 ==> EndsWithNewline(ls[j]))
  }

  /** No byte of the text is lost or duplicated by the splitter. */
  lemma {:induction false} LinesJoin(s: string)
    ensures Concat(Lines(s)) == s
    decreases |s|
  {
    if s != [] {
      var k := FirstLineLength(s);
      LinesJoin(s[k..]);
      assert Lines(s)[1..] == Lines(s[k..]);
    }
  }

  /** `Lines` is the only split with the `fgets` shape. */
  lemma {:induction false} LinesUnique(s: string, ls: seq<string>)
    requires IsLineSplit(s, ls)
    ensures ls == Lines(s)
    decreases |ls|
  {
    if ls != [] {
      var l := ls[0];
      assert s == l + Concat(ls[1..]);
      FirstLineIs(s, |l|);
      assert s[..|l|] == l;
      assert IsLineSplit(s[|l|..], ls[1..]) by {
        assert s[|l|..] == Concat(ls[1..]);
        forall j | 0 <= j < |ls[1..]| ensures IsLine(ls[1..][j]) {
          assert ls[1..][j] == ls[j + 1];
        }
      }
      LinesUnique(s[|l|..], ls[1..]);
    }
  }

  /** A line length with the `fgets` shape is the first line's length. */
  lemma FirstLineIs(s: string, m: nat)
    requires 0 < m <= |s|
    requires forall i :: 0 <= i < m - 1 ==> s[i] != '\n'
    requires m < |s| ==> s[m - 1] == '\n'
    ensures FirstLineLength(s) == m
  {
  }

  /** The strings the read loop tests, one per `fgets` call before `feof`
      turns true. A fresh stream does not report end-of-file before its first
      read, so a zero-byte entry is read once, and that read gives `false`,
      which `str_contains` and `trim` take as "". */
  function StreamLines(content: string): (ls: seq<string>)
    ensures |ls| > 0 && Concat(ls) == content
    ensures forall j :: 0 <= j < |ls| - 1 ==> IsLine(ls[j]) && EndsWithNewline(ls[j])
  {
    if content == [] then [""]
    else
      LinesJoin(content);
      Lines(content)
  }
}
