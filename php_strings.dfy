/** The PHP string built-ins the searcher relies on: `trim` with its default
    character list, `str_contains`, and the decimal form an integer takes when
    it is concatenated to a string. */
module PhpStrings {

  // ---------------------------------------------------------------------------
  // trim
  // ---------------------------------------------------------------------------

  /** The characters `trim` strips when no list is given: " \t\n\r\0\x0B",
      the space and five ASCII control characters, so never a digit or a
      visible character. */
  predicate IsTrimChar(c: char)
    ensures IsTrimChar(c) ==> c as int <= 0x20 && !IsDigit(c)
  {
    c == ' ' || c == '\t' || c == '\n' || c == '\r' || c == '\0' || c == '\U{000B}'
  }

  /** The number of trim characters at the front of `s`. */
  function LeadingTrimCount(s: string): (k: nat)
    ensures k <= |s|
    ensures forall i :: 0 <= i < k ==> IsTrimChar(s[i])
    ensures k < |s| ==> !IsTrimChar(s[k])
  {
    if s == [] || !IsTrimChar(s[0]) then 0 else 1 + LeadingTrimCount(s[1..])
  }

  /** The number of trim characters at the back of `s`. */
  function TrailingTrimCount(s: string): (k: nat)
    ensures k <= |s|
    ensures forall i :: |s| - k <= i < |s| ==> IsTrimChar(s[i])
    ensures k < |s| ==> !IsTrimChar(s[|s| - 1 - k])
  {
    if s == [] || !IsTrimChar(s[|s| - 1]) then 0 else 1 + TrailingTrimCount(s[..|s| - 1])
  }

  /** `r` is the slice of `s` starting at `a` that is left once every trim
      character has been cut from both ends: what lies outside it is made of
      trim characters only, and neither end of `r` is one. */
  ghost predicate IsTrimOf(s: string, r: string, a: int) {
    && 0 <= a && a + |r| <= |s| && s[a..a + |r|] == r
    && (forall i :: 0 <= i < a ==> IsTrimChar(s[i]))
    && (forall i :: a + |r| <= i < |s| ==> IsTrimChar(s[i]))
    && (r != [] ==> !IsTrimChar(r[0]) && !IsTrimChar(r[|r| - 1]))
  }

  /** PHP `trim($s)`. */
  function Trim(s: string): (r: string)
    ensures IsTrimOf(s, r, LeadingTrimCount(s))
  {
    var t := s[LeadingTrimCount(s)..];
    t[..|t| - TrailingTrimCount(t)]
  }

  /** The trim of a string is the only slice with the trim shape: `IsTrimOf`
      is an independent definition of `trim`. */
  lemma TrimUnique(s: string, r: string, a: int)
    requires IsTrimOf(s, r, a)
    ensures r == Trim(s)
  {
    var t, b := Trim(s), LeadingTrimCount(s);
    if r == [] {
      forall i | 0 <= i < |s| ensures IsTrimChar(s[i]) {
        if i < a {} else {}
      }
      assert b == |s|;
    } else {
      assert s[a] == r[0];
      assert a == b;
      assert !IsTrimChar(s[b]);
      assert t != [];
      var e, f := a + |r|, b + |t|;
      assert s[e - 1] == r[|r| - 1];
      assert s[f - 1] == t[|t| - 1];
      assert e == f;
    }
  }

  /** Trimming twice is trimming once (the request handler trims the search
      string before `searchInZip` trims it again). */
  lemma TrimIdempotent(s: string)
    ensures Trim(Trim(s)) == Trim(s)
  {
    var r := Trim(s);
    assert r[0..0 + |r|] == r;
    TrimUnique(r, r, 0);
  }

  // ---------------------------------------------------------------------------
  // str_contains
  // ---------------------------------------------------------------------------

  /** `needle` occurs in `haystack` starting at index `i`. */
  ghost predicate OccursAt(haystack: string, needle: string, i: int) {
    0 <= i && i + |needle| <= |haystack| && haystack[i..i + |needle|] == needle
  }

  /** PHP `str_contains($haystack, $needle)`: case-sensitive search for a
      contiguous occurrence; the empty needle occurs in every string. */
  function Contains(haystack: string, needle: string): (r: bool)
    ensures r <==> exists i :: OccursAt(haystack, needle, i)
    decreases |haystack|
  {
    if |needle| > |haystack| then false
    else if haystack[..|needle|] == needle then
      assert OccursAt(haystack, needle, 0);
      true
    else
      OccursAfterFirst(haystack, needle);
      Contains(haystack[1..], needle)
  }

  /** When `needle` does not start `haystack`, it occurs in `haystack` exactly
      when it occurs in `haystack[1..]`. */
  lemma OccursAfterFirst(haystack: string, needle: string)
    requires |needle| <= |haystack| && haystack[..|needle|] != needle
    ensures (exists i :: OccursAt(haystack, needle, i)) <==> (exists i :: OccursAt(haystack[1..], needle, i))
  {
    if i :| OccursAt(haystack[1..], needle, i) {
      assert haystack[1..][i..i + |needle|] == haystack[i + 1..i + 1 + |needle|];
      assert OccursAt(haystack, needle, i + 1);
    }
    if i :| OccursAt(haystack, needle, i) {
      assert i != 0;
      assert haystack[1..][i - 1..i - 1 + |needle|] == haystack[i..i + |needle|];
      assert OccursAt(haystack[1..], needle, i - 1);
    }
  }

  /** The empty needle is found in every line, the empty line contains no
      other needle. */
  lemma ContainsEmpty(haystack: string, needle: string)
    ensures Contains(haystack, [])
    ensures needle != [] ==> !Contains([], needle)
  {
    assert OccursAt(haystack, [], 0);
  }

  /** For a needle that is already trimmed, searching the raw line finds the
      same as searching the trimmed line: the trim characters around a line can
      never be part of an occurrence. */
  lemma ContainsIgnoresLineTrim(line: string, needle: string)
    requires Trim(needle) == needle
    ensures Contains(line, needle) <==> Contains(Trim(line), needle)
  {
    if Contains(line, needle) {
      var i :| OccursAt(line, needle, i);
      OccurrenceInsideTrim(line, needle, i);
    }
    if Contains(Trim(line), needle) {
      var j :| OccursAt(Trim(line), needle, j);
      TrimmedOccurrenceInLine(line, needle, j);
    }
  }

  /** An occurrence in the trimmed line is one in the line itself, shifted
      by the trim characters cut from the front. */
  lemma TrimmedOccurrenceInLine(line: string, needle: string, j: int)
    requires OccursAt(Trim(line), needle, j)
    ensures OccursAt(line, needle, j + LeadingTrimCount(line))
  {
    OccurrenceFromSlice(line, Trim(line), LeadingTrimCount(line), needle, j);
  }

  /** An occurrence of a trimmed, non-empty needle lies inside the trimmed
      part, shifted by the trim characters cut from the front. */
  lemma OccurrenceInsideTrim(line: string, needle: string, i: int)
    requires Trim(needle) == needle && OccursAt(line, needle, i)
    ensures needle != [] ==> OccursAt(Trim(line), needle, i - LeadingTrimCount(line))
    ensures exists j :: OccursAt(Trim(line), needle, j)
  {
    var t, a := Trim(line), LeadingTrimCount(line);
    if needle == [] {
      assert OccursAt(t, needle, 0);
    } else {
      OccurrenceWithinTrimBounds(line, needle, i);
      OccurrenceInSlice(line, t, a, needle, i);
    }
  }

  /** An occurrence in the slice `u` of `s` starting at `a` is one in `s`. */
  lemma OccurrenceFromSlice(s: string, u: string, a: nat, needle: string, j: int)
    requires a + |u| <= |s| && s[a..a + |u|] == u && OccursAt(u, needle, j)
    ensures OccursAt(s, needle, a + j)
  {
    forall k | 0 <= k < |needle| ensures s[a + j + k] == needle[k] {
      assert u[j..j + |needle|][k] == needle[k];
      assert u[j + k] == s[a + j + k];
    }
    assert s[a + j..a + j + |needle|] == needle;
  }

  /** An occurrence in `s` that fits in its slice `u` starting at `a` is one
      in that slice. */
  lemma OccurrenceInSlice(s: string, u: string, a: nat, needle: string, i: int)
    requires a + |u| <= |s| && s[a..a + |u|] == u
    requires a <= i && i + |needle| <= a + |u| && OccursAt(s, needle, i)
    ensures OccursAt(u, needle, i - a)
  {
    forall k | 0 <= k < |needle| ensures u[i - a + k] == needle[k] {
      assert s[i..i + |needle|][k] == needle[k];
      assert u[i - a + k] == s[i + k];
    }
    assert u[i - a..i - a + |needle|] == needle;
  }

  /** A non-empty trimmed needle starts and ends with a character `trim`
      keeps, so an occurrence of it cannot reach into the cut ends. */
  lemma OccurrenceWithinTrimBounds(line: string, needle: string, i: int)
    requires Trim(needle) == needle && needle != [] && OccursAt(line, needle, i)
    ensures LeadingTrimCount(line) <= i
    ensures i + |needle| <= LeadingTrimCount(line) + |Trim(line)|
  {
    assert line[i] == needle[0];
    assert line[i + |needle| - 1] == needle[|needle| - 1];
  }

  // ---------------------------------------------------------------------------
  // Integers in string concatenation
  // ---------------------------------------------------------------------------

  predicate IsDigit(c: char) {
    '0' as int <= c as int <= '9' as int
  }

  function DigitValue(c: char): nat
    requires IsDigit(c)
  {
    c as int - '0' as int
  }

  function DigitChar(d: nat): (c: char)
    requires d < 10
    ensures IsDigit(c) && DigitValue(c) == d
  {
    "0123456789"[d]
  }

  /** The decimal text PHP produces for a non-negative integer: `"Line " . $n`.
      It has no leading zero: "0" is the only text starting with '0'. */
  function NatToString(n: nat): (s: string)
    ensures s != []
    ensures forall i :: 0 <= i < |s| ==> IsDigit(s[i])
    ensures s[0] == '0' <==> n == 0
    ensures s[0] == '0' ==> |s| == 1
    decreases n
  {
    if n < 10 then [DigitChar(n)] else NatToString(n / 10) + [DigitChar(n % 10)]
  }

  /** The number a run of decimal digits denotes. */
  function DigitsValue(s: string): nat
    requires forall i :: 0 <= i < |s| ==> IsDigit(s[i])
  {
    if s == [] then 0
    else 10 * DigitsValue(s[..|s| - 1]) + DigitValue(s[|s| - 1])
  }

  /** Reading the decimal text of `n` back gives `n`. */
  lemma {:induction false} DigitsValueOfNatToString(n: nat)
    ensures DigitsValue(NatToString(n)) == n
    decreases n
  {
    var s := NatToString(n);
    if n >= 10 {
      assert s[..|s| - 1] == NatToString(n / 10);
      DigitsValueOfNatToString(n / 10);
    }
  }

  /** The length of the run of decimal digits at the front of `s`. */
  function DigitRun(s: string): (k: nat)
    ensures k <= |s|
    ensures forall i :: 0 <= i < k ==> IsDigit(s[i])
    ensures k < |s| ==> !IsDigit(s[k])
  {
    if s == [] || !IsDigit(s[0]) then 0 else 1 + DigitRun(s[1..])
  }

  /** A digit run followed by a non-digit is read up to that non-digit. */
  lemma {:induction false} DigitRunOfDigitsThen(digits: string, rest: string)
    requires forall i :: 0 <= i < |digits| ==> IsDigit(digits[i])
    requires rest != [] && !IsDigit(rest[0])
    ensures DigitRun(digits + rest) == |digits|
  {
    if digits != [] {
      assert (digits + rest)[1..] == digits[1..] + rest;
      DigitRunOfDigitsThen(digits[1..], rest);
    }
  }
}
