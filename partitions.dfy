/**
 * The classifier the disk manager applies to each line of /proc/partitions.
 * Four anchored patterns share one head, blanks and three numbers each
 * followed by blanks, and differ in the name they capture:
 *
 *   ^[\t ]+[0-9]+[\t ]+[0-9]+[\t ]+[0-9]+[\t ]+(NAME)$
 *
 * with NAME one of `[^0-9]+` (a whole disk), `mmcblk[0-9]+`,
 * `nvme[0-9]+n[0-9]+` and `md[0-9]+`. The patterns are written here as
 * string predicates: `HeadRuns` and `NameOk` say what a match is, and
 * `Capture` is the scanner, proved to return the capture a backtracking
 * matcher with greedy repetition returns.
 */
module ProcPartitions {
  import opened Wrappers
  import FileSystem

  predicate IsBlank(c: char) { c == ' ' || c == '\t' }

  predicate IsDigit(c: char) { '0' <= c <= '9' }

  /** The character class of run `r` of the head: odd runs are blanks, even runs digits. */
  predicate InRun(c: char, r: nat)
  {
    if r % 2 == 1 then IsBlank(c) else IsDigit(c)
  }

  /** Every character of `s[i..k]` is in the class of run `r`. */
  predicate AllIn(s: string, i: nat, k: nat, r: nat)
    requires i <= k <= |s|
  {
    forall m :: i <= m < k ==> InRun(s[m], r)
  }

  /**
   * `line[i..j]` is runs `r` to 7 of the head, each of at least one
   * character: the seven runs are blanks, digits, blanks, digits, blanks,
   * digits, blanks.
   */
  ghost predicate HeadRuns(line: string, i: nat, j: nat, r: nat)
    requires 1 <= r <= 7 && i <= j <= |line|
    decreases 7 - r
  {
    exists k :: i < k <= j && AllIn(line, i, k, r) && (if r == 7 then k == j else HeadRuns(line, k, j, r + 1))
  }

  /** The four patterns, in the order the scanner tries them. */
  datatype Pattern = WholeDisk | Mmcblk | Nvme | Raid

  predicate Numeral(s: string)
  {
    s != [] && forall i :: 0 <= i < |s| ==> IsDigit(s[i])
  }

  /** `nvme[0-9]+n[0-9]+`. */
  ghost predicate NvmeShape(c: string)
  {
    |c| > 4 && c[..4] == "nvme" &&
    exists m :: 4 < m < |c| && c[m] == 'n' && Numeral(c[4..m]) && Numeral(c[m + 1..])
  }

  /** The capture group of each pattern. */
  ghost predicate NameOk(pat: Pattern, c: string)
  {
    match pat
    case WholeDisk => c != [] && forall i :: 0 <= i < |c| ==> !IsDigit(c[i])
    case Mmcblk => |c| > 6 && c[..6] == "mmcblk" && Numeral(c[6..])
    case Nvme => NvmeShape(c)
    case Raid => |c| > 2 && c[..2] == "md" && Numeral(c[2..])
  }

  /** The whole line matches `pat` with the name starting at `j`. */
  ghost predicate MatchesAt(pat: Pattern, line: string, j: nat)
    requires j <= |line|
  {
    HeadRuns(line, 0, j, 1) && NameOk(pat, line[j..])
  }

  // ---------------------------------------------------------------------
  // The scanner

  /** From `i`, the end of the longest stretch of run `r`'s class. */
  function Span(s: string, i: nat, r: nat): (j: nat)
    requires i <= |s|
    ensures i <= j <= |s|
    decreases |s| - i
  {
    if i < |s| && InRun(s[i], r) then Span(s, i + 1, r) else i
  }

  /** A stretch of run `r`'s class that ends at the line's end or at a character outside it is what `Span` finds. */
  lemma {:induction false} SpanIs(s: string, i: nat, r: nat, k: nat)
    requires i <= k <= |s| && AllIn(s, i, k, r)
    requires k < |s| ==> !InRun(s[k], r)
    ensures Span(s, i, r) == k
    decreases k - i
  {
    if i < k {
      SpanIs(s, i + 1, r, k);
    }
  }

  /** The stretch `Span` finds is all of run `r`'s class, and ends at the line's end or at a character outside it. */
  lemma {:induction false} SpanEnds(s: string, i: nat, r: nat)
    requires i <= |s|
    ensures AllIn(s, i, Span(s, i, r), r)
    ensures Span(s, i, r) < |s| ==> !InRun(s[Span(s, i, r)], r)
    decreases |s| - i
  {
    if i < |s| && InRun(s[i], r) {
      SpanEnds(s, i + 1, r);
    }
  }

  /**
   * Reads runs `r` to 7 greedily from `i`; the start and end of the
   * seventh run, or None when a run is empty.
   */
  function HeadFrom(line: string, i: nat, r: nat): (h: Option<(nat, nat)>)
    requires 1 <= r <= 7 && i <= |line|
    ensures h.Some? ==> i <= h.value.0 < h.value.1 <= |line|
    decreases 7 - r
  {
    var j := Span(line, i, r);
    if j == i then None
    else if r == 7 then Some((i, j))
    else HeadFrom(line, j, r + 1)
  }

  /** Checks the capture of `pat`. */
  function Accepts(pat: Pattern, c: string): (b: bool)
    ensures b <==> NameOk(pat, c)
  {
    match pat
    case WholeDisk => c != [] && forall i :: 0 <= i < |c| ==> !IsDigit(c[i])
    case Mmcblk => |c| > 6 && c[..6] == "mmcblk" && Numeral(c[6..])
    case Nvme => IsNvme(c)
    case Raid => |c| > 2 && c[..2] == "md" && Numeral(c[2..])
  }

  /** `nvme`, digits up to the first non-digit, which is `n`, then digits to the end. */
  function IsNvme(c: string): (b: bool)
    ensures b <==> NvmeShape(c)
  {
    if |c| > 4 && c[..4] == "nvme" then
      var m := Span(c, 4, 2);
      var b := 4 < m < |c| && c[m] == 'n' && Span(c, m + 1, 2) == |c| && m + 1 < |c|;
      NvmeByDigits(c, m);
      b
    else false
  }

  lemma NvmeByDigits(c: string, m: nat)
    requires |c| > 4 && c[..4] == "nvme" && m == Span(c, 4, 2)
    ensures NvmeShape(c) <==> 4 < m < |c| && c[m] == 'n' && Span(c, m + 1, 2) == |c| && m + 1 < |c|
  {
    if NvmeShape(c) {
      NvmeSplit(c, m);
    }
    if 4 < m < |c| && c[m] == 'n' && Span(c, m + 1, 2) == |c| && m + 1 < |c| {
      SpanEnds(c, 4, 2);
      SpanEnds(c, m + 1, 2);
      NvmeJoin(c, m);
    }
  }

  /** The `n` of an nvme name is the first non-digit after "nvme", and digits run from it to the end. */
  lemma NvmeSplit(c: string, m: nat)
    requires |c| > 4 && c[..4] == "nvme" && m == Span(c, 4, 2) && NvmeShape(c)
    ensures 4 < m < |c| && c[m] == 'n' && Span(c, m + 1, 2) == |c| && m + 1 < |c|
  {
    var m' :| 4 < m' < |c| && c[m'] == 'n' && Numeral(c[4..m']) && Numeral(c[m' + 1..]);
    var d, e := c[4..m'], c[m' + 1..];
    forall k | 4 <= k < m' ensures InRun(c[k], 2) { assert c[k] == d[k - 4]; }
    SpanIs(c, 4, 2, m');
    forall k | m' + 1 <= k < |c| ensures InRun(c[k], 2) { assert c[k] == e[k - m' - 1]; }
    SpanIs(c, m' + 1, 2, |c|);
  }

  /** "nvme", digits, `n`, digits: an nvme name. */
  lemma NvmeJoin(c: string, m: nat)
    requires |c| > 4 && c[..4] == "nvme" && 4 < m && m + 1 < |c| && c[m] == 'n'
    requires AllIn(c, 4, m, 2) && AllIn(c, m + 1, |c|, 2)
    ensures NvmeShape(c)
  {
    var d, e := c[4..m], c[m + 1..];
    forall k | 0 <= k < |d| ensures IsDigit(d[k]) { assert d[k] == c[4 + k] && InRun(c[4 + k], 2); }
    forall k | 0 <= k < |e| ensures IsDigit(e[k]) { assert e[k] == c[m + 1 + k] && InRun(c[m + 1 + k], 2); }
    assert Numeral(d) && Numeral(e);
  }

  /**
   * What `g_match_info_fetch(match_info, 1)` returns for `line`: the name
   * after the greedy head, or, when that is rejected, the name one blank
   * earlier (the last blank run giving back one character).
   */
  function Capture(pat: Pattern, line: string): Option<string>
  {
    match HeadFrom(line, 0, 1)
    case None => None
    case Some((a, b)) =>
      if Accepts(pat, line[b..]) then Some(line[b..])
      else if b - a >= 2 && Accepts(pat, line[b - 1..]) then Some(line[b - 1..])
      else None
  }

  // ---------------------------------------------------------------------
  // The scanner against the patterns

  lemma InRunDisjoint(c: char, r: nat)
    ensures !(InRun(c, r) && InRun(c, r + 1))
  {
  }

  lemma {:induction false} HeadRunsFirst(line: string, i: nat, j: nat, r: nat)
    requires 1 <= r <= 7 && i <= j <= |line|
    requires HeadRuns(line, i, j, r)
    ensures i < j && InRun(line[i], r)
  {
    var k :| i < k <= j && AllIn(line, i, k, r) && (if r == 7 then k == j else HeadRuns(line, k, j, r + 1));
  }

  /** The head occupies `line[i..j]` exactly when the scanner's last run covers `j`. */
  lemma HeadRunsIff(line: string, i: nat, j: nat, r: nat)
    requires 1 <= r <= 7 && i <= j <= |line|
    ensures HeadRuns(line, i, j, r) <==>
      HeadFrom(line, i, r).Some? && HeadFrom(line, i, r).value.0 < j <= HeadFrom(line, i, r).value.1
  {
    if HeadRuns(line, i, j, r) {
      HeadRunsScanned(line, i, j, r);
    }
    if HeadFrom(line, i, r).Some? && HeadFrom(line, i, r).value.0 < j <= HeadFrom(line, i, r).value.1 {
      ScannedHeadRuns(line, i, j, r);
    }
  }

  /** A head ending at `j` ends inside the scanner's last run. */
  lemma {:induction false} HeadRunsScanned(line: string, i: nat, j: nat, r: nat)
    requires 1 <= r <= 7 && i <= j <= |line| && HeadRuns(line, i, j, r)
    ensures HeadFrom(line, i, r).Some? && HeadFrom(line, i, r).value.0 < j <= HeadFrom(line, i, r).value.1
    decreases 7 - r
  {
    var s := Span(line, i, r);
    SpanEnds(line, i, r);
    var k :| i < k <= j && AllIn(line, i, k, r) && (if r == 7 then k == j else HeadRuns(line, k, j, r + 1));
    if r == 7 {
      assert s >= k;
      HeadStep(line, i, r, s);
    } else {
      HeadRunsFirst(line, k, j, r + 1);
      InRunDisjoint(line[k], r);
      assert s == k;
      HeadStep(line, i, r, s);
      HeadRunsScanned(line, k, j, r + 1);
    }
  }

  /** Any end inside the scanner's last run is the end of a head. */
  lemma {:induction false} ScannedHeadRuns(line: string, i: nat, j: nat, r: nat)
    requires 1 <= r <= 7 && i <= j <= |line|
    requires HeadFrom(line, i, r).Some? && HeadFrom(line, i, r).value.0 < j <= HeadFrom(line, i, r).value.1
    ensures HeadRuns(line, i, j, r)
    decreases 7 - r
  {
    var s := Span(line, i, r);
    SpanEnds(line, i, r);
    HeadStep(line, i, r, s);
    if r == 7 {
      assert AllIn(line, i, j, r);
    } else {
      ScannedHeadRuns(line, s, j, r + 1);
      assert AllIn(line, i, s, r);
    }
  }

  /** A digit-free name stays digit-free without its first characters. */
  lemma WholeDiskSuffix(c: string, k: nat)
    requires NameOk(WholeDisk, c) && k < |c|
    ensures NameOk(WholeDisk, c[k..])
  {
    assert forall i :: 0 <= i < |c| - k ==> c[k..][i] == c[k + i];
  }

  /** The other three names start with a letter, never with a blank. */
  lemma BlankLedNotLetterName(pat: Pattern, c: string)
    requires pat != WholeDisk && c != [] && IsBlank(c[0])
    ensures !NameOk(pat, c)
  {
    match pat
    case Mmcblk => assert |c| > 6 ==> c[..6][0] == c[0];
    case Nvme => assert |c| > 4 ==> c[..4][0] == c[0];
    case Raid => assert |c| > 2 ==> c[..2][0] == c[0];
  }

  /** Without a head nothing matches. */
  lemma {:induction false} NoHeadNoMatch(pat: Pattern, line: string, j: nat)
    requires HeadFrom(line, 0, 1).None? && j <= |line|
    ensures !MatchesAt(pat, line, j)
  {
    HeadRunsIff(line, 0, j, 1);
  }

  /** With a head, the matches are the splits inside its last blank run that leave a name. */
  lemma {:induction false} MatchesInLastRun(pat: Pattern, line: string, j: nat)
    requires HeadFrom(line, 0, 1).Some? && j <= |line|
    ensures MatchesAt(pat, line, j) <==>
      HeadFrom(line, 0, 1).value.0 < j <= HeadFrom(line, 0, 1).value.1 && NameOk(pat, line[j..])
  {
    HeadRunsIff(line, 0, j, 1);
  }

  /** A name found deep inside the last blank run is still a name one blank before its end. */
  lemma {:induction false} GiveBack(pat: Pattern, line: string, a: nat, b: nat, j: nat)
    requires HeadFrom(line, 0, 1) == Some((a, b)) && a < j < b - 1 && NameOk(pat, line[j..])
    ensures NameOk(pat, line[b - 1..])
  {
    HeadEnds(line, 0, 1);
    SpanEnds(line, a, 7);
    assert AllIn(line, a, b, 7);
    if pat == WholeDisk {
      WholeDiskSuffix(line[j..], b - 1 - j);
      assert line[j..][b - 1 - j..] == line[b - 1..];
    } else {
      assert line[j..][0] == line[j];
      BlankLedNotLetterName(pat, line[j..]);
    }
  }

  /** The longest match, when one exists. */
  ghost predicate GreedyCapture(pat: Pattern, line: string, c: string)
  {
    exists j :: 0 <= j <= |line| && MatchesAt(pat, line, j) && c == line[j..] &&
      forall j' :: 0 <= j' <= |line| && MatchesAt(pat, line, j') ==> j' <= j
  }

  /**
   * `Capture` answers exactly as the pattern does: None when no split of
   * the line matches, and otherwise the name of the match whose head is
   * longest, the one greedy repetition finds first.
   */
  lemma {:induction false} CaptureIsGreedyMatch(pat: Pattern, line: string)
    ensures Capture(pat, line).None? <==> forall j :: 0 <= j <= |line| ==> !MatchesAt(pat, line, j)
    ensures Capture(pat, line).Some? ==> GreedyCapture(pat, line, Capture(pat, line).value)
  {
    var h := HeadFrom(line, 0, 1);
    if h.None? {
      assert Capture(pat, line) == None;
      forall j | 0 <= j <= |line| ensures !MatchesAt(pat, line, j) { NoHeadNoMatch(pat, line, j); }
    } else {
      CaptureWithHead(pat, line, h.value.0, h.value.1);
    }
  }

  /** `CaptureIsGreedyMatch` for a line with a head. */
  lemma {:induction false} CaptureWithHead(pat: Pattern, line: string, a: nat, b: nat)
    requires HeadFrom(line, 0, 1) == Some((a, b))
    ensures Capture(pat, line).None? <==> forall j :: 0 <= j <= |line| ==> !MatchesAt(pat, line, j)
    ensures Capture(pat, line).Some? ==> GreedyCapture(pat, line, Capture(pat, line).value)
  {
    CaptureCases(pat, line, a, b);
    if NameOk(pat, line[b..]) {
      CaptureFound(pat, line, b);
    } else if b - a >= 2 && NameOk(pat, line[b - 1..]) {
      var j := b - 1;
      assert line[j + 1..] == line[b..];
      CaptureFound(pat, line, j);
    } else {
      CaptureNone(pat, line, a, b);
    }
  }

  lemma {:induction false} CaptureFound(pat: Pattern, line: string, j: nat)
    requires j <= |line| && Capture(pat, line) == Some(line[j..])
    requires HeadFrom(line, 0, 1).Some?
    requires HeadFrom(line, 0, 1).value.0 < j <= HeadFrom(line, 0, 1).value.1 && NameOk(pat, line[j..])
    requires j == HeadFrom(line, 0, 1).value.1 || (j + 1 == HeadFrom(line, 0, 1).value.1 && !NameOk(pat, line[j + 1..]))
    ensures !(forall j :: 0 <= j <= |line| ==> !MatchesAt(pat, line, j))
    ensures GreedyCapture(pat, line, Capture(pat, line).value)
  {
    CaptureAt(pat, line, j);
  }

  lemma {:induction false} CaptureCases(pat: Pattern, line: string, a: nat, b: nat)
    requires HeadFrom(line, 0, 1) == Some((a, b))
    ensures NameOk(pat, line[b..]) ==> Capture(pat, line) == Some(line[b..])
    ensures !NameOk(pat, line[b..]) && b - a >= 2 && NameOk(pat, line[b - 1..]) ==> Capture(pat, line) == Some(line[b - 1..])
    ensures !NameOk(pat, line[b..]) && !(b - a >= 2 && NameOk(pat, line[b - 1..])) ==> Capture(pat, line) == None
  {
  }

  lemma {:induction false} CaptureAt(pat: Pattern, line: string, j: nat)
    requires HeadFrom(line, 0, 1).Some?
    requires HeadFrom(line, 0, 1).value.0 < j <= HeadFrom(line, 0, 1).value.1 && NameOk(pat, line[j..])
    requires j == HeadFrom(line, 0, 1).value.1 || (j + 1 == HeadFrom(line, 0, 1).value.1 && !NameOk(pat, line[j + 1..]))
    ensures MatchesAt(pat, line, j) && GreedyCapture(pat, line, line[j..])
  {
    MatchesInLastRun(pat, line, j);
    assert MatchesAt(pat, line, j);
    forall j' | 0 <= j' <= |line| && MatchesAt(pat, line, j') ensures j' <= j {
      MatchesAbove(pat, line, j, j');
    }
  }

  lemma {:induction false} MatchesAbove(pat: Pattern, line: string, j: nat, j': nat)
    requires HeadFrom(line, 0, 1).Some?
    requires j == HeadFrom(line, 0, 1).value.1 || (j + 1 == HeadFrom(line, 0, 1).value.1 && !NameOk(pat, line[j + 1..]))
    requires j' <= |line| && MatchesAt(pat, line, j')
    ensures j' <= j
  {
    MatchesInLastRun(pat, line, j');
    if j != HeadFrom(line, 0, 1).value.1 {
      assert line[j'..] != line[j + 1..];
    }
  }

  lemma {:induction false} CaptureNone(pat: Pattern, line: string, a: nat, b: nat)
    requires HeadFrom(line, 0, 1) == Some((a, b))
    requires !NameOk(pat, line[b..]) && !(b - a >= 2 && NameOk(pat, line[b - 1..]))
    ensures forall j :: 0 <= j <= |line| ==> !MatchesAt(pat, line, j)
  {
    forall j | 0 <= j <= |line| ensures !MatchesAt(pat, line, j) {
      NoMatchAt(pat, line, a, b, j);
    }
  }

  lemma NoMatchAt(pat: Pattern, line: string, a: nat, b: nat, j: nat)
    requires HeadFrom(line, 0, 1) == Some((a, b)) && j <= |line|
    requires !NameOk(pat, line[b..]) && !(b - a >= 2 && NameOk(pat, line[b - 1..]))
    ensures !MatchesAt(pat, line, j)
  {
    MatchesInLastRun(pat, line, j);
    if a < j < b - 1 {
      if NameOk(pat, line[j..]) {
        GiveBack(pat, line, a, b, j);
      }
    } else if j == b - 1 && a < j {
      assert line[j..] == line[b - 1..];
    } else if j == b {
      assert line[j..] == line[b..];
    }
  }

  /** The seventh run the scanner reports is a maximal stretch of blanks. */
  lemma {:induction false} HeadEnds(line: string, i: nat, r: nat)
    requires 1 <= r <= 7 && i <= |line|
    requires HeadFrom(line, i, r).Some?
    ensures HeadFrom(line, i, r).value.1 == Span(line, HeadFrom(line, i, r).value.0, 7)
    decreases 7 - r
  {
    if r < 7 {
      HeadEnds(line, Span(line, i, r), r + 1);
    }
  }

  // ---------------------------------------------------------------------
  // One name per line

  /** The patterns in the order the scanner applies them to a line. */
  const Patterns: seq<Pattern> := [WholeDisk, Mmcblk, Nvme, Raid]

  function Found(o: Option<string>): seq<string>
  {
    if o.Some? then [o.value] else []
  }

  /** The names the patterns `ps` capture from `line`, in order. */
  function NamesOf(line: string, ps: seq<Pattern>): seq<string>
  {
    if ps == [] then [] else NamesOf(line, ps[..|ps| - 1]) + Found(Capture(ps[|ps| - 1], line))
  }

  /** The names one line of /proc/partitions registers. */
  function LineNames(line: string): seq<string>
  {
    NamesOf(line, Patterns)
  }

  lemma LetterNameShape(pat: Pattern, c: string)
    requires pat != WholeDisk && NameOk(pat, c)
    ensures |c| >= 2 && IsDigit(c[|c| - 1])
    ensures c[0] == (if pat == Nvme then 'n' else 'm')
    ensures pat != Nvme ==> c[1] == (if pat == Mmcblk then 'm' else 'd')
  {
    match pat
    case Mmcblk =>
      assert c[0] == c[..6][0] && c[1] == c[..6][1];
      assert c[|c| - 1] == c[6..][|c| - 7];
    case Nvme =>
      assert c[0] == c[..4][0];
      var m :| 4 < m < |c| && c[m] == 'n' && Numeral(c[4..m]) && Numeral(c[m + 1..]);
      assert c[|c| - 1] == c[m + 1..][|c| - m - 2];
    case Raid =>
      assert c[0] == c[..2][0] && c[1] == c[..2][1];
      assert c[|c| - 1] == c[2..][|c| - 3];
  }

  /** A letter-led name is captured only right after the greedy head. */
  lemma {:induction false} LetterCapture(pat: Pattern, line: string)
    requires pat != WholeDisk && Capture(pat, line).Some?
    ensures HeadFrom(line, 0, 1).Some?
    ensures Capture(pat, line) == Some(line[HeadFrom(line, 0, 1).value.1..])
    ensures NameOk(pat, Capture(pat, line).value)
  {
    var h := HeadFrom(line, 0, 1);
    var a, b := h.value.0, h.value.1;
    CaptureCases(pat, line, a, b);
    HeadEnds(line, 0, 1);
    SpanEnds(line, a, 7);
    assert AllIn(line, a, b, 7);
    if !NameOk(pat, line[b..]) && b - a >= 2 {
      assert line[b - 1..][0] == line[b - 1];
      BlankLedNotLetterName(pat, line[b - 1..]);
    }
  }

  /** A whole-disk capture reaches the end of the line and holds no digit. */
  lemma {:induction false} WholeDiskCapture(line: string)
    requires Capture(WholeDisk, line).Some?
    ensures line != [] && !IsDigit(line[|line| - 1])
  {
    var c := Capture(WholeDisk, line).value;
    var h := HeadFrom(line, 0, 1);
    var a, b := h.value.0, h.value.1;
    if NameOk(WholeDisk, line[b..]) {
      assert c == line[b..] && c[|c| - 1] == line[|line| - 1];
    } else {
      assert c == line[b - 1..] && c[|c| - 1] == line[|line| - 1];
    }
  }

  /** No two patterns capture from the same line. */
  lemma {:induction false} PatternsExclusive(p: Pattern, q: Pattern, line: string)
    requires p != q && Capture(p, line).Some?
    ensures Capture(q, line).None?
  {
    if Capture(q, line).Some? {
      if p == WholeDisk || q == WholeDisk {
        var other := if p == WholeDisk then q else p;
        WholeDiskCapture(line);
        LetterCapture(other, line);
        var c := Capture(other, line).value;
        LetterNameShape(other, c);
      } else {
        LetterCapture(p, line);
        LetterCapture(q, line);
        LetterNameShape(p, Capture(p, line).value);
        LetterNameShape(q, Capture(q, line).value);
      }
    }
  }

  /** The names of a line, pattern by pattern. */
  lemma LineNamesUnfold(line: string)
    ensures LineNames(line) ==
      Found(Capture(WholeDisk, line)) + Found(Capture(Mmcblk, line)) + Found(Capture(Nvme, line)) + Found(Capture(Raid, line))
  {
    var w, m, n, r := Capture(WholeDisk, line), Capture(Mmcblk, line), Capture(Nvme, line), Capture(Raid, line);
    var ps := Patterns;
    assert ps[..3] == [WholeDisk, Mmcblk, Nvme] && ps[..3][..2] == [WholeDisk, Mmcblk];
    assert ps[..3][..2][..1] == [WholeDisk] && ps[..3][..2][..1][..0] == [];
    assert NamesOf(line, [WholeDisk]) == Found(w);
    assert NamesOf(line, [WholeDisk, Mmcblk]) == Found(w) + Found(m);
    assert NamesOf(line, [WholeDisk, Mmcblk, Nvme]) == Found(w) + Found(m) + Found(n);
  }

  /** Each line of /proc/partitions registers at most one device. */
  lemma AtMostOneName(line: string)
    ensures |LineNames(line)| <= 1
  {
    LineNamesUnfold(line);
    if Capture(WholeDisk, line).Some? {
      PatternsExclusive(WholeDisk, Mmcblk, line);
      PatternsExclusive(WholeDisk, Nvme, line);
      PatternsExclusive(WholeDisk, Raid, line);
    } else if Capture(Mmcblk, line).Some? {
      PatternsExclusive(Mmcblk, Nvme, line);
      PatternsExclusive(Mmcblk, Raid, line);
    } else if Capture(Nvme, line).Some? {
      PatternsExclusive(Nvme, Raid, line);
    }
  }

  // ---------------------------------------------------------------------
  // Lines as the kernel writes them

  /** Every character of `x` is in the class of run `r`, and there is one. */
  predicate RunOf(x: string, r: nat)
  {
    x != [] && forall m :: 0 <= m < |x| ==> InRun(x[m], r)
  }

  /**
   * A line of /proc/partitions: padding, major number, padding, minor
   * number, padding, size in blocks, padding, name.
   */
  function Row(b1: string, major: string, b2: string, minor: string, b3: string, blocks: string, b4: string, name: string): string
  {
    FileSystem.Concat([b1, major, b2, minor, b3, blocks, b4]) + name
  }

  /** One field of a line read as one run. */
  lemma {:induction false} RunStep(line: string, i: nat, r: nat, x: string, rest: string)
    requires i <= |line| && line[i..] == x + rest && RunOf(x, r)
    requires rest != [] ==> !InRun(rest[0], r)
    ensures i + |x| <= |line| && Span(line, i, r) == i + |x| && line[i + |x|..] == rest
  {
    SpanEnds(line, i, r);
    assert forall m :: i <= m < i + |x| ==> line[m] == line[i..][m - i] == x[m - i];
    assert AllIn(line, i, i + |x|, r);
    if rest != [] {
      assert line[i + |x|] == line[i..][|x|] == rest[0];
    }
    assert line[i + |x|..] == line[i..][|x|..];
  }

  /** One step of the scanner: a non-empty run, then the next runs from where it ends. */
  lemma HeadStep(line: string, i: nat, r: nat, j: nat)
    requires 1 <= r <= 7 && i < j <= |line| && Span(line, i, r) == j
    ensures r == 7 ==> HeadFrom(line, i, r) == Some((i, j))
    ensures r < 7 ==> HeadFrom(line, i, r) == HeadFrom(line, j, r + 1)
  {
  }

  /** The total length of some fields. */
  function SumLen(fields: seq<string>): nat
  {
    if fields == [] then 0 else |fields[0]| + SumLen(fields[1..])
  }

  lemma {:induction false} ConcatLength(fields: seq<string>)
    ensures |FileSystem.Concat(fields)| == SumLen(fields)
  {
    if fields != [] {
      ConcatLength(fields[1..]);
    }
  }

  /** From `i`, the scanner's runs `r`, `r + 1`, ... end exactly after each field in turn. */
  predicate Spans(line: string, i: nat, r: nat, fields: seq<string>)
    requires i <= |line|
    decreases fields
  {
    fields == [] ||
    (fields[0] != [] && i + |fields[0]| <= |line| && Span(line, i, r) == i + |fields[0]|
     && Spans(line, i + |fields[0]|, r + 1, fields[1..]))
  }

  /** Fields `r` to 7 of a line, each one run, end where the scanner's runs do. */
  lemma {:induction false} FieldsSpan(line: string, i: nat, r: nat, fields: seq<string>, name: string)
    requires 1 <= r <= 7 && |fields| == 8 - r && i <= |line|
    requires line[i..] == FileSystem.Concat(fields) + name
    requires forall k :: 0 <= k < |fields| ==> RunOf(fields[k], r + k)
    requires name != [] && !IsBlank(name[0])
    ensures Spans(line, i, r, fields)
    decreases 7 - r
  {
    var x := fields[0];
    var tail := fields[1..];
    var rest := FileSystem.Concat(tail) + name;
    ConcatFront(fields, name);
    if r == 7 {
      RunStep(line, i, r, x, rest);
      assert tail == [];
    } else {
      assert RunOf(fields[1], r + 1);
      RunStep(line, i, r, x, rest);
      forall k | 0 <= k < |tail| ensures RunOf(tail[k], r + 1 + k) {
        assert tail[k] == fields[k + 1];
      }
      FieldsSpan(line, i + |x|, r + 1, tail, name);
    }
  }

  /** When the runs end after each field, the head is the last field. */
  lemma {:induction false} SpansHead(line: string, i: nat, r: nat, fields: seq<string>)
    requires 1 <= r <= 7 && |fields| == 8 - r && i <= |line|
    requires Spans(line, i, r, fields)
    ensures i + SumLen(fields) <= |line|
    ensures HeadFrom(line, i, r).Some?
    ensures HeadFrom(line, i, r).value.1 == i + SumLen(fields)
    ensures HeadFrom(line, i, r).value.0 == i + SumLen(fields) - |fields[|fields| - 1]|
    decreases 7 - r
  {
    var x, tail := fields[0], fields[1..];
    var e, l := i + SumLen(fields), |fields[|fields| - 1]|;
    assert x != [] && Span(line, i, r) == i + |x|;
    assert SumLen(fields) == |x| + SumLen(tail);
    if r == 7 {
      assert tail == [];
      HeadStep(line, i, r, i + |x|);
    } else {
      assert Spans(line, i + |x|, r + 1, tail);
      SpansHead(line, i + |x|, r + 1, tail);
      assert tail[|tail| - 1] == fields[|fields| - 1];
      HeadShift(line, i, r, i + |x|, e, l);
    }
  }

  /** A run from `i` to `j` leaves the head found from `j` unchanged. */
  lemma HeadShift(line: string, i: nat, r: nat, j: nat, e: int, l: int)
    requires 1 <= r < 7 && i < j <= |line| && Span(line, i, r) == j
    requires HeadFrom(line, j, r + 1).Some? && HeadFrom(line, j, r + 1).value.1 == e
    requires HeadFrom(line, j, r + 1).value.0 == e - l
    ensures HeadFrom(line, i, r).Some? && HeadFrom(line, i, r).value.1 == e
    ensures HeadFrom(line, i, r).value.0 == e - l
  {
    HeadStep(line, i, r, j);
  }

  /** Fields `r` to 7 of a line, read from `i`: the scanner's last run is the last field. */
  lemma FieldsHead(line: string, i: nat, r: nat, fields: seq<string>, name: string)
    requires 1 <= r <= 7 && |fields| == 8 - r && i <= |line|
    requires line[i..] == FileSystem.Concat(fields) + name
    requires forall k :: 0 <= k < |fields| ==> RunOf(fields[k], r + k)
    requires name != [] && !IsBlank(name[0])
    ensures |name| + |fields[|fields| - 1]| <= |line|
    ensures HeadFrom(line, i, r) == Some((|line| - |name| - |fields[|fields| - 1]|, |line| - |name|))
  {
    FieldsSpan(line, i, r, fields, name);
    SpansHead(line, i, r, fields);
    ConcatLength(fields);
    assert |line| - i == SumLen(fields) + |name|;
    var h := HeadFrom(line, i, r);
    assert h.value.1 == |line| - |name| && h.value.0 == |line| - |name| - |fields[|fields| - 1]|;
  }

  /** A concatenation followed by a name splits after its first part; the rest starts where the second part does. */
  lemma ConcatFront(fields: seq<string>, name: string)
    requires fields != [] && name != []
    requires |fields| > 1 ==> fields[1] != []
    ensures FileSystem.Concat(fields) + name == fields[0] + (FileSystem.Concat(fields[1..]) + name)
    ensures |fields| == 1 ==> FileSystem.Concat(fields[1..]) + name == name
    ensures |fields| > 1 ==> (FileSystem.Concat(fields[1..]) + name)[0] == fields[1][0]
  {
    if |fields| > 1 {
      assert FileSystem.Concat(fields[1..]) == fields[1] + FileSystem.Concat(fields[2..]);
    } else {
      assert fields[1..] == [];
    }
  }

  /** The head of a row ends where its name starts. */
  lemma RowHead(b1: string, major: string, b2: string, minor: string, b3: string, blocks: string, b4: string, name: string)
    requires RunOf(b1, 1) && RunOf(major, 2) && RunOf(b2, 3) && RunOf(minor, 4)
    requires RunOf(b3, 5) && RunOf(blocks, 6) && RunOf(b4, 7)
    requires name != [] && !IsBlank(name[0])
    ensures var line := Row(b1, major, b2, minor, b3, blocks, b4, name);
      |name| + |b4| <= |line| &&
      HeadFrom(line, 0, 1) == Some((|line| - |name| - |b4|, |line| - |name|)) && line[|line| - |name|..] == name
  {
    var line := Row(b1, major, b2, minor, b3, blocks, b4, name);
    var fields := [b1, major, b2, minor, b3, blocks, b4];
    assert line[0..] == line;
    FieldsHead(line, 0, 1, fields, name);
    assert line == FileSystem.Concat(fields) + name;
  }

  /** A row is captured by exactly the patterns its name fits, and as that name. */
  lemma {:induction false} RowCapture(pat: Pattern, b1: string, major: string, b2: string, minor: string, b3: string, blocks: string, b4: string, name: string)
    requires RunOf(b1, 1) && RunOf(major, 2) && RunOf(b2, 3) && RunOf(minor, 4)
    requires RunOf(b3, 5) && RunOf(blocks, 6) && RunOf(b4, 7)
    requires name != [] && !IsBlank(name[0])
    ensures Capture(pat, Row(b1, major, b2, minor, b3, blocks, b4, name)) == if NameOk(pat, name) then Some(name) else None
  {
    var line := Row(b1, major, b2, minor, b3, blocks, b4, name);
    RowHead(b1, major, b2, minor, b3, blocks, b4, name);
    CaptureAfterHead(pat, line, |line| - |name| - |b4|, |line| - |name|);
  }

  /** When the name after the head does not start with a blank, it is the capture or there is none. */
  lemma {:induction false} CaptureAfterHead(pat: Pattern, line: string, a: nat, b: nat)
    requires HeadFrom(line, 0, 1) == Some((a, b))
    requires b < |line| && !IsBlank(line[b])
    ensures Capture(pat, line) == if NameOk(pat, line[b..]) then Some(line[b..]) else None
  {
    CaptureCases(pat, line, a, b);
    if !NameOk(pat, line[b..]) && b - a >= 2 {
      HeadEnds(line, 0, 1);
      SpanEnds(line, a, 7);
      assert AllIn(line, a, b, 7);
      var c := line[b - 1..];
      assert c[0] == line[b - 1];
      if pat == WholeDisk {
        var k :| 0 <= k < |line[b..]| && IsDigit(line[b..][k]);
        assert c[k + 1] == line[b..][k];
      } else {
        BlankLedNotLetterName(pat, c);
      }
    }
  }

  /** A row registers its name when one of the patterns fits it, and nothing otherwise. */
  lemma {:induction false} RowNames(b1: string, major: string, b2: string, minor: string, b3: string, blocks: string, b4: string, name: string)
    requires RunOf(b1, 1) && RunOf(major, 2) && RunOf(b2, 3) && RunOf(minor, 4)
    requires RunOf(b3, 5) && RunOf(blocks, 6) && RunOf(b4, 7)
    requires name != [] && !IsBlank(name[0])
    ensures LineNames(Row(b1, major, b2, minor, b3, blocks, b4, name)) ==
      if NameOk(WholeDisk, name) || NameOk(Mmcblk, name) || NameOk(Nvme, name) || NameOk(Raid, name) then [name] else []
  {
    var line := Row(b1, major, b2, minor, b3, blocks, b4, name);
    RowCapture(WholeDisk, b1, major, b2, minor, b3, blocks, b4, name);
    RowCapture(Mmcblk, b1, major, b2, minor, b3, blocks, b4, name);
    RowCapture(Nvme, b1, major, b2, minor, b3, blocks, b4, name);
    RowCapture(Raid, b1, major, b2, minor, b3, blocks, b4, name);
    LineNamesUnfold(line);
    AtMostOneName(line);
  }

  /** Whole disks, eMMC cards, NVMe namespaces and software RAID arrays are named as such. */
  lemma DeviceNames()
    ensures NameOk(WholeDisk, "sda") && NameOk(WholeDisk, "vda")
    ensures NameOk(Mmcblk, "mmcblk0") && NameOk(Nvme, "nvme0n1") && NameOk(Raid, "md127")
  {
    var n := "nvme0n1";
    assert n[..4] == "nvme" && n[5] == 'n' && n[4..5] == "0" && n[6..] == "1";
  }

  /** Partitions of those devices fit none of the patterns. */
  lemma PartitionNamesRejected(pat: Pattern)
    ensures !NameOk(pat, "sda1") && !NameOk(pat, "mmcblk0p1") && !NameOk(pat, "nvme0n1p1") && !NameOk(pat, "md127p1")
  {
    var s, e, n, m := "sda1", "mmcblk0p1", "nvme0n1p1", "md127p1";
    match pat
    case WholeDisk =>
      assert IsDigit(s[3]) && IsDigit(e[6]) && IsDigit(n[4]) && IsDigit(m[2]);
    case Mmcblk =>
      assert e[6..][1] == 'p' && n[..6][0] == 'n' && m[..6][1] == 'd';
    case Nvme =>
      assert s[..4][0] == 's' && e[..4][0] == 'm' && m[..4][0] == 'm';
      NvmePartitionRejected();
    case Raid =>
      assert s[..2][0] == 's' && e[..2][1] == 'm' && n[..2][0] == 'n' && m[2..][3] == 'p';
  }

  /** The namespace's digits are followed by `p`, not by the end of the name. */
  lemma NvmePartitionRejected()
    ensures !NameOk(Nvme, "nvme0n1p1")
  {
    var n := "nvme0n1p1";
    assert n[..4] == "nvme";
    SpanIs(n, 4, 2, 5);
    SpanIs(n, 6, 2, 7);
    assert !IsNvme(n);
  }

  /** A disk row as the kernel pads it registers the disk. */
  lemma KernelDiskRow()
    ensures LineNames(Row("   ", "8", "        ", "0", "  ", "500107608", " ", "sda")) == ["sda"]
  {
    DeviceNames();
    RowNames("   ", "8", "        ", "0", "  ", "500107608", " ", "sda");
  }

  /** The row of one of its partitions registers nothing. */
  lemma KernelPartitionRow()
    ensures LineNames(Row("   ", "8", "        ", "1", "     ", "524288", " ", "sda1")) == []
  {
    var name := "sda1";
    assert !NameOk(WholeDisk, name) by { PartitionNamesRejected(WholeDisk); }
    assert !NameOk(Mmcblk, name) by { PartitionNamesRejected(Mmcblk); }
    assert !NameOk(Nvme, name) by { PartitionNamesRejected(Nvme); }
    assert !NameOk(Raid, name) by { PartitionNamesRejected(Raid); }
    RowNames("   ", "8", "        ", "1", "     ", "524288", " ", name);
  }

  /** The column header and an empty line register nothing. */
  lemma HeaderRegistersNothing()
    ensures LineNames("major minor  #blocks  name") == [] && LineNames("") == []
  {
    var h := "major minor  #blocks  name";
    assert h[0] == 'm' && !IsBlank(h[0]);
    assert Span(h, 0, 1) == 0;
    assert Span("", 0, 1) == 0;
    LineNamesUnfold(h);
    LineNamesUnfold("");
  }
}
