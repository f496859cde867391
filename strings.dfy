/**
 * The string helpers of the installer library: `installer_is_string_valid`,
 * `installer_str_contains`, `installer_str_starts_with` (with the
 * `installer_string_starts_with` macro) and the normalisation done by
 * `installer_read_line_full`. The same code appears in src/lib/utils.c,
 * src/lib/strings.c and src/utils.c; it is modelled once here.
 */
module Strings {
  import opened Wrappers

  /** A C string: `None` is the NULL pointer. */
  type CString = Option<string>

  // ---------------------------------------------------------------------
  // Reference notions

  /** `key` occurs in `item` starting at index `i`. */
  ghost predicate OccursAt(key: string, item: string, i: int)
  {
    0 <= i && i + |key| <= |item| && item[i..i + |key|] == key
  }

  ghost predicate IsSubstring(key: string, item: string)
  {
    exists i :: OccursAt(key, item, i)
  }

  ghost predicate IsPrefix(key: string, item: string)
  {
    |key| <= |item| && item[..|key|] == key
  }

  // ---------------------------------------------------------------------
  // installer_is_string_valid

  /** TRUE for a non-NULL string that is not "". */
  predicate IsStringValid(s: CString)
  {
    match s
    case None => false
    case Some(v) => |v| > 0
  }

  lemma IsStringValidMeaning(s: CString)
    ensures IsStringValid(s) <==> s != None && s != Some("")
  {
  }

  // ---------------------------------------------------------------------
  // installer_string_starts_with / installer_str_starts_with

  /**
   * `strncmp(item, key, strlen(key)) == 0`: compares the first `strlen(key)`
   * characters, stopping early (with a difference) where `item` ends.
   */
  function StartsWith(item: string, key: string): (r: bool)
    ensures r <==> IsPrefix(key, item)
  {
    if key == [] then true
    else if item == [] then false
    else item[0] == key[0] && StartsWith(item[1..], key[1..])
  }

  /** The `GHRFunc` form: NULL key or item gives FALSE. */
  function StrStartsWith(key: CString, item: CString): (r: bool)
    ensures r <==> key.Some? && item.Some? && IsPrefix(key.value, item.value)
    ensures key == Some("") && item.Some? ==> r
  {
    match (key, item)
    case (Some(k), Some(s)) => StartsWith(s, k)
    case _ => false
  }

  // ---------------------------------------------------------------------
  // installer_str_contains

  /** `g_strstr_len(item, -1, key) != NULL`: a left-to-right search. */
  function Contains(item: string, key: string): (r: bool)
    ensures r <==> IsSubstring(key, item)
    decreases |item|
  {
    if |item| < |key| then
      assert forall i :: !OccursAt(key, item, i);
      false
    else if item[..|key|] == key then
      assert OccursAt(key, item, 0);
      true
    else
      var r := Contains(item[1..], key);
      ShiftOccurrence(key, item);
      r
  }

  /** Occurrences in `item[1..]` are the occurrences in `item` past index 0. */
  lemma ShiftOccurrence(key: string, item: string)
    requires |key| <= |item| && item != [] && item[..|key|] != key
    ensures IsSubstring(key, item) <==> IsSubstring(key, item[1..])
  {
    if IsSubstring(key, item) {
      var i :| OccursAt(key, item, i);
      assert i != 0;
      assert item[1..][i - 1..i - 1 + |key|] == item[i..i + |key|];
      assert OccursAt(key, item[1..], i - 1);
    }
    if IsSubstring(key, item[1..]) {
      var j :| OccursAt(key, item[1..], j);
      assert item[1..][j..j + |key|] == item[j + 1..j + 1 + |key|];
      assert OccursAt(key, item, j + 1);
    }
  }

  /** The `GHRFunc` form: NULL key or item gives FALSE. */
  function StrContains(key: CString, item: CString): (r: bool)
    ensures r <==> key.Some? && item.Some? && IsSubstring(key.value, item.value)
  {
    match (key, item)
    case (Some(k), Some(s)) => Contains(s, k)
    case _ => false
  }

  // ---------------------------------------------------------------------
  // ASCII case folding (stands for g_utf8_casefold)

  function AsciiLowerChar(c: char): char
  {
    if 'A' <= c <= 'Z' then (c as int + 32) as char else c
  }

  function AsciiLower(s: string): (r: string)
    ensures |r| == |s|
    ensures forall i :: 0 <= i < |s| ==> r[i] == AsciiLowerChar(s[i])
  {
    if s == [] then [] else [AsciiLowerChar(s[0])] + AsciiLower(s[1..])
  }

  // ---------------------------------------------------------------------
  // installer_read_line_full: g_strchomp, then two g_string_replace calls

  /** `g_ascii_isspace`. */
  predicate IsSpace(c: char)
  {
    c == ' ' || c == '\t' || c == '\n' || c == '\r' || c as int == 11 || c as int == 12
  }

  predicate IsLineBreak(c: char)
  {
    c == '\r' || c == '\n'
  }

  /** `g_strchomp`: drops trailing ASCII whitespace. */
  function Chomp(s: string): string
  {
    if s != [] && IsSpace(s[|s| - 1]) then Chomp(s[..|s| - 1]) else s
  }

  /** `g_string_replace(str, [c], "", -1)`: every `c` removed. */
  function Without(s: string, c: char): string
  {
    if s == [] then []
    else Without(s[..|s| - 1], c) + (if s[|s| - 1] == c then [] else [s[|s| - 1]])
  }

  /** What `installer_read_line_full` does to the text it has read. */
  function Normalise(s: string): string
  {
    Without(Without(Chomp(s), '\r'), '\n')
  }

  /** An independent one-pass definition: keep every character that is not a line break. */
  function DropLineBreaks(s: string): string
  {
    if s == [] then [] else (if IsLineBreak(s[0]) then [] else [s[0]]) + DropLineBreaks(s[1..])
  }

  lemma {:induction false} ChompSplits(s: string)
    ensures |Chomp(s)| <= |s| && Chomp(s) == s[..|Chomp(s)|]
    ensures forall i :: |Chomp(s)| <= i < |s| ==> IsSpace(s[i])
    ensures Chomp(s) == [] || !IsSpace(Chomp(s)[|Chomp(s)| - 1])
    decreases |s|
  {
    if s != [] && IsSpace(s[|s| - 1]) {
      ChompSplits(s[..|s| - 1]);
    }
  }

  lemma {:induction false} WithoutRemoves(s: string, c: char)
    ensures forall i :: 0 <= i < |Without(s, c)| ==> Without(s, c)[i] != c
    ensures forall d :: d != c ==> multiset(Without(s, c))[d] == multiset(s)[d]
    decreases |s|
  {
    if s != [] {
      WithoutRemoves(s[..|s| - 1], c);
      assert s == s[..|s| - 1] + [s[|s| - 1]];
    }
  }

  lemma {:induction false} WithoutKeepsLast(s: string, c: char)
    requires s != [] && s[|s| - 1] != c
    ensures Without(s, c) != [] && Without(s, c)[|Without(s, c)| - 1] == s[|s| - 1]
  {
  }

  lemma {:induction false} WithoutAbsent(s: string, c: char)
    requires forall i :: 0 <= i < |s| ==> s[i] != c
    ensures Without(s, c) == s
    decreases |s|
  {
    if s != [] {
      WithoutAbsent(s[..|s| - 1], c);
    }
  }

  lemma {:induction false} DropLineBreaksAppend(s: string, c: char)
    ensures DropLineBreaks(s + [c]) == DropLineBreaks(s) + (if IsLineBreak(c) then [] else [c])
    decreases |s|
  {
    if s != [] {
      assert (s + [c])[1..] == s[1..] + [c];
      DropLineBreaksAppend(s[1..], c);
    }
  }

  lemma {:induction false} TwoPassesAreOne(s: string)
    ensures Without(Without(s, '\r'), '\n') == DropLineBreaks(s)
    decreases |s|
  {
    if s != [] {
      var p, c := s[..|s| - 1], s[|s| - 1];
      TwoPassesAreOne(p);
      assert s == p + [c];
      DropLineBreaksAppend(p, c);
      assert s[..|s| - 1] == p;
      var w := Without(p, '\r');
      if c == '\r' {
        assert Without(s, '\r') == w;
      } else {
        assert Without(s, '\r') == w + [c];
        assert (w + [c])[..|w + [c]| - 1] == w;
        assert Without(w + [c], '\n') == Without(w, '\n') + (if c == '\n' then [] else [c]);
      }
    }
  }

  /** The normalised line holds no CR and no LF. */
  lemma NormaliseNoLineBreaks(s: string)
    ensures forall i :: 0 <= i < |Normalise(s)| ==> !IsLineBreak(Normalise(s)[i])
  {
    var t := Without(Chomp(s), '\r');
    WithoutRemoves(Chomp(s), '\r');
    WithoutRemoves(t, '\n');
    forall i | 0 <= i < |Normalise(s)| ensures Normalise(s)[i] != '\r' {
      assert multiset(Normalise(s))['\r'] == multiset(t)['\r'] == 0;
      assert Normalise(s)[i] in multiset(Normalise(s));
    }
  }

  /**
   * The normalised line has no trailing whitespace and is exactly the text
   * left by chomping, with the line breaks dropped and every other character
   * kept in order.
   */
  lemma NormaliseShape(s: string)
    ensures Normalise(s) == DropLineBreaks(Chomp(s))
    ensures Normalise(s) == [] || !IsSpace(Normalise(s)[|Normalise(s)| - 1])
  {
    TwoPassesAreOne(Chomp(s));
    ChompSplits(s);
    var c := Chomp(s);
    if c != [] {
      var last := c[|c| - 1];
      assert !IsSpace(last);
      WithoutKeepsLast(c, '\r');
      var t := Without(c, '\r');
      WithoutKeepsLast(t, '\n');
    }
  }

  /** Normalising twice gives the same line as normalising once. */
  lemma NormaliseIdempotent(s: string)
    ensures Normalise(Normalise(s)) == Normalise(s)
  {
    var n := Normalise(s);
    NormaliseShape(s);
    NormaliseNoLineBreaks(s);
    assert Chomp(n) == n;
    WithoutAbsent(n, '\r');
    WithoutAbsent(n, '\n');
  }

  // ---------------------------------------------------------------------
  // installer_read_line_full, with the GIO calls replaced by their outcome

  /** What the GIO calls of `installer_read_line_full` report. */
  datatype ReadOutcome =
    | NotAFile                                  // !G_IS_FILE(file)
    | OpenFailed                                // g_file_read failed
    | QueryInfoFailed                           // g_file_query_info failed
    | ReadAllFailed                             // g_input_stream_read_all returned FALSE
    | ReadAll(fileSize: nat, bytes: seq<char>)  // the size reported and the bytes read

  /**
   * The bytes that end up in the buffer: `g_input_stream_read_all` reads at
   * most `fileSize` of them, and a short read is cut down to what was read.
   */
  function BufferText(fileSize: nat, bytes: seq<char>): (t: string)
    ensures |t| <= fileSize && |t| <= |bytes|
    ensures t == bytes[..|t|]
    ensures |bytes| < fileSize ==> t == bytes
  {
    if |bytes| <= fileSize then bytes else bytes[..fileSize]
  }

  /**
   * The C string a buffer holds: its text up to the first NUL byte, where
   * `strlen`, `g_strchomp` and `g_string_new` stop.
   */
  function UpToNul(s: string): (r: string)
    ensures |r| <= |s| && r == s[..|r|] && '\0' !in r
    ensures |r| < |s| ==> s[|r|] == '\0'
  {
    match IndexOf(s, '\0')
    case None => s
    case Some(i) => s[..i]
  }

  /** `g_string_replace(str, [c], "", -1)` on a GString holding `s`. */
  method RemoveChar(s: string, c: char) returns (r: string)
    ensures r == Without(s, c)
  {
    r := [];
    var i := 0;
    while i < |s|
      invariant 0 <= i <= |s|
      invariant r == Without(s[..i], c)
    {
      assert s[..i + 1][..i] == s[..i];
      if s[i] != c {
        r := r + [s[i]];
      }
      i := i + 1;
    }
    assert s[..|s|] == s;
  }

  /**
   * `installer_read_line_full`: NULL when any GIO step fails; otherwise the
   * bytes read up to the first NUL, with trailing whitespace chomped in
   * place and then every CR and every LF removed.
   */
  method ReadLineFull(read: ReadOutcome) returns (r: CString)
    ensures r.Some? <==> read.ReadAll?
    ensures read.ReadAll? ==> r.value == Normalise(UpToNul(BufferText(read.fileSize, read.bytes)))
  {
    if !read.ReadAll? {
      return None;
    }
    var text := BufferText(read.fileSize, read.bytes);
    var buffer := new char[|text|];
    var k := 0;
    while k < |text|
      invariant 0 <= k <= |text|
      invariant buffer[..k] == text[..k]
    {
      buffer[k] := text[k];
      k := k + 1;
    }
    // strlen, inside g_strchomp
    var len := 0;
    while len < buffer.Length && buffer[len] != '\0'
      invariant 0 <= len <= buffer.Length
      invariant '\0' !in buffer[..len]
    {
      assert buffer[..len + 1] == buffer[..len] + [buffer[len]];
      len := len + 1;
    }
    NulFreePrefix(text, buffer[..len]);
    // g_strchomp
    var end := len;
    while end > 0 && IsSpace(buffer[end - 1])
      invariant 0 <= end <= len
      invariant Chomp(buffer[..end]) == Chomp(UpToNul(text))
    {
      assert buffer[..end][..end - 1] == buffer[..end - 1];
      end := end - 1;
    }
    var line := buffer[..end];
    assert Chomp(line) == line;
    // g_string_new copies the chomped text, which holds no NUL
    var noCr := RemoveChar(line, '\r');
    var noLf := RemoveChar(noCr, '\n');
    r := Some(noLf);
  }

  /** The longest NUL-free prefix that is followed by a NUL or the end is the C string. */
  lemma NulFreePrefix(s: string, p: string)
    requires |p| <= |s| && p == s[..|p|] && '\0' !in p
    requires |p| < |s| ==> s[|p|] == '\0'
    ensures p == UpToNul(s)
  {
  }

  /** A file holding "0", a NUL, "x" and a newline reads as "0". */
  method ReadStopsAtNul() returns (r: CString)
    ensures r == Some("0")
  {
    var bytes := ['0', '\0', 'x', '\n'];
    r := ReadLineFull(ReadAll(4, bytes));
    NulFreePrefix(bytes, ['0']);
    assert BufferText(4, bytes) == bytes;
    assert Chomp("0") == "0";
    assert Without("0", '\r') == "0" by {
      assert "0"[..0] == [];
    }
    assert Without("0", '\n') == "0" by {
      assert "0"[..0] == [];
    }
  }

  // ---------------------------------------------------------------------
  // g_strsplit with a one-character delimiter

  /**
   * The pieces of `s` between occurrences of `d`, as `g_strsplit(s, [d], -1)`
   * returns them for a non-empty `s`: one more piece than there are `d`s,
   * empty pieces kept.
   */
  function Pieces(s: string, d: char): (r: seq<string>)
    ensures |r| >= 1
  {
    if s == [] then [[]] else PiecesFrom(s[0], d, Pieces(s[1..], d))
  }

  /** `g_strsplit(s, [d], -1)`: the empty string gives no pieces at all. */
  function Split(s: string, d: char): seq<string>
  {
    if s == [] then [] else Pieces(s, d)
  }

  /** `g_strjoinv([d], pieces)`, the partner of `Pieces`. */
  function Join(pieces: seq<string>, d: char): string
  {
    if pieces == [] then []
    else if |pieces| == 1 then pieces[0]
    else pieces[0] + [d] + Join(pieces[1..], d)
  }

  /** Splitting loses nothing: joining the pieces back gives `s`, and no piece holds `d`. */
  lemma {:induction false} PiecesRoundTrip(s: string, d: char)
    ensures Join(Pieces(s, d), d) == s
    ensures forall i :: 0 <= i < |Pieces(s, d)| ==> d !in Pieces(s, d)[i]
  {
    if s != [] {
      PiecesRoundTrip(s[1..], d);
      JoinPiecesFrom(s[0], d, Pieces(s[1..], d));
      assert s == [s[0]] + s[1..];
    }
  }

  /** One more leading character: the joined pieces gain it in front, and no piece gains `d`. */
  lemma JoinPiecesFrom(c: char, d: char, p: seq<string>)
    requires p != [] && forall i :: 0 <= i < |p| ==> d !in p[i]
    ensures Join(PiecesFrom(c, d, p), d) == [c] + Join(p, d)
    ensures forall i :: 0 <= i < |PiecesFrom(c, d, p)| ==> d !in PiecesFrom(c, d, p)[i]
  {
    var r := PiecesFrom(c, d, p);
    if c == d {
      assert r[1..] == p;
      assert Join(r, d) == [] + [d] + Join(p, d);
    } else {
      assert r[1..] == p[1..];
      if |p| > 1 {
        assert Join(p, d) == p[0] + [d] + Join(p[1..], d);
        assert Join(r, d) == [c] + p[0] + [d] + Join(p[1..], d);
      }
      forall i | 0 <= i < |r| ensures d !in r[i] {
        if i > 0 { assert r[i] == p[i]; }
      }
    }
  }

  /** A piece boundary: the pieces of `a + [d] + b` are those of `a` followed by those of `b`. */
  lemma {:induction false} PiecesAppend(a: string, d: char, b: string)
    ensures Pieces(a + [d] + b, d) == Pieces(a, d) + Pieces(b, d)
  {
    var s := a + [d] + b;
    if a == [] {
      assert s[0] == d && s[1..] == b;
    } else {
      assert s[0] == a[0] && s[1..] == a[1..] + [d] + b;
      PiecesAppend(a[1..], d, b);
      PiecesFromAppend(a[0], d, Pieces(a[1..], d), Pieces(b, d));
    }
  }

  /** How one more leading character changes the pieces `p` of the rest. */
  function PiecesFrom(c: char, d: char, p: seq<string>): seq<string>
    requires p != []
  {
    if c == d then [[]] + p else [[c] + p[0]] + p[1..]
  }

  /** A leading character only changes the first piece. */
  lemma PiecesFromAppend(c: char, d: char, p: seq<string>, q: seq<string>)
    requires p != []
    ensures PiecesFrom(c, d, p + q) == PiecesFrom(c, d, p) + q
  {
    if c != d {
      assert (p + q)[0] == p[0];
      assert (p + q)[1..] == p[1..] + q;
    }
  }

  /** A string without `d` is a single piece. */
  lemma {:induction false} PiecesWithout(s: string, d: char)
    requires d !in s
    ensures Pieces(s, d) == [s]
  {
    if s != [] {
      assert d !in s[1..] by {
        forall i | 0 <= i < |s[1..]| ensures s[1..][i] != d { assert s[1..][i] == s[i + 1]; }
      }
      PiecesWithout(s[1..], d);
      assert [s[0]] + s[1..] == s;
    }
  }

  /** The index of the first `d` in `s`, if any (`strchr`). */
  function IndexOf(s: string, d: char): (r: Option<nat>)
    ensures r.Some? ==> r.value < |s| && s[r.value] == d && d !in s[..r.value]
    ensures r.None? <==> d !in s
  {
    if s == [] then None
    else if s[0] == d then Some(0)
    else
      match IndexOf(s[1..], d)
      case None => None
      case Some(i) => assert s[1..][..i] == s[1..i + 1]; Some(i + 1)
  }
}
