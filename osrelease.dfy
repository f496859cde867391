/**
 * Linux identification: `disk_manager_match_os_release_line`,
 * `disk_manager_get_os_release_val`, `disk_manager_search_for_key` and
 * `disk_manager_get_linux_version`. Keys are compared after ASCII
 * lower-casing, the model of `g_utf8_casefold` here.
 */
module OsRelease {
  import opened Wrappers
  import opened Strings
  import opened FileSystem

  const OsReleasePaths := ["etc/os-release", "usr/lib/os-release"]
  const LsbReleasePaths := ["etc/lsb-release", "usr/lib/lsb-release", "usr/share/defaults/etc/lsb-release"]

  // ---------------------------------------------------------------------
  // One line

  /** The value with one leading and then one trailing double quote removed, each if present. */
  function Unquote(val: string): (r: string)
    ensures |r| <= |val|
  {
    var v := if val != [] && val[0] == '"' then val[1..] else val;
    if v != [] && v[|v| - 1] == '"' then v[..|v| - 1] else v
  }

  /**
   * `disk_manager_match_os_release_line`: the line is split at its first
   * '='; an empty value gives NULL; otherwise the unquoted value is the
   * answer when the key equals `findKey` up to case. The caller only
   * passes lines holding a '='.
   *
   * A value made of a lone '"' is "" once the leading quote is gone; the
   * code then reads the byte before the buffer, and whatever it finds the
   * printed result is "", which is what `Unquote` gives.
   */
  function MatchOsReleaseLine(line: string, findKey: string): (r: CString)
    requires '=' in line
    ensures r.Some? ==> AsciiLower(line[..IndexOf(line, '=').value]) == AsciiLower(findKey)
    ensures r.Some? ==> line[IndexOf(line, '=').value + 1..] != []
    ensures (line[IndexOf(line, '=').value + 1..] != [] &&
             AsciiLower(line[..IndexOf(line, '=').value]) == AsciiLower(findKey)) ==>
      r == Some(Unquote(line[IndexOf(line, '=').value + 1..]))
  {
    var eq := IndexOf(line, '=').value;
    var key, val := line[..eq], line[eq + 1..];
    if val == [] then None
    else if AsciiLower(key) == AsciiLower(findKey) then Some(Unquote(val))
    else None
  }

  /** The line an os-release writer emits for `key` and `value`. */
  function QuotedLine(key: string, value: string): string
  {
    key + "=\"" + value + "\""
  }

  /** Reading back a quoted line gives the value, whatever it holds, even '=' or '"'. */
  lemma QuotedRoundTrip(key: string, value: string)
    requires '=' !in key
    ensures MatchOsReleaseLine(QuotedLine(key, value), key) == Some(value)
  {
    var val := "\"" + value + "\"";
    SplitAtFirst(key, val);
    assert QuotedLine(key, value) == key + "=" + val;
    UnquoteQuoted(value);
  }

  /** Unquoting a quoted value gives the value back. */
  lemma UnquoteQuoted(value: string)
    ensures Unquote("\"" + value + "\"") == value
  {
    var val := "\"" + value + "\"";
    assert val[1..] == value + "\"";
    assert (value + "\"")[..|value|] == value;
  }

  /**
   * A quote on one side only is stripped too: a leading '"' when the rest
   * does not end in one, a trailing '"' when the value does not start with one.
   */
  lemma UnquoteOneSided(v: string)
    ensures v == [] || v[|v| - 1] != '"' ==> Unquote("\"" + v) == v
    ensures v == [] || v[0] != '"' ==> Unquote(v + "\"") == v
  {
    assert ("\"" + v)[1..] == v;
    if v != [] {
      assert (v + "\"")[0] == v[0];
    }
    assert (v + "\"")[..|v|] == v;
  }

  /** An unquoted value that neither starts nor ends with '"' is returned as it is. */
  lemma PlainRoundTrip(key: string, value: string)
    requires '=' !in key
    requires value != [] && value[0] != '"' && value[|value| - 1] != '"'
    ensures MatchOsReleaseLine(key + "=" + value, key) == Some(value)
  {
    SplitAtFirst(key, value);
  }

  /** `KEY=` gives NULL even for the key searched for. */
  lemma EmptyValueIsNull(key: string, findKey: string)
    requires '=' !in key
    ensures MatchOsReleaseLine(key + "=", findKey) == None
  {
    SplitAtFirst(key, "");
    assert key + "=" + "" == key + "=";
  }

  /** Another key, up to case, gives NULL. */
  lemma OtherKeyIsNull(key: string, value: string, findKey: string)
    requires '=' !in key && AsciiLower(key) != AsciiLower(findKey)
    ensures MatchOsReleaseLine(key + "=" + value, findKey) == None
  {
    SplitAtFirst(key, value);
  }

  /** Two spellings of a key that differ only in case find the same values. */
  lemma CaseInsensitive(line: string, k1: string, k2: string)
    requires '=' in line && AsciiLower(k1) == AsciiLower(k2)
    ensures MatchOsReleaseLine(line, k1) == MatchOsReleaseLine(line, k2)
  {
  }

  /** The first '=' of `key + "=" + rest` is the one after the key. */
  lemma SplitAtFirst(key: string, rest: string)
    requires '=' !in key
    ensures '=' in key + "=" + rest
    ensures IndexOf(key + "=" + rest, '=') == Some(|key|)
    ensures (key + "=" + rest)[..|key|] == key && (key + "=" + rest)[|key| + 1..] == rest
  {
    var line := key + "=" + rest;
    assert line[|key|] == '=';
  }

  // ---------------------------------------------------------------------
  // One file

  /** The value of the first line, in file order, that gives one for `key`. */
  function FirstValue(lines: seq<string>, key: string): CString
  {
    if lines == [] then None
    else if lines[0] != [] && '=' in lines[0] && MatchOsReleaseLine(lines[0], key).Some? then
      MatchOsReleaseLine(lines[0], key)
    else FirstValue(lines[1..], key)
  }

  /** Line `i` is a key/value line that gives a value for `key`. */
  predicate Hit(lines: seq<string>, key: string, i: int)
  {
    0 <= i < |lines| && '=' in lines[i] && MatchOsReleaseLine(lines[i], key).Some?
  }

  /** The file's value is NULL exactly when no line gives one, and otherwise comes from the first line that does. */
  lemma FirstValueIsFirstHit(lines: seq<string>, key: string)
    ensures FirstValue(lines, key).None? <==> forall i :: 0 <= i < |lines| ==> !Hit(lines, key, i)
    ensures FirstValue(lines, key).Some? ==>
      exists i :: (Hit(lines, key, i) && FirstValue(lines, key) == MatchOsReleaseLine(lines[i], key) &&
        forall j :: 0 <= j < i ==> !Hit(lines, key, j))
  {
    FirstValueNone(lines, key);
    if FirstValue(lines, key).Some? {
      var i := FirstValueFirst(lines, key);
    }
  }

  /** Dropping the first line shifts the hits down by one. */
  lemma HitShift(lines: seq<string>, key: string, i: int)
    requires 1 <= i < |lines|
    ensures Hit(lines, key, i) <==> Hit(lines[1..], key, i - 1)
  {
    assert lines[1..][i - 1] == lines[i];
  }

  lemma {:induction false} FirstValueNone(lines: seq<string>, key: string)
    ensures FirstValue(lines, key).None? <==> forall i :: 0 <= i < |lines| ==> !Hit(lines, key, i)
  {
    if lines != [] && !Hit(lines, key, 0) {
      FirstValueNone(lines[1..], key);
      forall i | 1 <= i < |lines| ensures Hit(lines, key, i) <==> Hit(lines[1..], key, i - 1) {
        HitShift(lines, key, i);
      }
      forall i | 0 <= i < |lines| - 1 ensures Hit(lines[1..], key, i) <==> Hit(lines, key, i + 1) {
        HitShift(lines, key, i + 1);
      }
    }
  }

  lemma {:induction false} FirstValueFirst(lines: seq<string>, key: string) returns (i: nat)
    requires FirstValue(lines, key).Some?
    ensures Hit(lines, key, i) && FirstValue(lines, key) == MatchOsReleaseLine(lines[i], key)
    ensures forall j :: 0 <= j < i ==> !Hit(lines, key, j)
  {
    if Hit(lines, key, 0) {
      i := 0;
    } else {
      var k := FirstValueFirst(lines[1..], key);
      i := k + 1;
      HitShift(lines, key, i);
      assert lines[1..][k] == lines[i];
      forall j | 1 <= j < i ensures !Hit(lines, key, j) {
        HitShift(lines, key, j);
      }
    }
  }

  /** `disk_manager_get_os_release_val`, as the value it returns: Err when the file cannot be read. */
  function OsReleaseVal(fs: Tree, path: string, key: string): Result<CString, string>
  {
    match ReadLines(fs, path)
    case None => Err(path)
    case Some(lines) => Ok(FirstValue(lines, key))
  }

  /**
   * `disk_manager_get_os_release_val`: blank lines and lines without '='
   * are skipped, and the loop stops at the first line that gives a value.
   */
  method GetOsReleaseVal(fs: Tree, path: string, key: string) returns (r: Result<CString, string>)
    ensures r == OsReleaseVal(fs, path, key)
  {
    var read := ReadLines(fs, path);
    if read.None? {
      return Err(path);
    }
    var lines := read.value;
    var val: CString := None;
    var i := 0;
    while i < |lines|
      invariant 0 <= i <= |lines|
      invariant FirstValue(lines, key) == FirstValue(lines[i..], key)
      invariant val == None
    {
      var line := lines[i];
      assert lines[i..][1..] == lines[i + 1..];
      if line == [] {
        i := i + 1;
        continue;
      }
      if '=' !in line {
        i := i + 1;
        continue;
      }
      val := MatchOsReleaseLine(line, key);
      if val.Some? {
        break;
      }
      i := i + 1;
    }
    if val.None? {
      assert lines[i..] == [];
    }
    r := Ok(val);
  }

  // ---------------------------------------------------------------------
  // Candidate files

  /** `g_build_path("/", root, path)`. */
  function CandidatePath(root: string, path: string): string
  {
    BuildPath("/", [root, path])
  }

  /** The candidate files under `root`, in order. */
  function Candidates(root: string, paths: seq<string>): (files: seq<string>)
    ensures |files| == |paths| && forall i :: 0 <= i < |paths| ==> files[i] == CandidatePath(root, paths[i])
  {
    seq(|paths|, i requires 0 <= i < |paths| => CandidatePath(root, paths[i]))
  }

  /** The value read for `k` from `file`, NULL when the file cannot be read. */
  function ValueOf(fs: Tree, file: string, k: string): CString
  {
    match OsReleaseVal(fs, file, k)
    case Err(_) => None
    case Ok(v) => v
  }

  /**
   * What one existing candidate file leaves in `name`: the value for `key`,
   * or, when that is NULL or "" and a fallback key is given, the value for
   * the fallback; NULL when a read fails.
   */
  function Probe(fs: Tree, file: string, key: string, fallback: CString): (name: CString)
    ensures IsStringValid(name) ==> exists k :: OsReleaseVal(fs, file, k) == Ok(name)
    ensures ReadLines(fs, file).None? ==> name == None
    ensures IsStringValid(ValueOf(fs, file, key)) ==> name == ValueOf(fs, file, key)
    ensures !IsStringValid(fallback) ==> name == ValueOf(fs, file, key)
    ensures !IsStringValid(ValueOf(fs, file, key)) && IsStringValid(fallback) ==> name == ValueOf(fs, file, fallback.value)
  {
    match OsReleaseVal(fs, file, key)
    case Err(_) => None
    case Ok(n) =>
      if !IsStringValid(n) && IsStringValid(fallback) then
        match OsReleaseVal(fs, file, fallback.value)
        case Err(_) => None
        case Ok(m) => m
      else n
  }

  /**
   * The name after the candidate `files`: each existing file overwrites it
   * with its probe. With `stopAtHit` the scan stops at the first valid
   * name, as a `break` after it would.
   */
  function SearchFrom(fs: Tree, files: seq<string>, key: string, fallback: CString, stopAtHit: bool): CString
  {
    if files == [] then None
    else
      var prev := SearchFrom(fs, files[..|files| - 1], key, fallback, stopAtHit);
      var file := files[|files| - 1];
      if stopAtHit && IsStringValid(prev) then prev
      else Visited(fs, prev, file, key, fallback)
  }

  /** The name after one more candidate: a missing file leaves `prev`, an existing one gives its probe. */
  function Visited(fs: Tree, prev: CString, file: string, key: string, fallback: CString): CString
  {
    if Exists(fs, file) then Probe(fs, file, key, fallback) else prev
  }

  /** `disk_manager_search_for_key` as written. */
  function SearchForKeySpec(fs: Tree, root: string, paths: seq<string>, key: string, fallback: CString): CString
  {
    SearchFrom(fs, Candidates(root, paths), key, fallback, false)
  }

  /**
   * `disk_manager_search_for_key`: the loop has no `break`, so every
   * existing candidate is probed and the last one decides.
   */
  method SearchForKey(fs: Tree, root: string, paths: seq<string>, key: string, fallback: CString) returns (name: CString)
    ensures name == SearchForKeySpec(fs, root, paths, key, fallback)
  {
    ghost var files := Candidates(root, paths);
    name := None;
    var i := 0;
    while i < |paths|
      invariant 0 <= i <= |paths|
      invariant name == SearchFrom(fs, files[..i], key, fallback, false)
    {
      var file := CandidatePath(root, paths[i]);
      assert file == files[i];
      SearchStep(fs, files, i, key, fallback);
      name := VisitCandidate(fs, file, key, fallback, name);
      i := i + 1;
    }
    assert files[..|paths|] == files;
  }

  /** One more candidate: a missing file leaves the name, an existing one replaces it with its probe. */
  lemma SearchStep(fs: Tree, files: seq<string>, i: nat, key: string, fallback: CString)
    requires i < |files|
    ensures SearchFrom(fs, files[..i + 1], key, fallback, false) ==
      Visited(fs, SearchFrom(fs, files[..i], key, fallback, false), files[i], key, fallback)
  {
    assert files[..i + 1][..i] == files[..i];
  }

  /** The body of the search loop: a missing candidate is skipped (`continue`), an existing one probed. */
  method VisitCandidate(fs: Tree, file: string, key: string, fallback: CString, prev: CString) returns (name: CString)
    ensures name == Visited(fs, prev, file, key, fallback)
  {
    if !Exists(fs, file) {
      return prev;
    }
    name := ProbeCandidate(fs, file, key, fallback);
  }

  /** The probe of one existing candidate. */
  method ProbeCandidate(fs: Tree, file: string, key: string, fallback: CString) returns (name: CString)
    ensures name == Probe(fs, file, key, fallback)
  {
    var r := GetOsReleaseVal(fs, file, key);
    if r.Err? {
      return None;
    }
    name := r.value;
    if !IsStringValid(name) && IsStringValid(fallback) {
      r := GetOsReleaseVal(fs, file, fallback.value);
      if r.Err? {
        return None;
      }
      name := r.value;
    }
    if !IsStringValid(name) {
      return;
    }
  }

  /** File `i` exists. */
  predicate Present(fs: Tree, files: seq<string>, i: int)
  {
    0 <= i < |files| && Exists(fs, files[i])
  }

  /** With no existing candidate the answer is NULL. */
  lemma {:induction false} NoCandidateNoName(fs: Tree, files: seq<string>, key: string, fallback: CString, stopAtHit: bool)
    requires forall i :: 0 <= i < |files| ==> !Present(fs, files, i)
    ensures SearchFrom(fs, files, key, fallback, stopAtHit) == None
  {
    if files != [] {
      var init := files[..|files| - 1];
      forall i | 0 <= i < |init| ensures !Present(fs, init, i) {
        assert !Present(fs, files, i);
      }
      NoCandidateNoName(fs, init, key, fallback, stopAtHit);
      assert !Present(fs, files, |files| - 1);
    }
  }

  /** As written, the answer is the probe of the LAST existing candidate, whatever earlier ones held. */
  lemma {:induction false} LastCandidateDecides(fs: Tree, files: seq<string>, key: string, fallback: CString, i: nat)
    requires Present(fs, files, i)
    requires forall k :: i < k < |files| ==> !Present(fs, files, k)
    ensures SearchFrom(fs, files, key, fallback, false) == Probe(fs, files[i], key, fallback)
  {
    var init := files[..|files| - 1];
    if i < |files| - 1 {
      assert !Present(fs, files, |files| - 1);
      forall k | i < k < |init| ensures !Present(fs, init, k) {
        assert !Present(fs, files, k);
      }
      assert Present(fs, init, i);
      LastCandidateDecides(fs, init, key, fallback, i);
    }
  }

  /** File `i` exists and its probe gives a valid name. */
  predicate Named(fs: Tree, files: seq<string>, key: string, fallback: CString, i: int)
  {
    Present(fs, files, i) && IsStringValid(Probe(fs, files[i], key, fallback))
  }

  /** Dropping the last candidate leaves the others as they were. */
  lemma NamedInit(fs: Tree, files: seq<string>, key: string, fallback: CString, k: int)
    requires 0 <= k < |files| - 1
    ensures Present(fs, files[..|files| - 1], k) <==> Present(fs, files, k)
    ensures Named(fs, files[..|files| - 1], key, fallback, k) <==> Named(fs, files, key, fallback, k)
  {
    assert files[..|files| - 1][k] == files[k];
  }

  /** With the `break`, the answer is the name of the FIRST candidate that gives a valid one. */
  lemma {:induction false} FirstNamedDecides(fs: Tree, files: seq<string>, key: string, fallback: CString, i: nat)
    requires Named(fs, files, key, fallback, i)
    requires forall k :: 0 <= k < i ==> !Named(fs, files, key, fallback, k)
    ensures SearchFrom(fs, files, key, fallback, true) == Probe(fs, files[i], key, fallback)
  {
    var init := files[..|files| - 1];
    if i < |files| - 1 {
      NamedInit(fs, files, key, fallback, i);
      forall k | 0 <= k < i ensures !Named(fs, init, key, fallback, k) {
        NamedInit(fs, files, key, fallback, k);
      }
      FirstNamedDecides(fs, init, key, fallback, i);
    } else {
      forall k | 0 <= k < |init| ensures !Named(fs, init, key, fallback, k) {
        NamedInit(fs, files, key, fallback, k);
      }
      NoNameYet(fs, init, key, fallback);
    }
  }

  /** Before any candidate gives a valid name, the scan with `break` has none either. */
  lemma {:induction false} NoNameYet(fs: Tree, files: seq<string>, key: string, fallback: CString)
    requires forall k :: 0 <= k < |files| ==> !Named(fs, files, key, fallback, k)
    ensures !IsStringValid(SearchFrom(fs, files, key, fallback, true))
  {
    if files != [] {
      var init := files[..|files| - 1];
      forall k | 0 <= k < |init| ensures !Named(fs, init, key, fallback, k) {
        NamedInit(fs, files, key, fallback, k);
      }
      NoNameYet(fs, init, key, fallback);
      assert !Named(fs, files, key, fallback, |files| - 1);
    }
  }

  /**
   * Two candidates, the first naming the system and the second present
   * but naming nothing: as written the name is lost, with the `break` it
   * is kept.
   */
  lemma LaterCandidateOverwrites(fs: Tree, first: string, second: string, key: string, fallback: CString)
    requires Named(fs, [first, second], key, fallback, 0)
    requires Present(fs, [first, second], 1)
    requires Probe(fs, second, key, fallback) == None
    ensures SearchFrom(fs, [first, second], key, fallback, false) == None
    ensures SearchFrom(fs, [first, second], key, fallback, true) == Probe(fs, first, key, fallback)
    ensures IsStringValid(SearchFrom(fs, [first, second], key, fallback, true))
  {
    LastCandidateDecides(fs, [first, second], key, fallback, 1);
    FirstNamedDecides(fs, [first, second], key, fallback, 0);
  }

  // ---------------------------------------------------------------------
  // disk_manager_get_linux_version

  /**
   * `disk_manager_get_linux_version`: PRETTY_NAME, else NAME, from the
   * os-release files; only when that gives no valid name, DISTRIB_DESCRIPTION,
   * else DISTRIB_ID, from the lsb-release files.
   */
  function LinuxVersion(fs: Tree, root: string): (name: CString)
    ensures IsStringValid(SearchForKeySpec(fs, root, OsReleasePaths, "PRETTY_NAME", Some("NAME"))) ==>
      name == SearchForKeySpec(fs, root, OsReleasePaths, "PRETTY_NAME", Some("NAME"))
    ensures !IsStringValid(SearchForKeySpec(fs, root, OsReleasePaths, "PRETTY_NAME", Some("NAME"))) ==>
      name == SearchForKeySpec(fs, root, LsbReleasePaths, "DISTRIB_DESCRIPTION", Some("DISTRIB_ID"))
  {
    var name := SearchForKeySpec(fs, root, OsReleasePaths, "PRETTY_NAME", Some("NAME"));
    if IsStringValid(name) then name
    else SearchForKeySpec(fs, root, LsbReleasePaths, "DISTRIB_DESCRIPTION", Some("DISTRIB_ID"))
  }

  /** With none of the five release files under the root, there is no version. */
  lemma NoReleaseFileNoVersion(fs: Tree, root: string)
    requires forall i :: 0 <= i < |OsReleasePaths| ==> !Exists(fs, CandidatePath(root, OsReleasePaths[i]))
    requires forall i :: 0 <= i < |LsbReleasePaths| ==> !Exists(fs, CandidatePath(root, LsbReleasePaths[i]))
    ensures LinuxVersion(fs, root) == None
  {
    var os, lsb := Candidates(root, OsReleasePaths), Candidates(root, LsbReleasePaths);
    assert forall i :: 0 <= i < |os| ==> !Present(fs, os, i);
    assert forall i :: 0 <= i < |lsb| ==> !Present(fs, lsb, i);
    NoCandidateNoName(fs, os, "PRETTY_NAME", Some("NAME"), false);
    NoCandidateNoName(fs, lsb, "DISTRIB_DESCRIPTION", Some("DISTRIB_ID"), false);
  }
}
