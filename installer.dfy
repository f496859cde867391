/**
 * `installer_errno_to_message` and `installer_create_temp_dir`, as found in
 * src/lib/installer.c and, with a stricter failure test, in src/lib/utils.c.
 * `g_mkdtemp` is an input: the six characters it chose, or NULL.
 */
module Installer {
  import opened Wrappers
  import opened Strings

  /** The `GIOErrorEnum` members the message table distinguishes. */
  datatype IOErrorCode =
    | Failed
    | Exists
    | FilenameTooLong
    | InvalidFilename
    | NoSpace
    | InvalidArgument
    | PermissionDenied
    | TimedOut
    | WouldBlock
    | TooManyOpenFiles
    | OtherIOError(code: int)  // any other member of GIOErrorEnum

  const UnknownIOError := "Unknown I/O error"
  const ExistsMessage := "File already exists"
  const FilenameTooLongMessage := "Filename is too many characters"
  const InvalidFilenameMessage := "Filename is invalid or contains invalid characters"
  const NoSpaceMessage := "No space left on drive"
  const InvalidArgumentMessage := "Invalid argument"
  const PermissionDeniedMessage := "Permission denied"
  const TimedOutMessage := "Operation timed out"
  const WouldBlockMessage := "Operation would block"
  const TooManyOpenFilesMessage := "The current process has too many files open and can't open any more"

  /** The switch of `installer_errno_to_message`. */
  function ErrnoToMessage(e: IOErrorCode): string
  {
    match e
    case Exists => ExistsMessage
    case FilenameTooLong => FilenameTooLongMessage
    case InvalidFilename => InvalidFilenameMessage
    case NoSpace => NoSpaceMessage
    case InvalidArgument => InvalidArgumentMessage
    case PermissionDenied => PermissionDeniedMessage
    case TimedOut => TimedOutMessage
    case WouldBlock => WouldBlockMessage
    case TooManyOpenFiles => TooManyOpenFilesMessage
    case Failed => UnknownIOError
    case OtherIOError(_) => UnknownIOError
  }

  /** The nine codes with a message of their own. */
  predicate IsListed(e: IOErrorCode)
  {
    !e.Failed? && !e.OtherIOError?
  }

  /** Reads a message back as the listed code it names, if any. */
  function MessageCode(m: string): (r: Option<IOErrorCode>)
    ensures r.Some? ==> IsListed(r.value)
  {
    if m == ExistsMessage then Some(Exists)
    else if m == FilenameTooLongMessage then Some(FilenameTooLong)
    else if m == InvalidFilenameMessage then Some(InvalidFilename)
    else if m == NoSpaceMessage then Some(NoSpace)
    else if m == InvalidArgumentMessage then Some(InvalidArgument)
    else if m == PermissionDeniedMessage then Some(PermissionDenied)
    else if m == TimedOutMessage then Some(TimedOut)
    else if m == WouldBlockMessage then Some(WouldBlock)
    else if m == TooManyOpenFilesMessage then Some(TooManyOpenFiles)
    else None
  }

  /** Each listed code has its own message: the message names the code. */
  lemma ErrnoMessageRoundTrip(e: IOErrorCode)
    requires IsListed(e)
    ensures MessageCode(ErrnoToMessage(e)) == Some(e)
  {
    match e
    case Exists =>
    case FilenameTooLong =>
    case InvalidFilename =>
    case NoSpace =>
    case InvalidArgument =>
    case PermissionDenied =>
    case TimedOut =>
    case WouldBlock =>
    case TooManyOpenFiles =>
  }

  /** A message reads back as a code only if it is that code's message. */
  lemma MessageCodeSound(m: string)
    ensures MessageCode(m).Some? ==> ErrnoToMessage(MessageCode(m).value) == m
  {
    if MessageCode(m).Some? {
      var e := MessageCode(m).value;
      match e
      case Exists => assert m == ExistsMessage;
      case FilenameTooLong => assert m == FilenameTooLongMessage;
      case InvalidFilename => assert m == InvalidFilenameMessage;
      case NoSpace => assert m == NoSpaceMessage;
      case InvalidArgument => assert m == InvalidArgumentMessage;
      case PermissionDenied => assert m == PermissionDeniedMessage;
      case TimedOut => assert m == TimedOutMessage;
      case WouldBlock => assert m == WouldBlockMessage;
      case TooManyOpenFiles => assert m == TooManyOpenFilesMessage;
    }
  }

  /** `G_IO_ERROR_FAILED` and every unlisted code, and only they, share "Unknown I/O error". */
  lemma UnknownMessageExactlyUnlisted(e: IOErrorCode)
    ensures !IsListed(e) <==> ErrnoToMessage(e) == UnknownIOError
  {
  }

  // ---------------------------------------------------------------------
  // installer_create_temp_dir

  const TemplateHead := "XXXXXX-"
  const DefaultSuffix := "installer"

  /** The text after "XXXXXX-": the suffix given, or "installer" for NULL. */
  function SuffixText(suffix: CString): string
  {
    if suffix.Some? then suffix.value else DefaultSuffix
  }

  /** `g_strdup_printf("XXXXXX-%s", suffix)`, or "XXXXXX-installer" for NULL. */
  function TempTemplate(suffix: CString): (t: string)
  {
    TemplateHead + SuffixText(suffix)
  }

  /** The inverse reading of a template: the part after "XXXXXX-". */
  function TemplateSuffix(t: string): Option<string>
  {
    if |t| >= |TemplateHead| && t[..|TemplateHead|] == TemplateHead then Some(t[|TemplateHead|..]) else None
  }

  /** A template always reads back as the suffix it was built from (NULL as "installer"). */
  lemma TemplateRoundTrip(suffix: CString)
    ensures TemplateSuffix(TempTemplate(suffix)) == Some(SuffixText(suffix))
  {
    var t := TempTemplate(suffix);
    assert t[..|TemplateHead|] == TemplateHead;
  }

  const Xs := "XXXXXX"

  /** The six X's `g_mkdtemp` looks for start at index `i` of `t`. */
  predicate XsAt(t: string, i: int)
  {
    0 <= i && i + 6 <= |t| && t[i..i + 6] == Xs
  }

  /** The last start of "XXXXXX" below `n`, scanning down as `g_strrstr` does. */
  function LastXsBelow(t: string, n: nat): (r: Option<nat>)
    ensures r.Some? ==> r.value < n && XsAt(t, r.value) && forall j :: r.value < j < n ==> !XsAt(t, j)
    ensures r.None? ==> forall j :: 0 <= j < n ==> !XsAt(t, j)
  {
    if n == 0 then None
    else if XsAt(t, n - 1) then Some(n - 1)
    else LastXsBelow(t, n - 1)
  }

  /** `g_strrstr(t, "XXXXXX")`: where `g_mkdtemp` writes its six characters. */
  function LastXs(t: string): Option<nat>
  {
    LastXsBelow(t, |t| + 1)
  }

  /**
   * `g_mkdtemp` replaces the last "XXXXXX" of the template in place and
   * returns the template, or returns NULL (a template without "XXXXXX" is
   * refused with EINVAL). `chosen` is the six characters it picked, or None
   * when every directory it tried could not be created.
   */
  function MkdTemp(template: string, chosen: Option<string>): (r: CString)
    requires chosen.Some? ==> |chosen.value| == 6
    ensures r.Some? <==> chosen.Some? && LastXs(template).Some?
    ensures r.Some? ==> |r.value| == |template|
    ensures r.Some? ==> var i := LastXs(template).value;
      i + 6 <= |template| && template[i..i + 6] == Xs &&
      (forall j :: i < j <= |template| ==> !XsAt(template, j)) &&
      r.value[..i] == template[..i] && r.value[i..i + 6] == chosen.value && r.value[i + 6..] == template[i + 6..]
  {
    match LastXs(template)
    case None => None
    case Some(i) =>
      match chosen
      case None => None
      case Some(x) => Some(template[..i] + x + template[i + 6..])
  }

  /**
   * In "XXXXXX-" + suffix the last "XXXXXX" is the suffix's last one, moved
   * by seven; when the suffix has none it is the leading one.
   */
  lemma {:induction false} TemplateLastXs(s: string)
    ensures LastXs(TemplateHead + s).Some?
    ensures LastXsBelow(s, |s| + 1).None? ==> LastXs(TemplateHead + s) == Some(0)
    ensures LastXsBelow(s, |s| + 1).Some? ==> LastXs(TemplateHead + s) == Some(7 + LastXsBelow(s, |s| + 1).value)
  {
    var t := TemplateHead + s;
    forall j | 7 <= j
      ensures XsAt(t, j) <==> XsAt(s, j - 7)
    {
      if j + 6 <= |t| {
        assert t[j..j + 6] == s[j - 7..j - 1];
      }
    }
    forall j | 1 <= j <= 6
      ensures !XsAt(t, j)
    {
      if j + 6 <= |t| {
        assert t[j..j + 6][6 - j] == '-';
      }
    }
    assert XsAt(t, 0) by {
      assert t[0..6] == Xs;
    }
    var r := LastXs(t);
    match LastXsBelow(s, |s| + 1)
    case None =>
      forall j | 0 < j < |t| + 1
        ensures !XsAt(t, j)
      {
        if j >= 7 {
          assert !XsAt(s, j - 7);
        }
      }
    case Some(k) =>
      assert XsAt(t, 7 + k);
      forall j | 7 + k < j < |t| + 1
        ensures !XsAt(t, j)
      {
        assert !XsAt(s, j - 7);
      }
  }

  datatype TempDirError = TempDirError(code: IOErrorCode, message: string)

  /**
   * src/lib/installer.c: only a NULL `g_mkdtemp` result is a failure; the
   * error carries the code derived from `errno` and its message. A suffix
   * without "XXXXXX" gives the six chosen characters, "-" and the suffix;
   * otherwise the leading "XXXXXX-" stays and the suffix's last "XXXXXX"
   * is filled instead.
   */
  function CreateTempDir(suffix: CString, chosen: Option<string>, errnum: IOErrorCode): (r: Result<string, TempDirError>)
    requires chosen.Some? ==> |chosen.value| == 6
    ensures r.Err? <==> chosen.None?
    ensures r.Err? ==> r.error == TempDirError(errnum, ErrnoToMessage(errnum))
    ensures r.Ok? && LastXsBelow(SuffixText(suffix), |SuffixText(suffix)| + 1).None? ==>
      r.value == chosen.value + "-" + SuffixText(suffix)
    ensures r.Ok? && LastXsBelow(SuffixText(suffix), |SuffixText(suffix)| + 1).Some? ==>
      var s, k := SuffixText(suffix), LastXsBelow(SuffixText(suffix), |SuffixText(suffix)| + 1).value;
      r.value == TemplateHead + s[..k] + chosen.value + s[k + 6..]
  {
    var ret := MkdTemp(TempTemplate(suffix), chosen);
    TemplateLastXs(SuffixText(suffix));
    if ret.None? then Err(TempDirError(errnum, ErrnoToMessage(errnum)))
    else
      var s, t := SuffixText(suffix), TempTemplate(suffix);
      assert t == TemplateHead + s;
      if LastXsBelow(s, |s| + 1).Some? then
        var k := LastXsBelow(s, |s| + 1).value;
        assert t[..7 + k] == TemplateHead + s[..k];
        assert t[7 + k + 6..] == s[k + 6..];
        Ok(ret.value)
      else
        assert t[6..] == "-" + s;
        Ok(ret.value)
  }

  /** src/lib/utils.c: a NULL or empty `g_mkdtemp` result is a failure. */
  function CreateTempDirChecked(suffix: CString, chosen: Option<string>, errnum: IOErrorCode): (r: Result<string, TempDirError>)
    requires chosen.Some? ==> |chosen.value| == 6
    ensures r.Err? ==> r.error == TempDirError(errnum, ErrnoToMessage(errnum))
  {
    var ret := MkdTemp(TempTemplate(suffix), chosen);
    if !IsStringValid(ret) then Err(TempDirError(errnum, ErrnoToMessage(errnum)))
    else Ok(ret.value)
  }

  /**
   * The extra "empty result" test of src/lib/utils.c never fires: `g_mkdtemp`
   * returns NULL or the filled-in template, which is never empty, so both
   * copies agree on every input.
   */
  lemma TempDirCopiesAgree(suffix: CString, chosen: Option<string>, errnum: IOErrorCode)
    requires chosen.Some? ==> |chosen.value| == 6
    ensures CreateTempDirChecked(suffix, chosen, errnum) == CreateTempDir(suffix, chosen, errnum)
  {
  }

  /**
   * A suffix holding "XXXXXX" keeps the leading X's: `g_mkdtemp` fills the
   * suffix's six X's instead.
   */
  lemma SuffixOfXs(errnum: IOErrorCode)
    ensures CreateTempDir(Some(Xs), Some("ab12cd"), errnum) == Ok("XXXXXX-ab12cd")
  {
    assert XsAt(Xs, 0);
    forall j | 0 < j < 7
      ensures !XsAt(Xs, j)
    {
    }
    assert LastXsBelow(Xs, 7) == Some(0);
    var r := CreateTempDir(Some(Xs), Some("ab12cd"), errnum);
    assert SuffixText(Some(Xs)) == Xs && |Xs| + 1 == 7;
    assert r.Ok?;
    assert r.value == TemplateHead + Xs[..0] + "ab12cd" + Xs[6..];
    assert Xs[..0] == [] && Xs[6..] == [];
    assert TemplateHead + "ab12cd" == "XXXXXX-ab12cd";
    assert r.value == "XXXXXX-ab12cd";
    assert r == Ok("XXXXXX-ab12cd");
  }
}
