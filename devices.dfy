/**
 * The disk manager's device registry and the probes it runs on a device:
 * `disk_manager_scan_parts`, `disk_manager_append_device`,
 * `disk_manager_is_device_ssd`, `disk_manager_is_install_supported` and
 * `disk_manager_get_mount_points`. src/lib/disk_manager.c and its older copy
 * src/disk_manager.c run the same code here; the library copy only adds
 * NULL checks on its arguments.
 */
module DiskManagement {
  import opened Wrappers
  import opened Strings
  import opened FileSystem
  import opened ProcPartitions

  /** A heap-allocated C string: two of them are the same only at the same address. */
  class CStr {
    const text: string

    constructor (t: string)
      ensures text == t
    {
      text := t;
    }
  }

  /** The characters the strings of a list point at. */
  function Texts(xs: seq<CStr>): (r: seq<string>)
    ensures |r| == |xs| && forall i :: 0 <= i < |xs| ==> r[i] == xs[i].text
  {
    seq(|xs|, i requires 0 <= i < |xs| => xs[i].text)
  }

  const PartitionsFile := "/proc/partitions"

  /** `g_build_path("/", "/dev/", name)`. */
  function DevicePath(name: string): string
  {
    BuildPath("/", ["/dev/", name])
  }

  /** What the registry stores for `name`: the canonical form of its device path. */
  function DeviceEntry(name: string): string
  {
    Canonicalize(DevicePath(name))
  }

  /** What appending `name` adds: its entry if it has a device node, nothing otherwise. */
  function NodeEntry(fs: Tree, name: string): seq<string>
  {
    if Exists(fs, DevicePath(name)) then [DeviceEntry(name)] else []
  }

  /** `f` applied to each name in turn, the results concatenated. */
  function Collect(f: string -> seq<string>, names: seq<string>): seq<string>
  {
    if names == [] then []
    else Collect(f, names[..|names| - 1]) + f(names[|names| - 1])
  }

  /** The entries registered for `names`, in order, skipping names with no device node. */
  function DevicesOf(fs: Tree, names: seq<string>): seq<string>
  {
    Collect(name => NodeEntry(fs, name), names)
  }

  /** The entries a scan of `lines` appends, line by line. */
  function Registered(fs: Tree, lines: seq<string>): seq<string>
  {
    if lines == [] then []
    else Registered(fs, lines[..|lines| - 1]) + DevicesOf(fs, LineNames(lines[|lines| - 1]))
  }

  predicate NoDuplicates(s: seq<string>)
  {
    forall i, j :: 0 <= i < j < |s| ==> s[i] != s[j]
  }

  class DiskManager {
    /** The `devices` list: canonical device paths, in discovery order. */
    var devices: seq<CStr>

    constructor ()
      ensures devices == []
    {
      devices := [];
    }

    /**
     * `disk_manager_append_device`: a name without a node under /dev is
     * ignored; otherwise the canonical device path is appended unless the
     * argument itself, the very same pointer, is already in the list.
     */
    method AppendDevice(fs: Tree, device: CStr)
      modifies this
      ensures !Exists(fs, DevicePath(device.text)) || device in old(devices) ==> devices == old(devices)
      ensures Exists(fs, DevicePath(device.text)) && device !in old(devices) ==>
        |devices| == |old(devices)| + 1 && devices == old(devices) + [devices[|old(devices)|]] &&
        fresh(devices[|old(devices)|]) && devices[|old(devices)|].text == DeviceEntry(device.text)
      ensures device !in old(devices) ==> Texts(devices) == Texts(old(devices)) + DevicesOf(fs, [device.text])
    {
      var path := DevicePath(device.text);
      if !Exists(fs, path) {
        DevicesOne(fs, device.text);
        return;
      }
      if device !in devices {
        var entry := new CStr(Canonicalize(path));
        TextsSnoc(devices, entry);
        DevicesOne(fs, device.text);
        devices := devices + [entry];
      }
    }

    /**
     * `disk_manager_scan_parts`: every line of /proc/partitions goes
     * through the four patterns in turn, and each capture, a fresh string,
     * is handed to `AppendDevice`. An unreadable file changes nothing.
     */
    method ScanParts(fs: Tree)
      modifies this
      ensures ReadLines(fs, PartitionsFile).None? ==> devices == old(devices)
      ensures ReadLines(fs, PartitionsFile).Some? ==>
        Texts(devices) == Texts(old(devices)) + Registered(fs, ReadLines(fs, PartitionsFile).value)
    {
      var read := ReadLines(fs, PartitionsFile);
      if read.None? {
        return;
      }
      ScanLines(fs, read.value);
    }

    /** The loop of the scan over the lines read. */
    method ScanLines(fs: Tree, lines: seq<string>)
      modifies this
      ensures Texts(devices) == Texts(old(devices)) + Registered(fs, lines)
    {
      var i := 0;
      while i < |lines|
        invariant 0 <= i <= |lines|
        invariant Texts(devices) == Texts(old(devices)) + Registered(fs, lines[..i])
      {
        ScanLine(fs, lines[i]);
        RegisteredStep(fs, lines, i);
        Regroup3(Texts(old(devices)), Registered(fs, lines[..i]), DevicesOf(fs, LineNames(lines[i])));
        i := i + 1;
      }
      assert lines[..|lines|] == lines;
    }

    /** The body of the scan for one line: the four patterns in turn. */
    method ScanLine(fs: Tree, line: string)
      modifies this
      ensures Texts(devices) == Texts(old(devices)) + DevicesOf(fs, LineNames(line))
    {
      var k := 0;
      while k < |Patterns|
        invariant 0 <= k <= |Patterns|
        invariant Texts(devices) == Texts(old(devices)) + DevicesOf(fs, NamesOf(line, Patterns[..k]))
      {
        ghost var done := DevicesOf(fs, NamesOf(line, Patterns[..k]));
        ghost var added := DevicesOf(fs, Found(Capture(Patterns[k], line)));
        TryPattern(fs, line, Patterns[k]);
        NamesStep(line, k);
        DevicesStep(fs, NamesOf(line, Patterns[..k]), Found(Capture(Patterns[k], line)));
        Regroup3(Texts(old(devices)), done, added);
        k := k + 1;
      }
      assert Patterns[..|Patterns|] == Patterns;
    }

    /** One pattern against one line: a capture is copied into a fresh string and appended. */
    method TryPattern(fs: Tree, line: string, pat: Pattern)
      modifies this
      ensures Texts(devices) == Texts(old(devices)) + DevicesOf(fs, Found(Capture(pat, line)))
    {
      var captured := Capture(pat, line);
      if captured.Some? {
        var device := new CStr(captured.value);
        AppendDevice(fs, device);
      } else {
        assert Found(captured) == [];
      }
    }
  }

  lemma TextsSnoc(xs: seq<CStr>, x: CStr)
    ensures Texts(xs + [x]) == Texts(xs) + [x.text]
  {
  }

  lemma NamesStep(line: string, k: nat)
    requires k < |Patterns|
    ensures NamesOf(line, Patterns[..k + 1]) == NamesOf(line, Patterns[..k]) + Found(Capture(Patterns[k], line))
  {
    assert Patterns[..k + 1][..k] == Patterns[..k];
  }

  lemma DevicesStep(fs: Tree, names: seq<string>, more: seq<string>)
    ensures DevicesOf(fs, names + more) == DevicesOf(fs, names) + DevicesOf(fs, more)
  {
    CollectAppend(name => NodeEntry(fs, name), names, more);
  }

  lemma DevicesOne(fs: Tree, name: string)
    ensures DevicesOf(fs, [name]) == NodeEntry(fs, name)
  {
    var f := n => NodeEntry(fs, n);
    assert [name][..0] == [];
    assert Collect(f, [name]) == Collect(f, []) + f(name);
  }

  lemma {:induction false} CollectAppend(f: string -> seq<string>, names: seq<string>, more: seq<string>)
    ensures Collect(f, names + more) == Collect(f, names) + Collect(f, more)
  {
    if more == [] {
      assert names + more == names;
    } else {
      var init, x := more[..|more| - 1], more[|more| - 1];
      var all := names + more;
      assert all[..|all| - 1] == names + init && all[|all| - 1] == x;
      CollectAppend(f, names, init);
      Regroup3(Collect(f, names), Collect(f, init), f(x));
    }
  }

  lemma Regroup3(a: seq<string>, b: seq<string>, c: seq<string>)
    ensures a + b + c == a + (b + c)
  {
  }

  lemma RegisteredStep(fs: Tree, lines: seq<string>, i: nat)
    requires i < |lines|
    ensures Registered(fs, lines[..i + 1]) == Registered(fs, lines[..i]) + DevicesOf(fs, LineNames(lines[i]))
  {
    assert lines[..i + 1][..i] == lines[..i];
  }

  // ---------------------------------------------------------------------
  // What the registry holds

  /** For a plain name the device path and the registry entry are both "/dev/" + name. */
  lemma DeviceEntryOfPlain(name: string)
    requires PlainName(name)
    ensures DevicePath(name) == "/dev/" + name
    ensures DeviceEntry(name) == "/dev/" + name
  {
    DevPath(name);
    DevCanonical(name);
  }

  /** Every line adds at most one entry, so a scan adds at most as many entries as there are lines. */
  lemma {:induction false} RegisteredAtMostPerLine(fs: Tree, lines: seq<string>)
    ensures |Registered(fs, lines)| <= |lines|
  {
    if lines != [] {
      var last := lines[|lines| - 1];
      RegisteredAtMostPerLine(fs, lines[..|lines| - 1]);
      AtMostOneName(last);
      DevicesAtMostNames(fs, LineNames(last));
    }
  }

  lemma {:induction false} DevicesAtMostNames(fs: Tree, names: seq<string>)
    ensures |DevicesOf(fs, names)| <= |names|
  {
    if names != [] {
      var init := names[..|names| - 1];
      DevicesAtMostNames(fs, init);
      assert DevicesOf(fs, names) == DevicesOf(fs, init) + NodeEntry(fs, names[|names| - 1]);
    }
  }

  /**
   * The membership test of `disk_manager_append_device` compares the
   * argument's address with the stored paths, which are fresh copies, so a
   * device handed over twice, even as the very same string, is stored twice.
   */
  method AppendSameNameTwice(fs: Tree, name: string) returns (texts: seq<string>)
    requires PlainName(name) && Exists(fs, "/dev/" + name)
    ensures texts == ["/dev/" + name, "/dev/" + name]
  {
    DeviceEntryOfPlain(name);
    var manager := new DiskManager();
    var device := new CStr(name);
    manager.AppendDevice(fs, device);
    manager.AppendDevice(fs, device);
    texts := Texts(manager.devices);
  }

  /** `entries` with `entry` appended unless it is already there. */
  function AddOnce(entries: seq<string>, entry: string): seq<string>
  {
    if entry in entries then entries else entries + [entry]
  }

  /** Adding once keeps a duplicate-free list duplicate-free, and the entry is then present. */
  lemma AddOnceKeepsUnique(entries: seq<string>, entry: string)
    requires NoDuplicates(entries)
    ensures NoDuplicates(AddOnce(entries, entry)) && entry in AddOnce(entries, entry)
    ensures AddOnce(AddOnce(entries, entry), entry) == AddOnce(entries, entry)
  {
  }

  /** The registry as `disk_manager.h` describes it: the entry is compared by its text. */
  method AppendDeviceOnce(manager: DiskManager, fs: Tree, device: CStr)
    modifies manager
    ensures Texts(manager.devices) ==
      if Exists(fs, DevicePath(device.text)) then AddOnce(Texts(old(manager.devices)), DeviceEntry(device.text))
      else Texts(old(manager.devices))
    ensures NoDuplicates(Texts(old(manager.devices))) ==> NoDuplicates(Texts(manager.devices))
  {
    var path := DevicePath(device.text);
    if !Exists(fs, path) {
      return;
    }
    var entry := Canonicalize(path);
    var devices := manager.devices;
    var texts := Texts(devices);
    var found := HoldsText(devices, entry);
    if !found {
      var copy := new CStr(entry);
      TextsSnoc(devices, copy);
      manager.devices := devices + [copy];
      if NoDuplicates(texts) {
        AddOnceKeepsUnique(texts, entry);
      }
    }
  }

  /** The walk over the registry comparing each entry's text with `entry`. */
  method HoldsText(devices: seq<CStr>, entry: string) returns (found: bool)
    ensures found <==> entry in Texts(devices)
  {
    var i := 0;
    while i < |devices| && devices[i].text != entry
      invariant 0 <= i <= |devices|
      invariant forall j :: 0 <= j < i ==> devices[j].text != entry
    {
      i := i + 1;
    }
    found := i < |devices|;
    if found {
      assert Texts(devices)[i] == entry;
    }
  }

  /** With the corrected test the same device handed over twice is stored once. */
  method AppendSameNameTwiceOnce(fs: Tree, name: string) returns (texts: seq<string>)
    requires PlainName(name) && Exists(fs, "/dev/" + name)
    ensures texts == ["/dev/" + name]
  {
    DeviceEntryOfPlain(name);
    var manager := new DiskManager();
    var device := new CStr(name);
    AppendDeviceOnce(manager, fs, device);
    AppendDeviceOnce(manager, fs, device);
    texts := Texts(manager.devices);
  }

  // ---------------------------------------------------------------------
  // disk_manager_is_device_ssd and disk_manager_is_install_supported

  /** `/sys/block/<node>/queue/rotational`. */
  function RotationalPath(node: string): string
  {
    "/sys/block/" + node + "/queue/rotational"
  }

  /** The first line of a file, NULL for an empty one. */
  function FirstLine(lines: seq<string>): CString
  {
    if lines == [] then None else Some(lines[0])
  }

  /**
   * `disk_manager_is_device_ssd` as written: the node-name test answers
   * FALSE for every name that does NOT start with "mmcblk", so only eMMC
   * devices can be reported as solid state.
   */
  function IsDeviceSsd(fs: Tree, path: CString): (r: bool)
    ensures r <==> (path.Some? && IsPrefix("mmcblk", Basename(path.value)) &&
      ReadLines(fs, RotationalPath(Basename(path.value))).Some? &&
      FirstLine(ReadLines(fs, RotationalPath(Basename(path.value))).value) == Some("0"))
  {
    if path.None? then false
    else
      var node := Basename(path.value);
      var file := RotationalPath(node);
      if !Exists(fs, file) then false
      else if !StartsWith(node, "mmcblk") then false
      else
        match ReadLines(fs, file)
        case None => false
        case Some(lines) => FirstLine(lines) == Some("0")
  }

  /** The test as its comment describes it: eMMC devices are never taken for SSDs. */
  function IsDeviceSsdIntended(fs: Tree, path: CString): (r: bool)
    ensures r <==> (path.Some? && !IsPrefix("mmcblk", Basename(path.value)) &&
      ReadLines(fs, RotationalPath(Basename(path.value))).Some? &&
      FirstLine(ReadLines(fs, RotationalPath(Basename(path.value))).value) == Some("0"))
  {
    if path.None? then false
    else
      var node := Basename(path.value);
      var file := RotationalPath(node);
      if !Exists(fs, file) then false
      else if StartsWith(node, "mmcblk") then false
      else
        match ReadLines(fs, file)
        case None => false
        case Some(lines) => FirstLine(lines) == Some("0")
  }

  /**
   * A non-rotational disk that is no eMMC device (a SATA "sda", say): the
   * code as written says "not an SSD", the intended test says it is one.
   */
  lemma SsdTestInverted(fs: Tree, name: string)
    requires name != [] && '/' !in name && !IsPrefix("mmcblk", name)
    requires ReadLines(fs, RotationalPath(name)) == Some(["0"])
    ensures !IsDeviceSsd(fs, Some("/dev/" + name))
    ensures IsDeviceSsdIntended(fs, Some("/dev/" + name))
  {
    BasenameOfDevPath(name);
  }

  /** `disk_manager_is_install_supported`: TRUE exactly for nodes whose name starts with "md". */
  function IsInstallSupported(path: CString): (r: bool)
    ensures r <==> path.Some? && IsPrefix("md", Basename(path.value))
  {
    path.Some? && StartsWith(Basename(path.value), "md")
  }

  /** Every RAID array the scan registers is a device the installer supports. */
  lemma RaidEntriesSupported(line: string)
    requires Capture(Raid, line).Some?
    ensures IsInstallSupported(Some(DeviceEntry(Capture(Raid, line).value)))
  {
    var name := Capture(Raid, line).value;
    LetterCapture(Raid, line);
    RaidNamePlain(name);
    DeviceEntryOfPlain(name);
    BasenameOfDevPath(name);
  }

  lemma RaidNamePlain(name: string)
    requires NameOk(Raid, name)
    ensures PlainName(name) && IsPrefix("md", name)
  {
    assert name[..2] == "md" && Numeral(name[2..]);
    forall i | 0 <= i < |name| ensures name[i] != '/' {
      if i >= 2 { assert IsDigit(name[2..][i - 2]); } else { assert name[i] == "md"[i]; }
    }
  }
}
