/**
 * `disk_manager_get_mount_points`: /proc/self/mounts read line by line into
 * a table from device to mount point. The line guard measures the size of
 * a pointer rather than the number of fields, so the word size of the host
 * is a parameter here.
 */
module MountPoints {
  import opened Wrappers
  import opened Strings
  import opened FileSystem

  const MountsFile := "/proc/self/mounts"

  /** A table entry: device to mount point, NULL when the line has no second field. */
  type Mapping = (string, CString)

  /** `sizeof parts / sizeof (gchar) - 1`: the size of a pointer in bytes, less one. */
  function GuardLength(pointerBytes: nat): int
  {
    pointerBytes - 1
  }

  /** The mapping the fields of a line give: first field to second, for a first field starting with "/". */
  function Record(parts: seq<string>): (r: Option<Mapping>)
    requires parts != []
    ensures r.Some? <==> parts[0] != [] && parts[0][0] == '/'
    ensures r.Some? ==> r.value.0 == parts[0] && (r.value.1.Some? <==> |parts| > 1)
    ensures r.Some? && |parts| > 1 ==> r.value.1 == Some(parts[1])
  {
    if StartsWith(parts[0], "/") then Some((parts[0], if |parts| > 1 then Some(parts[1]) else None))
    else None
  }

  /** What one line contributes as written: blank lines and lines stopped by the guard give nothing. */
  function Entry(line: string, guard: int): (r: Option<Mapping>)
    ensures line == [] || guard < 4 ==> r == None
  {
    if line == [] || guard < 4 then None else Record(Split(line, ' '))
  }

  /** The table after the lines, each line's mapping replacing an earlier one for the same device. */
  function Fold(lines: seq<string>, entry: string -> Option<Mapping>): (table: map<string, CString>)
  {
    if lines == [] then map[]
    else
      var table := Fold(lines[..|lines| - 1], entry);
      var last := lines[|lines| - 1];
      match entry(last)
      case None => table
      case Some(m) => table[m.0 := m.1]
  }

  /** The table `disk_manager_get_mount_points` builds on a host whose pointers are `pointerBytes` wide. */
  function MountTable(lines: seq<string>, pointerBytes: nat): map<string, CString>
  {
    Fold(lines, line => Entry(line, GuardLength(pointerBytes)))
  }

  /**
   * `disk_manager_get_mount_points`. An unreadable mounts file gives the
   * empty table.
   */
  method GetMountPoints(fs: Tree, pointerBytes: nat) returns (table: map<string, CString>)
    ensures ReadLines(fs, MountsFile).None? ==> table == map[]
    ensures ReadLines(fs, MountsFile).Some? ==> table == MountTable(ReadLines(fs, MountsFile).value, pointerBytes)
  {
    table := map[];
    var read := ReadLines(fs, MountsFile);
    if read.None? {
      return;
    }
    var lines := read.value;
    var i := 0;
    while i < |lines|
      invariant 0 <= i <= |lines|
      invariant table == MountTable(lines[..i], pointerBytes)
    {
      var line := lines[i];
      FoldStep(lines, i, line => Entry(line, GuardLength(pointerBytes)));
      i := i + 1;
      if line == [] {
        continue;
      }
      var parts := Split(line, ' ');
      var len := pointerBytes - 1;
      if len < 4 {
        continue;
      }
      var dev := parts[0];
      var mountPoint := if |parts| > 1 then Some(parts[1]) else None;
      if StartsWith(dev, "/") {
        table := table[dev := mountPoint];
      }
    }
    assert lines[..|lines|] == lines;
  }

  lemma FoldStep(lines: seq<string>, i: nat, entry: string -> Option<Mapping>)
    requires i < |lines|
    ensures Fold(lines[..i + 1], entry) ==
      match entry(lines[i])
      case None => Fold(lines[..i], entry)
      case Some(m) => Fold(lines[..i], entry)[m.0 := m.1]
  {
    assert lines[..i + 1][..i] == lines[..i];
  }

  lemma FoldOne(line: string, entry: string -> Option<Mapping>)
    ensures Fold([line], entry) == if entry(line).Some? then map[entry(line).value.0 := entry(line).value.1] else map[]
  {
    assert [line][..0] == [];
  }

  /** Line `i` maps device `d`. */
  predicate MapsAt(lines: seq<string>, entry: string -> Option<Mapping>, d: string, i: int)
  {
    0 <= i < |lines| && entry(lines[i]).Some? && entry(lines[i]).value.0 == d
  }

  /** The table holds a device exactly when some line maps it. */
  lemma {:induction false} FoldHas(lines: seq<string>, entry: string -> Option<Mapping>, d: string)
    ensures d in Fold(lines, entry) <==> exists i :: MapsAt(lines, entry, d, i)
  {
    if lines != [] {
      var init, n := lines[..|lines| - 1], |lines| - 1;
      FoldHas(init, entry, d);
      if exists i :: MapsAt(init, entry, d, i) {
        var i :| MapsAt(init, entry, d, i);
        assert MapsAt(lines, entry, d, i);
      }
      if !MapsAt(lines, entry, d, n) && exists i :: MapsAt(lines, entry, d, i) {
        var i :| MapsAt(lines, entry, d, i);
        assert MapsAt(init, entry, d, i);
      }
    }
  }

  /** A device's mount point is the one of the LAST line that maps it. */
  lemma {:induction false} FoldLastWins(lines: seq<string>, entry: string -> Option<Mapping>, d: string, i: nat)
    requires MapsAt(lines, entry, d, i)
    requires forall k :: i < k < |lines| ==> !MapsAt(lines, entry, d, k)
    ensures d in Fold(lines, entry) && Fold(lines, entry)[d] == entry(lines[i]).value.1
  {
    var init, n := lines[..|lines| - 1], |lines| - 1;
    if i < n {
      assert !MapsAt(lines, entry, d, n);
      forall k | i < k < n ensures !MapsAt(init, entry, d, k) {
        assert !MapsAt(lines, entry, d, k);
      }
      FoldLastWins(init, entry, d, i);
    }
  }

  /** The last line that maps `d`, from one that does. */
  lemma {:induction false} LastMapping(lines: seq<string>, entry: string -> Option<Mapping>, d: string, i: nat) returns (k: nat)
    requires MapsAt(lines, entry, d, i)
    ensures i <= k && MapsAt(lines, entry, d, k)
    ensures forall k' :: k < k' < |lines| ==> !MapsAt(lines, entry, d, k')
    decreases |lines| - i
  {
    if exists j :: i < j < |lines| && MapsAt(lines, entry, d, j) {
      var j :| i < j < |lines| && MapsAt(lines, entry, d, j);
      k := LastMapping(lines, entry, d, j);
    } else {
      k := i;
    }
  }

  /** Every key of the table is a device path: it starts with "/". */
  lemma MountKeysAbsolute(lines: seq<string>, pointerBytes: nat)
    ensures forall d :: d in MountTable(lines, pointerBytes) ==> d != [] && d[0] == '/'
  {
    forall d | d in MountTable(lines, pointerBytes) ensures d != [] && d[0] == '/' {
      var entry := line => Entry(line, GuardLength(pointerBytes));
      FoldHas(lines, entry, d);
      var i :| MapsAt(lines, entry, d, i);
    }
  }

  /** A non-blank line whose first field is `d`. */
  predicate FirstFieldAt(lines: seq<string>, d: string, i: int)
  {
    0 <= i < |lines| && lines[i] != [] && Split(lines[i], ' ')[0] == d
  }

  /**
   * On a 64-bit host the guard lets every line through: a device is in the
   * table exactly when it starts with "/" and is the first field of some
   * non-blank line.
   */
  lemma WideHostKeys(lines: seq<string>, d: string)
    ensures d in MountTable(lines, 8) <==> d != [] && d[0] == '/' && exists i :: FirstFieldAt(lines, d, i)
  {
    var entry := line => Entry(line, GuardLength(8));
    FoldHas(lines, entry, d);
    if exists i :: FirstFieldAt(lines, d, i) {
      var i :| FirstFieldAt(lines, d, i);
      if d != [] && d[0] == '/' {
        assert MapsAt(lines, entry, d, i);
      }
    }
    if exists i :: MapsAt(lines, entry, d, i) {
      var i :| MapsAt(lines, entry, d, i);
      assert FirstFieldAt(lines, d, i);
    }
  }

  /** On a 32-bit host the guard turns every line away: the table stays empty. */
  lemma NarrowHostTableEmpty(lines: seq<string>)
    ensures MountTable(lines, 4) == map[]
  {
    var entry := line => Entry(line, GuardLength(4));
    forall d ensures d !in Fold(lines, entry) {
      FoldHas(lines, entry, d);
    }
  }

  // ---------------------------------------------------------------------
  // The guard as intended: at least four fields

  /** A line with fewer than four fields is turned away, so every mapping has a mount point. */
  function EntryIntended(line: string): (r: Option<Mapping>)
    ensures r.Some? ==> r.value.1.Some?
  {
    if line == [] then None
    else
      var parts := Split(line, ' ');
      if |parts| < 4 then None else Record(parts)
  }

  function MountTableIntended(lines: seq<string>): map<string, CString>
  {
    Fold(lines, EntryIntended)
  }

  /** The corrected table never maps a device to NULL. */
  lemma IntendedMountPointsPresent(lines: seq<string>)
    ensures forall d :: d in MountTableIntended(lines) ==> MountTableIntended(lines)[d].Some?
  {
    forall d | d in MountTableIntended(lines) ensures MountTableIntended(lines)[d].Some? {
      FoldHas(lines, EntryIntended, d);
      var i :| MapsAt(lines, EntryIntended, d, i);
      var k := LastMapping(lines, EntryIntended, d, i);
      FoldLastWins(lines, EntryIntended, d, k);
    }
  }

  /** The fields of a line are the space-free words between its single spaces. */
  lemma FourFields(a: string, b: string, c: string, e: string)
    requires ' ' !in a && ' ' !in b && ' ' !in c && ' ' !in e
    ensures Pieces(a + " " + b + " " + c + " " + e, ' ') == [a, b, c, e]
  {
    PiecesWithout(a, ' ');
    PiecesWithout(b, ' ');
    PiecesWithout(c, ' ');
    PiecesWithout(e, ' ');
    PiecesAppend(a, ' ', b);
    PiecesAppend(a + " " + b, ' ', c);
    PiecesAppend(a + " " + b + " " + c, ' ', e);
  }

  /**
   * A line naming only a device, on a 64-bit host: the code as written maps
   * the device to NULL, the intended guard skips the line.
   */
  lemma ShortLineMapsToNull(dev: string)
    requires dev != [] && dev[0] == '/' && ' ' !in dev
    ensures MountTable([dev], 8) == map[dev := None]
    ensures MountTableIntended([dev]) == map[]
  {
    PiecesWithout(dev, ' ');
    assert Split(dev, ' ') == [dev];
    assert Entry(dev, GuardLength(8)) == Some((dev, None));
    assert EntryIntended(dev) == None;
    FoldOne(dev, line => Entry(line, GuardLength(8)));
    FoldOne(dev, EntryIntended);
  }

  /**
   * A full line on a 32-bit host: the code as written drops it, the
   * intended guard maps the device to its mount point.
   */
  lemma FullLineDroppedOnNarrowHost(dev: string, mountPoint: string, fsType: string, options: string)
    requires dev != [] && dev[0] == '/'
    requires ' ' !in dev && ' ' !in mountPoint && ' ' !in fsType && ' ' !in options
    ensures MountTable([dev + " " + mountPoint + " " + fsType + " " + options], 4) == map[]
    ensures MountTableIntended([dev + " " + mountPoint + " " + fsType + " " + options]) == map[dev := Some(mountPoint)]
  {
    var line := dev + " " + mountPoint + " " + fsType + " " + options;
    FourFields(dev, mountPoint, fsType, options);
    assert line != [] && Split(line, ' ') == [dev, mountPoint, fsType, options];
    assert EntryIntended(line) == Some((dev, Some(mountPoint)));
    FoldOne(line, EntryIntended);
    NarrowHostTableEmpty([line]);
  }
}
