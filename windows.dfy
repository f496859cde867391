/**
 * Windows identification: `disk_manager_get_windows_version` and
 * `disk_manager_get_windows_bootloader`, with the two tables the disk
 * manager fills at start-up. Both tables are GLib hash tables searched with
 * `g_hash_table_find`, which visits entries in an order the model does not
 * know: the order is a parameter, any permutation of the entries.
 */
module WindowsProbes {
  import opened Wrappers
  import opened Strings
  import opened FileSystem

  /** A table entry: key and label. */
  type Entry = (string, string)

  /** Version-number prefixes of the files under Windows/servicing/Version, in insertion order. */
  const WinPrefixes: seq<Entry> := [
    ("10.", "Windows 10"),
    ("6.3", "Windows 8.1"),
    ("6.2", "Windows 8"),
    ("6.1", "Windows 7"),
    ("6.0", "Windows Vista"),
    ("5.2", "Windows XP"),
    ("5.1", "Windows XP"),
    ("5.0", "Windows 2000"),
    ("4.90", "Windows ME"),
    ("4.1", "Windows 98"),
    ("4.0.1381", "Windows NT"),
    ("4.0.950", "Windows 95")
  ]

  /** Signatures looked for in the boot configuration path, in insertion order. */
  const WinBootloaders: seq<Entry> := [
    ("V.i.s.t.a", "Windows Vista bootloader"),
    ("W.i.n.d.o.w.s. .7", "Windows 7 bootloader"),
    ("W.i.n.d.o.w.s. .R.e.c.o.v.e.r.y. .E.n.v.i.r.o.n.m.e.n.t", "Windows recovery"),
    ("W.i.n.d.o.w.s. .S.e.r.v.e.r. .2.0.0.8", "Windows Server 2008 bootloader")
  ]

  const UnknownVersion := "Windows (Unknown)"
  const DefaultBootloader := "Windows bootloader"

  // ---------------------------------------------------------------------
  // g_hash_table_find

  /** `order` visits each of `n` entries exactly once. */
  predicate IsOrder(order: seq<nat>, n: nat)
  {
    |order| == n && (forall k :: 0 <= k < n ==> order[k] < n) && (forall i :: 0 <= i < n ==> i in order)
  }

  /** The label of the first entry, in visiting order, whose key passes `test`. */
  function Find(table: seq<Entry>, order: seq<nat>, test: string -> bool): (r: Option<string>)
    ensures r.Some? ==> exists i :: 0 <= i < |table| && test(table[i].0) && table[i].1 == r.value
  {
    if order == [] then None
    else if order[0] < |table| && test(table[order[0]].0) then Some(table[order[0]].1)
    else Find(table, order[1..], test)
  }

  /** Every visiting order finds something when some key passes. */
  lemma {:induction false} FindComplete(table: seq<Entry>, order: seq<nat>, test: string -> bool, i: nat)
    requires i < |table| && i in order && test(table[i].0)
    ensures Find(table, order, test).Some?
  {
    if order[0] != i {
      assert i in order[1..];
      FindComplete(table, order[1..], test, i);
    }
  }

  /** When exactly one key passes, every visiting order finds its label. */
  lemma OnlyHitFound(table: seq<Entry>, order: seq<nat>, test: string -> bool, i: nat)
    requires IsOrder(order, |table|)
    requires i < |table| && test(table[i].0)
    requires forall j :: 0 <= j < |table| && j != i ==> !test(table[j].0)
    ensures Find(table, order, test) == Some(table[i].1)
  {
    FindComplete(table, order, test, i);
  }

  // ---------------------------------------------------------------------
  // disk_manager_get_windows_version

  /** `<root>/Windows/servicing/Version`. */
  function VersionDir(root: string): string
  {
    BuildPath("/", [root, "Windows", "servicing", "Version"])
  }

  /** `g_build_path(root, "Windows", "System32")`: the root is passed as the SEPARATOR. */
  function System32Probe(root: string): string
  {
    BuildPath(root, ["Windows", "System32"])
  }

  /** `<root>/Windows/System32`, the probe the comment describes. */
  function System32Intended(root: string): string
  {
    BuildPath("/", [root, "Windows", "System32"])
  }

  /** The corrected probe is the path <root>/Windows/System32. */
  lemma System32IntendedPath(root: string)
    requires root != [] && root[|root| - 1] != '/'
    ensures System32Intended(root) == root + "/Windows/System32"
  {
    var names := ["Windows", "System32"];
    assert Clean(names[0]) && Clean(names[1]);
    BuildUnderRoot(root, names);
    assert [root] + names == [root, "Windows", "System32"];
    assert JoinWith(names, "/") == "Windows/System32" by {
      assert names[1..] == ["System32"];
    }
  }

  /** The label for a directory entry: the table key that is a prefix of it. */
  function VersionLabel(child: string, order: seq<nat>): Option<string>
  {
    Find(WinPrefixes, order, key => StartsWith(child, key))
  }

  /** The label of the first entry, in directory order, that has one. */
  function FirstVersion(entries: seq<string>, order: seq<nat>): Option<string>
  {
    if entries == [] then None
    else if VersionLabel(entries[0], order).Some? then VersionLabel(entries[0], order)
    else FirstVersion(entries[1..], order)
  }

  /**
   * What `disk_manager_get_windows_version` answers when the System32 probe
   * is `system32`: without the version directory, "Windows (Unknown)" if
   * the probe exists and NULL otherwise; with it, the label of the first
   * entry that has one, and NULL when there is none or the directory
   * cannot be opened.
   */
  function WindowsVersionWith(fs: Tree, root: string, system32: string, order: seq<nat>): CString
  {
    if !Exists(fs, VersionDir(root)) then
      if Exists(fs, system32) then Some(UnknownVersion) else None
    else
      match ListDir(fs, VersionDir(root))
      case None => None
      case Some(entries) => FirstVersion(entries, order)
  }

  /** `disk_manager_get_windows_version` as written. */
  function WindowsVersion(fs: Tree, root: string, order: seq<nat>): CString
  {
    WindowsVersionWith(fs, root, System32Probe(root), order)
  }

  /**
   * `disk_manager_get_windows_version` with the System32 path built under
   * the root: it answers as written whenever the version directory exists,
   * and otherwise "Windows (Unknown)" exactly when <root>/Windows/System32
   * exists.
   */
  function WindowsVersionIntended(fs: Tree, root: string, order: seq<nat>): (r: CString)
    ensures Exists(fs, VersionDir(root)) ==> r == WindowsVersion(fs, root, order)
    ensures !Exists(fs, VersionDir(root)) ==> (r == Some(UnknownVersion) <==> Exists(fs, System32Intended(root)))
    ensures !Exists(fs, VersionDir(root)) ==> (r == None <==> !Exists(fs, System32Intended(root)))
  {
    WindowsVersionWith(fs, root, System32Intended(root), order)
  }

  /** `disk_manager_get_windows_version`: the entries are read one by one until one has a label. */
  method GetWindowsVersion(fs: Tree, root: string, order: seq<nat>) returns (r: CString)
    ensures r == WindowsVersion(fs, root, order)
  {
    var versionDir := VersionDir(root);
    if !Exists(fs, versionDir) {
      var system32 := System32Probe(root);
      if Exists(fs, system32) {
        return Some(UnknownVersion);
      }
      return None;
    }
    var listing := ListDir(fs, versionDir);
    if listing.None? {
      return None;
    }
    var entries := listing.value;
    var i := 0;
    while i < |entries|
      invariant 0 <= i <= |entries|
      invariant FirstVersion(entries, order) == FirstVersion(entries[i..], order)
    {
      assert entries[i..][1..] == entries[i + 1..];
      var item := Find(WinPrefixes, order, key => StartsWith(entries[i], key));
      if item.Some? {
        return item;
      }
      i := i + 1;
    }
    return None;
  }

  /** No key of the version table is a prefix of another. */
  lemma PrefixKeysIndependent(i: nat, j: nat)
    requires i < |WinPrefixes| && j < |WinPrefixes| && i != j
    ensures !IsPrefix(WinPrefixes[i].0, WinPrefixes[j].0)
  {
    KeyShape(i);
    KeyShape(j);
  }

  /** Each key has at least three characters; the first and third tell all keys apart but the two "4.0." ones. */
  lemma KeyShape(k: nat)
    requires k < |WinPrefixes|
    ensures |WinPrefixes[k].0| >= 3
    ensures WinPrefixes[k].0[0] == "166665554444"[k] && WinPrefixes[k].0[2] == ".32102109100"[k]
    ensures k >= 10 ==> |WinPrefixes[k].0| >= 5 && WinPrefixes[k].0[4] == (if k == 10 then '1' else '9')
  {
  }

  /** So at most one key is a prefix of a directory entry. */
  lemma AtMostOnePrefix(child: string, i: nat, j: nat)
    requires i < |WinPrefixes| && j < |WinPrefixes|
    requires IsPrefix(WinPrefixes[i].0, child) && IsPrefix(WinPrefixes[j].0, child)
    ensures i == j
  {
    if i != j {
      var a, b := WinPrefixes[i].0, WinPrefixes[j].0;
      if |a| <= |b| {
        assert b[..|a|] == child[..|a|] == a;
        PrefixKeysIndependent(i, j);
      } else {
        assert a[..|b|] == child[..|b|] == b;
        PrefixKeysIndependent(j, i);
      }
    }
  }

  /**
   * The label of an entry does not depend on the order the table is
   * visited in: it is the label of the one key that is a prefix of it.
   */
  lemma VersionLabelOrderFree(child: string, order: seq<nat>, i: nat)
    requires IsOrder(order, |WinPrefixes|)
    requires i < |WinPrefixes| && IsPrefix(WinPrefixes[i].0, child)
    ensures VersionLabel(child, order) == Some(WinPrefixes[i].1)
  {
    var test := key => StartsWith(child, key);
    forall j | 0 <= j < |WinPrefixes| && j != i ensures !test(WinPrefixes[j].0) {
      if test(WinPrefixes[j].0) {
        AtMostOnePrefix(child, i, j);
      }
    }
    OnlyHitFound(WinPrefixes, order, test, i);
  }

  /** An entry no key is a prefix of has no label, in any order. */
  lemma NoPrefixNoLabel(child: string, order: seq<nat>)
    requires forall i :: 0 <= i < |WinPrefixes| ==> !IsPrefix(WinPrefixes[i].0, child)
    ensures VersionLabel(child, order) == None
  {
  }

  /** An element without slashes, next to a separator that starts with one, is its own core. */
  lemma SlashFreeElement(e: string, sep: string)
    requires sep != [] && sep[0] == '/' && e != [] && '/' !in e
    ensures LeadLen(e, sep) == 0 && CoreEnd(e, sep) == |e| && Core(e, sep) == e
    ensures TrailStart(e, sep, |e|) == |e|
  {
    if |sep| <= |e| {
      assert e[0..|sep|] != sep by { assert e[0..|sep|][0] == e[0]; }
      assert e[|e| - |sep|..|e|] != sep by { assert e[|e| - |sep|..|e|][0] == e[|e| - |sep|]; }
    }
  }

  /**
   * With the root as separator the probe is "Windows", the root and
   * "System32" run together: a relative path, looked up under the working
   * directory, and never the System32 directory under the root.
   */
  lemma System32ProbeShape(root: string)
    requires root != [] && root[0] == '/'
    ensures System32Probe(root) == "Windows" + root + "System32"
    ensures System32Probe(root)[0] != '/'
  {
    SlashFreeElement("Windows", root);
    SlashFreeElement("System32", root);
    var cores := ["Windows", "System32"];
    assert cores[1..] == ["System32"];
    assert Cores(["System32"], root) == ["System32"];
    assert Cores(cores, root) == cores;
    assert JoinWith(cores, root) == "Windows" + root + "System32";
    assert "Windows"[..0] == [] && "System32"[8..] == [];
  }

  /**
   * A Windows root with no version directory but with Windows/System32:
   * the code as written answers NULL when the run-together relative path
   * is absent, the intended probe answers "Windows (Unknown)".
   */
  lemma System32ProbeMisses(fs: Tree, root: string, order: seq<nat>)
    requires root != [] && root[0] == '/'
    requires !Exists(fs, VersionDir(root))
    requires Exists(fs, System32Intended(root))
    requires !Exists(fs, "Windows" + root + "System32")
    ensures WindowsVersion(fs, root, order) == None
    ensures WindowsVersionIntended(fs, root, order) == Some(UnknownVersion)
  {
    System32ProbeShape(root);
  }

  // ---------------------------------------------------------------------
  // disk_manager_get_windows_bootloader

  /** `<root>/Boot/BCD`. */
  function BcdPath(root: string): string
  {
    BuildPath("/", [root, "Boot", "BCD"])
  }

  /**
   * `disk_manager_get_windows_bootloader`: NULL without the BCD file;
   * otherwise the label of a signature found in the PATH of that file (its
   * contents are never read), else "Windows bootloader".
   */
  function WindowsBootloader(fs: Tree, root: string, order: seq<nat>): (r: CString)
    ensures r.None? <==> !Exists(fs, BcdPath(root))
    ensures r.Some? && r.value != DefaultBootloader ==>
      exists i :: 0 <= i < |WinBootloaders| && IsSubstring(WinBootloaders[i].0, BcdPath(root)) && WinBootloaders[i].1 == r.value
  {
    var file := BcdPath(root);
    if !Exists(fs, file) then None
    else
      match Find(WinBootloaders, order, key => Contains(file, key))
      case Some(found) => Some(found)
      case None => Some(DefaultBootloader)
  }

  /** A path holding none of the signatures always gives the generic label. */
  lemma PlainBcdPathGeneric(fs: Tree, root: string, order: seq<nat>)
    requires Exists(fs, BcdPath(root))
    requires forall i :: 0 <= i < |WinBootloaders| ==> !IsSubstring(WinBootloaders[i].0, BcdPath(root))
    ensures WindowsBootloader(fs, root, order) == Some(DefaultBootloader)
  {
  }

  /** A path holding a signature gives a signature's label, in every visiting order. */
  lemma SignedBcdPathLabelled(fs: Tree, root: string, order: seq<nat>, i: nat)
    requires IsOrder(order, |WinBootloaders|)
    requires Exists(fs, BcdPath(root))
    requires i < |WinBootloaders| && IsSubstring(WinBootloaders[i].0, BcdPath(root))
    ensures WindowsBootloader(fs, root, order).Some?
    ensures WindowsBootloader(fs, root, order).value in {"Windows Vista bootloader", "Windows 7 bootloader", "Windows recovery", "Windows Server 2008 bootloader"}
  {
    var file := BcdPath(root);
    var test := key => Contains(file, key);
    FindComplete(WinBootloaders, order, test, i);
    var r := Find(WinBootloaders, order, test);
    var j :| 0 <= j < |WinBootloaders| && test(WinBootloaders[j].0) && WinBootloaders[j].1 == r.value;
    assert j == 0 || j == 1 || j == 2 || j == 3;
  }
}
