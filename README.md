# solus-installer: disk discovery and OS identification, in Dafny

This project models the part of the Solus installer that finds the disks of
the machine and identifies the operating systems on them. It also models the
records the installer keeps and the small helpers those records use.

- **Disk discovery** (`DiskManagement`, `ProcPartitions`). The disk manager
  reads /proc/partitions and tries four anchored patterns on each line. They
  match whole disks, eMMC cards, NVMe namespaces and software RAID arrays.
  Every captured name that has a node under /dev goes into the device
  registry.
- **Device probes** (`DiskManagement`). The manager tests whether a device is
  solid state and whether the installer supports it.
- **Mount table** (`MountPoints`). /proc/self/mounts becomes a table from
  device to mount point.
- **Mounting** (`MountOps`). The manager mounts a device, and unmounts it
  with retries and a lazy-unmount fallback.
- **Linux identification** (`OsRelease`). The version comes from the
  os-release and lsb-release files under a root.
- **Windows identification** (`WindowsProbes`). The version comes from
  Windows/servicing/Version, with a fallback on Windows/System32. The
  bootloader label comes from Boot/BCD.
- **Records**: the drive (`Drives`), the partition (`PartitionInfo`), the
  detected OS (`OperatingSystems`), the install choices (`InstallInfo`) and
  the user account (`Users`).
- **Helpers**: `installer_is_string_valid`, `installer_str_contains`,
  `installer_str_starts_with`, `installer_read_line_full` (`Strings`), the
  errno-to-message map and the temporary-directory template (`Installer`).

The outside world is passed in as values. These are:

- the file system, a map from canonical absolute path to file, directory or
  unreadable node (`FileSystem.Tree`);
- the outcomes of spawned processes (`MountOps.Launcher`);
- the order in which `g_hash_table_find` visits a table;
- the word size of the host (the mount-table guard depends on it);
- what the block-device library and `statvfs` report.

The GLib path helpers the core calls are written out in `FileSystem`:
`g_build_path`, `g_canonicalize_filename`, `g_path_get_basename` and
`g_strsplit` on one character.

Code that works in place is modelled in place. The device registry, the
records and the process launcher are classes whose methods update their
fields. The loops of the source are `while` loops proved against
specification functions: the scan of /proc/partitions, the mount-table
reader, the os-release reader, the candidate search, the Windows version
directory walk, the unmount retry, the swap-partition walk over the queried
array and the read-line normalisation. Pure code is functions and lemmas.

There are two copies of the disk manager, src/lib/disk_manager.c and the
older src/disk_manager.c. They run the same code for the operations they
share; the library copy adds argument checks. The string helpers appear in
src/lib/utils.c, src/lib/strings.c and src/utils.c, and are modelled once.
The errno map and the temp-dir helper appear in src/lib/installer.c and
src/lib/utils.c. The utils.c copy of the temp-dir helper also rejects an
empty result, and `Installer.TempDirCopiesAgree` proves that the two copies
agree on every input.

Some behaviours of the code are easy to misread from its comments and
names. The model follows the code, and proves each of them:

- **Candidate search.** `disk_manager_search_for_key` has no `break`, so
  every existing release file is read and the last one decides
  (src/lib/disk_manager.c:600-629, `OsRelease.LastCandidateDecides`). The
  comment at src/lib/disk_manager.c:625, "Still no name, try the next
  iteration", suggests that a name once found ends the search; that
  reading is `OsRelease.FirstNamedDecides`.
- **Device registry.** `disk_manager_append_device` tests with
  `g_slist_find`, which compares addresses, so the same device can be
  stored twice (src/lib/disk_manager.c:243-244,
  `DiskManagement.AppendSameNameTwice`).
- **Swap ties.** `g_slist_insert_sorted` puts a later swap partition before
  earlier ones of the same size, so ties come out in reverse discovery
  order (src/lib/drive.c:95-102, `Drives.TwoTiesReversed`).
- **Pattern overlap.** No line of /proc/partitions is captured by two of
  the four patterns (src/lib/disk_manager.c:65-71 and 207-225,
  `ProcPartitions.PatternsExclusive`).
- **Windows version table.** The table is a hash table, visited in an
  order GLib does not promise. No key is a prefix of another, so the label
  does not depend on that order (src/lib/disk_manager.c:75-87 and 457-462,
  `WindowsProbes.VersionLabelOrderFree`).
- **SSD test.** The comment at src/lib/disk_manager.c:259 says eMMC devices
  are not to be treated as SSDs; the `strncmp` test below it does the
  opposite (`DiskManagement.SsdTestInverted`).
- **Hostname default.** The hostname property's default "" is refused by
  its own setter, so after construction the hostname is NULL
  (src/lib/install_info.c:93-99 and 249-263,
  `InstallInfo.HostnameAfterConstruction`).

## Model

| member | source | states |
|---|---|---|
| Strings.IsStringValidMeaning | src/lib/strings.c:19-21 | A string is valid exactly when it is not NULL and not "". |
| Strings.StartsWith | src/lib/utils.h:28 | The `strncmp` test over the key's length holds exactly when the key is a prefix of the item. |
| Strings.StrStartsWith | src/lib/strings.c:76-85 | TRUE exactly when key and item are both non-NULL and the key is a prefix of the item; an empty key matches every item. |
| Strings.Contains | src/lib/strings.c:69 | The left-to-right search succeeds exactly when the key occurs somewhere in the item. |
| Strings.StrContains | src/lib/strings.c:65-74 | TRUE exactly when key and item are both non-NULL and the key occurs in the item. |
| Strings.ChompSplits | src/lib/strings.c:58 | Chomping keeps a prefix of the text, drops only whitespace, and leaves no trailing whitespace. |
| Strings.WithoutRemoves | src/lib/strings.c:60-61 | Replacing a character by "" leaves none of it and keeps every other character as often as before. |
| Strings.TwoPassesAreOne | src/lib/strings.c:60-61 | Removing CR and then LF equals one pass that drops every line break and keeps everything else in order. |
| Strings.NormaliseNoLineBreaks | src/lib/strings.c:58-62 | The line returned holds no CR and no LF. |
| Strings.NormaliseShape | src/lib/strings.c:58-62 | The line returned is the chomped text without its line breaks, and it has no trailing whitespace. |
| Strings.NormaliseIdempotent | src/lib/strings.c:58-62 | Normalising a returned line again changes nothing. |
| Strings.BufferText | src/lib/strings.c:41-56 | The buffer holds at most the reported file size, as a prefix of the bytes read; a short read keeps every byte read. |
| Strings.RemoveChar | src/lib/strings.c:60-61 | The replacement loop removes exactly the occurrences of the character. |
| Strings.ReadLineFull | src/lib/strings.c:23-63 | NULL exactly when a GIO step fails; otherwise the read text, cut to the bytes read and at its first NUL, chomped and stripped of CR and LF. |
| Strings.UpToNul | src/lib/strings.c:55-59 | The C string a buffer holds is its longest NUL-free prefix, ended by a NUL or by the end of the bytes. |
| Strings.ReadStopsAtNul | src/lib/strings.c:55-62 | A file holding "0", NUL, "x" and a newline reads as "0". |
| Strings.PiecesRoundTrip | src/lib/disk_manager.c:315 | Splitting on a character loses nothing: joining the pieces gives the line back, and no piece holds the delimiter. |
| Strings.PiecesAppend | src/lib/disk_manager.c:315 | A delimiter is a piece boundary: the pieces of a + d + b are those of a followed by those of b. |
| Strings.PiecesWithout | src/lib/disk_manager.c:315 | A line without the delimiter is one piece. |
| Strings.IndexOf | src/lib/disk_manager.c:534 | The first occurrence of a character is found, nothing before it is that character, and None means the character is absent. |
| Installer.MessageCode | src/lib/installer.c:29-77 | Reading a message back only ever gives one of the nine codes that have a message of their own. |
| Installer.ErrnoMessageRoundTrip | src/lib/installer.c:32-69 | Each of the nine listed codes has its own message, which reads back as that code. |
| Installer.MessageCodeSound | src/lib/installer.c:32-69 | A message reads back as a code only when it is that code's message. |
| Installer.UnknownMessageExactlyUnlisted | src/lib/installer.c:70-73 | G_IO_ERROR_FAILED and the unlisted codes, and only they, get "Unknown I/O error". |
| Installer.TemplateRoundTrip | src/lib/installer.c:80-85 | The template reads back as the suffix it was built from, "installer" when the suffix is NULL. |
| Installer.MkdTemp | src/lib/installer.c:87 | `g_mkdtemp` gives NULL when it fails or the template has no "XXXXXX"; otherwise it writes the six chosen characters over the last "XXXXXX" and leaves every other character as it was. |
| Installer.TemplateLastXs | src/lib/installer.c:80-87 | In "XXXXXX-" + suffix the last "XXXXXX" is the suffix's last one, and the leading one when the suffix has none. |
| Installer.CreateTempDir | src/lib/installer.c:79-97 | An error exactly when `g_mkdtemp` fails, carrying the code from errno and that code's message. On success: the six chosen characters, "-" and the suffix when the suffix holds no "XXXXXX"; otherwise "XXXXXX-" and the suffix with its last "XXXXXX" filled. |
| Installer.SuffixOfXs | src/lib/installer.c:80-87 | The suffix "XXXXXX" with the characters "ab12cd" gives "XXXXXX-ab12cd". |
| Installer.CreateTempDirChecked | src/lib/utils.c:74-92 | Every error carries the code from errno and that code's message. |
| Installer.TempDirCopiesAgree | src/lib/utils.c:84 | The extra empty-result test never fires: both copies give the same answer on every input. |
| FileSystem.CanonicalPathOf | src/lib/disk_manager.c:244 | An absolute path made of plain components is already canonical. |
| FileSystem.DevCanonical | src/lib/disk_manager.c:244 | Canonicalising "/dev/" + a plain name leaves it unchanged. |
| FileSystem.ReadLines | src/lib/disk_manager.c:191-201 | Reading succeeds exactly when the path names a readable file. |
| FileSystem.ListDir | src/lib/disk_manager.c:447-450 | Opening a directory succeeds exactly when the path names a directory. |
| FileSystem.BuildUnderRoot | src/lib/disk_manager.c:429 | Building a path from a root not ending in "/" and clean names puts exactly one "/" between each two. |
| FileSystem.DevPath | src/lib/disk_manager.c:235 | Building "/dev/" with a clean name gives "/dev/" + name. |
| FileSystem.Basename | src/lib/disk_manager.c:251 | The basename is "." for "", "/" for a path of slashes, and otherwise a non-empty name without "/". |
| FileSystem.BasenameOfDevPath | src/lib/disk_manager.c:251 | The basename of "/dev/" + name is the name. |
| ProcPartitions.Accepts | src/lib/disk_manager.c:65-71 | The name check accepts exactly the capture group of each pattern. |
| ProcPartitions.IsNvme | src/lib/disk_manager.c:69 | The check accepts exactly names of the form nvme, digits, n, digits. |
| ProcPartitions.HeadRunsIff | src/lib/disk_manager.c:65-71 | The shared head of blanks and three numbers occupies line[i..j] exactly when j lies in the last blank run the scanner finds. |
| ProcPartitions.MatchesInLastRun | src/lib/disk_manager.c:65-71 | A line matches a pattern exactly at the splits inside its last blank run that leave a valid name. |
| ProcPartitions.CaptureIsGreedyMatch | src/lib/disk_manager.c:218-223 | The capture is None exactly when no split of the line matches; otherwise it is the group of the match with the longest head. |
| ProcPartitions.LetterCapture | src/lib/disk_manager.c:67-71 | An eMMC, NVMe or RAID name is captured only right after the greedy head. |
| ProcPartitions.PatternsExclusive | src/lib/disk_manager.c:207-225 | No two patterns capture from the same line. |
| ProcPartitions.AtMostOneName | src/lib/disk_manager.c:207-225 | Each line of /proc/partitions yields at most one name. |
| ProcPartitions.RowCapture | src/lib/disk_manager.c:65-71 | A kernel row is captured by exactly the patterns its name fits, and the capture is that name. |
| ProcPartitions.RowNames | src/lib/disk_manager.c:207-225 | A kernel row yields its name when some pattern fits it, and nothing otherwise. |
| ProcPartitions.DeviceNames | src/lib/disk_manager.c:65-71 | sda, vda, mmcblk0, nvme0n1 and md127 fit their patterns. |
| ProcPartitions.PartitionNamesRejected | src/lib/disk_manager.c:65-71 | sda1, mmcblk0p1, nvme0n1p1 and md127p1 fit no pattern. |
| ProcPartitions.KernelDiskRow | src/lib/disk_manager.c:207-225 | A disk row as the kernel pads it yields the disk's name. |
| ProcPartitions.KernelPartitionRow | src/lib/disk_manager.c:207-225 | The row of a partition yields nothing. |
| ProcPartitions.HeaderRegistersNothing | src/lib/disk_manager.c:207-225 | The column header and an empty line yield nothing. |
| DiskManagement.DiskManager.constructor | src/lib/disk_manager.c:181-183 | A new manager has an empty registry. |
| DiskManagement.DiskManager.AppendDevice | src/lib/disk_manager.c:231-246 | A name without a node under /dev changes nothing; otherwise a fresh copy of the canonical device path is appended unless the same pointer is already stored. |
| DiskManagement.DiskManager.ScanParts | src/lib/disk_manager.c:185-229 | An unreadable /proc/partitions changes nothing; otherwise the registry gains, in order, the entries of the names the lines yield. |
| DiskManagement.DiskManager.ScanLines | src/lib/disk_manager.c:201-228 | The line loop appends the entries of every line in order. |
| DiskManagement.DiskManager.ScanLine | src/lib/disk_manager.c:207-225 | One line appends the entries of the names the four patterns capture, in pattern order. |
| DiskManagement.DiskManager.TryPattern | src/lib/disk_manager.c:217-224 | One pattern appends the entry of its capture, if there is one. |
| DiskManagement.DeviceEntryOfPlain | src/lib/disk_manager.c:235-244 | For a plain name, the device path and the stored entry are both "/dev/" + name. |
| DiskManagement.RegisteredAtMostPerLine | src/lib/disk_manager.c:185-229 | A scan adds at most one entry per line. |
| DiskManagement.AppendSameNameTwice | src/lib/disk_manager.c:243-244 | The same device string appended twice is stored twice. |
| DiskManagement.AddOnceKeepsUnique | src/lib/disk_manager.c:243-245 | Adding by text keeps a duplicate-free registry duplicate-free, and adding twice is adding once. |
| DiskManagement.AppendDeviceOnce | src/lib/disk_manager.c:231-246 | With the test on the entry's text, a device is added at most once and the registry stays duplicate-free. |
| DiskManagement.HoldsText | src/lib/disk_manager.c:243 | The walk finds the entry exactly when its text is stored. |
| DiskManagement.AppendSameNameTwiceOnce | src/lib/disk_manager.c:243-245 | With the test on the entry's text, a device appended twice is stored once. |
| DiskManagement.IsDeviceSsd | src/lib/disk_manager.c:248-280 | TRUE exactly for a node whose name starts with "mmcblk" and whose rotational file reads "0" on its first line. |
| DiskManagement.IsDeviceSsdIntended | src/lib/disk_manager.c:259-262 | With the test the comment describes: TRUE exactly for a node not named "mmcblk…" whose rotational file reads "0". |
| DiskManagement.SsdTestInverted | src/lib/disk_manager.c:259-262 | A non-rotational SATA disk is no SSD as written and is one with the intended test. |
| DiskManagement.IsInstallSupported | src/lib/disk_manager.c:282-290 | TRUE exactly for a non-NULL path whose basename starts with "md". |
| DiskManagement.RaidEntriesSupported | src/lib/disk_manager.c:282-290 | Every RAID array the scan stores is a supported install target. |
| MountPoints.Record | src/lib/disk_manager.c:324-330 | A line maps its first field exactly when that field starts with "/"; the mount point is the second field, NULL when there is none. |
| MountPoints.Entry | src/lib/disk_manager.c:309-322 | Blank lines, and every line when the guard's length is below 4, map nothing. |
| MountPoints.GetMountPoints | src/lib/disk_manager.c:292-336 | An unreadable mounts file gives the empty table; otherwise the table built from the lines, one by one. |
| MountPoints.FoldHas | src/lib/disk_manager.c:324-330 | A device is in the table exactly when some line maps it. |
| MountPoints.FoldLastWins | src/lib/disk_manager.c:329 | A device's mount point comes from the last line that maps it. |
| MountPoints.MountKeysAbsolute | src/lib/disk_manager.c:327-330 | Every device in the table starts with "/". |
| MountPoints.WideHostKeys | src/lib/disk_manager.c:318-330 | On a 64-bit host a device is in the table exactly when it starts with "/" and is the first field of a non-blank line. |
| MountPoints.NarrowHostTableEmpty | src/lib/disk_manager.c:318-322 | On a 32-bit host the table is always empty. |
| MountPoints.EntryIntended | src/lib/disk_manager.c:317-322 | With the guard on the number of fields, every mapping has a mount point. |
| MountPoints.IntendedMountPointsPresent | src/lib/disk_manager.c:318-325 | With the intended guard, no device maps to NULL. |
| MountPoints.ShortLineMapsToNull | src/lib/disk_manager.c:318-325 | On a 64-bit host, a line naming only a device maps it to NULL as written, and is skipped with the intended guard. |
| MountPoints.FullLineDroppedOnNarrowHost | src/lib/disk_manager.c:318-322 | On a 32-bit host a full mounts line is dropped as written, and maps its device with the intended guard. |
| OsRelease.MatchOsReleaseLine | src/lib/disk_manager.c:529-565 | A value comes back exactly when the value is not empty and the key equals the key searched for, up to case; it is the value with its quotes stripped. |
| OsRelease.UnquoteOneSided | src/lib/disk_manager.c:545-553 | A quote on one side only is stripped as well: a leading one, or a trailing one. |
| OsRelease.QuotedRoundTrip | src/lib/disk_manager.c:534-561 | KEY="value" reads back as the value, whatever it holds. |
| OsRelease.UnquoteQuoted | src/lib/disk_manager.c:545-553 | Stripping the quotes of a quoted value gives the value. |
| OsRelease.PlainRoundTrip | src/lib/disk_manager.c:545-561 | An unquoted value is returned unchanged. |
| OsRelease.EmptyValueIsNull | src/lib/disk_manager.c:537-541 | KEY= gives NULL, even for the key searched for. |
| OsRelease.OtherKeyIsNull | src/lib/disk_manager.c:557-564 | A line for another key, up to case, gives NULL. |
| OsRelease.CaseInsensitive | src/lib/disk_manager.c:557-561 | Two spellings of a key that differ only in case find the same value. |
| OsRelease.SplitAtFirst | src/lib/disk_manager.c:534 | The line splits at its first "=": the key before it, the rest after it. |
| OsRelease.FirstValueIsFirstHit | src/lib/disk_manager.c:505-526 | A file's value is NULL exactly when no line gives one, and otherwise comes from the first line that does. |
| OsRelease.GetOsReleaseVal | src/lib/disk_manager.c:490-527 | An error for an unreadable file; otherwise the value of the first line that gives one. |
| OsRelease.Probe | src/lib/disk_manager.c:607-623 | An unreadable file gives NULL. A valid value for the key is the answer. When it is NULL or "", the fallback key's value is the answer if a fallback is given, and the key's value otherwise. |
| OsRelease.SearchForKey | src/lib/disk_manager.c:583-632 | The loop gives the name the search over the candidate files defines. |
| OsRelease.VisitCandidate | src/lib/disk_manager.c:601-605 | A missing candidate leaves the name; an existing one replaces it with its probe. |
| OsRelease.ProbeCandidate | src/lib/disk_manager.c:607-628 | The body of the loop gives the file's probe: the key's value, else the fallback's, NULL on a read error. |
| OsRelease.NoCandidateNoName | src/lib/disk_manager.c:596-605 | With no existing candidate the name is NULL. |
| OsRelease.LastCandidateDecides | src/lib/disk_manager.c:600-629 | As written, the name is the probe of the last existing candidate. |
| OsRelease.FirstNamedDecides | src/lib/disk_manager.c:625-628 | With a break after a valid name, the name is that of the first candidate that gives one. |
| OsRelease.LaterCandidateOverwrites | src/lib/disk_manager.c:600-629 | A name found in the first file is lost to a later file that names nothing; with the break it is kept. |
| OsRelease.LinuxVersion | src/lib/disk_manager.c:567-581 | The os-release name when it is valid, else the lsb-release name. |
| OsRelease.NoReleaseFileNoVersion | src/lib/disk_manager.c:567-581 | With none of the five release files under the root there is no version. |
| WindowsProbes.Find | src/lib/disk_manager.c:458 | A label found belongs to an entry whose key passes the test. |
| WindowsProbes.FindComplete | src/lib/disk_manager.c:458 | Every visiting order finds something when some key passes. |
| WindowsProbes.OnlyHitFound | src/lib/disk_manager.c:458 | When one key alone passes, every visiting order finds its label. |
| WindowsProbes.GetWindowsVersion | src/lib/disk_manager.c:422-466 | The directory walk gives the version the probes define: the first labelled entry, "Windows (Unknown)" or NULL. |
| WindowsProbes.PrefixKeysIndependent | src/lib/disk_manager.c:75-87 | No version key is a prefix of another. |
| WindowsProbes.AtMostOnePrefix | src/lib/disk_manager.c:75-87 | At most one version key is a prefix of a directory entry. |
| WindowsProbes.VersionLabelOrderFree | src/lib/disk_manager.c:457-462 | An entry's label is that of the one key that prefixes it, whatever order the table is visited in. |
| WindowsProbes.NoPrefixNoLabel | src/lib/disk_manager.c:457-465 | An entry no key prefixes has no label. |
| WindowsProbes.System32ProbeShape | src/lib/disk_manager.c:435 | With the root as separator, the System32 probe is "Windows" + root + "System32", a relative path. |
| WindowsProbes.System32ProbeMisses | src/lib/disk_manager.c:434-444 | A Windows root with System32 but no version directory gives NULL as written, and "Windows (Unknown)" with the path built under the root. |
| WindowsProbes.WindowsVersionIntended | src/lib/disk_manager.c:434-444 | With the System32 path built under the root, the answer is as written when the version directory exists; otherwise "Windows (Unknown)" exactly when <root>/Windows/System32 exists, and NULL otherwise. |
| WindowsProbes.System32IntendedPath | src/lib/disk_manager.c:435 | The corrected probe is the path root + "/Windows/System32". |
| WindowsProbes.WindowsBootloader | src/lib/disk_manager.c:468-488 | NULL exactly without Boot/BCD; any label other than the generic one is that of a signature found in the path. |
| WindowsProbes.PlainBcdPathGeneric | src/lib/disk_manager.c:482-487 | A BCD path holding no signature gives "Windows bootloader". |
| WindowsProbes.SignedBcdPathLabelled | src/lib/disk_manager.c:482-485 | A BCD path holding a signature gives one of the four signature labels, in every visiting order. |
| MountOps.MountArgv | src/lib/disk_manager.c:350-371 | The command line is mount -t fs device mpoint, with -o options added exactly when options are given. |
| MountOps.MountArgvRoundTrip | src/lib/disk_manager.c:350-371 | The command line reads back as the arguments it was built from. |
| MountOps.MountArgvInjective | src/lib/disk_manager.c:350-371 | Different arguments give different command lines. |
| MountOps.MountDevice | src/lib/disk_manager.c:338-378 | One mount command is spawned; the answer is TRUE exactly when it starts and exits with success. |
| MountOps.UmountCommands | src/lib/disk_manager.c:380-420 | The plain unmount is spawned first, and the lazy one after it exactly when the plain one started and failed. |
| MountOps.UmountDevice | src/lib/disk_manager.c:380-420 | As written, the same plain unmount is waited on up to three times, then one lazy unmount; the commands, the waits and the answer are stated exactly. |
| MountOps.RetryNeverRescues | src/lib/disk_manager.c:394-419 | Once the plain unmount fails, only the lazy unmount can make the answer TRUE. |
| MountOps.RespawnRecovers | src/lib/disk_manager.c:396-403 | With a fresh unmount per attempt, a success on one of the three attempts ends the loop there, with no lazy unmount. |
| MountOps.UmountDeviceRespawn | src/lib/disk_manager.c:394-419 | The loop with a fresh process per attempt spawns and answers as the respawning definition says. |
| MountOps.LastResort | src/lib/disk_manager.c:411-419 | The lazy unmount; a failed spawn gives FALSE. |
| MountOps.Attempt | src/lib/disk_manager.c:398-403 | One attempt stops on success or a failed spawn, and otherwise leaves the rest to the remaining attempts. |
| MountOps.BusyThenFree | src/lib/disk_manager.c:394-419 | A mount point busy once and then free: as written the lazy unmount runs anyway; with respawning the second plain unmount succeeds. |
| Drives.CompareSwap | src/lib/drive.c:47-57 | Negative exactly when the first is larger, positive exactly when smaller, zero exactly on equal sizes. |
| Drives.CompareSwapAntisymmetric | src/lib/drive.c:47-57 | Swapping the arguments negates the comparison. |
| Drives.InsertPermutes | src/lib/drive.c:97-98 | Sorted insertion adds the new partition and keeps every other. |
| Drives.InsertAt | src/lib/drive.c:97-98 | In a sorted list the new partition goes after every larger one and before every other, ties included. |
| Drives.InsertKeepsSorted | src/lib/drive.c:97-98 | Sorted insertion keeps the list sorted largest first. |
| Drives.Swaps | src/lib/drive.c:95-102 | A partition is kept exactly when its flags include the swap flag. |
| Drives.SwapListPermutation | src/lib/drive.c:82-106 | The swap list is a permutation of the query's swap partitions: none lost, none added. |
| Drives.SwapListSorted | src/lib/drive.c:82-106 | The swap list is sorted largest first. |
| Drives.LaterTieFirst | src/lib/drive.c:95-102 | A swap partition found later lands before every earlier one of its size. |
| Drives.TwoTiesReversed | src/lib/drive.c:95-102 | Two swap partitions of one size come out in reverse discovery order. |
| Drives.DisplayShape | src/lib/drive.c:108-111 | The display string splits into the model and a space, the size text, and " (" + path + ")". |
| Drives.DisplayPathBack | src/lib/drive.c:108-111 | The disk path can be read back from the display string when it holds no "(". |
| Drives.Drive.constructor | src/lib/drive.c:72-77 | The drive holds the disk description and the arguments as given. |
| Drives.Drive.GetSwapPartitions | src/lib/drive.c:82-106 | No disk or a failed query gives the empty list; otherwise the swap partitions of the query, sorted largest first. |
| Drives.Drive.DisplayString | src/lib/drive.c:108-111 | The string is the model (or "(null)") and a space, then the formatted size, then " (" + disk path + ")"; the path reads back when it holds no "(". |
| Drives.NewDrive | src/lib/drive.c:59-80 | NULL exactly when the disk query fails; otherwise a new drive holding what was given. |
| PartitionInfo.Wrap | src/lib/partition.c:188-190 | The result fits in 64 bits and equals the input when the input does. |
| PartitionInfo.SpaceAddsUp | src/lib/partition.c:188-190 | Free and used space add up to the total space, modulo 2^64. |
| PartitionInfo.SpaceExact | src/lib/partition.c:188-190 | When nothing overflows, the used space is the bytes of the unavailable blocks, and free plus used is the total. |
| PartitionInfo.UsedExact | src/lib/partition.c:190 | When nothing overflows, the used space is the bytes of the unavailable blocks. |
| PartitionInfo.Partition.constructor | src/lib/partition.c:132-137 | The disk and partition names are stored when valid and left NULL otherwise. |
| PartitionInfo.Partition.SetDisk | src/lib/partition.c:245-259 | NULL and "" are ignored; a valid name replaces the disk and nothing else. |
| PartitionInfo.Partition.SetPartition | src/lib/partition.c:261-275 | NULL and "" are ignored; a valid name replaces the partition name and nothing else. |
| PartitionInfo.NewPartition | src/lib/partition.c:126-195 | NULL exactly when one of the four probes fails; otherwise the path, size, resizability and the three space figures. |
| OperatingSystems.Os.constructor | src/lib/os.c:143-147 | The type, name and device path as given, and the default icon. |
| OperatingSystems.Os.SetOtype | src/lib/os.c:165-179 | NULL is ignored; any other value, "" included, replaces the type and nothing else. |
| OperatingSystems.Os.SetName | src/lib/os.c:181-195 | NULL is ignored; any other value replaces the name and nothing else. |
| OperatingSystems.Os.SetDevicePath | src/lib/os.c:197-211 | NULL is ignored; any other value replaces the device path and nothing else. |
| OperatingSystems.Os.SetIconName | src/lib/os.c:213-227 | NULL is ignored; any other value replaces the icon name and nothing else. |
| InstallInfo.Info.constructor | src/lib/install_info.c:213-215 | The owner as given, every flag FALSE, and the hostname NULL. |
| InstallInfo.Info.SetOwner | src/lib/install_info.c:181-185 | The owner is stored only while none is set. |
| InstallInfo.Info.SetEnableGeoip | src/lib/install_info.c:241-247 | Sets the GeoIP flag and nothing else. |
| InstallInfo.Info.SetHostname | src/lib/install_info.c:249-263 | NULL and "" are ignored; a valid hostname replaces the hostname and nothing else. |
| InstallInfo.Info.SetWindowsPresent | src/lib/install_info.c:265-271 | Sets the Windows-present flag and nothing else. |
| InstallInfo.Info.SetInstallBootloader | src/lib/install_info.c:273-279 | Sets the install-bootloader flag and nothing else. |
| InstallInfo.Info.SetInvalidated | src/lib/install_info.c:281-287 | Sets the invalidated flag and nothing else. |
| InstallInfo.OwnerWriteOnce | src/lib/install_info.c:181-185 | Once an owner is set, no later owner replaces it. |
| InstallInfo.HostnameAfterConstruction | src/lib/install_info.c:93-99 | The hostname default "" does not survive construction: the hostname is NULL. |
| Users.User.constructor | src/lib/user.c:32-48 | Every string NULL and the passwords-match flag FALSE. |
| Users.User.SetUserName | src/lib/user.c:76-85 | NULL is ignored; otherwise the user name is replaced and nothing else. |
| Users.User.SetFullName | src/lib/user.c:94-103 | NULL is ignored; otherwise the full name is replaced and nothing else. |
| Users.User.SetPassword | src/lib/user.c:129-139 | The password is stored and the flag says whether it equals the confirmation. |
| Users.User.SetConfirmPassword | src/lib/user.c:148-158 | The confirmation is stored and the flag says whether it equals the password. |
| Users.User.Validate | src/lib/user.c:170-195 | The first failing check names the error, in the order user name, password, confirmation, match; success exactly when all pass. |
| Users.PasswordsMatch | src/lib/user.c:114-120 | TRUE exactly for equal strings or two NULLs. |
| Users.ValidateMeaning | src/lib/user.c:170-195 | Validation succeeds exactly when the user name and password are non-empty and the confirmation is the same string. |
| Users.Mismatch | src/lib/user.c:129-195 | A user whose two password entries differ fails with the mismatch error, and only then. |

## Left out

- Getters that return a field or a copy of it (`installer_*_get_*`) are not modelled separately: the model's fields are the values they return.
- `g_return_if_fail` checks on the object itself are left out. So are the GObject type checks, `finalize`, `get_property` and freeing memory.
- Memory errors are left out. These include the read-line buffer that is not NUL-terminated after a full read, and the reference leaked when the unmount replaces its process.
- `PartitionInfo.NewPartition` does not model the dereference of a NULL `err` at src/lib/partition.c:165. It takes the resize query as failing exactly when it reports an error.
- `installer_drive_get_disk_type` is left out: it only forwards a libblockdev call.
- `installer_init_blockdev` is left out: it only initialises libblockdev.
- `g_format_size` is a parameter of `Drives.Drive.DisplayString`.
- libblockdev queries, `statvfs` and the file-system type are inputs (`Probes`, `PartSpec`, `DiskSpec`).
- Spawned processes are an oracle (`MountOps.Launcher`). The 500 ms `g_usleep` between unmount attempts is not modelled.
- The order of `g_hash_table_find` is a parameter: any order visiting each entry once.
- `OsRelease.GetOsReleaseVal` and `OsRelease.Probe`: a file either reads whole or not at all. A read error after some lines have been read, where `disk_manager_get_os_release_val` returns NULL with `err` set and the search skips the fallback key (src/lib/disk_manager.c:505, 610-613), is not modelled, because `FileSystem.Tree` has no such node.
- `FileSystem.BuildPath` takes the leading separators from the first element and the trailing ones from the last even when that element is empty, where `g_build_path` skips empty elements. The two differ only when the first or the last element is empty, such as an empty root.
- `OsRelease.MatchOsReleaseLine`: keys are compared after ASCII lower-casing, not full Unicode case folding (`g_utf8_casefold`).
- The UEFI detection, the EFI type list, the host size and the OS icon list set up in `disk_manager_init` are left out. None of them is read by the modelled operations.
- GLib errors are modelled as `Result` values or NULL answers. Warning messages are not modelled.
- `InstallInfo.Info.SetOwner`: the owner is kept by identity. The source stores a `GObject` pointer through a `GType` property, and that type confusion is not modelled.
- Construct-only properties can only be set at construction. The setters can still be called later, as the C API allows.
- `disk_manager_get_windows_version`: reaching the end of the directory after a read error is the same as reaching its end.
- The window, permissions and main program of the installer are not part of this model.
- Functions declared in the headers but not defined in the core files are not part of this model.

## Findings

| source | as written | input that shows it | evidently intended | confidence | as-written member | corrected member |
|---|---|---|---|---|---|---|
| src/lib/disk_manager.c:243 | `g_slist_find` compares the argument's address with stored fresh copies, so no duplicate is ever found | the same device name appended twice | a device is stored once | high, not executed | DiskManagement.AppendSameNameTwice | DiskManagement.AppendSameNameTwiceOnce |
| src/lib/disk_manager.c:259-262 | `strncmp(...)` non-zero returns FALSE, so only eMMC nodes can be SSDs | "sda" with rotational "0" | eMMC nodes are never taken for SSDs, others are | high, not executed | DiskManagement.SsdTestInverted | DiskManagement.IsDeviceSsdIntended |
| src/lib/disk_manager.c:318 | the guard measures `sizeof parts`, a pointer, not the number of fields | a line holding only "/dev/sda" on a 64-bit host; any full line on a 32-bit host | lines with fewer than four fields are skipped | high, not executed | MountPoints.ShortLineMapsToNull | MountPoints.IntendedMountPointsPresent |
| src/lib/disk_manager.c:600-629 | no `break` after a valid name, so a later existing file overwrites it | etc/os-release naming the system and a usr/lib/os-release without the key | the first valid name is kept | medium, not executed | OsRelease.LaterCandidateOverwrites | OsRelease.FirstNamedDecides |
| src/lib/disk_manager.c:435 | the root is passed to `g_build_path` as the separator | root "/mnt" with Windows/System32 but no version directory | the path "<root>/Windows/System32" | high, not executed | WindowsProbes.System32ProbeMisses | WindowsProbes.WindowsVersionIntended |
| src/lib/disk_manager.c:398-407 | the same finished process is waited on three times | a mount point busy at the first attempt and free at the second | a fresh unmount per attempt | high, not executed | MountOps.BusyThenFree | MountOps.UmountDeviceRespawn |
