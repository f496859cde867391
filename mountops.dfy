/**
 * `disk_manager_mount_device` and `disk_manager_umount_device`. Processes
 * are not run: a `Launcher` hands out the outcome of each spawn from a
 * given sequence and records every argument vector spawned and every
 * process waited on. A process that has exited reports the same status
 * each time it is waited on.
 */
module MountOps {
  import opened Wrappers
  import opened Strings

  /** What a spawn does: it fails, or it starts a process that will exit with or without success. */
  datatype Outcome = SpawnFails | Exits(success: bool)

  /** A started process: its place in the spawn log, and whether it exits with success. */
  datatype Process = Process(id: nat, success: bool)

  class Launcher {
    /** The outcomes of the spawns still to come; once they run out, spawning fails. */
    var pending: seq<Outcome>
    /** The argument vector of every spawn attempted, in order. */
    var log: seq<seq<string>>
    /** The process of every `g_subprocess_wait_check`, in order. */
    var waits: seq<nat>

    constructor (outcomes: seq<Outcome>)
      ensures pending == outcomes && log == [] && waits == []
    {
      pending := outcomes;
      log := [];
      waits := [];
    }

    /** `g_subprocess_new`: None when the spawn fails. */
    method Spawn(argv: seq<string>) returns (p: Option<Process>)
      modifies this
      ensures log == old(log) + [argv] && waits == old(waits)
      ensures pending == if old(pending) == [] then [] else old(pending)[1..]
      ensures p == if old(pending) == [] || old(pending)[0].SpawnFails? then None
                   else Some(Process(|old(log)|, old(pending)[0].success))
    {
      var next := if pending == [] then SpawnFails else pending[0];
      p := if next.SpawnFails? then None else Some(Process(|log|, next.success));
      log := log + [argv];
      pending := if pending == [] then [] else pending[1..];
    }

    /** `g_subprocess_wait_check`: the exit status, the same on every call. */
    method WaitCheck(p: Process) returns (ok: bool)
      modifies this
      ensures ok == p.success
      ensures waits == old(waits) + [p.id] && log == old(log) && pending == old(pending)
    {
      ok := p.success;
      waits := waits + [p.id];
    }
  }

  // ---------------------------------------------------------------------
  // disk_manager_mount_device

  /** `mount -t <fs> <device> <mpoint>`, then `-o <options>` when options are given. */
  function MountArgv(device: string, mpoint: string, fsystem: string, options: CString): (argv: seq<string>)
    ensures |argv| == if options.Some? then 7 else 5
    ensures argv[..5] == ["mount", "-t", fsystem, device, mpoint]
  {
    ["mount", "-t", fsystem, device, mpoint] + (if options.Some? then ["-o", options.value] else [])
  }

  /** Reads a mount command line back: device, mount point, file system and options. */
  function ParseMountArgv(argv: seq<string>): Option<(string, string, string, CString)>
  {
    if |argv| == 5 && argv[0] == "mount" && argv[1] == "-t" then Some((argv[3], argv[4], argv[2], None))
    else if |argv| == 7 && argv[0] == "mount" && argv[1] == "-t" && argv[5] == "-o" then
      Some((argv[3], argv[4], argv[2], Some(argv[6])))
    else None
  }

  /** The command line carries exactly the arguments it was built from. */
  lemma MountArgvRoundTrip(device: string, mpoint: string, fsystem: string, options: CString)
    ensures ParseMountArgv(MountArgv(device, mpoint, fsystem, options)) == Some((device, mpoint, fsystem, options))
  {
  }

  /** Two mount command lines are equal only when built from the same arguments. */
  lemma MountArgvInjective(d1: string, m1: string, f1: string, o1: CString, d2: string, m2: string, f2: string, o2: CString)
    requires MountArgv(d1, m1, f1, o1) == MountArgv(d2, m2, f2, o2)
    ensures d1 == d2 && m1 == m2 && f1 == f2 && o1 == o2
  {
    MountArgvRoundTrip(d1, m1, f1, o1);
    MountArgvRoundTrip(d2, m2, f2, o2);
  }

  /**
   * `disk_manager_mount_device`: one spawn of the mount command; a failed
   * spawn gives FALSE, otherwise the exit status decides.
   */
  method MountDevice(launcher: Launcher, device: string, mpoint: string, fsystem: string, options: CString) returns (ok: bool)
    modifies launcher
    ensures launcher.log == old(launcher.log) + [MountArgv(device, mpoint, fsystem, options)]
    ensures ok <==> old(launcher.pending) != [] && old(launcher.pending)[0] == Exits(true)
  {
    var argv: seq<string>;
    if options.Some? {
      argv := ["mount", "-t", fsystem, device, mpoint, "-o", options.value];
    } else {
      argv := ["mount", "-t", fsystem, device, mpoint];
    }
    assert argv == MountArgv(device, mpoint, fsystem, options);
    var proc := launcher.Spawn(argv);
    if proc.None? {
      return false;
    }
    ok := launcher.WaitCheck(proc.value);
  }

  // ---------------------------------------------------------------------
  // disk_manager_umount_device

  function PlainUmount(mpoint: string): seq<string>
  {
    ["umount", mpoint]
  }

  function LazyUmount(mpoint: string): seq<string>
  {
    ["umount", "-l", mpoint]
  }

  /** The next outcome of an oracle, spawn failure once it has run out. */
  function Next(pending: seq<Outcome>): Outcome
  {
    if pending == [] then SpawnFails else pending[0]
  }

  function Rest(pending: seq<Outcome>): seq<Outcome>
  {
    if pending == [] then [] else pending[1..]
  }

  /**
   * The commands `disk_manager_umount_device` spawns: the plain unmount,
   * and the lazy one only when the plain one started and failed.
   */
  function UmountCommands(mpoint: string, pending: seq<Outcome>): (cmds: seq<seq<string>>)
    ensures 1 <= |cmds| <= 2 && cmds[0] == PlainUmount(mpoint)
    ensures |cmds| == 2 <==> Next(pending) == Exits(false)
  {
    if Next(pending) == Exits(false) then [PlainUmount(mpoint), LazyUmount(mpoint)] else [PlainUmount(mpoint)]
  }

  /** The answer of `disk_manager_umount_device`: success of the plain unmount, else of the lazy one. */
  function UmountResult(pending: seq<Outcome>): bool
  {
    match Next(pending)
    case SpawnFails => false
    case Exits(true) => true
    case Exits(false) => Next(Rest(pending)) == Exits(true)
  }

  /**
   * `disk_manager_umount_device` as written: the plain unmount is spawned
   * once and the SAME process is checked up to three times, so a failure is
   * seen three times over before the lazy unmount is tried once.
   */
  method UmountDevice(launcher: Launcher, mpoint: string) returns (ok: bool)
    modifies launcher
    ensures launcher.log == old(launcher.log) + UmountCommands(mpoint, old(launcher.pending))
    ensures ok == UmountResult(old(launcher.pending))
    ensures Next(old(launcher.pending)).SpawnFails? ==> launcher.waits == old(launcher.waits)
    ensures Next(old(launcher.pending)) == Exits(true) ==> launcher.waits == old(launcher.waits) + [|old(launcher.log)|]
    ensures Next(old(launcher.pending)) == Exits(false) && Next(Rest(old(launcher.pending))).Exits? ==>
      var first := |old(launcher.log)|;
      launcher.waits == old(launcher.waits) + [first, first, first, first + 1]
    ensures Next(old(launcher.pending)) == Exits(false) && Next(Rest(old(launcher.pending))).SpawnFails? ==>
      var first := |old(launcher.log)|;
      launcher.waits == old(launcher.waits) + [first, first, first]
  {
    var proc := launcher.Spawn(PlainUmount(mpoint));
    if proc.None? {
      return false;
    }
    var process := proc.value;
    var tryCount := 0;
    while tryCount < 3
      invariant 0 <= tryCount <= 3
      invariant launcher.log == old(launcher.log) + [PlainUmount(mpoint)]
      invariant launcher.pending == Rest(old(launcher.pending))
      invariant launcher.waits == old(launcher.waits) + seq(tryCount, _ => process.id)
      invariant tryCount > 0 ==> !process.success
    {
      tryCount := tryCount + 1;
      var done := launcher.WaitCheck(process);
      if done {
        assert seq(1, _ => process.id) == [process.id];
        return true;
      }
    }
    assert seq(3, _ => process.id) == [process.id, process.id, process.id];
    proc := launcher.Spawn(LazyUmount(mpoint));
    if proc.None? {
      return false;
    }
    ok := launcher.WaitCheck(proc.value);
  }

  /** Once the plain unmount has failed, the answer is that of the lazy unmount alone. */
  lemma RetryNeverRescues(pending: seq<Outcome>)
    requires Next(pending) == Exits(false)
    ensures UmountResult(pending) <==> Next(Rest(pending)) == Exits(true)
    ensures UmountResult(pending) ==> |pending| >= 2 && pending[1] == Exits(true)
  {
  }

  // ---------------------------------------------------------------------
  // The retry as intended: a fresh unmount on each attempt

  /** The commands when every attempt spawns a fresh plain unmount, up to three, before the lazy one. */
  function RespawnCommands(mpoint: string, pending: seq<Outcome>, tries: nat): (cmds: seq<seq<string>>)
    ensures |cmds| >= 1
    decreases tries
  {
    if tries == 0 then [LazyUmount(mpoint)]
    else if Next(pending) == Exits(false) then [PlainUmount(mpoint)] + RespawnCommands(mpoint, Rest(pending), tries - 1)
    else [PlainUmount(mpoint)]
  }

  function RespawnResult(pending: seq<Outcome>, tries: nat): bool
    decreases tries
  {
    if tries == 0 then Next(pending) == Exits(true)
    else
      match Next(pending)
      case SpawnFails => false
      case Exits(true) => true
      case Exits(false) => RespawnResult(Rest(pending), tries - 1)
  }

  /** An unmount that succeeds on one of the three attempts needs no lazy unmount. */
  lemma {:induction false} RespawnRecovers(mpoint: string, pending: seq<Outcome>, tries: nat, k: nat)
    requires k < tries && k < |pending|
    requires forall i :: 0 <= i < k ==> pending[i] == Exits(false)
    requires pending[k] == Exits(true)
    ensures RespawnResult(pending, tries)
    ensures LazyUmount(mpoint) !in RespawnCommands(mpoint, pending, tries)
    ensures |RespawnCommands(mpoint, pending, tries)| == k + 1
    decreases k
  {
    if k > 0 {
      assert pending[0] == Exits(false);
      forall i | 0 <= i < k - 1 ensures pending[1..][i] == Exits(false) {
        assert pending[1..][i] == pending[i + 1];
      }
      RespawnRecovers(mpoint, pending[1..], tries - 1, k - 1);
      assert PlainUmount(mpoint) != LazyUmount(mpoint);
    }
  }

  /** Plain unmount attempts before the lazy one. */
  const Attempts: nat := 3

  /**
   * The retry loop with a fresh process per attempt: up to three plain
   * unmounts, stopping at the first success, then the lazy one.
   */
  method UmountDeviceRespawn(launcher: Launcher, mpoint: string) returns (ok: bool)
    modifies launcher
    ensures launcher.log == old(launcher.log) + RespawnCommands(mpoint, old(launcher.pending), Attempts)
    ensures ok == RespawnResult(old(launcher.pending), Attempts)
  {
    ghost var total := old(launcher.log) + RespawnCommands(mpoint, launcher.pending, Attempts);
    ghost var result := RespawnResult(launcher.pending, Attempts);
    var tryCount := 0;
    while tryCount < Attempts
      invariant 0 <= tryCount <= Attempts
      invariant launcher.log + RespawnCommands(mpoint, launcher.pending, Attempts - tryCount) == total
      invariant RespawnResult(launcher.pending, Attempts - tryCount) == result
    {
      ghost var log := launcher.log;
      var stop, done := Attempt(launcher, mpoint, Attempts - tryCount);
      if stop {
        return done;
      }
      AppendAssoc(log, [PlainUmount(mpoint)], RespawnCommands(mpoint, launcher.pending, Attempts - tryCount - 1));
      tryCount := tryCount + 1;
    }
    ok := LastResort(launcher, mpoint);
  }

  /** The lazy unmount once the plain attempts are used up. */
  method LastResort(launcher: Launcher, mpoint: string) returns (ok: bool)
    modifies launcher
    ensures launcher.log == old(launcher.log) + RespawnCommands(mpoint, old(launcher.pending), 0)
    ensures ok == RespawnResult(old(launcher.pending), 0)
  {
    var proc := launcher.Spawn(LazyUmount(mpoint));
    if proc.None? {
      return false;
    }
    ok := launcher.WaitCheck(proc.value);
  }

  /** One plain unmount with a fresh process; `stop` when it could not start or succeeded. */
  method Attempt(launcher: Launcher, mpoint: string, ghost tries: nat) returns (stop: bool, ok: bool)
    requires tries > 0
    modifies launcher
    ensures launcher.log == old(launcher.log) + [PlainUmount(mpoint)]
    ensures stop ==> ok == RespawnResult(old(launcher.pending), tries)
    ensures stop ==> RespawnCommands(mpoint, old(launcher.pending), tries) == [PlainUmount(mpoint)]
    ensures !stop ==>
      RespawnCommands(mpoint, old(launcher.pending), tries) == [PlainUmount(mpoint)] + RespawnCommands(mpoint, launcher.pending, tries - 1)
    ensures !stop ==> RespawnResult(old(launcher.pending), tries) == RespawnResult(launcher.pending, tries - 1)
  {
    RespawnStep(mpoint, launcher.pending, tries);
    var proc := launcher.Spawn(PlainUmount(mpoint));
    if proc.None? {
      return true, false;
    }
    ok := launcher.WaitCheck(proc.value);
    stop := ok;
  }

  /** One attempt of the respawning loop: stop on a success or a failed spawn, go on after a failure. */
  lemma RespawnStep(mpoint: string, pending: seq<Outcome>, tries: nat)
    requires tries > 0
    ensures Next(pending) != Exits(false) ==> RespawnCommands(mpoint, pending, tries) == [PlainUmount(mpoint)]
    ensures Next(pending) == Exits(false) ==>
      RespawnCommands(mpoint, pending, tries) == [PlainUmount(mpoint)] + RespawnCommands(mpoint, Rest(pending), tries - 1) &&
      RespawnResult(pending, tries) == RespawnResult(Rest(pending), tries - 1)
    ensures Next(pending).SpawnFails? ==> !RespawnResult(pending, tries)
    ensures Next(pending) == Exits(true) ==> RespawnResult(pending, tries)
  {
  }

  lemma AppendAssoc(a: seq<seq<string>>, b: seq<seq<string>>, c: seq<seq<string>>)
    ensures a + b + c == a + (b + c)
  {
  }

  /**
   * A mount point busy at the first attempt and free at the second: as
   * written the lazy unmount is used anyway, with a fresh process per
   * attempt the second plain unmount succeeds.
   */
  method BusyThenFree(mpoint: string) returns (asWritten: seq<seq<string>>, respawned: seq<seq<string>>)
    ensures asWritten == [["umount", mpoint], ["umount", "-l", mpoint]]
    ensures respawned == [["umount", mpoint], ["umount", mpoint]]
  {
    var first := new Launcher([Exits(false), Exits(true)]);
    var ok1 := UmountDevice(first, mpoint);
    asWritten := first.log;
    var second := new Launcher([Exits(false), Exits(true)]);
    var ok2 := UmountDeviceRespawn(second, mpoint);
    respawned := second.log;
  }
}
