/**
 * `InstallerPartition`: a partition with its path, size, whether its file
 * system can be resized, and the space on it as the mounted file system
 * reports it. Sizes are unsigned 64-bit quantities.
 */
module PartitionInfo {
  import opened Wrappers
  import opened Strings
  import Drives

  /** 2^64: unsigned 64-bit arithmetic is arithmetic modulo this. */
  const U64: nat := 0x1_0000_0000_0000_0000

  /** Reduction to an unsigned 64-bit value. */
  function Wrap(x: int): (r: nat)
    ensures r < U64
    ensures 0 <= x < U64 ==> r == x
  {
    x % U64
  }

  /** The `statvfs` fields the constructor reads. */
  datatype StatVfs = StatVfs(blocks: nat, bavail: nat, frsize: nat)

  /** `f_bavail * f_frsize`. */
  function FreeSpace(s: StatVfs): nat
  {
    Wrap(s.bavail * s.frsize)
  }

  /** `f_blocks * f_frsize`. */
  function TotalSpace(s: StatVfs): nat
  {
    Wrap(s.blocks * s.frsize)
  }

  /** `(f_blocks - f_bavail) * f_frsize`, the subtraction wrapping too. */
  function UsedSpace(s: StatVfs): nat
  {
    Wrap(Wrap(s.blocks - s.bavail) * s.frsize)
  }

  lemma WrapShift(x: int, k: int)
    ensures Wrap(x + k * U64) == Wrap(x)
  {
    var q := x / U64;
    assert x == q * U64 + x % U64;
    assert x + k * U64 == (q + k) * U64 + x % U64;
  }

  lemma WrapAdd(x: int, y: int)
    ensures Wrap(Wrap(x) + Wrap(y)) == Wrap(x + y)
  {
    var p, q := x / U64, y / U64;
    assert x == p * U64 + Wrap(x);
    assert y == q * U64 + Wrap(y);
    assert x + y == Wrap(x) + Wrap(y) + (p + q) * U64;
    WrapShift(Wrap(x) + Wrap(y), p + q);
  }

  lemma WrapMul(x: int, y: int)
    ensures Wrap(Wrap(x) * y) == Wrap(x * y)
  {
    var p := x / U64;
    var w := Wrap(x);
    assert x == p * U64 + w;
    Distribute(p * U64, w, y);
    assert x * y == w * y + (p * y) * U64;
    WrapShift(w * y, p * y);
  }

  lemma Distribute(a: int, b: int, y: int)
    ensures (a + b) * y == a * y + b * y
  {
  }

  /** Free and used space add up to the total, modulo 2^64. */
  lemma SpaceAddsUp(s: StatVfs)
    ensures Wrap(FreeSpace(s) + UsedSpace(s)) == TotalSpace(s)
  {
    var used, free := s.blocks - s.bavail, s.bavail;
    WrapMul(used, s.frsize);
    WrapAdd(free * s.frsize, used * s.frsize);
    Distribute(free, used, s.frsize);
  }

  lemma MulFacts(big: nat, small: nat, f: nat)
    requires small <= big
    ensures small * f <= big * f
    ensures (big - small) * f == big * f - small * f
    ensures f > 0 ==> big <= big * f
  {
  }

  /** When nothing overflows, the sum is exact and the used space is the used blocks' bytes. */
  lemma SpaceExact(s: StatVfs)
    requires s.bavail <= s.blocks && s.blocks * s.frsize < U64
    ensures UsedSpace(s) == (s.blocks - s.bavail) * s.frsize
    ensures FreeSpace(s) + UsedSpace(s) == TotalSpace(s)
  {
    UsedExact(s);
    MulFacts(s.blocks, s.bavail, s.frsize);
    assert FreeSpace(s) == s.bavail * s.frsize;
    assert TotalSpace(s) == s.blocks * s.frsize;
  }

  /** Without overflow, the used space is the bytes of the blocks not available. */
  lemma UsedExact(s: StatVfs)
    requires s.bavail <= s.blocks && s.blocks * s.frsize < U64
    ensures UsedSpace(s) == (s.blocks - s.bavail) * s.frsize
  {
    var u: nat := s.blocks - s.bavail;
    MulFacts(s.blocks, s.bavail, s.frsize);
    MulFacts(s.blocks, u, s.frsize);
    if s.frsize == 0 {
      MulZero(Wrap(u), u);
    } else {
      assert Wrap(u) == u;
    }
  }

  lemma MulZero(x: int, y: int)
    ensures x * 0 == 0 && y * 0 == 0
  {
  }

  /**
   * What the constructor learns from the outside: the partition query, the
   * file-system type of the partition's path, whether that type can be
   * resized (None when the query set an error) and `statvfs` of the mount
   * point (None when it failed).
   */
  datatype Probes = Probes(partSpec: Option<Drives.PartSpec>, fsType: CString, canResize: Option<bool>, stat: Option<StatVfs>)

  /** Construction fails at the first probe that does. */
  predicate ProbesFail(probes: Probes)
  {
    probes.partSpec.None? || !IsStringValid(probes.fsType) || probes.canResize.None? || probes.stat.None?
  }

  class Partition {
    var disk: CString
    var partition: CString
    var path: string
    var size: nat
    var resizeable: bool
    var freespace: nat
    var totalspace: nat
    var usedspace: nat

    /** The object as `g_object_new` leaves it: "disk" and "partition" go through their setters. */
    constructor (disk: CString, partition: CString)
      ensures this.disk == (if IsStringValid(disk) then disk else None)
      ensures this.partition == (if IsStringValid(partition) then partition else None)
      ensures path == [] && size == 0 && !resizeable && freespace == 0 && totalspace == 0 && usedspace == 0
    {
      this.disk, this.partition := None, None;
      path, size, resizeable := [], 0, false;
      freespace, totalspace, usedspace := 0, 0, 0;
      new;
      SetDisk(disk);
      SetPartition(partition);
    }

    /** `installer_partition_set_disk`: NULL and "" are ignored; a valid name replaces only the disk. */
    method SetDisk(value: CString)
      modifies this
      ensures disk == (if IsStringValid(value) then value else old(disk))
      ensures partition == old(partition) && path == old(path) && size == old(size)
      ensures resizeable == old(resizeable)
      ensures freespace == old(freespace) && totalspace == old(totalspace) && usedspace == old(usedspace)
    {
      if !IsStringValid(value) {
        return;
      }
      disk := value;
    }

    /** `installer_partition_set_partition`: as `SetDisk`, for the partition name. */
    method SetPartition(value: CString)
      modifies this
      ensures partition == (if IsStringValid(value) then value else old(partition))
      ensures disk == old(disk) && path == old(path) && size == old(size)
      ensures resizeable == old(resizeable)
      ensures freespace == old(freespace) && totalspace == old(totalspace) && usedspace == old(usedspace)
    {
      if !IsStringValid(value) {
        return;
      }
      partition := value;
    }
  }

  /**
   * `installer_partition_new`: null at the first failing probe, otherwise a
   * partition with the path and size of its description and the space of
   * its mounted file system.
   */
  method NewPartition(disk: CString, partition: CString, probes: Probes) returns (p: Partition?)
    ensures p == null <==> ProbesFail(probes)
    ensures p != null ==> fresh(p)
    ensures p != null ==> p.disk == (if IsStringValid(disk) then disk else None)
    ensures p != null ==> p.partition == (if IsStringValid(partition) then partition else None)
    ensures p != null ==> p.path == probes.partSpec.value.path && p.size == probes.partSpec.value.size
    ensures p != null ==> p.resizeable == probes.canResize.value
    ensures p != null ==> p.freespace == FreeSpace(probes.stat.value)
    ensures p != null ==> p.totalspace == TotalSpace(probes.stat.value)
    ensures p != null ==> p.usedspace == UsedSpace(probes.stat.value)
  {
    var self := new Partition(disk, partition);
    if probes.partSpec.None? {
      return null;
    }
    self.path := probes.partSpec.value.path;
    self.size := probes.partSpec.value.size;
    if !IsStringValid(probes.fsType) {
      return null;
    }
    if probes.canResize.None? {
      return null;
    }
    self.resizeable := probes.canResize.value;
    if probes.stat.None? {
      return null;
    }
    var buf := probes.stat.value;
    self.freespace := Wrap(buf.bavail * buf.frsize);
    self.totalspace := Wrap(buf.blocks * buf.frsize);
    self.usedspace := Wrap(Wrap(buf.blocks - buf.bavail) * buf.frsize);
    p := self;
  }
}
