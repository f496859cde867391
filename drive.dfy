/**
 * `InstallerDrive`: a disk with its partition table description, and the
 * swap partitions on it, largest first.
 */
module Drives {
  import opened Wrappers
  import opened Strings
  import OperatingSystems

  /** A partition as the block-device library describes it; `swap` says its flags include the swap flag. */
  datatype PartSpec = PartSpec(path: string, size: nat, swap: bool)

  /** A disk as the block-device library describes it. */
  datatype DiskSpec = DiskSpec(path: string, size: nat)

  /** `sort_swap_partitions`: negative when `a` is larger, positive when smaller, zero on a tie. */
  function CompareSwap(a: PartSpec, b: PartSpec): (r: int)
    ensures r == -1 <==> a.size > b.size
    ensures r == 1 <==> a.size < b.size
    ensures r == 0 <==> a.size == b.size
  {
    if a.size > b.size then -1
    else if a.size < b.size then 1
    else 0
  }

  /** The comparator is antisymmetric. */
  lemma CompareSwapAntisymmetric(a: PartSpec, b: PartSpec)
    ensures CompareSwap(a, b) == -CompareSwap(b, a)
  {
  }

  /** Largest first. */
  predicate SortedBySize(xs: seq<PartSpec>)
  {
    forall i, j :: 0 <= i < j < |xs| ==> xs[i].size >= xs[j].size
  }

  /**
   * `g_slist_insert_sorted` with `sort_swap_partitions`: walk past the
   * elements the new one compares greater than, and insert before the
   * first it does not.
   */
  function InsertSorted(xs: seq<PartSpec>, x: PartSpec): seq<PartSpec>
  {
    if xs == [] then [x]
    else if CompareSwap(x, xs[0]) > 0 then [xs[0]] + InsertSorted(xs[1..], x)
    else [x] + xs
  }

  /** Insertion adds the new partition and keeps every other. */
  lemma {:induction false} InsertPermutes(xs: seq<PartSpec>, x: PartSpec)
    ensures multiset(InsertSorted(xs, x)) == multiset(xs) + multiset{x}
  {
    if xs != [] && CompareSwap(x, xs[0]) > 0 {
      InsertPermutes(xs[1..], x);
      assert xs == [xs[0]] + xs[1..];
    }
  }

  /**
   * Into a sorted list, the new partition goes after every larger one and
   * before every other: before those of its own size in particular.
   */
  lemma {:induction false} InsertAt(xs: seq<PartSpec>, x: PartSpec) returns (k: nat)
    requires SortedBySize(xs)
    ensures k <= |xs| && InsertSorted(xs, x) == xs[..k] + [x] + xs[k..]
    ensures forall i :: 0 <= i < k ==> xs[i].size > x.size
    ensures forall i :: k <= i < |xs| ==> xs[i].size <= x.size
  {
    if xs == [] {
      k := 0;
    } else if CompareSwap(x, xs[0]) > 0 {
      var tail := xs[1..];
      SortedTail(xs);
      var k' := InsertAt(tail, x);
      k := k' + 1;
      InsertFront(xs, x, tail[..k'], tail[k'..]);
      forall i | 0 <= i < k ensures xs[i].size > x.size {
        if i > 0 {
          assert xs[i] == tail[i - 1];
        }
      }
      forall i | k <= i < |xs| ensures xs[i].size <= x.size {
        assert xs[i] == tail[i - 1];
      }
    } else {
      k := 0;
      forall i | 0 <= i < |xs| ensures xs[i].size <= x.size {
        assert xs[0].size >= xs[i].size;
      }
    }
  }

  lemma SortedTail(xs: seq<PartSpec>)
    requires xs != [] && SortedBySize(xs)
    ensures SortedBySize(xs[1..])
  {
    var tail := xs[1..];
    forall i, j | 0 <= i < j < |tail| ensures tail[i].size >= tail[j].size {
      assert tail[i] == xs[i + 1] && tail[j] == xs[j + 1];
    }
  }

  /** Passing over the first element: the insertion into the tail, with that element in front. */
  lemma InsertFront(xs: seq<PartSpec>, x: PartSpec, before: seq<PartSpec>, after: seq<PartSpec>)
    requires xs != [] && CompareSwap(x, xs[0]) > 0
    requires xs[1..] == before + after && InsertSorted(xs[1..], x) == before + [x] + after
    ensures InsertSorted(xs, x) == xs[..|before| + 1] + [x] + xs[|before| + 1..]
  {
    assert xs[..|before| + 1] == [xs[0]] + before;
    assert xs[|before| + 1..] == after;
  }

  /** Insertion keeps the list sorted. */
  lemma InsertKeepsSorted(xs: seq<PartSpec>, x: PartSpec)
    requires SortedBySize(xs)
    ensures SortedBySize(InsertSorted(xs, x))
  {
    var k := InsertAt(xs, x);
    var r := InsertSorted(xs, x);
    forall i, j | 0 <= i < j < |r| ensures r[i].size >= r[j].size {
      if i < k && j < k {
        assert r[i] == xs[i] && r[j] == xs[j];
      } else if i < k && j == k {
        assert r[i] == xs[i] && r[j] == x;
      } else if i < k {
        assert r[i] == xs[i] && r[j] == xs[j - 1];
      } else if i == k {
        assert r[i] == x && r[j] == xs[j - 1];
      } else {
        assert r[i] == xs[i - 1] && r[j] == xs[j - 1];
      }
    }
  }

  /** The queried partitions whose flags include the swap flag, in discovery order. */
  function Swaps(ps: seq<PartSpec>): (r: seq<PartSpec>)
    ensures forall x :: x in r <==> x in ps && x.swap
  {
    if ps == [] then []
    else
      var last := ps[|ps| - 1];
      Swaps(ps[..|ps| - 1]) + (if last.swap then [last] else [])
  }

  /** The list `installer_drive_get_swap_partitions` builds from the queried partitions. */
  function SwapList(ps: seq<PartSpec>): seq<PartSpec>
  {
    if ps == [] then []
    else
      var last := ps[|ps| - 1];
      var acc := SwapList(ps[..|ps| - 1]);
      if last.swap then InsertSorted(acc, last) else acc
  }

  /** The swap list holds exactly the swap partitions, each as often as it was queried. */
  lemma {:induction false} SwapListPermutation(ps: seq<PartSpec>)
    ensures multiset(SwapList(ps)) == multiset(Swaps(ps))
  {
    if ps != [] {
      SwapListPermutation(ps[..|ps| - 1]);
      InsertPermutes(SwapList(ps[..|ps| - 1]), ps[|ps| - 1]);
    }
  }

  /** The swap list is sorted largest first. */
  lemma {:induction false} SwapListSorted(ps: seq<PartSpec>)
    ensures SortedBySize(SwapList(ps))
  {
    if ps != [] {
      SwapListSorted(ps[..|ps| - 1]);
      if ps[|ps| - 1].swap {
        InsertKeepsSorted(SwapList(ps[..|ps| - 1]), ps[|ps| - 1]);
      }
    }
  }

  /**
   * A swap partition found later lands before every earlier one of its
   * size: equal sizes come out in reverse discovery order.
   */
  lemma LaterTieFirst(ps: seq<PartSpec>, x: PartSpec) returns (k: nat)
    requires x.swap
    ensures k <= |SwapList(ps)|
    ensures SwapList(ps + [x]) == SwapList(ps)[..k] + [x] + SwapList(ps)[k..]
    ensures forall i :: 0 <= i < |SwapList(ps)| && SwapList(ps)[i].size == x.size ==> k <= i
  {
    assert (ps + [x])[..|ps|] == ps;
    SwapListSorted(ps);
    k := InsertAt(SwapList(ps), x);
  }

  /** Two swap partitions of one size, found in order `a`, `b`, come out as `b`, `a`. */
  lemma TwoTiesReversed(a: PartSpec, b: PartSpec)
    requires a.swap && b.swap && a.size == b.size
    ensures SwapList([a, b]) == [b, a]
  {
    assert [a, b][..1] == [a];
    assert [a][..0] == [];
    assert SwapList([a]) == InsertSorted([], a) == [a];
    assert InsertSorted([a], b) == [b, a];
  }

  /** How `%s` shows a string that may be NULL. */
  function Shown(s: CString): string
  {
    if s.Some? then s.value else "(null)"
  }

  /** The text after the last `c` in `s`, or all of `s` when there is none. */
  function AfterLast(s: string, c: char): (r: string)
    ensures c !in r && |r| <= |s| && r == s[|s| - |r|..]
  {
    if s == [] then []
    else if s[|s| - 1] == c then []
    else AfterLast(s[..|s| - 1], c) + [s[|s| - 1]]
  }

  /** The disk path a display string ends with: between the last "(" and the closing ")". */
  function DisplayedPath(s: string): string
  {
    if s != [] && s[|s| - 1] == ')' then AfterLast(s[..|s| - 1], '(') else []
  }

  lemma {:induction false} AfterLastOf(a: string, c: char, b: string)
    requires c !in b
    ensures AfterLast(a + [c] + b, c) == b
  {
    if b != [] {
      var s := a + [c] + b;
      assert s[..|s| - 1] == a + [c] + b[..|b| - 1];
      AfterLastOf(a, c, b[..|b| - 1]);
    }
  }

  /**
   * The display string splits into the model and a space, the size text,
   * and the path in parentheses after a space.
   */
  lemma DisplayShape(model: string, size: string, path: string)
    ensures var s := model + " " + size + " (" + path + ")";
      |s| == |model| + |size| + |path| + 4 &&
      s[..|model| + 1] == model + " " &&
      s[|model| + 1..|s| - |path| - 3] == size &&
      s[|s| - |path| - 3..] == " (" + path + ")"
  {
    var head, tail := model + " ", " (" + path + ")";
    var s := model + " " + size + " (" + path + ")";
    assert s == head + size + tail;
    assert s[..|head|] == head;
    assert s[|head|..|s| - |tail|] == size;
    assert s[|s| - |tail|..] == tail;
  }

  /** The display string gives back the path when the path holds no "(". */
  lemma DisplayPathBack(model: string, size: string, path: string)
    ensures '(' !in path ==> DisplayedPath(model + " " + size + " (" + path + ")") == path
  {
    if '(' !in path {
      var lead := model + " " + size + " ";
      var s := lead + ['('] + path + [')'];
      assert s == model + " " + size + " (" + path + ")";
      assert s[..|s| - 1] == lead + ['('] + path;
      AfterLastOf(lead, '(', path);
    }
  }

  class Drive {
    var disk: Option<DiskSpec>
    var device: CString
    var vendor: CString
    var model: CString
    var operatingSystems: map<string, OperatingSystems.Os>

    constructor (device: CString, disk: DiskSpec, vendor: CString, model: CString, ops: map<string, OperatingSystems.Os>)
      ensures this.disk == Some(disk)
      ensures this.device == device && this.vendor == vendor && this.model == model && operatingSystems == ops
    {
      this.disk := Some(disk);
      this.device, this.vendor, this.model := device, vendor, model;
      operatingSystems := ops;
    }

    /**
     * `installer_drive_get_swap_partitions`; `query` is what the partition
     * query on the device returned, null when it failed.
     */
    method GetSwapPartitions(query: array?<PartSpec>) returns (parts: seq<PartSpec>)
      ensures disk.None? || query == null ==> parts == []
      ensures disk.Some? && query != null ==> parts == SwapList(query[..])
    {
      parts := [];
      if disk.None? || query == null {
        return;
      }
      var i := 0;
      while i < query.Length
        invariant 0 <= i <= query.Length
        invariant parts == SwapList(query[..i])
      {
        var spec := query[i];
        assert query[..i + 1][..i] == query[..i];
        if spec.swap {
          parts := InsertSorted(parts, spec);
        }
        i := i + 1;
      }
      assert query[..query.Length] == query[..];
    }

    /**
     * `installer_drive_get_display_string`: "<model> <size> (<disk path>)";
     * `formatSize` stands for the library's size formatting.
     */
    function DisplayString(formatSize: nat -> string): (s: string)
      reads this
      requires disk.Some?
      ensures '(' !in disk.value.path ==> DisplayedPath(s) == disk.value.path
      ensures |s| == |Shown(model)| + |formatSize(disk.value.size)| + |disk.value.path| + 4
      ensures s[..|Shown(model)| + 1] == Shown(model) + " "
      ensures s[|Shown(model)| + 1..|s| - |disk.value.path| - 3] == formatSize(disk.value.size)
      ensures s[|s| - |disk.value.path| - 3..] == " (" + disk.value.path + ")"
    {
      DisplayShape(Shown(model), formatSize(disk.value.size), disk.value.path);
      DisplayPathBack(Shown(model), formatSize(disk.value.size), disk.value.path);
      Shown(model) + " " + formatSize(disk.value.size) + " (" + disk.value.path + ")"
    }
  }

  /**
   * `installer_drive_new`; `spec` is the disk description the library
   * returned for the disk, None when it failed.
   */
  method NewDrive(device: CString, spec: Option<DiskSpec>, vendor: CString, model: CString,
                  ops: map<string, OperatingSystems.Os>) returns (d: Drive?)
    ensures spec.None? <==> d == null
    ensures d != null ==> fresh(d) && d.disk == spec
    ensures d != null ==> d.device == device && d.vendor == vendor && d.model == model && d.operatingSystems == ops
  {
    if spec.None? {
      return null;
    }
    d := new Drive(device, spec.value, vendor, model, ops);
  }
}
