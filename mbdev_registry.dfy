/**
 * The device registry of mbdev.c: `struct bdev_ctrl` (a 256-bit minor map and
 * a list of devices) and `struct my_bdev`, with bdev_add, bdev_list, bdev_del
 * and the open/release reference counting.
 *
 * Kernel allocation and block-layer registration steps are not modelled as
 * code; their outcomes are inputs (`AddSteps`, `vzallocOk`).
 */
module Registry {
  import opened Machine
  import opened Wrappers
  import opened Ctrl
  import opened SectorMath
  import opened DevName

  // errno values returned negated
  const ENOMEM: int := 12
  const EFAULT: int := 14
  const EBUSY: int := 16
  const EINVAL: int := 22

  // ---- the minor bitmap, as find_first_zero_bit and bitmap_weight see it ----

  /** find_first_zero_bit: the lowest clear bit, or |s| when every bit is set. */
  function FirstZero(s: seq<bool>): (r: nat)
    ensures r <= |s|
    ensures r < |s| ==> !s[r]
    ensures forall j :: 0 <= j < r ==> s[j]
  {
    if s == [] || !s[0] then 0 else 1 + FirstZero(s[1..])
  }

  /** bitmap_weight: the number of set bits. */
  function Popcount(s: seq<bool>): (r: nat)
    ensures r <= |s|
  {
    if s == [] then 0 else Popcount(s[..|s| - 1]) + (if s[|s| - 1] then 1 else 0)
  }

  function TrueSet(s: seq<bool>): set<nat>
  {
    set i | 0 <= i < |s| && s[i]
  }

  lemma {:induction false} PopcountIsCardinality(s: seq<bool>)
    ensures Popcount(s) == |TrueSet(s)|
  {
    if s != [] {
      var t := s[..|s| - 1];
      PopcountIsCardinality(t);
      if s[|s| - 1] {
        assert TrueSet(s) == TrueSet(t) + {|s| - 1};
      } else {
        assert TrueSet(s) == TrueSet(t);
      }
    }
  }

  /** Every bit is set exactly when the population equals the width. */
  lemma {:induction false} PopcountFull(s: seq<bool>)
    ensures Popcount(s) == |s| <==> forall i :: 0 <= i < |s| ==> s[i]
  {
    if s != [] {
      var t := s[..|s| - 1];
      PopcountFull(t);
      assert forall i :: 0 <= i < |t| ==> t[i] == s[i];
    }
  }

  predicate Distinct(ms: seq<nat>)
  {
    forall i, j :: 0 <= i < j < |ms| ==> ms[i] != ms[j]
  }

  function Elems(ms: seq<nat>): set<nat>
  {
    set x | x in ms
  }

  lemma {:induction false} DistinctCardinality(ms: seq<nat>)
    requires Distinct(ms)
    ensures |Elems(ms)| == |ms|
  {
    if ms != [] {
      var t, x := ms[..|ms| - 1], ms[|ms| - 1];
      assert Distinct(t);
      DistinctCardinality(t);
      assert x !in Elems(t);
      assert Elems(ms) == Elems(t) + {x};
    }
  }

  // ---- bdev_add's sequence of fallible steps ----

  /**
   * Outcomes of the foreign calls in bdev_add, in the order they are made:
   * kzalloc, vmalloc, blk_mq_alloc_tag_set (an errno), blk_mq_alloc_disk,
   * add_disk (an errno).
   */
  datatype AddSteps = AddSteps(kzallocOk: bool, vmallocOk: bool, tagSetRc: int,
                               allocDiskOk: bool, addDiskRc: int)

  /** Whether bdev_add reaches bitmap_set and list_add_tail. */
  predicate AddLinks(minor: nat, s: AddSteps)
  {
    minor < BDEV_MAX_SZ && s.kzallocOk && s.vmallocOk && s.tagSetRc == 0
    && s.allocDiskOk && s.addDiskRc == 0
  }

  /**
   * The value bdev_add returns. `rc` starts at -ENOMEM, is overwritten by the
   * tag-set call and by add_disk; a failed blk_mq_alloc_disk jumps out with
   * rc still 0 from the tag-set call.
   */
  function AddRc(minor: nat, s: AddSteps): (rc: int)
    ensures rc == 0 <==> AddLinks(minor, s)
                         || (minor < BDEV_MAX_SZ && s.kzallocOk && s.vmallocOk && s.tagSetRc == 0 && !s.allocDiskOk)
    ensures minor >= BDEV_MAX_SZ || !s.kzallocOk || !s.vmallocOk ==> rc == -ENOMEM
    ensures minor < BDEV_MAX_SZ && s.kzallocOk && s.vmallocOk && s.tagSetRc != 0 ==> rc == s.tagSetRc
    ensures minor < BDEV_MAX_SZ && s.kzallocOk && s.vmallocOk && s.tagSetRc == 0 && s.allocDiskOk
            ==> rc == s.addDiskRc
  {
    if minor >= BDEV_MAX_SZ then -ENOMEM
    else if !s.kzallocOk || !s.vmallocOk then -ENOMEM
    else if s.tagSetRc != 0 then s.tagSetRc
    else if !s.allocDiskOk then s.tagSetRc
    else if s.addDiskRc != 0 then s.addDiskRc
    else 0
  }

  /** A failed blk_mq_alloc_disk is reported as success although nothing is registered. */
  lemma AddSilentSuccess(minor: nat, s: AddSteps)
    requires minor < BDEV_MAX_SZ && s.kzallocOk && s.vmallocOk && s.tagSetRc == 0 && !s.allocDiskOk
    ensures AddRc(minor, s) == 0 && !AddLinks(minor, s)
  {
  }

  /** tag_set.nr_hw_queues = nr_queue % num_online_cpus(). */
  function HwQueues(nrQueue: U32, cpus: nat): (q: nat)
    requires cpus > 0
    ensures q < cpus
    ensures nrQueue < cpus ==> q == nrQueue
    ensures nrQueue == cpus ==> q == 0
    ensures nrQueue % cpus == 0 ==> q == 0
  {
    nrQueue % cpus
  }

  // ---- struct my_bdev ----

  class Dev {
    const minor: U32
    const capacity: U64
    const name: seq<Byte>
    /** The vmalloc'd buffer the I/O path copies to and from. */
    const data: array<Byte>
    const nrHwQueues: nat
    const queueDepth: U32
    var refcnt: I32

    /** The per-device invariant: `data` spans `capacity`, a multiple of the sector size. */
    ghost predicate Valid()
    {
      minor < BDEV_MAX_SZ && capacity % SECTOR_SIZE == 0 && data.Length == capacity
      && name == NameField(minor)
    }

    constructor (minor: U32, capacity: U64, data: array<Byte>, nrHwQueues: nat, queueDepth: U32)
      ensures this.minor == minor && this.capacity == capacity && this.data == data
      ensures this.nrHwQueues == nrHwQueues && this.queueDepth == queueDepth
      ensures name == NameField(minor) && refcnt == 0
    {
      this.minor := minor;
      this.capacity := capacity;
      this.name := NameField(minor);
      this.data := data;
      this.nrHwQueues := nrHwQueues;
      this.queueDepth := queueDepth;
      this.refcnt := 0;
    }

    /** bdev->info, with the reference count read at this moment. */
    function Info(): BdevInfo
      reads this
    {
      BdevInfo(capacity, refcnt, minor, name)
    }

    /** mbdev_open: atomic increment of a C `int`. */
    method Open()
      modifies this`refcnt
      ensures refcnt == WrapI32(old(refcnt) + 1)
    {
      refcnt := WrapI32(refcnt + 1);
    }

    /** mbdev_release: atomic decrement of a C `int`. */
    method Release()
      modifies this`refcnt
      ensures refcnt == WrapI32(old(refcnt) - 1)
    {
      refcnt := WrapI32(refcnt - 1);
    }
  }

  /** A release undoes an open, including across the 32-bit wrap-around. */
  lemma ReleaseUndoesOpen(r: I32)
    ensures WrapI32(WrapI32(r + 1) - 1) == r
  {
    if r == 0x7FFF_FFFF {
      assert WrapI32(r + 1) == -0x8000_0000;
    }
  }

  function MinorsOf(ds: seq<Dev>): (ms: seq<nat>)
    ensures |ms| == |ds| && forall i :: 0 <= i < |ds| ==> ms[i] == ds[i].minor
  {
    seq(|ds|, i requires 0 <= i < |ds| => ds[i].minor as nat)
  }

  /** The list walk of bdev_del: the first position holding `minor`, or |ds|. */
  function FindMinor(ds: seq<Dev>, minor: nat): (r: nat)
    ensures r <= |ds|
    ensures r < |ds| ==> ds[r].minor == minor
    ensures forall k :: 0 <= k < r ==> ds[k].minor != minor
  {
    if ds == [] || ds[0].minor == minor then 0 else 1 + FindMinor(ds[1..], minor)
  }

  /**
   * The registry invariant on values: a bit is set exactly when a listed
   * device has that minor, minors are unique, and devices do not share
   * buffers.
   */
  ghost predicate Consistent(ds: seq<Dev>, bits: seq<bool>)
  {
    && |bits| == BDEV_MAX_SZ
    && (forall i :: 0 <= i < |ds| ==> ds[i].Valid())
    && (forall i, j :: 0 <= i < j < |ds| ==> ds[i].minor != ds[j].minor)
    && (forall i, j :: 0 <= i < j < |ds| ==> ds[i].data != ds[j].data)
    && (forall m :: 0 <= m < |bits| ==> (bits[m] <==> exists i :: 0 <= i < |ds| && ds[i].minor == m))
  }

  /** Linking a device under a clear minor and setting its bit keeps the invariant. */
  lemma ConsistentAppend(ds: seq<Dev>, bits: seq<bool>, d: Dev)
    requires Consistent(ds, bits) && d.Valid() && !bits[d.minor]
    requires forall i :: 0 <= i < |ds| ==> ds[i].data != d.data
    ensures Consistent(ds + [d], bits[d.minor := true])
  {
    var ds', bits' := ds + [d], bits[d.minor := true];
    forall m | 0 <= m < |bits'|
      ensures bits'[m] <==> exists i :: 0 <= i < |ds'| && ds'[i].minor == m
    {
      if m == d.minor {
        assert ds'[|ds|].minor == m;
      } else if bits'[m] {
        var i :| 0 <= i < |ds| && ds[i].minor == m;
        assert ds'[i] == ds[i];
      }
    }
  }

  /** Unlinking a device and clearing its bit keeps the invariant. */
  lemma ConsistentRemove(ds: seq<Dev>, bits: seq<bool>, i: nat)
    requires Consistent(ds, bits) && i < |ds|
    ensures Consistent(ds[..i] + ds[i + 1..], bits[ds[i].minor := false])
  {
    var ds', bits' := ds[..i] + ds[i + 1..], bits[ds[i].minor := false];
    assert forall k :: 0 <= k < |ds'| ==> ds'[k] == ds[if k < i then k else k + 1];
    forall m | 0 <= m < |bits'|
      ensures bits'[m] <==> exists k :: 0 <= k < |ds'| && ds'[k].minor == m
    {
      if m != ds[i].minor && bits'[m] {
        var j :| 0 <= j < |ds| && ds[j].minor == m;
        var k := if j < i then j else j - 1;
        assert ds'[k] == ds[j];
      }
    }
  }

  const ZERO_INFO: BdevInfo := BdevInfo(0, 0, 0, [])

  // ---- struct bdev_ctrl ----

  class Registry {
    /** One bit per minor; allocated once by ctrl_init. */
    const minorMap: array<bool>
    /** bdev_head, in insertion order. */
    var devices: seq<Dev>

    /** The standing invariant, on the current list and bitmap. */
    ghost predicate Valid()
      reads this, minorMap
    {
      Consistent(devices, minorMap[..])
    }

    /** ctrl_init: bitmap_zalloc and INIT_LIST_HEAD. */
    constructor ()
      ensures Valid() && fresh(minorMap) && devices == []
      ensures forall m :: 0 <= m < minorMap.Length ==> !minorMap[m]
    {
      minorMap := new bool[BDEV_MAX_SZ](_ => false);
      devices := [];
    }

    /** The population of the bitmap is the number of listed devices. */
    lemma DeviceCount()
      requires Valid()
      ensures Popcount(minorMap[..]) == |devices| <= BDEV_MAX_SZ
    {
      var s := minorMap[..];
      var ms := MinorsOf(devices);
      PopcountIsCardinality(s);
      assert TrueSet(s) == Elems(ms);
      DistinctCardinality(ms);
    }

    /** Add runs out of minors exactly when 256 devices are live. */
    lemma Exhausted()
      requires Valid()
      ensures FirstZero(minorMap[..]) == BDEV_MAX_SZ <==> |devices| == BDEV_MAX_SZ
    {
      DeviceCount();
      PopcountFull(minorMap[..]);
    }

    twostate predicate AddPost(cmd: AddCmd, cpus: nat, s: AddSteps, rc: int)
      requires cpus > 0
      reads this, minorMap, devices
    {
      var m := FirstZero(old(minorMap[..]));
      var n := |old(devices)|;
      && rc == AddRc(m, s)
      && if AddLinks(m, s) then
           && (forall b :: 0 <= b < minorMap.Length ==> minorMap[b] == (old(minorMap[b]) || b == m))
           && |devices| == n + 1 && devices[..n] == old(devices)
           && fresh(devices[n]) && fresh(devices[n].data)
           && devices[n].minor == m && devices[n].name == NameField(m)
           && devices[n].capacity == RoundUp(cmd.capacity) && devices[n].data.Length == devices[n].capacity
           && devices[n].refcnt == 0
           && devices[n].nrHwQueues == HwQueues(cmd.nrQueue, cpus) && devices[n].queueDepth == cmd.qdepth
         else
           minorMap[..] == old(minorMap[..]) && devices == old(devices)
    }

    /**
     * bdev_add. The device is linked in and its bit set only after every
     * step succeeded; the new buffer's contents are left unspecified.
     */
    method Add(cmd: AddCmd, cpus: nat, s: AddSteps) returns (rc: int)
      requires Valid() && cpus > 0
      modifies this, minorMap
      ensures Valid()
      ensures AddPost(cmd, cpus, s, rc)
      ensures |old(devices)| == BDEV_MAX_SZ ==> rc == -ENOMEM && devices == old(devices)
    {
      Exhausted();
      var minor := FirstZero(minorMap[..]);
      if minor == BDEV_MAX_SZ {
        return -ENOMEM;
      }
      rc := -ENOMEM;
      if !s.kzallocOk {
        return;
      }
      var capacity := RoundUp(cmd.capacity);
      if !s.vmallocOk {
        return;
      }
      var data := new Byte[capacity];
      var nrHwQueues := HwQueues(cmd.nrQueue, cpus);
      rc := s.tagSetRc;
      if rc != 0 {
        return;
      }
      if !s.allocDiskOk {
        return;
      }
      rc := s.addDiskRc;
      if rc != 0 {
        return;
      }
      var d := new Dev(minor, capacity, data, nrHwQueues, cmd.qdepth);
      ConsistentAppend(devices, minorMap[..], d);
      minorMap[minor] := true;
      devices := devices + [d];
      rc := 0;
    }

    /** The entries of a List reply: every listed device, in list order. */
    function Snapshot(): (r: seq<BdevInfo>)
      reads this, devices
      ensures |r| == |devices|
    {
      seq(|devices|, i requires 0 <= i < |devices| reads this, devices => devices[i].Info())
    }

    /**
     * bdev_list: a reply sized from the bitmap population, filled by walking
     * the list. `vzallocOk` is the outcome of the reply allocation.
     */
    method List(vzallocOk: bool) returns (r: Option<ListCmd>)
      requires Valid()
      ensures r.Some? <==> vzallocOk
      ensures r.Some? ==> r.value.size == LIST_HDR_SIZE + Popcount(minorMap[..]) * INFO_SIZE
      ensures r.Some? ==> r.value.size == ListSize(|devices|)
      ensures r.Some? ==> r.value.bdevs == Snapshot()
    {
      var nr := Popcount(minorMap[..]);
      DeviceCount();
      ListSizeBounded(nr);
      var size: U64 := LIST_HDR_SIZE + nr * INFO_SIZE;
      if !vzallocOk {
        return None;
      }
      var bdevs := new BdevInfo[nr](_ => ZERO_INFO);
      var i := 0;
      while i < |devices|
        invariant 0 <= i <= |devices|
        invariant forall k :: 0 <= k < i ==> bdevs[k] == devices[k].Info()
      {
        bdevs[i] := devices[i].Info();
        i := i + 1;
      }
      r := Some(ListCmd(size, bdevs[..]));
    }

    /** The lookup loop of bdev_del. */
    method Find(minor: nat) returns (found: bool, idx: nat)
      ensures idx == FindMinor(devices, minor)
      ensures found <==> idx < |devices|
      ensures found <==> exists k :: 0 <= k < |devices| && devices[k].minor == minor
    {
      idx := 0;
      while idx < |devices|
        invariant idx <= |devices|
        invariant forall k :: 0 <= k < idx ==> devices[k].minor != minor
      {
        if devices[idx].minor == minor {
          found := true;
          return;
        }
        idx := idx + 1;
      }
      found := false;
    }

    twostate predicate DelPost(minor: nat, rc: int)
      reads this, minorMap
    {
      var n := |old(devices)|;
      var i := FindMinor(old(devices), minor);
      if i == n then
        rc == -EINVAL && devices == old(devices) && minorMap[..] == old(minorMap[..])
      else if old(devices[i].refcnt) != 0 then
        rc == -EBUSY && devices == old(devices) && minorMap[..] == old(minorMap[..])
      else
        && rc == 0
        && devices == old(devices)[..i] + old(devices)[i + 1..]
        && (forall b :: 0 <= b < minorMap.Length ==> minorMap[b] == (old(minorMap[b]) && b != minor))
    }

    /**
     * bdev_del: an unknown minor is -EINVAL, a device with a nonzero count is
     * -EBUSY; otherwise the device is unlinked, its bit cleared, and it is
     * handed to bdev_destroy.
     */
    method Del(minor: nat) returns (rc: int)
      requires Valid()
      modifies this, minorMap
      ensures Valid()
      ensures DelPost(minor, rc)
    {
      var found, i := Find(minor);
      if !found {
        return -EINVAL;
      }
      var d := devices[i];
      if d.refcnt != 0 {
        return -EBUSY;
      }
      ConsistentRemove(devices, minorMap[..], i);
      devices := devices[..i] + devices[i + 1..];
      minorMap[d.minor] := false;
      rc := 0;
    }
  }
}
