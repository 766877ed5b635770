/**
 * The control character device of main.c: ioctl dispatch over the three
 * command numbers, the copies between user memory and the command records,
 * and the module-exit teardown. The initial state set up by ctrl_init (an
 * all-clear bitmap and an empty list) is `Registry.Registry`'s constructor.
 *
 * User memory at the ioctl argument is a byte sequence: the bytes the
 * caller can be copied from and to. A NULL or unmapped argument is one that
 * is too short for the copy.
 */
module Control {
  import opened Machine
  import opened Wrappers
  import opened Ctrl
  import opened Registry

  /** Outcomes the kernel decides during one call. */
  datatype Env = Env(
    /** num_online_cpus() */
    cpus: nat,
    /** The allocation and registration steps of an Add. */
    steps: AddSteps,
    /** Whether vzalloc of the List reply succeeds. */
    listAllocOk: bool)

  /** Every record the registry lists has a full-width name field. */
  lemma SnapshotNames(c: Registry)
    requires c.Valid()
    ensures NamesWellFormed(c.Snapshot())
  {
  }

  /**
   * The bytes a successful List copies out: an 8-byte `size` and one
   * 40-byte record per device, in list order.
   */
  function ReplyOf(c: Registry): (r: seq<Byte>)
    requires c.Valid()
    reads c, c.minorMap, c.devices
    ensures |r| == ListSize(|c.devices|) <= ListSize(BDEV_MAX_SZ)
  {
    c.DeviceCount();
    ListSizeBounded(|c.devices|);
    SnapshotNames(c);
    EncodeListReply(ListCmd(ListSize(|c.devices|), c.Snapshot()))
  }

  predicate KnownCommand(ops: nat)
  {
    ops == BdevCtrlAdd() || ops == BdevCtrlList() || ops == BdevCtrlDel()
  }

  /** The BDEV_CTRL_ADD case: copy the 16-byte request in, then bdev_add. */
  method IoctlAdd(c: Registry, user: seq<Byte>, env: Env) returns (rc: int)
    requires c.Valid() && env.cpus > 0
    modifies c, c.minorMap
    ensures c.Valid()
    ensures if |user| < ADD_CMD_SIZE then
              rc == -EFAULT && c.devices == old(c.devices) && c.minorMap[..] == old(c.minorMap[..])
            else
              c.AddPost(DecodeAdd(user[..ADD_CMD_SIZE]), env.cpus, env.steps, rc)
  {
    if |user| < ADD_CMD_SIZE {
      return -EFAULT;
    }
    rc := c.Add(DecodeAdd(user[..ADD_CMD_SIZE]), env.cpus, env.steps);
  }

  /** The BDEV_CTRL_DEL case: copy the 4-byte request in, then bdev_del. */
  method IoctlDel(c: Registry, user: seq<Byte>) returns (rc: int)
    requires c.Valid()
    modifies c, c.minorMap
    ensures c.Valid()
    ensures if |user| < DEL_CMD_SIZE then
              rc == -EFAULT && c.devices == old(c.devices) && c.minorMap[..] == old(c.minorMap[..])
            else
              c.DelPost(DecodeDel(user[..DEL_CMD_SIZE]).minor, rc)
  {
    if |user| < DEL_CMD_SIZE {
      return -EFAULT;
    }
    rc := c.Del(DecodeDel(user[..DEL_CMD_SIZE]).minor);
  }

  /**
   * The BDEV_CTRL_LIST case: bdev_list, then copy `size` bytes out. The
   * registry is not changed.
   */
  method IoctlList(c: Registry, user: seq<Byte>, env: Env) returns (rc: int, user': seq<Byte>)
    requires c.Valid()
    ensures |user'| == |user|
    ensures var reply := ReplyOf(c);
            if env.listAllocOk && |reply| <= |user| then
              rc == 0 && user' == reply + user[|reply|..]
            else
              rc == -EFAULT && user' == user
  {
    user' := user;
    var listCmd := c.List(env.listAllocOk);
    if listCmd.None? {
      return -EFAULT, user;
    }
    c.DeviceCount();
    SnapshotNames(c);
    var bytes := EncodeListReply(listCmd.value);
    assert bytes == ReplyOf(c);
    if |user| < |bytes| {
      return -EFAULT, user;
    }
    user' := bytes + user[|bytes|..];
    rc := 0;
  }

  /**
   * ctrl_ioctl. `user` is the caller's memory at the argument and `user'`
   * that memory afterwards. An unknown command is -EINVAL; a failed copy in
   * or out is -EFAULT; Add and Delete pass on the registry's code; on
   * success the result is 0.
   */
  method Ioctl(c: Registry, ops: U32, user: seq<Byte>, env: Env) returns (rc: int, user': seq<Byte>)
    requires c.Valid() && env.cpus > 0
    modifies c, c.minorMap
    ensures c.Valid()
    ensures |user'| == |user|
    ensures !KnownCommand(ops) ==>
              rc == -EINVAL && user' == user
              && c.devices == old(c.devices) && c.minorMap[..] == old(c.minorMap[..])
    ensures ops == BdevCtrlAdd() ==>
              user' == user
              && if |user| < ADD_CMD_SIZE then
                   rc == -EFAULT && c.devices == old(c.devices) && c.minorMap[..] == old(c.minorMap[..])
                 else
                   c.AddPost(DecodeAdd(user[..ADD_CMD_SIZE]), env.cpus, env.steps, rc)
    ensures ops == BdevCtrlDel() ==>
              user' == user
              && if |user| < DEL_CMD_SIZE then
                   rc == -EFAULT && c.devices == old(c.devices) && c.minorMap[..] == old(c.minorMap[..])
                 else
                   c.DelPost(DecodeDel(user[..DEL_CMD_SIZE]).minor, rc)
    ensures ops == BdevCtrlList() ==>
              && c.devices == old(c.devices) && c.minorMap[..] == old(c.minorMap[..])
              && var reply := ReplyOf(c);
                 if env.listAllocOk && |reply| <= |user| then
                   rc == 0 && user' == reply + user[|reply|..]
                 else
                   rc == -EFAULT && user' == user
  {
    CommandValues();
    user' := user;
    if ops == BdevCtrlAdd() {
      rc := IoctlAdd(c, user, env);
    } else if ops == BdevCtrlList() {
      rc, user' := IoctlList(c, user, env);
    } else if ops == BdevCtrlDel() {
      rc := IoctlDel(c, user);
    } else {
      rc := -EINVAL;
    }
  }

  /**
   * ctrl_exit: every listed device is destroyed, in list order and whatever
   * its open count, and unlinked; the bitmap is freed as it stands, so it
   * still records every minor that was in use.
   */
  method Exit(c: Registry) returns (destroyed: seq<Dev>)
    requires c.Valid()
    modifies c
    ensures destroyed == old(c.devices)
    ensures |destroyed| == Popcount(c.minorMap[..])
    ensures c.devices == []
  {
    c.DeviceCount();
    destroyed := [];
    while c.devices != []
      invariant destroyed + c.devices == old(c.devices)
      decreases |c.devices|
    {
      var d := c.devices[0];
      destroyed := destroyed + [d];
      c.devices := c.devices[1..];
    }
  }
}
