/**
 * Verified call sequences on the registry from its initial state, as the
 * client would drive it through the control device.
 */
module Scenarios {
  import opened Machine
  import opened Ctrl
  import opened Registry

  /** Every foreign step of bdev_add succeeds. */
  const ALL_OK: AddSteps := AddSteps(true, true, 0, true, 0)

  /**
   * Add twice, delete the first device, add again: the freed minor 0 is the
   * lowest clear bit and is handed out again; a 1,000,000-byte request gets
   * 1,000,448 bytes.
   */
  method MinorReuse() returns (first: nat, second: nat, third: nat, capacity: nat, rcs: seq<int>)
    ensures first == 0 && second == 1 && third == 0
    ensures capacity == 1_000_448
    ensures rcs == [0, 0, 0, 0]
  {
    var c := new Registry();
    assert c.minorMap[..][0] == false;
    var rc0 := c.Add(AddCmd(128, 1, 1_000_000), 1, ALL_OK);
    first := c.devices[0].minor;
    capacity := c.devices[0].capacity;
    SectorMath.RoundUpMillion();

    assert c.minorMap[..][0] && !c.minorMap[..][1];
    var rc1 := c.Add(AddCmd(128, 1, 4096), 1, ALL_OK);
    second := c.devices[1].minor;

    var rc2 := c.Del(0);
    assert !c.minorMap[..][0];
    var rc3 := c.Add(AddCmd(128, 1, 4096), 1, ALL_OK);
    third := c.devices[|c.devices| - 1].minor;
    rcs := [rc0, rc1, rc2, rc3];
  }

  /**
   * Add a 1,000,000-byte device, list, delete it, list again: the first
   * reply has one entry, minor 0 named "mbdev_0" with 1,000,448 bytes and
   * no opener; the second reply is just its 8-byte header.
   */
  method AddListDelete() returns (first: ListCmd, rc: int, second: ListCmd)
    ensures first == ListCmd(ListSize(1), [BdevInfo(1_000_448, 0, 0, DevName.NameField(0))])
    ensures rc == 0
    ensures second == ListCmd(LIST_HDR_SIZE, [])
  {
    var c := new Registry();
    assert c.minorMap[..][0] == false;
    var rc0 := c.Add(AddCmd(128, 1, 1_000_000), 1, ALL_OK);
    SectorMath.RoundUpMillion();
    var r1 := c.List(true);
    first := r1.value;
    rc := c.Del(0);
    var r2 := c.List(true);
    second := r2.value;
  }

  /**
   * A device that is open cannot be deleted; once released it can, and
   * the list is empty again.
   */
  method BusyUntilReleased() returns (busy: int, unknown: int, done: int, left: nat)
    ensures busy == -EBUSY && unknown == -EINVAL && done == 0 && left == 0
  {
    var c := new Registry();
    assert c.minorMap[..][0] == false;
    var rc := c.Add(AddCmd(128, 1, 512), 1, ALL_OK);
    var d := c.devices[0];
    d.Open();
    busy := c.Del(0);
    unknown := c.Del(7);
    d.Release();
    done := c.Del(0);
    left := |c.devices|;
  }
}
