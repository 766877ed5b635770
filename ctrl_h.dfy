/**
 * The control protocol shared by the kernel module and the command-line
 * client: constants, the fixed records exchanged through the control
 * device, their byte layout on an LP64 little-endian machine, and the
 * three ioctl command numbers.
 */
module Ctrl {
  import opened Machine

  /** Width of the `name` field of a device record, terminator included. */
  const BDEV_NAME_SZ: nat := 20
  /** Number of minors, hence the largest number of live devices. */
  const BDEV_MAX_SZ: nat := 256

  /** sizeof(struct my_bdev_info): 8 + 4 + 4 + 20 bytes, padded to 8-byte alignment. */
  const INFO_SIZE: nat := 40
  /** sizeof(struct ctrl_list_cmd): the `size` field; the entries are a flexible array. */
  const LIST_HDR_SIZE: nat := 8
  /** sizeof(struct ctrl_add_cmd): two 4-byte fields, then an 8-byte field. */
  const ADD_CMD_SIZE: nat := 16
  /** sizeof(struct ctrl_del_cmd) */
  const DEL_CMD_SIZE: nat := 4

  /** One device, as the List reply shows it. */
  datatype BdevInfo = BdevInfo(capacity: U64, refcnt: I32, minor: U32, name: seq<Byte>)

  /** Add request; the fields are in declaration order. */
  datatype AddCmd = AddCmd(qdepth: U32, nrQueue: U32, capacity: U64)

  /** List reply: `size` counts its own 8 bytes plus every entry. */
  datatype ListCmd = ListCmd(size: U64, bdevs: seq<BdevInfo>)

  /** Delete request. */
  datatype DelCmd = DelCmd(minor: U32)

  /** The value of `size` in a List reply carrying `n` entries. */
  function ListSize(n: nat): nat
  {
    LIST_HDR_SIZE + n * INFO_SIZE
  }

  /** The largest reply the server can produce fits in a U64. */
  lemma ListSizeBounded(n: nat)
    requires n <= BDEV_MAX_SZ
    ensures ListSize(n) <= ListSize(BDEV_MAX_SZ) < U64_LIMIT
  {
  }

  // ---- byte layout of the records ----

  /** capacity at offset 0, refcnt at 8, minor at 12, name at 16..36, padding 36..40. */
  function EncodeInfo(i: BdevInfo): (r: seq<Byte>)
    requires |i.name| == BDEV_NAME_SZ
    ensures |r| == INFO_SIZE
  {
    EncodeLE(i.capacity, 8) + EncodeLE(I32Bits(i.refcnt), 4) + EncodeLE(i.minor, 4)
      + i.name + Zeros(INFO_SIZE - 36)
  }

  function DecodeInfo(s: seq<Byte>): (i: BdevInfo)
    requires |s| == INFO_SIZE
    ensures |i.name| == BDEV_NAME_SZ
  {
    assert Pow256(8) == U64_LIMIT && Pow256(4) == U32_LIMIT;
    BdevInfo(DecodeLE(s[0..8]), I32FromBits(DecodeLE(s[8..12])), DecodeLE(s[12..16]), s[16..36])
  }

  lemma DecodeEncodeInfo(i: BdevInfo)
    requires |i.name| == BDEV_NAME_SZ
    ensures DecodeInfo(EncodeInfo(i)) == i
  {
    var s := EncodeInfo(i);
    assert Pow256(8) == U64_LIMIT && Pow256(4) == U32_LIMIT;
    assert s[0..8] == EncodeLE(i.capacity, 8);
    assert s[8..12] == EncodeLE(I32Bits(i.refcnt), 4);
    assert s[12..16] == EncodeLE(i.minor, 4);
    assert s[16..36] == i.name;
    DecodeEncodeLE(i.capacity, 8);
    DecodeEncodeLE(I32Bits(i.refcnt), 4);
    DecodeEncodeLE(i.minor, 4);
    I32BitsRoundTrip(i.refcnt);
  }

  /** qdepth at offset 0, nr_queue at 4, capacity at 8. */
  function EncodeAdd(c: AddCmd): (r: seq<Byte>)
    ensures |r| == ADD_CMD_SIZE
  {
    EncodeLE(c.qdepth, 4) + EncodeLE(c.nrQueue, 4) + EncodeLE(c.capacity, 8)
  }

  function DecodeAdd(s: seq<Byte>): AddCmd
    requires |s| == ADD_CMD_SIZE
  {
    assert Pow256(8) == U64_LIMIT && Pow256(4) == U32_LIMIT;
    AddCmd(DecodeLE(s[0..4]), DecodeLE(s[4..8]), DecodeLE(s[8..16]))
  }

  lemma DecodeEncodeAdd(c: AddCmd)
    ensures DecodeAdd(EncodeAdd(c)) == c
  {
    var s := EncodeAdd(c);
    assert Pow256(8) == U64_LIMIT && Pow256(4) == U32_LIMIT;
    assert s[0..4] == EncodeLE(c.qdepth, 4);
    assert s[4..8] == EncodeLE(c.nrQueue, 4);
    assert s[8..16] == EncodeLE(c.capacity, 8);
    DecodeEncodeLE(c.qdepth, 4);
    DecodeEncodeLE(c.nrQueue, 4);
    DecodeEncodeLE(c.capacity, 8);
  }

  function EncodeDel(c: DelCmd): (r: seq<Byte>)
    ensures |r| == DEL_CMD_SIZE
  {
    EncodeLE(c.minor, 4)
  }

  function DecodeDel(s: seq<Byte>): DelCmd
    requires |s| == DEL_CMD_SIZE
  {
    assert Pow256(4) == U32_LIMIT;
    DelCmd(DecodeLE(s))
  }

  lemma DecodeEncodeDel(c: DelCmd)
    ensures DecodeDel(EncodeDel(c)) == c
  {
    assert Pow256(4) == U32_LIMIT;
    DecodeEncodeLE(c.minor, 4);
  }

  predicate NamesWellFormed(es: seq<BdevInfo>)
  {
    forall k :: 0 <= k < |es| ==> |es[k].name| == BDEV_NAME_SZ
  }

  /** The entries of a List reply, back to back. */
  function EncodeInfos(es: seq<BdevInfo>): (r: seq<Byte>)
    requires NamesWellFormed(es)
    ensures |r| == |es| * INFO_SIZE
  {
    if es == [] then [] else EncodeInfo(es[0]) + EncodeInfos(es[1..])
  }

  /** The bytes the server copies to the caller for a List reply. */
  function EncodeListReply(c: ListCmd): (r: seq<Byte>)
    requires NamesWellFormed(c.bdevs)
    ensures |r| == ListSize(|c.bdevs|)
  {
    EncodeLE(c.size, LIST_HDR_SIZE) + EncodeInfos(c.bdevs)
  }

  // ---- ioctl command numbers (asm-generic/ioctl.h encoding) ----

  const IOC_WRITE: nat := 1
  const IOC_READ: nat := 2
  /** The size argument of the three commands: `sizeof` a `struct ... *` on LP64, 8 bytes. */
  const PTR_SIZE: nat := 8

  /** ('a' | 'b' | 'b' | 'y' | 'b' | 'd' | 'v'), a bitwise or of characters. */
  function Magic(): Byte
  {
    var m: bv8 := ('a' as int as bv8) | ('b' as int as bv8) | ('b' as int as bv8) | ('y' as int as bv8)
                | ('b' as int as bv8) | ('d' as int as bv8) | ('v' as int as bv8);
    m as int
  }

  /** _IOC(dir, type, nr, size): dir in bits 30-31, size in 16-29, type in 8-15, nr in 0-7. */
  function Ioc(dir: nat, ty: Byte, nr: Byte, size: nat): nat
    requires dir < 4 && size < 0x4000
  {
    dir * 0x4000_0000 + size * 0x1_0000 + ty * 0x100 + nr
  }

  function IocNr(code: nat): nat { code % 0x100 }
  function IocType(code: nat): nat { code / 0x100 % 0x100 }
  function IocSize(code: nat): nat { code / 0x1_0000 % 0x4000 }
  function IocDir(code: nat): nat { code / 0x4000_0000 }

  function BdevCtrlAdd(): nat { Ioc(IOC_WRITE, Magic(), 1, PTR_SIZE) }
  function BdevCtrlList(): nat { Ioc(IOC_READ, Magic(), 2, PTR_SIZE) }
  function BdevCtrlDel(): nat { Ioc(IOC_WRITE, Magic(), 3, PTR_SIZE) }

  /** Every field of _IOC can be read back from the command number. */
  lemma IocFields(dir: nat, ty: Byte, nr: Byte, size: nat)
    requires dir < 4 && size < 0x4000
    ensures IocNr(Ioc(dir, ty, nr, size)) == nr
    ensures IocType(Ioc(dir, ty, nr, size)) == ty
    ensures IocSize(Ioc(dir, ty, nr, size)) == size
    ensures IocDir(Ioc(dir, ty, nr, size)) == dir
  {
    var c := Ioc(dir, ty, nr, size);
    var hi := dir * 0x4000 + size;
    assert c == hi * 0x1_0000 + ty * 0x100 + nr;
    assert c == (hi * 0x100 + ty) * 0x100 + nr;
    assert c / 0x100 == hi * 0x100 + ty;
    assert c / 0x1_0000 == hi;
    assert c == dir * 0x4000_0000 + (size * 0x1_0000 + ty * 0x100 + nr);
  }

  lemma MagicValue()
    ensures Magic() == 0x7F
  {
  }

  /** The three command numbers as the compiler computes them. */
  lemma CommandValues()
    ensures BdevCtrlAdd() == 0x4008_7F01
    ensures BdevCtrlList() == 0x8008_7F02
    ensures BdevCtrlDel() == 0x4008_7F03
  {
    MagicValue();
  }

  /** Add, List and Delete are numbers 1, 2 and 3 of one magic, hence distinct. */
  lemma CommandNumbers()
    ensures IocNr(BdevCtrlAdd()) == 1 && IocNr(BdevCtrlList()) == 2 && IocNr(BdevCtrlDel()) == 3
    ensures IocType(BdevCtrlAdd()) == IocType(BdevCtrlList()) == IocType(BdevCtrlDel()) == Magic()
    ensures IocDir(BdevCtrlAdd()) == IOC_WRITE && IocDir(BdevCtrlList()) == IOC_READ
    ensures IocDir(BdevCtrlDel()) == IOC_WRITE
    ensures BdevCtrlAdd() != BdevCtrlList() && BdevCtrlList() != BdevCtrlDel() && BdevCtrlAdd() != BdevCtrlDel()
  {
    MagicValue();
    IocFields(IOC_WRITE, Magic(), 1, PTR_SIZE);
    IocFields(IOC_READ, Magic(), 2, PTR_SIZE);
    IocFields(IOC_WRITE, Magic(), 3, PTR_SIZE);
  }
}
