# mbdev in Dafny

mbdev is a Linux kernel module that provides in-memory block devices, plus a small command-line client that drives them.

The module registers a control character device. Its `ioctl` takes three commands:
- Add creates a device of a requested capacity. The device gets the lowest free of 256 minors and is named `mbdev_<minor>`.
- List reports every live device: its capacity, open count, minor and name.
- Delete removes a device that nobody has open.

Each device is a `vmalloc`'d byte buffer. Reads and writes reach it through the block layer as a sequence of segments. The request path (`mbdev_queue_rq`) and the bio path (`mbdev_submit_bio`) both copy segment by segment, starting at `sector * 512`. The first segment that would run past the capacity ends the request with an I/O error. The client sorts a List reply by minor before printing it, and it refuses to send a Delete without a minor.

This project models:
- the registry of `mbdev.c`: the class `Registry.Registry`, holding the 256-bit minor map and the device list, and the class `Registry.Dev`;
- the copy loops of the I/O path (module `Io`), on byte arrays;
- the records and command numbers of `ctrl.h` (module `Ctrl`), including their LP64 little-endian byte layout;
- the `ioctl` dispatch and the module-exit teardown of `main.c` (module `Control`);
- the part of the client in `ctrl.c` that computes something (module `Client`).

Supporting modules:
- `Machine` holds fixed-width integers, little-endian encoding, C strings and two's complement.
- `SectorMath` has the capacity rounding.
- `DevName` has the device name.
- `Scenarios` holds verified call sequences on the registry, each with its concrete results.

Foreign calls are not code here; their outcomes are parameters:
- the kernel allocators;
- `blk_mq_alloc_tag_set`, `blk_mq_alloc_disk` and `add_disk`;
- `num_online_cpus`;
- user-memory copies.

Some behaviours of the code that are easy to get wrong:
- A new device's buffer comes from `vmalloc`, not `vzalloc`, so `Registry.Registry.Add` says nothing about its initial contents.
- The server sends List entries in list (insertion) order (`Registry.Registry.List`). Ordering by minor happens only in the client (`Client.HandleList`).
- `bdev_del` first unlinks the device, then clears its bit, and only then calls `bdev_destroy`.
- `ctrl_exit` destroys each device before unlinking it, and frees the bitmap without clearing it. `Control.Exit` therefore leaves `minorMap` as it was.

The queue count is `nr_queue % num_online_cpus()`. It is 0 when `nr_queue` is a multiple of the CPU count, a request for exactly the CPU count included (`Registry.HwQueues`).

`bdev_add` can report success without adding a device, as written. If `blk_mq_alloc_disk` fails, `rc` still holds the 0 returned by the tag-set call. `Registry.AddSilentSuccess` states this case and `Registry.Registry.Add` reproduces it.

## Model

| member | source | states |
|---|---|---|
| Ctrl.ListSizeBounded | ctrl.h:19 | a reply with up to 256 entries is at most the 256-entry size, and that fits in a 64-bit `size_t` |
| Ctrl.EncodeListReply | ctrl.h:34-37 | an encoded reply is 8 header bytes plus 40 bytes per entry, so a reply whose `size` is `ListSize` is exactly `size` bytes long |
| Ctrl.DecodeEncodeInfo | ctrl.h:21-26 | decoding the 40-byte `my_bdev_info` layout gives back capacity, signed refcnt, minor and the 20-byte name |
| Ctrl.DecodeEncodeAdd | ctrl.h:28-32 | the 16-byte Add request holds `qdepth`, `nr_queue`, `capacity` in that order, and decodes back to them |
| Ctrl.DecodeEncodeDel | ctrl.h:39-41 | the 4-byte Delete request carries only `minor`, and decodes back to it |
| Ctrl.IocFields | ctrl.h:44-46 | direction, size, type and number can each be read back from an `_IOC` command number |
| Ctrl.MagicValue | ctrl.h:43 | the bitwise or of the seven characters is 0x7F |
| Ctrl.CommandValues | ctrl.h:44-46 | Add, List and Delete are 0x40087F01, 0x80087F02 and 0x40087F03 |
| Ctrl.CommandNumbers | ctrl.h:43-46 | the three commands are numbers 1, 2 and 3 of one magic, Add and Delete write, List reads, and all three are distinct |
| Machine.I32BitsRoundTrip | ctrl.h:23 | the signed `refcnt` survives its 4-byte two's-complement encoding |
| Machine.DecodeEncodeLE | ctrl.h:22 | an n-byte little-endian field decodes back to any value below 256^n |
| Machine.EncodeDecodeLE | ctrl.h:22 | every n-byte field is the encoding of the value it decodes to, so decoding loses nothing |
| Machine.CStringOfPadded | mbdev.c:125 | a NUL-free text padded with zero bytes reads back, up to its terminator, as that text |
| SectorMath.RoundUp | mbdev.c:137 | the capacity is a multiple of 512, at least the request and less than request + 512, and 0 when the 64-bit rounding overflows |
| SectorMath.RoundUpIdempotent | mbdev.c:73 | a rounded capacity is already a whole number of sectors |
| SectorMath.RoundUpMillion | mbdev.c:137 | a 1,000,000-byte request gets 1,000,448 bytes |
| DevName.ParseDecimalInverts | mbdev.c:130 | the `%u` digits of a minor read back as that minor |
| DevName.FullName | mbdev.c:130 | the text `mbdev_<minor>` contains no NUL byte |
| DevName.NameField | mbdev.c:125-130 | the name field is 20 bytes and always ends in NUL |
| DevName.NameFits | mbdev.c:125-130 | for every minor below 256 the name is not truncated, and the field reads as `mbdev_<minor>` up to its NUL |
| DevName.NameOf255 | mbdev.c:130 | the largest minor's field reads as "mbdev_255" |
| DevName.NameInjective | mbdev.c:130 | distinct minors get distinct name fields |
| Registry.FirstZero | mbdev.c:126-128 | the lowest clear bit: every earlier bit is set, and 256 means none is clear |
| Registry.PopcountIsCardinality | mbdev.c:217 | `bitmap_weight` is the number of set bits |
| Registry.PopcountFull | mbdev.c:126-128 | the weight is 256 exactly when every bit is set |
| Registry.AddRc | mbdev.c:124-212 | 0 exactly when every step succeeded or in the blk_mq_alloc_disk case; -ENOMEM when minors, kzalloc or vmalloc run out; otherwise the tag-set call's code, or add_disk's |
| Registry.AddSilentSuccess | mbdev.c:159-169 | a failed blk_mq_alloc_disk after a good tag set returns 0 without linking anything |
| Registry.HwQueues | mbdev.c:152 | the queue count is below the CPU count; a request below the CPU count is kept, and one for exactly the CPU count (or any multiple) gets 0 |
| Registry.Dev.constructor | mbdev.c:131-140 | a new device has the given minor, capacity, buffer, queue settings, the `mbdev_<minor>` name field and refcnt 0 |
| Registry.Dev.Open | mbdev.c:10-16 | the open count goes up by one as a 32-bit `int` |
| Registry.Dev.Release | mbdev.c:18-23 | the open count goes down by one as a 32-bit `int` |
| Registry.ReleaseUndoesOpen | mbdev.c:14-22 | a release after an open restores the count, across wrap-around too |
| Registry.FindMinor | mbdev.c:259-266 | the list walk stops at the first device with the minor, or at the end when there is none |
| Registry.ConsistentAppend | mbdev.c:200-201 | setting a clear minor's bit and appending its device keeps the registry invariant |
| Registry.ConsistentRemove | mbdev.c:278-279 | unlinking a device and clearing its bit keeps the registry invariant |
| Registry.Registry.constructor | main.c:152-157 | the initial state has every bit clear and an empty list |
| Registry.Registry.DeviceCount | mbdev.c:217 | under the invariant, the bitmap weight is the number of listed devices, at most 256 |
| Registry.Registry.Exhausted | mbdev.c:126-128 | no clear minor exists exactly when 256 devices are live |
| Registry.Registry.Add | mbdev.c:122-212 | see below |
| Registry.Registry.Snapshot | mbdev.c:228-235 | one entry per listed device |
| Registry.Registry.List | mbdev.c:215-239 | see below |
| Registry.Registry.Find | mbdev.c:259-266 | the lookup loop finds the first position of the minor, and reports whether any device has it |
| Registry.Registry.Del | mbdev.c:253-282 | see below |
| Io.Accepted | mbdev.c:91-100 | the number of segments copied: every one before it ends within the capacity, and the next one does not |
| Io.Written | mbdev.c:102-103 | the buffer after a write: the accepted segments' bytes lie back to back from `pos0`, and every other byte is kept |
| Io.WriteLoopMeaning | mbdev.c:91-108 | the write loop succeeds exactly when every segment is accepted, moves the accepted bytes and leaves `Written` |
| Io.ReadSegment | mbdev.c:104-105 | a segment holds `len` bytes after a read |
| Io.ReadSegmentCases | mbdev.c:96-105 | an accepted segment gets the device bytes at its offset, and every later segment keeps its bytes |
| Io.ReadResult | mbdev.c:91-108 | the segments after a read are, one by one, `ReadSegment` |
| Io.ReadLoopMeaning | mbdev.c:91-108 | the read loop succeeds exactly when every segment is accepted, moves the accepted bytes and leaves `ReadResult` |
| Io.WriteThenRead | mbdev.c:102-105 | a read after a fully accepted write, at the same offset with segments of the same lengths, is accepted and returns exactly the written segments |
| Io.Memcpy | mbdev.c:103 | `len` bytes of the source land at the offset, and the rest of the destination is kept |
| Io.WriteSegments | mbdev.c:91-108 | the write loop, on the device array, is `WriteLoop`, and the segments are not changed |
| Io.CopyToSegment | mbdev.c:105 | the read copy fills one segment with the device bytes at `pos`, and the other segments are not changed |
| Io.ReadSegments | mbdev.c:91-108 | the read loop, on the segment arrays, is `ReadLoop` |
| Io.QueueRq | mbdev.c:65-116 | an op other than read or write fails before any copy; a write leaves `Written`, a read leaves the buffer as it was and the segments as `ReadResult`, and the status is OK exactly when every segment is accepted |
| Io.SubmitBio | mbdev.c:26-52 | the same per direction, with the status left in `bi_status` |
| Control.ReplyOf | main.c:66 | the bytes copied out number `size` and never exceed the 256-entry reply |
| Control.IoctlAdd | main.c:49-59 | a failed copy-in is -EFAULT with nothing changed; otherwise the decoded request goes to Add, whose code is returned |
| Control.IoctlList | main.c:60-71 | a failed reply allocation or a too-short buffer is -EFAULT; otherwise 0, with `size` bytes of reply at the start of user memory |
| Control.IoctlDel | main.c:72-82 | a failed copy-in is -EFAULT with nothing changed; otherwise the decoded minor goes to Delete, whose code is returned |
| Control.Ioctl | main.c:38-92 | an unknown command is -EINVAL and changes nothing; the three commands behave as their cases above, and only List writes user memory |
| Control.Exit | main.c:171-190 | every listed device is destroyed, in list order and whatever its open count; the list ends empty and the bitmap keeps one bit per destroyed device |
| Client.EntryCount | ctrl.c:72 | for a reply size within the client buffer, the count is `(size - 8) / 40` |
| Client.EntryCountInverts | ctrl.c:62-72 | the count recovers the number of entries the server sent, and any reply fits the 256-entry client buffer |
| Client.ReplyRoundTrip | ctrl.c:62-75 | read through the client buffer, a server reply gives back its size, its count and every entry, whatever bytes follow it |
| Client.Cmp | ctrl.c:49-55 | for minors below 2^31 the sign of `_cmp` orders the minors |
| Client.CmpWrapsForDistantMinors | ctrl.c:54 | for minors more than 2^31 apart with l < r, or at least 2^31 apart with l > r, the wrapped difference answers the wrong way round |
| Client.Insert | ctrl.c:73 | inserting adds exactly the one entry to the multiset |
| Client.SortByMinor | ctrl.c:73 | the sort is a permutation of its input |
| Client.SortByMinorSorted | ctrl.c:73 | with minors below 2^31 the sort is in ascending minor order |
| Client.SortEntries | ctrl.c:73 | the first `n` slots are replaced by their sorted order, and the others are kept |
| Client.PrintEntries | ctrl.c:74-80 | one line per entry, in slot order, with the name up to its NUL, the capacity and the open count |
| Client.HandleList | ctrl.c:57-83 | a failed List prints nothing and keeps the buffer; otherwise the `n` decoded slots are sorted in place and printed |
| Client.DelRequest | ctrl.c:85-96 | no request for the unset minor `(unsigned)-1`; for any other minor, a 4-byte request that decodes back to it |
| Scenarios.MinorReuse | mbdev.c:126-202 | adding twice, deleting minor 0 and adding again hands out minors 0, 1, 0; a 1,000,000-byte request gets 1,000,448 bytes |
| Scenarios.AddListDelete | mbdev.c:215-239 | one device listed as `mbdev_0` with 1,000,448 bytes and refcnt 0; after its deletion the reply is just the 8-byte header |
| Scenarios.BusyUntilReleased | mbdev.c:268-281 | an open device is -EBUSY, an unknown minor is -EINVAL, and once released the device is deleted and the list is empty |

`Registry.Registry.Add` states all of bdev_add:
- The result is `AddRc` of the lowest clear minor. With all 256 devices live it is -ENOMEM and nothing changes.
- When every step succeeds, exactly that minor's bit is set. A fresh device is appended at the tail with:
  - capacity `RoundUp(request)`, and a buffer of that many bytes;
  - the `mbdev_<minor>` name field and refcnt 0;
  - `nr_queue % cpus` hardware queues and `qdepth`.
- Otherwise the bitmap and the list are unchanged.
- The registry invariant is kept. Under it, the set bits are exactly the listed minors, minors are unique, and each buffer is distinct and spans its capacity, a multiple of 512.

`Registry.Registry.List` states bdev_list:
- It gives no reply exactly when the reply allocation fails.
- A reply's `size` is `8 + weight * 40`, equal to `8 + 40 * |devices|`.
- The entries are the devices in list order, each with its current refcnt.

`Registry.Registry.Del` states bdev_del:
- An unknown minor gives -EINVAL and a device with a nonzero count gives -EBUSY; neither changes anything.
- Otherwise it returns 0, that one device leaves the list with the others kept in order, exactly its bit is cleared, and the invariant is kept.

## Left out

- Concurrency is left out: the registry mutex and the atomic memory ordering of `refcnt`. Operations and refcount updates are sequential here.
- Registry.Registry.Add: `vmallocOk` is an unconstrained input even for a 0-byte capacity (a request of 0, or one that `RoundUp` wraps to 0). The kernel's `vmalloc(0)` returns NULL, so there Add really ends with -ENOMEM, while the model can also create a zero-length device.
- Kernel allocator and block-layer calls are not modelled as code; each is a success/failure or errno input (`AddSteps`, `vzallocOk`, `Env`). This covers kzalloc, vmalloc, blk_mq_alloc_tag_set, blk_mq_alloc_disk, add_disk, del_gendisk, put_disk, set_capacity, the `blk_queue_*` settings and the bio/request iterators.
- `bdev_destroy` only calls foreign release functions. The model ends at handing the device over: it is unlinked by Delete, or returned by `Control.Exit`.
- ctrl_init's character-device, class and block-major registration, and `ctrl_open`, `ctrl_release`, `ctrl_read`, `ctrl_write`, are kernel plumbing. Only the initial empty state is modelled.
- User memory is a byte sequence; a NULL or unmapped argument is one too short for the copy.
- Control.IoctlList: models `copy_to_user` as all-or-nothing; a partial copy that faults midway is not represented.
- The `list_cmd` leak when `copy_to_user` fails, and memory reclamation in general, are not modelled. Nor is the use-after-free in `ctrl_exit` (main.c:179-180): `list_del(pos)` writes into the node that `bdev_destroy` has just freed. The model has no freed memory, so `Control.Exit` cannot show it.
- Segment pages are byte arrays of the segment's length. `page_address` and `bv_offset` are not modelled.
- Io.QueueRq, Io.SubmitBio, Io.ReadSegments: assume that no segment aliases the device buffer and, for reads, that segments do not alias each other.
- Io.QueueRq, Io.SubmitBio: start at `sector * 512` using unbounded integers. The 64-bit `loff_t` overflow of a huge sector number is not modelled.
- Client.SortByMinorSorted: proves ascending order only for minors below 2^31, which covers every minor the server hands out (below 256). `Client.CmpWrapsForDistantMinors` shows the comparator failing beyond that.
- Client.SortByMinor: models `qsort` as an insertion sort by `_cmp`. qsort is not stable, so entries with equal minors could come out in another order; the server never sends two such entries.
- Client.HandleList: requires a successful reply's `size` to lie between 8 and the client buffer size, as every server reply does. A hostile `size` outside that range is not modelled.
- The client's `getopt` parsing, `open`, `ioctl`, `malloc`, `free`, `handle_add` and the `printf` formatting are userspace I/O. `Client.PrintEntries` produces the printed fields, not the text.
- The `debug` logging throughout is left out.
- The block-layer registration fields of a device (`major`, `first_minor`, `disk_name`, flags) are not kept. Only the fields that `my_bdev_info` and the I/O path use are.
