# U-Boot flashing and API core: a verified model

This project models four stateful parts of U-Boot in Dafny and proves what they do for every input.

* **The Android sparse image writer** (`write_sparse_image`). A byte-encoded chunk program is interpreted in one pass
  and written to a disk partition. The imperative writer is proved equal to a two-step reading: decode the bytes to a
  chunk list, then run the list. On top of that come round trips with a printer, what is on the disk after any run,
  which partitions are never left, where chunks land, and what the host is told.
* **Device enumeration** (`API_dev_enum` and the storage groups behind it). Four functions update group flags and a cookie
  that the caller feeds back. The project proves what a whole run of calls returns.
* **Environment enumeration** (`API_env_enum` with `envmatch`). A double-NUL-terminated block is walked by feeding back the
  last result. The project proves exactly when such a walk ends, and what it visits.
* **Device handles and memory regions** (`API_dev_open`, `API_dev_close`, `platform_set_mr`, `platform_sys_info`).

## How it is organised

| file | content |
|---|---|
| `Words.dfy` | little-endian words, bit masks, 32-bit wrap-around |
| `SparseFormat.dfy` | the writer's cursor, a printer, decoding inverts printing |
| `SparseRun.dfy` | the run over a chunk list: requests, stops, counters |
| `SparseDisk.dfy` | requests as bytes on a disk; a run stops at a prefix |
| `SparseContainment.dfy` | which partitions are never left |
| `SparseWriter.dfy` | the writer itself, with a block device and a reply buffer |
| `SparseImage.dfy` | whole images: what is flashed, what is reported, what is left allocated |
| `SparsePlacement.dfy` | where chunks land, against where the format puts them |
| `SparseBytes.dfy` | one image byte by byte, with every kind of chunk: what is decoded and written |
| `SparseExamples.dfy` | small printed images that show the departures below on every partition with room |
| `DeviceEnum.dfy`, `DeviceApi.dfy` | enumeration on values, and the code that performs it in place |
| `DeviceHandle.dfy` | opening and closing |
| `EnvEnum.dfy` | environment walks |
| `MemoryRegions.dfy` | first-fit memory regions |

Conventions. Memory from a pointer on is a total function from offsets to bytes, because the C code reads whatever lies
there. Multi-byte fields are read as on a little-endian host, as the C code does. `uint32_t` and `unsigned int` arithmetic is
reduced modulo 2^32; `lbaint_t` and `unsigned long` have a width `bits` of at least 32, and block addresses wrap around at it.
The partition's block size is a power of two from 4 to 2^31. The writer's code is modelled for every partition; statements
about what is on the disk are about partitions that end below 2^bits, since a disk's block count is itself an `lbaint_t`
(include/part.h:24). Driver results, allocation results, the current ethernet device and the device table are parameters, so
every statement holds for all of them. The disk is a function from block numbers to blocks of bytes. The reply buffer holds
whatever the caller put there; the only caller puts a failure text there (drivers/usb/gadget/f_fastboot.c:496). No lemma
relies on automatic induction.

## Where the code departs from what it is for

* A hole (`CHUNK_TYPE_DONT_CARE`) does not move the write position. Every chunk lands lower than the format puts it by the
  holes before it, and all data is in place exactly when the holes come last (`Displacement`, `InPlaceExactly`). An image of a
  hole and a block, and the disk it leaves, is in `HoleMovesData`.
* The excess of a long file header is skipped twice, so a printed header is skipped to its end exactly when it has 28 bytes
  (`HeaderSkipExact`). An image that is misread for it is in `LongHeaderMisread`.
* A CRC32 chunk with its four checksum bytes is always refused, and one without is left in step with the image exactly
  when its extent is 0 (`FormatCrcIsRefused`, `ChunkRoundTrip`).
* A wrong block count is reported as a failure and then as OKAY; the host reads OKAY exactly when every chunk passed
  (`HostStatus`, `MiscountIsOkay`). What the buffer held before stays behind every status (`FlashPrinted`), so a plain OKAY
  is followed by the caller's failure text.
* A fill chunk of an image with block size 0 divides by zero. The model ends the run there, as `Trapped`, and says exactly
  when that happens (`TrapsExactly`, `ZeroBlockSizeTraps`).
* The bounds check adds in `lbaint_t`. The writer keeps every image inside a partition exactly when the partition leaves room
  for the largest chunk between the furthest block an image can get to and the end of the address space
  (`ContainmentExactly`, `OverrunEscapes`); a partition that does not, and is overrun by 60 bytes, is in
  `SmallPartitionOverrun`.
* The fill buffer is left allocated exactly when a fill chunk has no room, or traps (`LeaksExactly`, `FillTooBigLeaks`).
* Taking a group's first device never hints at more, so a run returns one device a group; it is complete exactly when no group
  has an active device beyond its first (`CompleteExactly`, `SecondDeviceMissed`). The comment at api/api_storage.c:202-203
  promises the next one.
* An environment walk never ends on an empty block, on a repeated name, or on an entry that ends beyond the environment's
  size (`WalkEndsExactly`).
* The environment's size bounds only the inside of an entry. The NUL after the last entry that fits and the one after the
  block are looked at wherever they lie, so results depend on bytes outside exactly when the block, with both NULs, does not
  end inside (`DecidedBelowExactly`, `ThreeBytes`).

## Model

| member | source | states |
|---|---|---|
| Words.MaskDecidesDivisibility | common/aboot.c:84-86 | `x == (x & ~(size - 1))` decides divisibility by `size` for every word exactly when `size` is a power of two |
| Words.WrapKeepsDivisor | common/aboot.c:120-121 | a power of two dividing `blk_sz` also divides the product `blk_sz * chunk_sz` after it wrapped to 32 bits |
| SparseFormat.HeaderRoundTrip | include/sparse_format.h:15-27 | a printed file header is read back field by field |
| SparseFormat.HeaderSkipExact | common/aboot.c:61-72 | the cursor stands at the end of a printed header if and only if `file_hdr_sz` is 28; of a longer one it stands as far behind the end as the header exceeds 28 bytes |
| SparseFormat.PrintedLen | include/sparse_format.h:36-41 | a printed chunk takes `chunk_hdr_sz` bytes, or 12 if that is less, and its payload |
| SparseFormat.ChunkRoundTrip | common/aboot.c:99-224 | a printed chunk is read back, and the cursor then stands at its end if and only if it is no CRC32 chunk with data size other than 0 |
| SparseFormat.RoundTrip | common/aboot.c:61-232 | decoding a printed image gives its header and all its chunks, and the walk ends exactly at the last byte |
| SparseFormat.CursorSumsTotals | common/aboot.c:97-232 | at chunk k of a printed image whose total sizes are `chunk_hdr_sz` plus payload, the cursor is `file_hdr_sz` plus the `total_sz` of the chunks before |
| SparseFormat.WalkReadsBelowEnd | common/aboot.c:61-232 | bytes at or beyond the final cursor (and the 28 header bytes) have no influence on what is decoded |
| SparseRun.WrapIsMod | common/aboot.c:133-133 | reduction by subtraction, which block addresses go through, is reduction modulo 2^bits |
| SparseRun.StepAfter | common/aboot.c:150-154 | a chunk that passes moves requests, position, `bytes_written` and `total_blocks` from the closed form for k chunks to that for k+1 |
| SparseRun.RunShape | common/aboot.c:96-232 | every run ends after the last chunk or at the first that does not pass, having done exactly what the chunks before stand for, and a write failure leaves the first request not answered in full as the last one |
| SparseRun.FinishesExactly | common/aboot.c:97-232 | all chunks are consumed if and only if each of them passes |
| SparseRun.StopsAt | common/aboot.c:97-232 | a run stops at the first chunk that does not pass |
| SparseRun.EndsAtRefusal | common/aboot.c:124-230 | the first chunk that is refused ends the run with its own failure |
| SparseRun.CountedExactly | common/aboot.c:205-205 | a chunk is counted as its image blocks if and only if it is no fill chunk or its data size does not wrap around |
| SparseRun.TrapsExactly | common/aboot.c:205-205 | a run ends in the division by zero if and only if, after chunks that passed, it meets a fill chunk that is not refused in an image with block size 0 |
| SparseDisk.ExactDivision | common/aboot.c:120-121 | after the block size check, `blkcnt * blksz` is exactly `chunk_data_sz` for every chunk, wrapping or not |
| SparseRun.Answered | common/aboot.c:142-203 | the first request that the driver does not answer in full, all before it being answered |
| SparseDisk.PlanFlat | common/aboot.c:142-203 | the data of all requests, in order, is the concatenation of raw payloads and repeated fill words |
| SparseDisk.PlanLaid | common/aboot.c:142-203 | each request starts where the one before ended and carries whole blocks |
| SparseDisk.PlanAddress | common/aboot.c:142-202 | the i-th request is for block `start` plus the blocks asked for before it, modulo 2^bits |
| SparseDisk.ContentIs | common/aboot.c:142-203 | requests laid out so put their bytes at the start of the partition and change no other block |
| SparseDisk.StopsAtPrefix | common/aboot.c:133-203 | whatever stops a run, the blocks written are a prefix of the expansion: those of the chunks that passed, where the position stands, and only if a block of a fill chunk was not taken the blocks of that chunk before it; all requests but a failing last one were answered in full |
| SparseContainment.Containment | common/aboot.c:133-150 | on a roomy partition, for every image, malformed or wrapping, and every fault, all requests lie inside it and follow each other without gap or overlap |
| SparseContainment.OverrunEscapes | common/aboot.c:182-203 | on a partition that is not roomy, a printed image of fill chunks, 16 bytes for each chunk it takes to fill the partition and 44 more, makes the writer ask for a block outside though nothing fails |
| SparseContainment.ContainmentExactly | common/aboot.c:133-150 | every image in memory is kept inside the partition, whatever fails, if and only if the partition is roomy |
| SparseContainment.SmallPartitionOverrun | common/aboot.c:182-203 | seven blocks at the end of a 32-bit address space are overrun by an image of 60 bytes |
| SparseContainment.PassedFits | common/aboot.c:133-140 | on a roomy partition a chunk that passes the bounds check ends inside it |
| SparseWriter.BlockDevice.BlockWrite | include/part.h:34-37 | a write returns the driver's count; contents follow the requests, except that a request not answered in full leaves its own range open |
| SparseWriter.Reply.Fail | common/fb_mmc.c:23-27 | a failure sets the status and appends its message |
| SparseWriter.Reply.Okay | common/fb_mmc.c:29-33 | an OKAY sets the status and leaves the text behind it in place |
| SparseWriter.WriteRaw | common/aboot.c:124-154 | a raw chunk does what the run's step says: refused, written in one request, or failed |
| SparseWriter.FillBuffer | common/aboot.c:176-180 | the buffer holds the fill word's four bytes repeated |
| SparseWriter.MakeBlock | common/aboot.c:165-180 | one block's worth of the four bytes at the cursor, repeated |
| SparseWriter.RoundUp | include/aboot.h:10-10 | the least multiple of the alignment that holds the buffer |
| SparseWriter.WriteBlocks | common/aboot.c:191-203 | blocks are written one by one up to the first not taken |
| SparseWriter.WriteFillBlocks | common/aboot.c:191-205 | the requests of a fill chunk that was not refused are those of the run's step, up to the first not taken |
| SparseWriter.WriteFilled | common/aboot.c:191-208 | a fill chunk with room does what the run's step says, and its buffer is freed unless the division by zero is reached |
| SparseWriter.WriteFill | common/aboot.c:156-208 | a fill chunk does what the run's step says, and its buffer is freed on every path but the partition-size one and the division by zero |
| SparseWriter.SkipChunk | common/aboot.c:210-230 | holes, CRC32 and unknown chunks write nothing and move the cursor and the count as the run's step says |
| SparseWriter.WriteChunk | common/aboot.c:99-231 | one turn of the loop on the bytes at the cursor is one step of the run on the decoded chunk |
| SparseWriter.NextChunk | common/aboot.c:97-231 | after a chunk the rest of the run is still to come, or the run is over with everything it leaves behind |
| SparseWriter.WriteChunks | common/aboot.c:96-232 | the chunk loop is the run over the decoded chunk list |
| SparseWriter.MaskIsDivisibility | common/aboot.c:85-86 | the mask test passes exactly when the device block size divides `blk_sz` |
| SparseWriter.WriteAccepted | common/aboot.c:96-242 | the chunk loop and the final verdict: one failure and nothing else on an early exit, else OKAY, after a failure if the count is wrong |
| SparseWriter.WriteSparseImage | common/aboot.c:44-243 | the block size check fails and nothing is written, or the device sees exactly the requests of the run over the decoded chunks; responses and buffers left allocated are that run's |
| SparseImage.DiskAfterRun | common/aboot.c:96-232 | after any run on a roomy partition, outside the failing request, the disk is the old one with a prefix of the expansion at the partition's start |
| SparseImage.RefusalExactly | common/aboot.c:124-230 | a chunk is not refused if and only if its kind is known, its total size is header plus payload (unchecked for a hole), a fill buffer can be had, and it has room |
| SparseImage.GivenUpExactly | common/aboot.c:124-230 | a run is given up at chunk k with a failure if and only if the chunks before it pass and chunk k is what the failure speaks of: a wrong total for its kind, no buffer, no room, a request not answered in full, or an unknown kind, in this order |
| SparseImage.NoRoomOnRoomy | common/aboot.c:133-140 | on a roomy partition room is lacking if and only if the chunk ends behind the partition |
| SparseImage.FlashSparse | common/fb_mmc.c:106-108 | for any bytes, any driver and any text in the reply buffer, no block outside a roomy partition changes, inside lies a prefix of the expansion except where a request failed, and unless the run traps the status is OKAY if and only if the block size check and every chunk pass; what is appended to the reply is the block size failure, the one failure that speaks of the first chunk that does not pass, or the verdict on the block count |
| SparseImage.FlashPrinted | common/fb_mmc.c:106-108 | flashing a printed conforming image that fits leaves exactly its expansion at the start of the partition and everything else as it was; the reply is OKAY, the text that was there before, and a failure message if the block count is wrong |
| SparseImage.FlashesImage | common/aboot.c:96-232 | a printed conforming image decodes, finishes, and its requests put its expansion on the disk |
| SparsePlacement.Displacement | common/aboot.c:210-212 | every chunk is written below its position in the image by exactly the idle blocks before it, and `total_blocks` is that position |
| SparsePlacement.Conservation | common/aboot.c:150-152 | at every chunk boundary, bytes counted are bytes written plus bytes of idle chunks |
| SparsePlacement.InPlaceExactly | common/aboot.c:210-212 | all data is written where the format puts it if and only if no data follows a hole |
| SparsePlacement.FormatPlacement | common/aboot.c:142-203 | if holes come last, the i-th block of every chunk ends up at the block the format gives it |
| SparseImage.FormatCrcIsRefused | common/aboot.c:214-221 | a CRC32 chunk with four bytes of checksum ends the run with its failure |
| SparseImage.HostStatus | common/aboot.c:128-241 | nothing is reported if and only if the run traps; otherwise the status is OKAY if and only if every chunk passes, and what the writer appends is then a failure message if and only if the block count is wrong, else exactly the failure that speaks of the first chunk that does not pass |
| SparseImage.LeaksExactly | common/aboot.c:165-208 | a fill buffer is left allocated if and only if, after chunks that passed, a fill chunk is refused for lack of room or divides by zero; never more than one |
| SparseBytes.HeaderOfBytes | include/sparse_format.h:15-27 | 28 given bytes are read as the nine fields they are |
| SparseBytes.ChunkOfBytes | include/sparse_format.h:31-41 | twelve given bytes with kind byte C1 to C4, any four bytes of padding and the payload are read as that chunk, and the cursor moves on by header and payload, for CRC32 by the blocks' size |
| SparseBytes.ImageDecoded | common/aboot.c:61-232 | an image given byte by byte, with a raw, a fill, two CRC32 chunks and a hole, is decoded to these, and the walk ends at its end |
| SparseBytes.ImageRun | common/aboot.c:96-232 | on every partition of 512-byte blocks with room, that image makes exactly three requests: the raw block and twice the block of the fill word, at the start of the partition; 1536 bytes and 7 blocks are counted |
| SparseExamples.OneBlockImage | common/aboot.c:156-208 | on every partition with room, the printed image of one filled block is conforming and leaves exactly that block on the disk |
| SparseExamples.HoleMovesData | common/aboot.c:210-212 | a printed image of a hole of n blocks and a filled block finishes with the block in the first block of the partition and every other block unchanged, while the format puts it n blocks further |
| SparseExamples.MiscountIsOkay | common/aboot.c:238-241 | the same image with any other block count is told OKAY, with the failure message after it |
| SparseExamples.LongHeaderMisread | common/aboot.c:64-72 | a printed fill chunk behind a 32-byte file header is decoded with its block count as its kind, and refused as unknown |
| SparseExamples.ZeroBlockSizeTraps | common/aboot.c:205-205 | a printed image with block size 0 and a fill chunk passes the block size check, traps, and leaves its buffer allocated |
| SparseExamples.FillTooBigLeaks | common/aboot.c:182-189 | a printed fill chunk one block larger than the partition is refused with its buffer left allocated |
| DeviceEnum.FrontierGroup | api/api_storage.c:211-270 | a group taken up for the first time gives its first device if active, overwrites the cookie and is done with |
| DeviceEnum.ScanFrontier | api/api_storage.c:291-304 | scanning from the frontier returns the first device of the next group that has an active one, though the cookie passes through NULL and inactive devices |
| DeviceEnum.SkipEnded | api/api_storage.c:226-239 | groups done with are passed over and leave flags and cookie alone |
| DeviceEnum.RestartStep | api/api.c:206-214 | a call with a NULL cookie returns the first of the expected devices, whatever the flags were; with none, NULL and all groups done with |
| DeviceEnum.HonestStep | api/api.c:222-226 | a call fed the last cookie returns the next expected device, or NULL after the last |
| DeviceEnum.RunStates | api/api.c:206-226 | between calls there is a frontier: groups below it started and ended, groups above untouched, the cookie the net device or the first device just below it |
| DeviceEnum.RunReturns | api/api.c:206-226 | a run returns the net device if any, then each group's active first device in group order, then NULL |
| DeviceEnum.RunsRepeat | api/api.c:206-224 | feeding the NULL back repeats the same results, with a period of at most two more than the groups |
| DeviceEnum.NoRepeats | api/api.c:206-226 | no cookie comes twice in a run and none is NULL before its end |
| DeviceEnum.ReturnsCycle | api/api.c:206-226 | every call, however many, returns one of the expected devices or NULL |
| DeviceEnum.NeverTheSecond | api/api_storage.c:108-113 | no call ever returns a device of index 1 or more |
| DeviceEnum.CompleteExactly | api/api_storage.c:202-203 | every active storage device is returned by some call if and only if no group has one beyond its first |
| DeviceEnum.SecondDeviceMissed | api/api_storage.c:108-113 | with two active devices in one group, every odd call returns the first, every even one NULL, and none the second |
| DeviceEnum.StorageTakesUp | api/api_storage.c:243-251 | each call of a run that returns a storage device leaves strictly fewer groups not taken up |
| DeviceEnum.ContinuesGroup | api/api_storage.c:222-232 | fed a device of a group that is not done with, a call returns the next one if active, and the group is done with if and only if there is no room for another |
| DeviceEnum.GroupRun | api/api_storage.c:222-270 | calls that start inside such a group return its active devices one after the other |
| DeviceEnum.LeavesGroup | api/api_storage.c:116-160 | fed a device with no active one next, a call goes on to the first active device of the groups after; the group stays open if and only if an inactive device is next with room behind it |
| DeviceEnum.TakesUpAgain | api/api_storage.c:211-220 | fed the last device of a group that is not done with, a call returns the next group's first device even if that group was done with |
| DeviceEnum.OutOfOrder | api/api_storage.c:259-263 | fed a device of none of the groups to come while one is under way, a call gives that group up and goes on to the groups after |
| DeviceEnum.StepsThroughGroup | api/api_storage.c:116-139 | stepping inside a group returns the devices after the given one in order, hints at more while there is room, then finds none |
| DeviceEnum.IndexFrom | api/api_storage.c:116-117 | the first index of a group that holds the cookie |
| DeviceEnum.GroupFrom | api/api_storage.c:170-175 | the first group that holds the cookie |
| DeviceApi.Api.StorGet | api/api_storage.c:99-160 | the first device, or the one after the cookie, with the hint, the cookie and type left behind, and block count and size if found |
| DeviceApi.Api.StorType | api/api_storage.c:166-176 | the first group that holds the device, or the number of groups |
| DeviceApi.Api.EnumStor | api/api_storage.c:188-279 | one group's step: result, cookie and that group's flags; other flags unchanged |
| DeviceApi.Api.EnumReset | api/api_storage.c:281-289 | all flags are cleared |
| DeviceApi.Api.EnumStorage | api/api_storage.c:291-304 | the scan over all groups |
| DeviceApi.Api.EnumNet | api/api_net.c:59-74 | the current ethernet device with its hardware address, found unless NULL |
| DeviceApi.Api.DevEnum | api/api.c:197-227 | one enumeration call on flags and cookie; unless NULL, the record tells of the device at the cookie |
| DeviceApi.Api.EnumerateAll | examples/api/glue.c:178-205 | the consumer's loop fills its slots with the expected devices, up to its room |
| DeviceApi.Api.StorIsValid | api/api_storage.c:306-316 | the device is in the group and active |
| DeviceApi.Api.OpenStor | api/api_storage.c:319-330 | opening succeeds if and only if the cookie is an active device of some group |
| DeviceApi.Api.StorIndex | api/api_storage.c:343-353 | for a device of some group the search finds its index and does not fall through |
| DeviceApi.Api.ReadStor | api/api_storage.c:356-373 | the driver is called if and only if the cookie is an active device of some group and it can read, and then with an index that holds that cookie |
| DeviceApi.ReadableExactly | api/api_storage.c:356-373 | a cookie can be read if and only if some group has it as an active device |
| DeviceApi.EnumeratedIsReadable | api/api_storage.c:108-113 | an enumerated storage device can be opened and read if and only if its group has room for a device |
| DeviceHandle.Balance | api/api_net.c:35-53 | over every sequence of opens, closes and interface changes, starts minus stops is 1 while open and 0 while closed |
| DeviceHandle.StuckOpen | api/api_net.c:46-53 | while the interface is another one, no sequence of calls closes an open handle |
| DeviceHandle.Handle.Open | api/api.c:230-259 | busy if open; else the error code as a function of cookie, kind, current interface, `eth_init` and the storage table, with no device for NULL or unknown; an error leaves the state alone, success opens it, and only a network device is started |
| DeviceHandle.Handle.Close | api/api.c:262-294 | closed already is fine; else the error code as a function of cookie, kind and current interface, with no device for NULL or unknown; an error leaves the state alone, success closes it, and only a network device is stopped |
| DeviceHandle.Handle.Drive | api/api.c:230-294 | any sequence of calls on a fresh network handle keeps the balance |
| EnvEnum.EnvMatch | common/cmd_nvedit.c:717-730 | non-negative if and only if the entry has an '=' and the names before it are equal, and then the offset of the value |
| EnvEnum.EntryEnd | api/api.c:513-518 | the end of the entry, or the early return if and only if the entry ends beyond the size |
| EnvEnum.EnumEnv | api/api.c:496-537 | the address of the entry after the first one with the given name, NULL after the last, or the caller's pointer left in place |
| EnvEnum.ResultExactly | api/api.c:510-533 | the caller's pointer is left in place if and only if nothing matches or an entry ends beyond the size with no match before it; NULL is given if and only if the last entry is the first match and all end within the size; an address if and only if it is that of the entry after such a first match |
| EnvEnum.NextOfGood | api/api.c:520-532 | an entry with a new name within the size leads to the next one, or to NULL from the last |
| EnvEnum.WalkVisitsAll | api/api.c:506-533 | a walk over such a non-empty block visits every entry exactly once in order and then gives NULL; what it reads is stated by EnvEnum.DecidedBelowExactly |
| EnvEnum.WalkIsTrapped | api/api.c:512-533 | otherwise the walk never gets past the first entry that cannot be found |
| EnvEnum.WalkEndsExactly | api/api.c:506-533 | a walk ever gives NULL if and only if the block is not empty, names are distinct and every entry ends within the size |
| EnvEnum.NameSuffices | examples/api/glue.c:367-373 | feeding back the bare name gives the same result as the whole entry |
| EnvEnum.BlockEndsAtSecondNul | api/api.c:512-513 | environments that agree up to the second NUL hold the same block, and so give the same results |
| EnvEnum.OutOfBounds | api/api.c:523-531 | with a block that ends at or beyond the size, two environments with the same bytes below it give NULL and an address for the same call |
| EnvEnum.DecidedBelowExactly | api/api.c:512-531 | of the blocks whose walk ends, results are independent of all bytes at or beyond the size if and only if the block ends, with both NULs, below it |
| EnvEnum.ThreeBytes | api/api.c:523-531 | with the entry `a=b` and size 3, the byte at 4 decides between NULL and an address |
| EnvEnum.CopyName | examples/api/glue.c:379-386 | the consumer's copy is the part before '=' |
| EnvEnum.WalkEnv | examples/api/glue.c:360-387 | the consumer's loop collects the names of all entries in order |
| MemoryRegions.FilledGrows | api/api.c:682-690 | first fit turns the table filled with some banks into the one filled with one more |
| MemoryRegions.FirstFree | api/api.c:682-684 | the first slot with flags 0, none before it being free |
| MemoryRegions.SetRegion | api/api.c:674-691 | the first free slot gets the region, or nothing changes |
| MemoryRegions.SysInfo | api/api_platform-arm.c:28-37 | occupied slots are unchanged and the r-th free slot holds the r-th non-empty bank while there are banks |
| MemoryRegions.SlotsUsedUp | api/api_platform-arm.c:32-34 | among the first k slots exactly the surplus of free slots over banks stays free |

## Left out

- `get_dev`, `block_read`, `eth_init`, `eth_halt`, `memalign`: drivers and allocators are parameters of the model.
- SparseWriter.WriteSparseImage: block sizes are powers of two from 4 to 2^31, pointers do not wrap around, and the `sz` argument, which the code never looks at, is no parameter; what is read is stated by SparseFormat.WalkReadsBelowEnd and SparseFormat.RoundTrip.
- SparseContainment.ContainmentExactly: about partitions that end below 2^bits; a disk whose block count is an `lbaint_t` has no others.
- SparseWriter.Reply.Fail: keeps the order of messages, not their characters, and does not model the size of the reply buffer.
- DeviceApi.Api.ReadStor: takes a cookie other than NULL, which `API_dev_read` checks first; buffers and lengths are not modelled.
- DeviceHandle.Handle.Open: device types are the three cases the type bits distinguish, and the pointer check on the argument is not modelled.
- EnvEnum.EnvMatch: neither string contains a NUL, and a string equal to an entry without '=' is excluded, because the comparison then runs on past both NULs into memory the model does not have.
- EnvEnum.EnumEnv: the block is a sequence of non-empty entries ended by a second NUL, and the string fed back is none of the entries without '=', for the same reason; memory without that end is not modelled.
- EnvEnum.WalkEndsExactly: every entry has an '=', since a walk feeds entries back.
- EnvEnum.CopyName: the 256-byte buffer of the consumer is unbounded here.
- Console, timer, reset, display and environment get/set calls, call dispatch and the API signature: thin wrappers.
- Raw images, GPT updates and partition lookup in common/fb_mmc.c.
- Network reads and writes, which pass straight through.
