# Kernel course modules: encrypting RAM disk, SSTF elevator, CPU cooling table

This Dafny project models three small pieces of Linux 3.19 kernel code from an
operating-systems course repository, and proves properties about them:

- **sbd** (`hw3/linux-yocto-3.19/drivers/block/sbd.c`) is a RAM block device.
  Its memory holds AES ciphertext. A write request encrypts the caller's
  buffer into the device one 16-byte cipher block at a time. A read request
  decrypts that range back into the caller's buffer. The model covers the
  transfer (`sbd_transfer`), the loop of `sbd_request` over a queue, the
  geometry that `sbd_getgeo` reports, and the size and key set-up in
  `sbd_init`. AES is abstract here: a pair of block functions
  (`SbdCipher.BlockCipher`). The round trip is proved for any pair in which
  decryption undoes encryption.
- **sstf** (`hw2/linux-yocto-3.19/block/sstf-iosched.c`) is a
  shortest-seek-time-first I/O elevator. Dispatch removes the queued request
  whose start sector is nearest to where the previous dispatch ended. On a
  tie, the earliest queued request wins. The elevator's list is a `seq` of
  requests whose `tag` (the struct's address) is never linked twice. The head position `prev_sector` is a field of the
  scheduler.
- **cpu_cooling** (`linux-yocto-3.19/drivers/thermal/cpu_cooling.c`) is a
  thermal cooling device. Registering it builds a table with one cooling
  level per valid cpufreq entry: the distinct valid frequencies in descending
  order, then 0 for the levels left over when the table repeats a
  frequency. The thermal core then reads and sets the cooling level through three
  callbacks.

Files:

- `wrappers.dfy`: `Option`.
- `sbd_cipher.dfy`: bytes, blocks, and block-by-block encryption of a range.
- `sbd.dfy`: the device.
- `sstf_iosched.dfy`: the elevator.
- `cpu_cooling.dfy`: the cooling device.

Integer widths are written out where the model keeps them:

- The geometry's 16-bit `cylinders` field.
- The SSTF distance is stored in an `int`.
- cpu_cooling's `max_level` is an `unsigned int` and is decremented.

Three other widths are bounded by preconditions instead: sbd's `int` size, the geometry's `long` intermediate (`GetGeo` requires the scaled size to be at most `LONG_MAX`), and sstf's `sector_t` end sector. "## Left out" lists them. sbd's `unsigned long` byte offset is neither written out nor bounded: the model computes it unwrapped, as the `Sbd.SbdDevice.Transfer:` line under "## Left out" says.

## Model

| member | source | states |
|---|---|---|
| SbdCipher.EncryptRange | hw3/linux-yocto-3.19/drivers/block/sbd.c:98-101 | encrypting a block-aligned range keeps its length |
| SbdCipher.DecryptRange | hw3/linux-yocto-3.19/drivers/block/sbd.c:121-124 | decrypting a block-aligned range keeps its length |
| SbdCipher.EncryptRangeBlocks | hw3/linux-yocto-3.19/drivers/block/sbd.c:98-101 | block k of the encrypted range is the encryption of block k of the plaintext, for every k |
| SbdCipher.DecryptRangeBlocks | hw3/linux-yocto-3.19/drivers/block/sbd.c:121-124 | block k of the decrypted range is the decryption of block k of the ciphertext, for every k |
| SbdCipher.DecryptEncryptRange | hw3/linux-yocto-3.19/drivers/block/sbd.c:98-124 | when decryption undoes encryption on a block, decrypting an encrypted range of any length gives the plaintext back |
| Sbd.SectorsAreWholeBlocks | hw3/linux-yocto-3.19/drivers/block/sbd.c:73 | `nsect * logical_block_size` is a multiple of the AES block size for every accepted block size, so the 16-byte stride never straddles the end |
| Sbd.SetKey | hw3/linux-yocto-3.19/drivers/block/sbd.c:231 | setting an AES key succeeds exactly for 16-, 24- and 32-byte keys and otherwise returns -EINVAL |
| Sbd.StoreEncryptedFrame | hw3/linux-yocto-3.19/drivers/block/sbd.c:92-101 | a write keeps the store's length, leaves every byte outside `[offset, offset+numbytes)` unchanged, and puts the encryption of the k-th plaintext block at the k-th block of the range |
| Sbd.WriteThenReadRoundTrip | hw3/linux-yocto-3.19/drivers/block/sbd.c:92-124 | reading back a range that was just written delivers the written plaintext into the front of any buffer |
| Sbd.ShiftClearedBits | hw3/linux-yocto-3.19/drivers/block/sbd.c:177 | clearing the six low bits before shifting right by six does not change the result |
| Sbd.ShiftRightSix | hw3/linux-yocto-3.19/drivers/block/sbd.c:177 | `x >> 6` is `x / 64` |
| Sbd.GetGeo | hw3/linux-yocto-3.19/drivers/block/sbd.c:172-182 | the geometry has 4 heads, 16 sectors and start 0; cylinders is the scaled size divided by 64, truncated to the 16-bit field |
| Sbd.DefaultGeometry | hw3/linux-yocto-3.19/drivers/block/sbd.c:34-36 | with the default parameters cylinders is 8192, and heads·sectors·cylinders equals the byte size |
| Sbd.CompletionStatus | hw3/linux-yocto-3.19/drivers/block/sbd.c:149-159 | a request completes with 0 exactly when it is REQ_TYPE_FS, and with -EIO otherwise |
| Sbd.NextRequestAsWritten | hw3/linux-yocto-3.19/drivers/block/sbd.c:148-161 | the loop as written moves on either to the fetched request or to the same request again |
| Sbd.NonFsRequestIsRetried | hw3/linux-yocto-3.19/drivers/block/sbd.c:149-152 | after a non-FS request the loop as written returns to that same request and never reaches the next one |
| Sbd.SbdDevice.Init | hw3/linux-yocto-3.19/drivers/block/sbd.c:196-205 | the device holds `nsectors * logical_block_size` bytes in a fresh buffer, for parameters whose product fits in an `int`; the setkey status is recorded but not acted on (see Findings) |
| Sbd.TransferEffect | hw3/linux-yocto-3.19/drivers/block/sbd.c:69-141 | one transfer keeps the lengths of the store and of the buffer; a range past the end of the store changes neither; a write leaves the buffer as it was, and a read leaves the store as it was |
| Sbd.SbdDevice.Transfer | hw3/linux-yocto-3.19/drivers/block/sbd.c:69-141 | as written, with position and length scaled by `logical_block_size` (see Findings): out of bounds nothing changes; a write leaves the store equal to `StoreEncrypted` of the old store and the buffer's front, and the buffer unchanged; a read leaves the buffer equal to `LoadDecrypted` of the old buffer and the stored range, and the store unchanged |
| Sbd.SbdDevice.TransferUnits | hw3/linux-yocto-3.19/drivers/block/sbd.c:69-141 | the body of sbd_transfer for a given unit of position and length, with the same outcome as `Transfer` states |
| Sbd.SbdDevice.EncryptInto | hw3/linux-yocto-3.19/drivers/block/sbd.c:93-101 | the encryption loop leaves the store equal to `StoreEncrypted` of the old store and the buffer's first `numbytes` bytes |
| Sbd.SbdDevice.EncryptNext | hw3/linux-yocto-3.19/drivers/block/sbd.c:98-101 | one pass of the encryption loop extends the encrypted prefix of the range by one block and leaves the rest of the store as it was |
| Sbd.SbdDevice.DecryptFrom | hw3/linux-yocto-3.19/drivers/block/sbd.c:118-124 | the decryption loop leaves the buffer equal to `LoadDecrypted` of the old buffer and the stored range |
| Sbd.SbdDevice.DecryptNext | hw3/linux-yocto-3.19/drivers/block/sbd.c:121-124 | one pass of the decryption loop extends the decrypted prefix of the buffer by one block and leaves the rest of the buffer as it was |
| Sbd.WriteBlock | hw3/linux-yocto-3.19/drivers/block/sbd.c:98-124 | storing one cipher block overwrites exactly the 16 destination bytes and leaves every other byte as it was |
| Sbd.LargeBlockTransferOverrunsSegment | hw3/linux-yocto-3.19/drivers/block/sbd.c:72-73 | for every logical block size above 512, a segment of `cur_sectors * 512` bytes is too short for `Transfer`'s walk of a non-empty request, and for any sector but 0 a write by the as-written transfer leaves the store byte the block layer addressed untouched |
| Sbd.Serve | hw3/linux-yocto-3.19/drivers/block/sbd.c:149-157 | with positions in 512-byte sectors, a request that is not REQ_TYPE_FS leaves the store and its buffer as they were; every request keeps both lengths |
| Sbd.SbdDevice.HandleRequest | hw3/linux-yocto-3.19/drivers/block/sbd.c:149-159 | corrected, with the request's position and length in 512-byte sectors: a non-FS request is ended with -EIO and touches nothing; an FS request is transferred as `Serve` states and completed with 0, even when the transfer refused its range |
| Sbd.BuffersAfterAt | hw3/linux-yocto-3.19/drivers/block/sbd.c:148-161 | when the queue is served in order, request k's buffer ends as request k alone leaves it, served against the store that the requests before k left |
| Sbd.NonFsRequestsKeepStore | hw3/linux-yocto-3.19/drivers/block/sbd.c:149-153 | a run of requests that are not REQ_TYPE_FS leaves the store exactly as it was |
| Sbd.WriteMalformedReadRoundTrip | hw3/linux-yocto-3.19/drivers/block/sbd.c:148-161 | a write, then a request that is not REQ_TYPE_FS, then a read of the same sectors: the read delivers the bytes that were written |
| Sbd.SbdDevice.ServeNext | hw3/linux-yocto-3.19/drivers/block/sbd.c:148-161 | serving request k on the store the requests before it left gives the store after k + 1 requests, and leaves request k's buffer at its served value |
| Sbd.SbdDevice.Drain | hw3/linux-yocto-3.19/drivers/block/sbd.c:144-163 | corrected loop: every queued request is completed once, in order, with `CompletionStatus`; the store ends as the in-order fold `StoreBefore` over the whole queue, and each request's buffer as `BuffersAfter` gives it |
| Sbd.SbdDevice.WriteThenRead | hw3/linux-yocto-3.19/drivers/block/sbd.c:69-141 | writing a range and then reading it into another buffer delivers the bytes that were written |
| Sbd.Create | hw3/linux-yocto-3.19/drivers/block/sbd.c:224-231 | corrected set-up: a device is created exactly when setkey succeeds, and then it has the requested size and a key that took |
| Sbd.DefaultKeyRefused | hw3/linux-yocto-3.19/drivers/block/sbd.c:41 | the default key "42_Fall2017" is 11 bytes and AES refuses it with -EINVAL, while the default size is still accepted |
| SstfIosched.Dist | hw2/linux-yocto-3.19/block/sstf-iosched.c:41-45 | the seek distance is the absolute difference of the two sectors |
| SstfIosched.NearestIsUnique | hw2/linux-yocto-3.19/block/sstf-iosched.c:47 | with the strict `prev > temp` test the nearest request is unique: ties go to the earliest |
| SstfIosched.RemoveAt | hw2/linux-yocto-3.19/block/sstf-iosched.c:54 | unlinking one request keeps the order of the others and removes exactly that element from the multiset |
| SstfIosched.RemoveAtDistinct | hw2/linux-yocto-3.19/block/sstf-iosched.c:54 | after unlinking, no request struct is linked twice and the removed struct is no longer linked |
| SstfIosched.SelectNearest | hw2/linux-yocto-3.19/block/sstf-iosched.c:27-51 | the scan of a non-empty list returns the index of the earliest request with the smallest distance from the head |
| SstfIosched.ToInt32 | hw2/linux-yocto-3.19/block/sstf-iosched.c:28 | storing into `int` keeps the value modulo 2^32 within the signed 32-bit range, and is exact below 2^31 |
| SstfIosched.ScanAsWritten | hw2/linux-yocto-3.19/block/sstf-iosched.c:34-51 | the scan with `int` distances keeps its candidate or picks a later queued request |
| SstfIosched.PickAsWritten | hw2/linux-yocto-3.19/block/sstf-iosched.c:27-51 | the pick as written is always a queued request for a non-empty list, since `prev == -1` takes the first one |
| SstfIosched.ScanAsWrittenFindsNearest | hw2/linux-yocto-3.19/block/sstf-iosched.c:34-51 | when all distances fit in `int`, the scan as written finds the nearest request |
| SstfIosched.PickAsWrittenIsNearestWhenNear | hw2/linux-yocto-3.19/block/sstf-iosched.c:27-51 | when every distance is below 2^31, the source's pick equals the shortest-seek choice |
| SstfIosched.TruncatedDistancePicksFarRequest | hw2/linux-yocto-3.19/block/sstf-iosched.c:28-47 | a request 2^32 sectors away truncates to distance 0 and is picked over one a single sector away |
| SstfIosched.SstfScheduler.Init | hw2/linux-yocto-3.19/block/sstf-iosched.c:93-115 | a new elevator has an empty list and head position 0, the value `prev_sector` has for the first elevator after the module loads |
| SstfIosched.SstfScheduler.AddRequest | hw2/linux-yocto-3.19/block/sstf-iosched.c:64-71 | the request is appended to the tail, and the head is unchanged |
| SstfIosched.SstfScheduler.Dispatch | hw2/linux-yocto-3.19/block/sstf-iosched.c:24-62 | an empty list returns 0 and changes nothing; otherwise it returns 1 and removes and dispatches the nearest request, and the head moves to that request's end sector |
| SstfIosched.SstfScheduler.MergedRequests | hw2/linux-yocto-3.19/block/sstf-iosched.c:17-21 | the merged-away request is unlinked from the list and nothing else changes |
| SstfIosched.SstfScheduler.FormerRequest | hw2/linux-yocto-3.19/block/sstf-iosched.c:73-81 | returns the list predecessor, or None for the first request |
| SstfIosched.SstfScheduler.LatterRequest | hw2/linux-yocto-3.19/block/sstf-iosched.c:83-91 | returns the list successor, or None for the last request |
| SstfIosched.SstfScheduler.ExitQueue | hw2/linux-yocto-3.19/block/sstf-iosched.c:117-123 | tearing down hits the BUG exactly when requests are still queued |
| CpuCooling.CountValid | linux-yocto-3.19/drivers/thermal/cpu_cooling.c:345-346 | the count of valid entries is at most the table length, and is zero exactly when no entry is valid |
| CpuCooling.CountValidEntries | linux-yocto-3.19/drivers/thermal/cpu_cooling.c:344-346 | the counting loop computes `CountValid` |
| CpuCooling.FindNextMax | linux-yocto-3.19/drivers/thermal/cpu_cooling.c:295-307 | the result is the largest valid frequency strictly below `prev_max`, or 0 when there is none |
| CpuCooling.FillFreqTable | linux-yocto-3.19/drivers/thermal/cpu_cooling.c:374-384 | level 0 holds the next maximum below UINT_MAX, and each later level the next maximum below the one before it |
| CpuCooling.LevelTablePrefix | linux-yocto-3.19/drivers/thermal/cpu_cooling.c:375-377 | every prefix of a level table is a level table |
| CpuCooling.LevelsDescending | linux-yocto-3.19/drivers/thermal/cpu_cooling.c:71 | the level table is non-increasing, strictly decreasing while non-zero, and level 0 is the highest valid frequency |
| CpuCooling.LevelsCoverAbove | linux-yocto-3.19/drivers/thermal/cpu_cooling.c:374-384 | every non-zero valid frequency at or above level i appears in levels 0..i |
| CpuCooling.ZeroLevelOnlyWhenExhausted | linux-yocto-3.19/drivers/thermal/cpu_cooling.c:379-381 | a level holds 0 only once every non-zero valid frequency is already in an earlier level (duplicates leave trailing zeros) |
| CpuCooling.MaxLevelAsWritten | linux-yocto-3.19/drivers/thermal/cpu_cooling.c:355-356 | `max_level--` on an `unsigned int` is the count minus one for a positive count, and stays within 32 bits |
| CpuCooling.EmptyTableMaxLevelWraps | linux-yocto-3.19/drivers/thermal/cpu_cooling.c:345-356 | a table with no valid entry gives count 0, and `max_level` wraps to UINT_MAX |
| CpuCooling.CpufreqCoolingDevice.Register | linux-yocto-3.19/drivers/thermal/cpu_cooling.c:340-386 | registration with a valid entry sets `max_level` to the count minus one, fills the level table, and starts at state 0 with `cpufreq_val` equal to level 0 |
| CpuCooling.CpufreqCoolingDevice.GetLevel | linux-yocto-3.19/drivers/thermal/cpu_cooling.c:125-139 | returns THERMAL_CSTATE_INVALID exactly when the frequency is not in the table, and otherwise the first level holding it |
| CpuCooling.CpufreqCoolingDevice.GetMaxState | linux-yocto-3.19/drivers/thermal/cpu_cooling.c:220-227 | returns 0 and `max_level`, which is the number of valid frequencies minus one |
| CpuCooling.CpufreqCoolingDevice.GetCurState | linux-yocto-3.19/drivers/thermal/cpu_cooling.c:239-247 | returns 0 and the current state, which is a level whose frequency is `cpufreq_val` |
| CpuCooling.CpufreqCoolingDevice.SetCurState | linux-yocto-3.19/drivers/thermal/cpu_cooling.c:259-281 | a state above `max_level` gives -EINVAL and changes nothing; the current state changes nothing; any other state becomes current with `cpufreq_val` equal to its level's frequency |
| CpuCooling.CpufreqCoolingRegister | linux-yocto-3.19/drivers/thermal/cpu_cooling.c:334-356 | corrected registration: no table gives -EPROBE_DEFER, a table without valid entries gives -EINVAL, and any other table registers a device |

## Left out

- AES itself is not modelled. `crypto_alloc_cipher`, `crypto_cipher_blocksize` and the encrypt/decrypt calls are one abstract `BlockCipher` with a 16-byte block. Only the round trip is proved, under the assumption that decryption undoes encryption. No claim is made that the data at rest is unreadable.
- The key is not tied to the cipher functions. The model records only whether setkey accepted the key's length.
- The `printk` hex dumps in `sbd_transfer` are left out. They only read 15 bytes and log them.
- Spinlocks, `queue_lock`, the cooling mutex, and concurrency in general are left out.
- sbd_init's other steps are left out: `-ENOMEM` from vmalloc, `blk_init_queue`, `register_blkdev`, `alloc_disk`, the gendisk fields, `add_disk`, and the whole of `sbd_exit`. Only the size, the store and the key are modelled.
- Sbd.SbdDevice.Init: says nothing about the store's initial contents, because vmalloc does not zero memory.
- Sbd.SbdDevice.Init: requires `nsectors * logical_block_size` to fit in an `int`. For larger parameters the product at sbd.c:203 is a signed overflow in C, and that case is not modelled.
- Sbd.SbdDevice.Init: admits only the logical block sizes 512, 1024, 2048 and 4096. sbd passes the parameter to `blk_queue_logical_block_size` unchecked; other values are not modelled.
- Sbd.Create: has the same two requirements on its parameters as `Sbd.SbdDevice.Init`.
- Sbd.Create: creates a 0-byte device when `nsectors` is 0. In the kernel `vmalloc(0)` returns NULL and sbd_init fails with `-ENOMEM`; that path is not modelled.
- Sbd.SbdDevice.Transfer: the offset is computed without the 64-bit `unsigned long` wrap. With `sector_t` positions bounded by the device size, the products do not overflow. An out-of-range transfer only logs a notice, and the request still completes with 0; the model does the same.
- Sbd.SbdDevice.HandleRequest: each request is one segment (`blk_rq_cur_sectors`). `__blk_end_request_cur` returning true for a multi-segment request is not modelled.
- Sbd.SbdDevice.Drain: requires the queued requests to have distinct buffers. Two requests that share one data segment are not modelled.
- Sbd.GetGeo: requires the scaled size `Device.size * (logical_block_size / 512)` to be at most `LONG_MAX`. The overflow of that product in the `long` at sbd.c:176 is not modelled.
- Sbd.GetGeo: the geometry multiplies the byte size by the sectors per block, so it counts bytes as 512-byte sectors. The model keeps this, as `Sbd.DefaultGeometry` shows.
- Kernel constants come from headers that are not part of this model. Their values are written as constants with the meaning they have in Linux 3.19: REQ_TYPE_FS, EIO, EINVAL, EPROBE_DEFER, CPUFREQ_ENTRY_INVALID, CPUFREQ_TABLE_END, THERMAL_CSTATE_INVALID, and the 16-bit `cylinders` field of `struct hd_geometry`.
- SstfIosched.SstfScheduler.Dispatch: selects with full-width distances, not the `int` of the source (see Findings). `prev_sector` is a file-scope global in the source but a field of each scheduler here. Because `sstf_init_queue` never resets that global, an elevator set up again after an earlier one starts from the end sector of the earlier one's last dispatch; the model's `Init` always starts at 0. The `rq == 0` test inside the list walk can never fire and is left out. `elv_dispatch_add_tail` is modelled by returning the dispatched request. `force` has no effect, as in the source.
- SstfIosched.SstfScheduler.Dispatch: the end sector `blk_rq_sectors(rq) + blk_rq_pos(rq)` at sstf-iosched.c:52 is a `sector_t` sum that could wrap past 2^64. The model does not write this wrap out. Its `Valid()` and `AddRequest`'s requires keep every queued request's end at or below the `sector_t` maximum, so `prevSector` is always that unwrapped end.
- SstfIosched.SstfScheduler.AddRequest: requires the request struct (its `tag`) not to be queued already, since a request is on one list at a time.
- SstfIosched.SstfScheduler.MergedRequests: each queued request is a snapshot of its start sector and length, taken when it was queued. The block layer changes a request in place while it is on the list. A bio back merge grows `blk_rq_sectors`, a front merge moves `blk_rq_pos`, and `attempt_merge` grows `rq` before it calls `sstf_merged_requests`. None of that is modelled, and `MergedRequests` ignores `rq`. So after a merge, `Dispatch` picks by the start sector from before the merge. After it dispatches a merged request, `prevSector` is that request's end sector from before the merge, whereas sstf-iosched.c:40 and :52 read the current values.
- The elevator's allocation failures in `sstf_init_queue` are left out, as are its `elevator_type` registration, and module init/exit.
- CpuCooling.CpufreqCoolingDevice.Register: requires at least one valid entry. The empty case is the finding below and is handled by `CpuCooling.CpufreqCoolingRegister`.
- The rest of cpu_cooling.c is left out:
  - the IDR allocation and the device-name formatting;
  - `thermal_of_cooling_device_register` and unregistration;
  - the cpufreq policy notifier and `cpufreq_update_policy`;
  - `cpufreq_cooling_get_level`, which finds a device in the global device list before calling `get_level`;
  - the allowed-CPU mask;
  - `-ENOMEM` paths.
  `SetCurState` records the clip frequency that the notifier would then apply.
- cpufreq's frequency table is modelled as a sequence of the valid-or-invalid frequency values, ending where `CPUFREQ_TABLE_END` would be.
- `hw1/hw1.c`, `concurrencyAssignments/concurrency2/concurrency2.c` and `hw2/linux-yocto-3.19/rwscript.py` are user-space exercises and a test script. They are not part of this model.

## Findings

| source | as written | input that shows it | evidently intended | confidence | as-written member | corrected member |
|---|---|---|---|---|---|---|
| hw3/linux-yocto-3.19/drivers/block/sbd.c:149-152 | a request that is not REQ_TYPE_FS is ended with -EIO, then `continue` goes round the loop with the same `req`, which is never refetched | any request with `cmd_type != REQ_TYPE_FS` at the head of the queue | fetch the next request after ending this one | high; not executed | Sbd.NextRequestAsWritten, Sbd.NonFsRequestIsRetried | Sbd.SbdDevice.Drain |
| hw3/linux-yocto-3.19/drivers/block/sbd.c:41, 231 | the result of `crypto_cipher_setkey` is ignored; the default key is 11 bytes, which AES refuses | the default module parameters (key "42_Fall2017") | check the result and fail the set-up, or ship a 16-byte key | high; not executed | Sbd.SbdDevice.Init, Sbd.DefaultKeyRefused | Sbd.Create |
| hw3/linux-yocto-3.19/drivers/block/sbd.c:72-73, 156 | `sector` and `nsect` are multiplied by `logical_block_size`, but `blk_rq_pos` and `blk_rq_cur_sectors` count 512-byte sectors (the capacity, at line 244, is also in 512-byte sectors); the transfer walks `nsect * logical_block_size` bytes of a segment of `nsect * 512` bytes | `logical_block_size=1024` and a request for one logical block (`blk_rq_cur_sectors` 2): 2048 bytes are walked over a 1024-byte segment, at byte offset `pos * 1024` instead of `pos * 512` | multiply by the 512-byte kernel sector size | high; not executed | Sbd.SbdDevice.Transfer, Sbd.LargeBlockTransferOverrunsSegment | Sbd.SbdDevice.HandleRequest |
| hw2/linux-yocto-3.19/block/sstf-iosched.c:28-47 | sector distances (`sector_t`, 64-bit) are stored in `int temp` and compared as `int` | head 0; queued requests at sectors 1 and 2^32, in that order: the second truncates to distance 0 and is dispatched | compare full-width distances | medium (needs a seek distance of at least 2^31 sectors, a device of more than 1 TiB); not executed | SstfIosched.PickAsWritten, SstfIosched.TruncatedDistancePicksFarRequest | SstfIosched.SelectNearest |
| linux-yocto-3.19/drivers/thermal/cpu_cooling.c:345-356, 375 | with no valid entry, `max_level` is 0 and `max_level--` wraps to UINT_MAX; the fill loop then runs past the zero-length `freq_table` | a table whose only entry is CPUFREQ_ENTRY_INVALID | refuse a table without valid frequencies | medium; not executed | CpuCooling.MaxLevelAsWritten, CpuCooling.EmptyTableMaxLevelWraps | CpuCooling.CpufreqCoolingRegister |
