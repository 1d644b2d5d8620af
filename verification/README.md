# USB mass-storage block cache, modelled in Dafny

This project models the core of a small Rust program that mounts a FAT partition on a USB
mass-storage stick. The core has three parts:

- **Endpoint discovery** (`UsbClient::find_bulk_endpoints`). A first-match search over the
  device's descriptor tree (configurations, then interfaces, then alternate settings) for a
  Mass Storage / SCSI transparent / Bulk-Only interface (class triple 8/6/80). The last two
  endpoints of the first such setting become the (read, write) pair.
- **The command channel** (`in_transfer` / `out_transfer`). Each call stages bytes around
  exactly one transport pull or push, using the `VecNewtype` byte FIFO as sink and source.
- **`OffsetScsiDevice`**. A single-slot write-back block cache that offers byte-stream
  `read` / `write` / `seek` / `flush` over a device that only moves whole blocks.
  Positions are relative to the partition start; `baseOffset` is added only when the device
  is addressed, and the sum is cut to `u32`.

The model is functional. The adapter is an immutable record holding an abstract block
device: its block size, a map from offsets to block bytes, and a log of every write it
received. Each operation is a pure function returning the new adapter and its result, or a
`Fault` where the Rust code would panic, except three cases a precondition excludes (see
"## Left out"): the straddling write, the `usize` underflow before it, and a zero block size.

Modules, one per file:

| file | module | models |
|---|---|---|
| bytes.dfy | `Bytes` | `u8`, zero-filled vectors |
| wrappers.dfy | `Wrappers` | `Option`, `Result` |
| vec_buffer.dfy | `VecBuffer` | `VecNewtype` |
| channel.dfy | `Channel` | `in_transfer`, `out_transfer` |
| endpoints.dfy | `Endpoints` | descriptor tree, `find_bulk_endpoints` |
| block_device.dfy | `BlockDevice` | the external SCSI block device, as an oracle |
| alignment.dfy | `Alignment` | block-alignment arithmetic |
| offset_device.dfy | `OffsetDevice` | `OffsetScsiDevice` |
| offset_device_proofs.dfy | `OffsetDeviceProofs` | properties spanning several operations |

Behaviour of the code worth knowing, modelled as written:

- `consume` evicts only when the cursor is strictly past the block end (src/main.rs:381),
  not when it reaches it. With device blocks of exactly one block size, a read therefore
  never crosses a block boundary. It stops at the block end, and every later read returns 0
  bytes until a seek (`ReadPastBlockEndStalls`). A read can only evict, and so only write a
  dirty block back (`ReadLoopWritesBack`), on a device that returns blocks longer than one
  block size.
- The same strict `>` has a consequence for writes. A write that ends on the block end, such
  as a whole-block write, leaves the cursor there with no room left in the block
  (`cur_block_size` is 0 at src/main.rs:437). The next non-empty write then takes the
  straddling branch, which always panics, until a seek (`WriteToBlockEndLeavesNoRoom`).
- The cursor and buffered offset are relative to the partition, not absolute.
- A failed transfer panics through `unwrap` instead of returning an error; the model reports
  it as a `TransferPanic` outcome. A relative seek below zero panics on the `usize`
  subtraction (src/main.rs:518) in a build with overflow checks; the model reports it as the
  `SubtractOverflow` fault. Device failures are not modelled: the abstract device never fails.
- `in_transfer` appends every staged byte, as many as the sink's reported capacity, not only
  the bytes the pull delivered.
- The slice panics of `fill_buf` and `write` (a cursor beyond the loaded bytes) are the
  `SliceOutOfRange` fault.
- The abstract device answers a read at an offset that holds no block with no bytes. With
  the cursor at the start of such a block, a `read` returns 0 bytes and only a zero-length
  `write` succeeds. Anywhere inside the block, both hit the slice panic
  (`SliceOutOfRange`). What the real device does past its end is decided by the scsi crate,
  outside this model.

## Model

| member | source | states |
|---|---|---|
| `VecBuffer.Size` | src/main.rs:307-309 | the size is the number of bytes held, the length of the wrapped vector |
| `VecBuffer.Capacity` | src/main.rs:310-312 | the reported capacity is the stored fake size, whatever the content |
| `VecBuffer.New` | src/main.rs:287-289 | a new buffer is empty and reports capacity 512 |
| `VecBuffer.WithFakeCapacity` | src/main.rs:290-295 | the buffer is empty and reports exactly the requested capacity |
| `VecBuffer.FromVec` | src/main.rs:297-305 | wrapping keeps the content. Capacity is `2*len` above 512 and 512 otherwise, so it is never below 512 or below the content length |
| `VecBuffer.PushByte` | src/main.rs:313-316 | the byte is appended at the back, the result is `Ok(1)`, and capacity is unchanged |
| `VecBuffer.PullByte` | src/main.rs:317-325 | the front byte is removed and returned. On an empty buffer the result is `BufferTooSmall(0, 1)` and the buffer is unchanged |
| `VecBuffer.Clear` | src/main.rs:386 | clearing empties the content and keeps the reported capacity |
| `VecBuffer.PushPullCommute` | src/main.rs:313-325 | FIFO law: on a non-empty buffer, push-then-pull equals pull-then-push, and the old front byte comes out |
| `VecBuffer.PushPullEmpty` | src/main.rs:313-325 | the byte pushed into an empty buffer is the next byte pulled, and the buffer is empty again |
| `Bytes.Zeros` | src/usb_comm.rs:143-144 | the staging vector has the requested length and every byte is 0 |
| `Channel.Staged` | src/usb_comm.rs:143-145 | the staging vector is as long as the capacity, begins with the pulled bytes and is zero after them |
| `Channel.PushAll` | src/usb_comm.rs:150-152 | pushing staged bytes one at a time appends them all in order and keeps capacity |
| `Channel.Drain` | src/usb_comm.rs:157-160 | pulling until the size is 0 yields the content in FIFO order and leaves the buffer empty |
| `Channel.InTransfer` | src/usb_comm.rs:142-154 | one pull. The sink keeps its old content, then gets the pulled bytes, then zeros up to its capacity, growing by exactly the capacity. Returns the pull's count. A failed pull panics |
| `Channel.OutTransfer` | src/usb_comm.rs:156-167 | the bytes handed to the one push are the source's content in order. The source ends empty, the push's count is returned, and a failed push panics |
| `Channel.PullThenPushPreservesOrder` | src/usb_comm.rs:142-167 | bytes pulled into an empty sink are pushed out in the same order, followed by the zero padding |
| `Endpoints.DirectionOf` | src/usb_comm.rs:100-105 | an endpoint is In exactly when bit 7 of its address is set (USB 2.0, section 9.6.6) |
| `Endpoints.SelectPair` | src/usb_comm.rs:92-126 | 0 or 1 endpoints panics. Otherwise, of the last two endpoints, the In one reads and the Out one writes, and same-direction endpoints fail. Both results carry the setting's config, interface and setting numbers |
| `Endpoints.SearchSettings` | src/usb_comm.rs:85-127 | the setting loop finds nothing exactly when no setting is considered; what it finds is a selection from one setting of this configuration |
| `Endpoints.SearchInterfaces` | src/usb_comm.rs:84-128 | a result of the interface loop is a selection from one setting of this configuration |
| `Endpoints.SearchConfigs` | src/usb_comm.rs:78-129 | a result of the configuration loop is a selection, and a found pair carries the number of a loadable configuration |
| `Endpoints.FindBulkEndpoints` | src/usb_comm.rs:70-133 | the result is "could not find" or a selection: a pair from one setting with In reading and Out writing, the same-direction error, or a missing-endpoint panic. A found pair's configuration number is that of a loadable configuration |
| `Endpoints.FindBulkEndpointsIsFirstMatch` | src/usb_comm.rs:75-133 | the result is the selection from the first considered setting in descriptor order, with no retry on a later setting. A setting is considered when the device or the setting is 8/6/80, and unloadable configurations are skipped. "Could not find" is returned exactly when nothing is considered |
| `Endpoints.FirstMatchNoneIffNoneConsidered` | src/usb_comm.rs:78-132 | the flattened first-match search finds nothing exactly when no setting in descriptor order is considered |
| `Endpoints.FirstMatchIsFirstConsidered` | src/usb_comm.rs:84-127 | when candidate `i` is considered and no earlier one is, the search answers with the endpoint selection of candidate `i` |
| `BlockDevice.AsU32` | src/main.rs:365-366 | device offsets are the low 32 bits of `base_offset + buffered_block_offset`: below 2^32 and congruent to the sum modulo 2^32, so truncated rather than saturated |
| `OffsetDevice.NewAdapter` | src/main.rs:349-359 | a new adapter is valid iff the block size is non-zero. Cursor and buffered offset start at 0, the one-block buffer is empty and clean, and the device and base offset are kept |
| `OffsetDevice.Flush` | src/main.rs:480-492 | a clean adapter is unchanged. A dirty one gets exactly one logged device write of its buffer at its block's offset, which then reads back as the buffer. It becomes clean, with buffer, cursor and buffered offset unchanged, and every other device offset keeps its block |
| `OffsetDevice.FillBuf` | src/main.rs:363-377 | an empty buffer is loaded from the device at its block's offset. The result is the loaded block from the cursor onward, and a cursor beyond the loaded bytes panics |
| `OffsetDevice.Consume` | src/main.rs:379-389 | the cursor advances by `amt`. Only a cursor strictly past the block end evicts: write back if dirty, then clean, empty, and advance the buffered offset by one block. Validity (aligned, at most the cursor) is kept |
| `OffsetDevice.ReadLoop` | src/main.rs:399-424 | the count stays between what was copied and what was asked. The cursor moves by the bytes copied, a clean adapter stays clean, and the write log only grows |
| `OffsetDevice.ReadLoopWritesBack` | src/main.rs:379-424 | a dirty block that the loop evicts was written back first: the first new device write puts the loaded block at its own device offset |
| `OffsetDevice.Read` | src/main.rs:393-429 | the count is at most `n` and the cursor moves by it. The first bytes are the loaded block from the cursor's position. A zero-length read changes nothing, `read` never makes the adapter dirty, and a request the loaded block can satisfy returns exactly those bytes. For a loaded block of at most one block size the result is exact: `min(n, rest of block)` bytes from the cursor, the block kept resident with the same offset, flag and device |
| `OffsetDevice.ReadLoopFirstRound` | src/main.rs:399-423 | the first round copies `min(n, rest of block)` bytes from the cursor's position, and panics when the cursor is past the loaded bytes |
| `OffsetDevice.ReadLoopOutOfRange` | src/main.rs:375-403 | a read with the cursor beyond the loaded bytes panics on the slice |
| `OffsetDevice.ReadLoopFirstStep` | src/main.rs:401-423 | with the cursor inside the loaded bytes, the first round copies `min(n, rest of block)` bytes from the cursor and consumes exactly that many |
| `OffsetDevice.ReadLoopWholeRequest` | src/main.rs:399-423 | a request the rest of the loaded block covers is answered in full after one round, with one `consume` of `n` |
| `OffsetDevice.WriteLoaded` | src/main.rs:469-478 | on a loaded buffer: fails on the slice when the bytes run past the loaded content, otherwise splices them in at the cursor, marks the adapter dirty, moves the cursor by the length and returns it, with nothing else changed |
| `OffsetDevice.Splice` | src/main.rs:471-473 | `copy_from_slice` replaces exactly the target range and keeps every other byte and the length |
| `OffsetDevice.Write` | src/main.rs:433-478 | for a write that fits in the block, the block is loaded first if empty. Exactly `[intra, intra+len)` is overwritten and every other byte kept. The adapter becomes dirty even for `len == 0`, nothing reaches the device, the cursor moves by `len`, and `len` is returned |
| `OffsetDevice.MoveTo` | src/main.rs:524-531 | the cursor is set to the target, the buffered offset becomes the start of the block holding it, and the buffer is emptied |
| `OffsetDevice.Seek` | src/main.rs:495-536 | `Start` and `Current` flush if dirty and then select the target's block, empty and clean. They return the target. A relative offset below zero fails before any flush, and `End` is unimplemented |
| `OffsetDevice.Close` | src/main.rs:340-346 | dropping the adapter is `flush`: a dirty adapter writes its block back exactly once, other offsets keep their blocks, and a clean adapter is untouched |
| `OffsetDeviceProofs.FlushTwiceWritesAtMostOnce` | src/main.rs:480-492 | two consecutive flushes equal one and issue at most one device write |
| `OffsetDevice.ReadLoopWithinBlock` | src/main.rs:399-424 | inside a block no longer than one block, a read copies `min(n, rest of block)` bytes and keeps the block resident with the same offset, flag and device |
| `OffsetDevice.ReadToBlockEnd` | src/main.rs:399-423 | a request longer than the rest of a loaded block of at most one block size gets exactly that rest, and the cursor stops on the block end |
| `OffsetDevice.ReadLoopAtBlockEnd` | src/main.rs:363-411 | with the cursor on the resident block's end, `fill_buf` yields nothing and the loop returns what it had, changing nothing |
| `OffsetDeviceProofs.ReadAtBlockEndReturnsNothing` | src/main.rs:375-409 | with the cursor on the resident block's end, a read returns 0 bytes and changes nothing |
| `OffsetDeviceProofs.ReadPastBlockEndStalls` | src/main.rs:379-389 | asking for more than the rest of a full block returns only that rest, and every following read returns 0 bytes |
| `OffsetDeviceProofs.WriteToBlockEndLeavesNoRoom` | src/main.rs:432-478 | a successful write ending on the block end leaves the cursor on it (no eviction), so any further non-empty write would straddle the block |
| `OffsetDeviceProofs.SeekBackFindsWrittenBlock` | src/main.rs:498-513 | after an in-block write, seeking to its start selects the same block, whose device copy is the written buffer |
| `OffsetDeviceProofs.WriteSeekReadRoundTrip` | src/main.rs:433-513 | a write at `p`, then `seek(Start(p))`, then a read of the same length returns exactly the written bytes |

## Left out

- `main` and `usb_test`: interactive device selection, MBR parsing and FAT operations. These are I/O and foreign crates.
- `UsbClient::from_device`, `new`, `pull_bytes` and `push_bytes`: libusb open, detach, reset, claim and bulk transfers with a 30-second timeout. The transport is an oracle: each transfer is given the reply it produced. Timeouts and logging are not modelled.
- The scsi crate's `ScsiBlockDevice` (commands, status wrappers, `block_size`): the device is a map from offsets to blocks plus a write log. A device error would panic through `unwrap` (src/main.rs:366-372, 489); this device never fails, so device errors are not modelled. A read at an offset with no block returns no bytes instead of whatever the real device does past its end.
- OffsetDevice.Flush: the device write is assumed to leave the buffer in place. If the external write drained it through `out_transfer`, the buffer would be empty after a flush; that crate is not part of this model.
- The `Buffer` trait's default `is_empty` and `clear` are external. They are modelled as "size is 0" and "content dropped, capacity kept".
- OffsetDevice.Write: the straddling branch (src/main.rs:447-468) is excluded by the precondition `intra + len <= block size`. Its slice runs past the block end and panics, so no intended behaviour is assumed for it. The same precondition excludes the `usize` underflow of `cur_block_size` at src/main.rs:437, which happens when the cursor is more than one block past the buffered offset. Neither panic is reported as a `Fault`.
- OffsetDevice.Seek: the semantics of a build with overflow checks is modelled, where a relative seek below zero panics. In a release build the subtraction at src/main.rs:518 wraps and the seek returns `Ok`; that is not modelled. `i64::MIN.abs()` overflow and the `as usize` / `as u64` casts are not modelled either. Positions are unbounded naturals.
- OffsetDevice.Valid: a zero block size is excluded, since `Valid` demands a positive one and `FillBuf`, `Consume`, `Read`, `Write` and `Seek` require `Valid`. On such a device the source's `seek` panics on `abs % blk_size` (src/main.rs:502, 524), and `consume` evicts on every step without moving the buffered offset (src/main.rs:381-387); neither is modelled.
- OffsetDevice.Consume: `usize` overflow of the cursor and offsets is not modelled. The only width modelled is the `u32` device offset.
- `err.rs`: string-formatting conversions only.
- The empty `Drop` of `UsbClient`, and all logging.
- Time, concurrency and retries: the code has no concurrency or retries, and its timeouts are not modelled.
