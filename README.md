# QDMA work queue and xclbin section container, in Dafny

This project models two parts of the Xilinx runtime (XRT) and proves properties of the models.

**The QDMA work queue.** The primary model is the work queue of the QDMA driver library,
`libqdma/qdma_wq.c`. A queue owns a power-of-two descriptor ring and a ring of work-queue
entries (WQEs) eight times as long. Three indices run round the WQE ring in the order pending,
unprocessed, free. In streaming-receive mode the queue also uses a cache of scatter-gather slots.

- `qdma_wq_create` and `qdma_wq_destroy`: bring a queue up and tear it down, one stage at a time.
- `qdma_wq_post`: stores a request in a free entry and drains.
- The drain, `descq_proc_req`: runs the fill strategy of the queue's mode over the unprocessed
  entries.
  - Block mode (`descq_mm_fill`).
  - Streaming send (`descq_st_h2c_fill`).
  - Streaming receive (`descq_st_c2h_fill`).
- `qdma_wqe_complete`: folds a hardware completion into its entry, delivers callbacks and
  wake-ups, retires cancelled entries and drains again.
- `qdma_cancel_req`: cancels the last non-blocking entry.
- `qdma_wq_getstat`: reports the counters and slot counts.

The queue is a class, `QdmaWq.WorkQueue`, over arrays:
- `wq`: the WQE ring.
- `desc`: the descriptor ring.
- `sgCache`: the slot cache.

Each fill method is proved against a pure function of the entry's fragment cursor and the free
room, in `QdmaChunking`. The properties of those functions are proved as lemmas:
- chunk bounds
- byte accounting
- resumption of a split fragment
- alignment
- one cache slot per fragment

**The xclbin section container.** The secondary model is the section container of the xclbin tool,
`tools/xclbin/XclBin.cxx`.

- `XclBinSections.XclBin` is a class holding the ordered list of section objects and the header's
  section count. Object identity stands for the C++ pointer identity. It provides:
  - add, remove and find;
  - the name-driven add, replace, dump and remove, with their checks;
  - the writer of the section part of a binary archive.
- `XclBinLayout` gives the layout of the section offsets, each on an 8-byte boundary, and the
  writer's check that the offsets match.
- `XclBinSearch` models the marker search of `findStringInStream`.
- `XclBinMode` models the mode names of `getModeAsPrettyString`.

Calls into code that is not part of this model become parameters:
- the engine's add, start, stop and remove return values;
- the queue configuration;
- the allocation outcomes;
- the value returned by `qdma_request_submit`;
- the translation of a section name;
- whether a file opens;
- the sizes of `axlf` and `axlf_section_header`.

Module layout:
- `wrappers.dfy`: `Option`.
- `qdma_types.dfy`: constants, fragments, the cursor, WQEs, descriptors and ring arithmetic.
- `qdma_chunking.dfy`: the fill passes as functions, with their lemmas.
- `qdma_entry.dfy`: post-time location of the offset, the alignment check, and entry transitions
  on completion.
- `qdma_wq.dfy`: the `WorkQueue` class.
- `xclbin_types.dfy`: section kinds and section headers.
- `xclbin_layout.dfy`: section offsets and the offset check.
- `xclbin_sections.dfy`: the section container.
- `xclbin_search.dfy`: the marker search.
- `xclbin_mode.dfy`: mode names.

The `QdmaTypes` module records the constants the driver headers supply, which are not part of
this model:
- `PAGE_SIZE` is 4096.
- `QDMA_DESC_BLEN_MAX` is 2^28 - 1.
- Linux errno values.

**Behaviour of the code worth noting:**
- The scatter-gather cache is allocated for every queue, not only for streaming ones
  (qdma_wq.c:140).
- A misaligned interior chunk in the streaming-send fill is not fatal. The fill returns -EINVAL
  and keeps what it already wrote (qdma_wq.c:283-289).
- A fill that runs out of ring room part-way returns 0. Only a fill that starts with no room
  returns -ENOENT.
- Post answering -EAGAIN still runs the drain, which may move the unprocessed index and the ring
  (qdma_wq.c:600-601). So "no index moves" holds only for the free index.
- Cancel is not idempotent. Cancelling again a `CANCELED_HW` entry that is still the last
  non-blocking one makes it `CANCELED`, because only a `PENDING` entry becomes `CANCELED_HW`
  (qdma_wq.c:529-534).
- "Nothing to cancel" is -EINVAL.

## Model

| member | source | states |
|---|---|---|
| QdmaTypes.LowBits | src/runtime_src/driver/xclng/drm/xocl/lib/libqdma/qdma_wq.c:33 | `len & QDMA_ST_H2C_MASK` is below 64 and is zero exactly for multiples of 64 |
| QdmaTypes.LowestSetBitIsSelfIffPow2 | src/runtime_src/driver/xclng/drm/xocl/lib/libqdma/qdma_wq.c:117-122 | `qlen == 1 << (ffs(qlen) - 1)` holds exactly when qlen is a power of two |
| QdmaTypes.NextIdxIsMasked | src/runtime_src/driver/xclng/drm/xocl/lib/libqdma/qdma_wq.c:211-212 | incrementing an index and masking with `rngsz - 1` is the next index modulo the ring size |
| QdmaTypes.RingPosOffset | src/runtime_src/driver/xclng/drm/xocl/lib/libqdma/qdma_wq.c:381-382 | k steps round the ring from p and back again measure k |
| QdmaTypes.BetweenTrans | src/runtime_src/driver/xclng/drm/xocl/lib/libqdma/qdma_wq.c:422-446 | the circular order of ring positions is transitive |
| QdmaTypes.AdvanceMiddle | src/runtime_src/driver/xclng/drm/xocl/lib/libqdma/qdma_wq.c:446 | advancing the unprocessed index towards free keeps pending ≤ unprocessed ≤ free and shortens its distance to free by one |
| QdmaTypes.AdvanceFirst | src/runtime_src/driver/xclng/drm/xocl/lib/libqdma/qdma_wq.c:482 | advancing the pending index towards unprocessed keeps the order and shortens the distance by one |
| QdmaTypes.AdvanceLast | src/runtime_src/driver/xclng/drm/xocl/lib/libqdma/qdma_wq.c:568 | taking a free entry keeps the order unless free would reach pending |
| QdmaChunking.StepFacts | src/runtime_src/driver/xclng/drm/xocl/lib/libqdma/qdma_wq.c:179-194 | one chunk is at most the maximum. It lowers the bytes left by its length and advances the device address by it. A split chunk stays on its fragment with the offset raised by the maximum. Otherwise the cursor moves to the next fragment with offset 0 |
| QdmaChunking.BytesLeftMeansFragmentLeft | src/runtime_src/driver/xclng/drm/xocl/lib/libqdma/qdma_wq.c:235 | a consistent cursor with bytes left still has a fragment, so the `BUG_ON` cannot fire |
| QdmaChunking.MmPassBounds | src/runtime_src/driver/xclng/drm/xocl/lib/libqdma/qdma_wq.c:178-233 | a block-mode pass writes at most `avail` descriptors, keeps the cursor consistent and never adds bytes |
| QdmaChunking.MmPassShape | src/runtime_src/driver/xclng/drm/xocl/lib/libqdma/qdma_wq.c:170-238 | a block-mode pass with room and bytes left writes between 1 and `avail` chunks, each at most `QDMA_DESC_BLEN_MAX`. It stops only when the bytes or the room run out. The bytes drop, and the device address rises, by the sum of the chunks. `unproc_sg_num` falls by the fragments fully consumed |
| QdmaChunking.MmPassProgress | src/runtime_src/driver/xclng/drm/xocl/lib/libqdma/qdma_wq.c:170-219 | a block-mode pass with room and bytes left writes at least one descriptor |
| QdmaChunking.MmRunIsPass | src/runtime_src/driver/xclng/drm/xocl/lib/libqdma/qdma_wq.c:178-233 | the fill loop, run from any point, finishes exactly what the pass function describes |
| QdmaChunking.MmPassResume | src/runtime_src/driver/xclng/drm/xocl/lib/libqdma/qdma_wq.c:186-194 | two passes of a and b descriptors, the second resuming where the first stopped (mid-fragment too), write what one pass of a + b writes |
| QdmaChunking.H2cPassShape | src/runtime_src/driver/xclng/drm/xocl/lib/libqdma/qdma_wq.c:258-334 | a streaming-send pass lowers the bytes by the sum of its chunks and never moves the device address. On success it writes between 1 and `avail` chunks and stops only on no bytes or no room. On failure it leaves room unused, with a zero fragment offset and bytes left |
| QdmaChunking.H2cPassBounds | src/runtime_src/driver/xclng/drm/xocl/lib/libqdma/qdma_wq.c:266-330 | a streaming-send pass writes at most `avail` descriptors and never adds bytes |
| QdmaChunking.H2cPassChunks | src/runtime_src/driver/xclng/drm/xocl/lib/libqdma/qdma_wq.c:273-289 | every streaming-send chunk is at most `PAGE_SIZE`, and a chunk that is not a multiple of 64 lies in the last fragment |
| QdmaChunking.H2cFailureOffset | src/runtime_src/driver/xclng/drm/xocl/lib/libqdma/qdma_wq.c:273-289 | the alignment failure happens on a chunk that finished its fragment, so the offset it left behind is 0 |
| QdmaChunking.H2cFailedCursorOk | src/runtime_src/driver/xclng/drm/xocl/lib/libqdma/qdma_wq.c:280-289 | after a failure, the entry keeps its fragment with the stored offset and the lowered bytes, and that cursor is still consistent |
| QdmaChunking.H2cPassProgress | src/runtime_src/driver/xclng/drm/xocl/lib/libqdma/qdma_wq.c:258-319 | a streaming-send pass that does not fail writes at least one descriptor |
| QdmaChunking.H2cRunIsPass | src/runtime_src/driver/xclng/drm/xocl/lib/libqdma/qdma_wq.c:266-319 | the streaming-send loop, run from any point, finishes exactly what the pass function describes |
| QdmaChunking.AlignedStep | src/runtime_src/driver/xclng/drm/xocl/lib/libqdma/qdma_wq.c:273-289 | a cursor whose remaining interior boundaries are 64-byte aligned takes a chunk that passes the alignment test, and it stays aligned |
| QdmaChunking.H2cAlignedNeverFails | src/runtime_src/driver/xclng/drm/xocl/lib/libqdma/qdma_wq.c:283-289 | with aligned interior boundaries, the streaming-send pass never fails |
| QdmaChunking.C2hStepFacts | src/runtime_src/driver/xclng/drm/xocl/lib/libqdma/qdma_wq.c:366-374 | a receive step takes the rest of one fragment, clamped to the bytes left, and moves to the next fragment with offset 0 |
| QdmaChunking.C2hPassBounds | src/runtime_src/driver/xclng/drm/xocl/lib/libqdma/qdma_wq.c:366-399 | a receive pass takes at most `sgc_avail` slots and keeps the cursor consistent |
| QdmaChunking.C2hPassShape | src/runtime_src/driver/xclng/drm/xocl/lib/libqdma/qdma_wq.c:358-404 | a receive pass with room and bytes left takes between 1 and `sgc_avail` slots, one per fragment it moves past, ending at offset 0. It stops on no bytes or no room, and the bytes drop by the slot lengths |
| QdmaChunking.C2hPassSlots | src/runtime_src/driver/xclng/drm/xocl/lib/libqdma/qdma_wq.c:366-378 | slot k comes from fragment sg + k. It holds that fragment's page, and its offset adds the resume offset only for k = 0. Every slot but the last takes the whole rest of its fragment |
| QdmaChunking.C2hRunIsPass | src/runtime_src/driver/xclng/drm/xocl/lib/libqdma/qdma_wq.c:366-399 | the receive loop, run from any point, finishes exactly what the pass function describes |
| QdmaEntry.PrefixPlusSuffix | src/runtime_src/driver/xclng/drm/xocl/lib/libqdma/qdma_wq.c:550-557 | the lengths before fragment k plus those from k on make up the whole list |
| QdmaEntry.LocateFrom | src/runtime_src/driver/xclng/drm/xocl/lib/libqdma/qdma_wq.c:552-557 | from fragment k on, the walk stops at the first fragment whose length exceeds what is left of the offset, or at the end; the fragments skipped plus the remainder make up the offset |
| QdmaEntry.Locate | src/runtime_src/driver/xclng/drm/xocl/lib/libqdma/qdma_wq.c:550-557 | the fragment holding byte `wr->offset` and the offset inside it, or the list length and what is left when the offset reaches the end |
| QdmaEntry.FindFragment | src/runtime_src/driver/xclng/drm/xocl/lib/libqdma/qdma_wq.c:550-557 | the offset loop returns exactly `Locate`: the fragment containing `wr->offset`, with remainder `off` inside it, or past the end |
| QdmaEntry.PostedCursorOk | src/runtime_src/driver/xclng/drm/xocl/lib/libqdma/qdma_wq.c:564-585 | the cursor post stores (fragment, `sg_num - i`, `off`, `len`) is consistent whenever the request fits in its fragments |
| QdmaEntry.PostAlignedPassesCheck | src/runtime_src/driver/xclng/drm/xocl/lib/libqdma/qdma_wq.c:558-563 | every request the corrected alignment check accepts also passes the check as written |
| QdmaEntry.PostAlignedFillNeverFails | src/runtime_src/driver/xclng/drm/xocl/lib/libqdma/qdma_wq.c:283-289 | a streaming write accepted by the corrected check never fails the fill's alignment test |
| QdmaEntry.PostCheckMissesInteriorFragment | src/runtime_src/driver/xclng/drm/xocl/lib/libqdma/qdma_wq.c:558-563 | fragments of 64, 10 and 64 bytes pass the check as written, yet the fill fails on the 10-byte chunk with 74 bytes left. The first retry writes the first fragment's 64 bytes again, a duplicate descriptor, and fails with 10 bytes left. Every later retry fails without writing anything. The corrected check rejects them |
| QdmaEntry.Posted | src/runtime_src/driver/xclng/drm/xocl/lib/libqdma/qdma_wq.c:577-588 | a posted entry is SUBMITTED with the request, 0 bytes done, `unproc_bytes == len`, the request's device address and the located offset |
| QdmaEntry.Retired | src/runtime_src/driver/xclng/drm/xocl/lib/libqdma/qdma_wq.c:463-491 | completion adds exactly `bytes_done`. The entry becomes DONE iff `err != 0`, `eot` or `done_bytes == len`, and it is not cancelled. A cancelled entry keeps its state, a pending one falls back to SUBMITTED, and CANCELED_HW drops its bytes left |
| QdmaEntry.RetireEvents | src/runtime_src/driver/xclng/drm/xocl/lib/libqdma/qdma_wq.c:467-491 | completion delivers at most one event. A finished blocking entry gets a wake-up. A finished non-blocking entry gets one callback with `done_bytes`, SUCCESS iff `err == 0`. A non-blocking CANCELED_HW entry gets (0, CANCELED). Nothing else gets an event |
| QdmaEntry.Swept | src/runtime_src/driver/xclng/drm/xocl/lib/libqdma/qdma_wq.c:495-496 | retiring a cancelled entry zeroes its bytes left and changes nothing else of it |
| QdmaEntry.SlotCountsAddUp | src/runtime_src/driver/xclng/drm/xocl/lib/libqdma/qdma_wq.c:634-639 | free + pending + unprocessed slots equal `wq_len - 1` iff unprocessed lies circularly between pending and free, else `2 * wq_len - 1` |
| QdmaEntry.MaskedDiffIsOffset | src/runtime_src/driver/xclng/drm/xocl/lib/libqdma/qdma_wq.c:634-639 | `(a - b) & (n - 1)` is the circular distance from b to a |
| QdmaWq.Accrue | src/runtime_src/driver/xclng/drm/xocl/lib/libqdma/qdma_wq.c:335-343 | a fill sets `count` to the pass total on the first pass and adds the total when already PENDING. Either way the entry is left PENDING |
| QdmaWq.ConfError | src/runtime_src/driver/xclng/drm/xocl/lib/libqdma/qdma_wq.c:105-122 | configuration errors: -EFAULT iff there is no configuration, -EINVAL for a streaming receive with `c2h_bufsz != PAGE_SIZE` or a ring size that is not a power of two, 0 otherwise |
| QdmaWq.WorkQueue.Create | src/runtime_src/driver/xclng/drm/xocl/lib/libqdma/qdma_wq.c:84-158 | the result is the first failure among add, start, configuration and allocation. On success the queue is valid and idle, with `wq_len == qlen << 3`, a cache of qlen slots, `sgc_avail == qlen - 1` and `sgc_pidx == 0`. On failure it is not initialized, and when teardown succeeds no stage flag is left |
| QdmaWq.WorkQueue.Attach | src/runtime_src/driver/xclng/drm/xocl/lib/libqdma/qdma_wq.c:90-122 | the ADDED and STARTED flags are set exactly for the stages that succeeded. The result is the first error among add, start and configuration |
| QdmaWq.WorkQueue.Build | src/runtime_src/driver/xclng/drm/xocl/lib/libqdma/qdma_wq.c:124-153 | allocation succeeds iff both buffers are obtained, and then leaves a valid idle queue |
| QdmaWq.WorkQueue.Allocate | src/runtime_src/driver/xclng/drm/xocl/lib/libqdma/qdma_wq.c:124-148 | a zero-filled WQE ring of `wq_len` entries, then a cache of qlen slots with `sgc_avail == qlen - 1` and `sgc_pidx == 0`. Either failure is -ENOMEM and leaves the flags of what was obtained |
| QdmaWq.WorkQueue.Destroy | src/runtime_src/driver/xclng/drm/xocl/lib/libqdma/qdma_wq.c:35-82 | only stages whose flag is set are stopped or removed. Each flag is cleared once its step succeeds. The first failure is returned and leaves the later flags set |
| QdmaWq.WorkQueue.MmFill | src/runtime_src/driver/xclng/drm/xocl/lib/libqdma/qdma_wq.c:160-246 | with no room: -ENOENT and nothing changes. Otherwise the ring gets the pass's chunks from `pidx` with EOP on the last. The SOP bit set before the loop is overwritten by each descriptor's length store, so no written descriptor keeps it; an empty pass leaves SOP and EOP on the slot at `pidx`. Then `pidx` advances and `avail` falls by their number. The entry is accounted, appended to `pend_list` on its first pass, and the hardware index is published |
| QdmaWq.WorkQueue.MmWriteRing | src/runtime_src/driver/xclng/drm/xocl/lib/libqdma/qdma_wq.c:173-234 | the loop writes exactly the block-mode pass into the ring and returns its total and descriptor count |
| QdmaWq.WorkQueue.H2cFill | src/runtime_src/driver/xclng/drm/xocl/lib/libqdma/qdma_wq.c:248-346 | with no room or an offline queue: -ENOENT and nothing changes. Otherwise the ring gets the pass's chunks (SOP first, EOP last, EOT only if `stm_en`, no bytes are left and `req.eot`). On an alignment failure it returns -EINVAL and keeps the written descriptors and lowered bytes without publishing. On success it accounts and publishes |
| QdmaWq.WorkQueue.H2cWriteRing | src/runtime_src/driver/xclng/drm/xocl/lib/libqdma/qdma_wq.c:260-330 | the loop writes exactly the streaming-send pass into the ring and returns the cursor the entry keeps, including after a failure |
| QdmaWq.WorkQueue.C2hFill | src/runtime_src/driver/xclng/drm/xocl/lib/libqdma/qdma_wq.c:348-410 | with no free slot: -ENOENT and nothing changes. Otherwise the cache gets one slot per fragment, chained with the last one's next NULL. `sgc_avail` falls by the slot count, the entry is accounted PENDING and the request is submitted |
| QdmaWq.WorkQueue.C2hSlots | src/runtime_src/driver/xclng/drm/xocl/lib/libqdma/qdma_wq.c:361-399 | the loop writes exactly the receive pass into the cache and returns its total and slot count |
| QdmaWq.WorkQueue.NextUnproc | src/runtime_src/driver/xclng/drm/xocl/lib/libqdma/qdma_wq.c:422 | the unprocessed index steps past a finished or cancelled entry, stays between pending and free, and answers the entry to fill, or none at free |
| QdmaWq.WorkQueue.NextPending | src/runtime_src/driver/xclng/drm/xocl/lib/libqdma/qdma_wq.c:482 | the pending index advances one step towards unprocessed and answers the next pending entry, if any |
| QdmaWq.WorkQueue.NextFree | src/runtime_src/driver/xclng/drm/xocl/lib/libqdma/qdma_wq.c:568 | a free entry is taken unless the ring is full, one slot being kept back before pending |
| QdmaWq.WorkQueue.LastNonblock | src/runtime_src/driver/xclng/drm/xocl/lib/libqdma/qdma_wq.c:524 | the answer is the last live non-blocking entry, or none when every live entry blocks |
| QdmaWq.WorkQueue.Fill | src/runtime_src/driver/xclng/drm/xocl/lib/libqdma/qdma_wq.c:427-439 | the fill strategy follows the queue's mode: the result and the entry are those of the streaming-receive fill when `st && c2h`, of the streaming-send fill when `st` alone, and of the block-mode fill otherwise (-ENOENT without room, else the pass accounted). The result, the entry and the descriptor and cache room left are exactly `FillOf`, the fill the drain's specification uses |
| QdmaWq.WorkQueue.ProcReq | src/runtime_src/driver/xclng/drm/xocl/lib/libqdma/qdma_wq.c:412-448 | the result, the ring, the unprocessed index and the room left are exactly those of `Drain`. That is: the first step of `wq_next_unproc`; then, for each entry at the unprocessed index, its mode's fill (`FillOf`) unless it was cancelled; the drain ends at the first nonzero fill result, which it returns, and otherwise takes the next `wq_next_unproc` step, returning 0 when unprocessed reaches free. Every entry the unprocessed index has moved past has no bytes left or was cancelled; other entries change only by being filled, and no room is ever given back |
| QdmaWq.WorkQueue.DrainOne | src/runtime_src/driver/xclng/drm/xocl/lib/libqdma/qdma_wq.c:427-446 | one round at the unprocessed entry (`Round`): a cancelled entry is left as it is and the result is 0; any other entry gets its mode's fill, and the result and the entry are that fill's (`FillOf`). A nonzero result is where the whole drain ends, with the ring, indices and room as they are. On 0 the unprocessed index takes the `wq_next_unproc` step and the rest of the drain ends where it would have before the round. A successful round moves unprocessed on or uses up room |
| QdmaWq.WorkQueue.DrainStart | src/runtime_src/driver/xclng/drm/xocl/lib/libqdma/qdma_wq.c:422 | the first `wq_next_unproc` step, after which the rest of the drain ends where `Drain` from the old queue ends; the entry to fill is the one at unprocessed, or none at free |
| QdmaWq.WorkQueue.DrainLoop | src/runtime_src/driver/xclng/drm/xocl/lib/libqdma/qdma_wq.c:423-447 | the loop ends where the drain it continues ends: its result, ring, unprocessed index and room are that drain's, and it returns 0 exactly when unprocessed reached free |
| QdmaWq.WorkQueue.DrainLive | src/runtime_src/driver/xclng/drm/xocl/lib/libqdma/qdma_wq.c:427-446 | a round on an entry that is not cancelled: the fill of the queue's mode with its result, which ends the drain when nonzero, and the `wq_next_unproc` step when 0 |
| QdmaWq.WorkQueue.DrainSkip | src/runtime_src/driver/xclng/drm/xocl/lib/libqdma/qdma_wq.c:424-446 | a round on a cancelled entry: the entry is left as it is, the result is 0 and the unprocessed index steps on, closer to free |
| QdmaWq.FillOf | src/runtime_src/driver/xclng/drm/xocl/lib/libqdma/qdma_wq.c:427-439 | a fill keeps the entry's request and bytes done, leaves it in its state or PENDING, never adds bytes and never gives room back; a fill that succeeds with bytes still left has used descriptor or cache room |
| QdmaWq.DrainFromStops | src/runtime_src/driver/xclng/drm/xocl/lib/libqdma/qdma_wq.c:423-447 | the drain returns 0 exactly when the unprocessed index reaches free; a nonzero result is -ENOENT for want of descriptors (block mode), -ENOENT for want of descriptors or with the queue offline or -EINVAL on misalignment (streaming send), and -ENOENT for want of cache slots or the submission's result (streaming receive) |
| QdmaWq.DrainStops | src/runtime_src/driver/xclng/drm/xocl/lib/libqdma/qdma_wq.c:421-447 | the whole drain, first step included, stops for the same reasons |
| QdmaWq.DrainRound | src/runtime_src/driver/xclng/drm/xocl/lib/libqdma/qdma_wq.c:427-446 | a round keeps where the drain ends, or, with a nonzero result, is where it ends |
| QdmaWq.DrainsToEnd | src/runtime_src/driver/xclng/drm/xocl/lib/libqdma/qdma_wq.c:423 | a drain whose unprocessed index is at free ends there with 0 and changes nothing |
| QdmaWq.WorkQueue.DrainAdvance | src/runtime_src/driver/xclng/drm/xocl/lib/libqdma/qdma_wq.c:446 | the entry unprocessed steps over joins what the drain has passed; an entry it stays at still has bytes and is not cancelled |
| QdmaWq.WorkQueue.RetireEntry | src/runtime_src/driver/xclng/drm/xocl/lib/libqdma/qdma_wq.c:462-491 | the entry moves as `Retired` says. The `sgcnt` cache slots return to `sgc_avail`. The events are those of `RetireEvents`. `compl_num`/`compl_nbytes` change only when the entry becomes DONE |
| QdmaWq.CancelWalk | src/runtime_src/driver/xclng/drm/xocl/lib/libqdma/qdma_wq.c:494-504 | the walk visits only entries cancelled before the engine saw them and leaves the pending index inside the ring |
| QdmaWq.CancelEvents | src/runtime_src/driver/xclng/drm/xocl/lib/libqdma/qdma_wq.c:497-498 | every event of the walk is a callback with 0 bytes and status CANCELED, one per visited non-blocking entry |
| QdmaWq.SweptAt | src/runtime_src/driver/xclng/drm/xocl/lib/libqdma/qdma_wq.c:496 | sweeping changes no entry's state or request |
| QdmaWq.SweptAtFrom | src/runtime_src/driver/xclng/drm/xocl/lib/libqdma/qdma_wq.c:494-504 | a walk over cancelled entries changes nothing else |
| QdmaWq.WorkQueue.Sweep | src/runtime_src/driver/xclng/drm/xocl/lib/libqdma/qdma_wq.c:494-504 | the pending index ends where `CancelWalk` stops, exactly the visited entries lose their bytes left, and the events added are one (0, CANCELED) callback per visited non-blocking entry, in order |
| QdmaWq.WorkQueue.SweepVisit | src/runtime_src/driver/xclng/drm/xocl/lib/libqdma/qdma_wq.c:495-503 | one step of the walk sweeps the entry and moves to the next pending one, as `CancelWalk` goes on |
| QdmaWq.WorkQueue.Complete | src/runtime_src/driver/xclng/drm/xocl/lib/libqdma/qdma_wq.c:450-510 | completion adds `bytes_done` to the entry, counts it once when it becomes DONE and delivers its event; a cancelled entry keeps its state. The walk starts at the entry, or at the next pending one when the request finished or was cancelled in hardware; the pending index ends where it stops and its (0, CANCELED) callbacks follow. The ring, unprocessed index and room are then exactly those of `Drain` over the swept ring, with the entry's `sgcnt` cache slots given back, and the drain's passed entries are finished or cancelled |
| QdmaWq.WorkQueue.RetireAndStep | src/runtime_src/driver/xclng/drm/xocl/lib/libqdma/qdma_wq.c:462-491 | the entry is retired as `Retired` says, its cache slots return, its events follow, the statistics count a finished request, and the walk starts where `qdma_wqe_complete` starts it |
| QdmaWq.CompletionHalves | src/runtime_src/driver/xclng/drm/xocl/lib/libqdma/qdma_wq.c:450-510 | the retire step followed by the walk and the drain is what a completion leaves; the entry keeps its request, gains `bytes_done`, and keeps a cancelled state |
| QdmaWq.WorkQueue.SweepAndDrain | src/runtime_src/driver/xclng/drm/xocl/lib/libqdma/qdma_wq.c:494-506 | the walk's pending index, callbacks and swept entries, followed by exactly the drain of `Drain` over the swept ring |
| QdmaWq.WorkQueue.DrainAfterSweep | src/runtime_src/driver/xclng/drm/xocl/lib/libqdma/qdma_wq.c:506 | the drain run over the ring the walk left is the one `Drain` describes, and the walk's pending index and callbacks stay as they are |
| QdmaWq.WorkQueue.Cancel | src/runtime_src/driver/xclng/drm/xocl/lib/libqdma/qdma_wq.c:512-538 | with no live non-blocking entry: -EINVAL and nothing changes. Otherwise the live non-blocking entry after which every live entry blocks becomes CANCELED_HW with a hardware cancel issued if PENDING, else CANCELED. No other entry changes |
| QdmaWq.WorkQueue.Post | src/runtime_src/driver/xclng/drm/xocl/lib/libqdma/qdma_wq.c:540-601 | -EINVAL exactly when the located offset fails the alignment check, before any change: the WQE ring, its indices, the counters, the descriptor ring, the cache, the published index and the pending list are all as they were. -EAGAIN exactly when it passes and the ring is full; the drain of the unchanged ring still runs, as `Drain` says, and `req_num`/`req_nbytes` and free are unchanged. Otherwise the free entry holds `Posted` of the request at the located offset, `req_num` rises by 1 and `req_nbytes` by `len`, the ring, unprocessed index and room are those `Drain` gives for the ring with that entry stored, and the answer is `len` for a non-blocking request |
| QdmaWq.WorkQueue.Admit | src/runtime_src/driver/xclng/drm/xocl/lib/libqdma/qdma_wq.c:567-601 | with a full ring: -EAGAIN after the drain of the unchanged ring, as `Drain` says. Otherwise the free entry is taken, stored, counted and drained, the drain being `Drain` of the ring with the entry stored |
| QdmaWq.WorkQueue.AdmitAt | src/runtime_src/driver/xclng/drm/xocl/lib/libqdma/qdma_wq.c:573-601 | with no free entry: -EAGAIN and the drain of the unchanged ring; with one: the request stored there, counted, and the ring drained as `Drain` says |
| QdmaWq.WorkQueue.Enqueue | src/runtime_src/driver/xclng/drm/xocl/lib/libqdma/qdma_wq.c:577-601 | the ring, unprocessed index and room are those `Drain` gives for the old ring with `Posted` stored at the entry; the stored request survives, and the counters rise by one request and `len` bytes |
| QdmaWq.WorkQueue.AwaitCompletion | src/runtime_src/driver/xclng/drm/xocl/lib/libqdma/qdma_wq.c:602-615 | a blocking post returns the bytes done. If interrupted, a PENDING entry becomes CANCELED_HW and any other becomes CANCELED |
| QdmaWq.WorkQueue.GetStat | src/runtime_src/driver/xclng/drm/xocl/lib/libqdma/qdma_wq.c:626-640 | the statistics copy the four counters and `wq_len`. The slot counts are the masked distances between the three indices |
| QdmaWq.WorkQueue.GetStatSlotsAddUp | src/runtime_src/driver/xclng/drm/xocl/lib/libqdma/qdma_wq.c:634-639 | on a valid queue the free, pending and unprocessed slots add up to `wq_len - 1` |
| XclBinLayout.BytesToAlign | src/runtime_src/tools/xclbin/XclBin.cxx:375-382 | the padding is below 8 and brings the position to an 8-byte boundary |
| XclBinLayout.OffsetsPrefix | src/runtime_src/tools/xclbin/XclBin.cxx:358-366 | the offsets of the first k sections do not depend on the later ones |
| XclBinLayout.LayoutEndMonotone | src/runtime_src/tools/xclbin/XclBin.cxx:358-366 | the running offset never decreases as sections are laid out |
| XclBinLayout.OffsetsAligned | src/runtime_src/tools/xclbin/XclBin.cxx:357-366 | every section offset is 8-byte aligned and not before the data start. The first lies within 8 bytes of it, and each later one within 8 bytes of the end of the one before |
| XclBinLayout.OffsetsDisjoint | src/runtime_src/tools/xclbin/XclBin.cxx:357-366 | sections never overlap and follow the list order: section i ends at or before section j starts when i < j |
| XclBinLayout.LayoutSections | src/runtime_src/tools/xclbin/XclBin.cxx:357-366 | the offset loop computes exactly the layout from `sizeof(axlf) - sizeof(axlf_section_header)` plus the header array |
| XclBinLayout.WriteSections | src/runtime_src/tools/xclbin/XclBin.cxx:372-391 | the write loop throws no mismatch iff the recorded offsets are the layout from the stream position. Otherwise it throws at the first section whose offset differs |
| XclBinLayout.ReaderMatchesWriter | src/runtime_src/tools/xclbin/XclBin.cxx:247 | the reader finds header entry i where the writer put it: i entries into the header array, which starts at `sizeof(axlf) - sizeof(axlf_section_header)`, wholly inside the array of all the entries and before the first section's data |
| XclBinSections.IndexOf | src/runtime_src/tools/xclbin/XclBin.cxx:706-722 | the first position holding the section object, or none iff the object is not in the list |
| XclBinSections.KindIndex | src/runtime_src/tools/xclbin/XclBin.cxx:729-734 | the first position holding a section of the kind, or none iff no section has it |
| XclBinSections.Without | src/runtime_src/tools/xclbin/XclBin.cxx:714 | erasing one entry leaves one fewer entry and the same multiset minus that entry |
| XclBinSections.AppendKeepsDistinct | src/runtime_src/tools/xclbin/XclBin.cxx:798-806 | appending a section whose kind is absent keeps the kinds distinct |
| XclBinSections.WithoutKeepsDistinct | src/runtime_src/tools/xclbin/XclBin.cxx:714 | removing a section keeps the kinds distinct |
| XclBinSections.RemoveUndoesAppend | src/runtime_src/tools/xclbin/XclBin.cxx:689-723 | removing a section just appended finds it last and restores the list |
| XclBinSections.RemovedKindIsGone | src/runtime_src/tools/xclbin/XclBin.cxx:742-753 | with distinct kinds, removing the section of a kind leaves none of that kind |
| XclBinSections.XclBin.AddSection | src/runtime_src/tools/xclbin/XclBin.cxx:689-697 | null is a no-op. Otherwise the section is appended at the end and `m_numSections` equals the list size |
| XclBinSections.XclBin.RemoveSection | src/runtime_src/tools/xclbin/XclBin.cxx:700-723 | null is a no-op. A section in the list has its first entry erased, the others keeping their order, and the count updated. A section not in the list throws and changes nothing |
| XclBinSections.XclBin.FindSection | src/runtime_src/tools/xclbin/XclBin.cxx:726-735 | the first section of the kind, or null if none has it |
| XclBinSections.XclBin.AddFromData | src/runtime_src/tools/xclbin/XclBin.cxx:795-825 | an invalid name, a kind already present or an unopenable file throws and changes nothing. Otherwise a new section of the kind is appended. Distinct kinds stay distinct |
| XclBinSections.XclBin.ReplaceFromData | src/runtime_src/tools/xclbin/XclBin.cxx:761-792 | an invalid name, an absent kind or an unopenable file throws and changes nothing. Otherwise the first section of the kind takes the new contents and no other section object changes |
| XclBinSections.XclBin.DumpFromData | src/runtime_src/tools/xclbin/XclBin.cxx:828-857 | an invalid name, an absent kind or an unopenable file throws. Otherwise the first section of the kind is written out |
| XclBinSections.XclBin.RemoveByName | src/runtime_src/tools/xclbin/XclBin.cxx:738-753 | an invalid name or an absent kind throws and changes nothing. Otherwise the first section of the kind is removed |
| XclBinSections.XclBin.WriteBinarySections | src/runtime_src/tools/xclbin/XclBin.cxx:347-391 | each header records its section's kind, size and laid-out offset. The write throws iff the stream would not reproduce the offsets, so never when the header before it ended at `sizeof(axlf) - sizeof(axlf_section_header)` |
| XclBinSearch.Scan | src/runtime_src/tools/xclbin/XclBin.cxx:545-564 | every match the search as written reports is a genuine occurrence of the key at the reported offset |
| XclBinSearch.FindStringInStream | src/runtime_src/tools/xclbin/XclBin.cxx:545-564 | the loop reports what the search as written reports: a genuine occurrence, counted from where the search began, or the whole stream read |
| XclBinSearch.ScanMissesOverlap | src/runtime_src/tools/xclbin/XclBin.cxx:553-561 | "ab" occurs in "aab" at 1, but the search as written does not find it |
| XclBinSearch.FirstOccurrence | src/runtime_src/tools/xclbin/XclBin.cxx:545-564 | the first position at which the key occurs, or none iff it occurs nowhere |
| XclBinSearch.FindFirstInStream | src/runtime_src/tools/xclbin/XclBin.cxx:545-564 | the corrected search finds the key iff it occurs, at its first occurrence |
| XclBinSearch.CorrectedFindsNoLater | src/runtime_src/tools/xclbin/XclBin.cxx:545-564 | whatever the search as written finds, the corrected search finds too, at the same place or earlier |
| XclBinMode.ModeOfName | src/runtime_src/tools/xclbin/XclBin.cxx:103-136 | reading a printed name back gives a listed mode with that name, or none iff the name is not listed |
| XclBinMode.PrettyStringMatchesTable | src/runtime_src/tools/xclbin/XclBin.cxx:103-136 | each `MEM_*` mode prints its own name and every other value prints "UNKNOWN" |
| XclBinMode.NamesDistinct | src/runtime_src/tools/xclbin/XclBin.cxx:103-136 | no two modes share a name and none is named "UNKNOWN" |
| XclBinMode.PrettyStringRoundTrip | src/runtime_src/tools/xclbin/XclBin.cxx:103-136 | the printed name identifies the mode: listed modes read back to themselves and "UNKNOWN" reads back as none |

## Left out

- Locking, the wait queues, `wake_up`, `qdma_kthread_wakeup` and the completion object are not modelled. Each lock-held region is one atomic method. A blocking wait is split: `Post` runs up to the wait, and `AwaitCompletion` resolves it as either done or interrupted.
- The engine calls are parameters: `qdma_queue_add`/`start`/`stop`/`remove`, `qdma_queue_get_config`, `qdma_request_submit` and `descq_cancel_req`. The hardware index updates are not parameters: the published index is a field, and each hardware cancel is appended to a log. One `submitRet` value stands for every submission within one drain.
- The header helpers `wq_next_free`, `wq_next_unproc`, `wq_next_pending` and `wq_last_nonblock` are not part of this model. They get bodies whose stated contracts match their use in qdma_wq.c.
- The device address of a receive slot (`sgc->dma_addr = 0`), `priv_data`, the `wqe_sz` layout, the `queue` back-pointer and `init_waitqueue_head` carry no behaviour that is modelled.
- Create: the WQE indices rely on the zero-filled structure the caller provides, which the `Pristine` precondition states. `qlen << 3` is computed without the 32-bit wrap of `u32`. A ring size of 0, where `ffs` yields 0 and the shift is undefined, is treated as not a power of two.
- Create: the descriptor ring and its `pidx`/`avail` belong to the engine queue once it is started, which `StartRing` stands for.
- Create: `Idle` does not restate that the WQE entries are zero-filled; `Allocate` states it.
- Destroy: the model clears the stage flags and does not model `vfree`. The source frees `wq` and `sg_cache` without clearing the pointers, so a second destroy would free them twice.
- Complete: the `sgcnt` slots returned are required to fit in the cache (`sgcAvail + sgcnt < sgcLen`). The source trusts the engine to return only slots it was given.
- Post: when `wr->offset` lies at or past the end of the list, the source dereferences `sg` past the list in the alignment check. The model requires the request to fit in its fragments.
- Post: the source accepts, without a check, a request whose length runs past the end of its fragments (qdma_wq.c:540-588). The model requires `offset + len` to fit in the fragments. `Valid`'s cursor invariant (`CursorOk`) keeps every stored entry that way, and the drain's termination relies on it. In the source, block mode then stops at the `BUG_ON` at qdma_wq.c:235 and streaming receive at the one at qdma_wq.c:401. In streaming send that `BUG_ON` is commented out (qdma_wq.c:318). There the first fill leaves bytes with no fragment left and puts EOP on the unpublished slot at `pidx`. Every later fill writes nothing and returns 0, so `descq_proc_req` (qdma_wq.c:423-446) fills the same entry forever with the queue lock held.
- Post: the caller's `count`/`sgcnt` fields and the request callback pointers are not modelled.
- XclBin: JSON mirror data, file I/O, `Section` subclasses and their buffers are not modelled. A section is its kind and its buffer size.
- XclBin: `translateSectionKindStrToKind` and `createSectionObjectOfKind` are not part of this model. The first is a parameter. The second is assumed to return an object for every valid kind.
- XclBin: `XUtil::bytesToAlign` is not part of this model. It is taken to give the padding to the next 8-byte boundary, as the comment at XclBin.cxx:375 says.
- XclBin: `writeXclBinSectionBuffer` is taken to write exactly `m_sectionSize` bytes.
- XclBin: offsets are unbounded; the source's `unsigned int` would wrap past 4 GiB.
- XclBinSections.XclBin.RemoveSection: `delete` is not modelled. `removeSection(const std::string&)` prints from `pSection` after `removeSection` has deleted it, a use after free that is left out.
- XclBinSearch.FindStringInStream: the key must be non-empty. With an empty key the source reads past the end of the string.
- XclBinMode: the `MEM_*` values are those of the `MEM_TYPE` enumeration in xclbin.h, which is not part of this model.

## Findings

| source | as written | input that shows it | evidently intended | confidence | as-written member | corrected member |
|---|---|---|---|---|---|---|
| src/runtime_src/driver/xclng/drm/xocl/lib/libqdma/qdma_wq.c:558-563 | the post-time alignment check of a streaming write looks only at the fragment holding the offset | fragments of 64, 10 and 64 bytes, offset 0, length 138: post accepts it. The fill then fails at the 10-byte chunk with -EINVAL after writing one descriptor. Retries restart at the first fragment. The first retry writes that fragment's 64 bytes again, a duplicate descriptor, before failing on the same chunk. Every later retry fails without writing anything, and the drain never gets past the entry | reject, at post time, every request whose fill would fail the alignment test (qdma_wq.c:283-289, "should never hit here") | medium; not executed | QdmaEntry.PostCheckMissesInteriorFragment | QdmaEntry.PostAlignedFillNeverFails |
| src/runtime_src/tools/xclbin/XclBin.cxx:553-561 | after a mismatch the marker search resets its match count without trying the current character as a new start | key "ab" in the stream "aab" is not found. So a mirror-data marker preceded by its own first character is missed | report the first occurrence of the marker | medium; not executed | XclBinSearch.ScanMissesOverlap | XclBinSearch.CorrectedFindsNoLater |
