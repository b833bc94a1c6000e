# RaRingBuffer in Dafny

A model of `PBD::RaRingBuffer<T>`, the random-access two-segment ring
buffer in libpbd (`libs/pbd/pbd/raringbuffer.h`). A disk-reading writer
thread fills the buffer with samples keyed by absolute sample position. A
playback reader reads any absolute range that is still resident. The reader
may re-read data and rewind up to a reservation behind its read index. Up to
two segments (runs of consecutive absolute positions) can be resident at
once, so the end of a loop range and its start can coexist.

The buffer is an immutable record, `RaRingBuffer.RingBuffer<T>`. It holds:

- the storage;
- the reservation, the power-of-two size and the size mask;
- the two segment slots;
- the write index and the read index.

Every public operation is a pure function from one such state to the next.
The model treats each operation as one atomic step and does not represent
the source's spin lock and reset mutex. Each `assert` in the source
becomes an explicit `Abort(fault)` result (`Faults.Result`):

- `SegmentsAliased` is the assertion in `segment_to_use`;
- `SlotStillInUse` is the assertion on restarting an in-use slot in `write`.

The assertions on trimming a segment in `read` can never fail. `Segments.Trim`
proves this.

Modules:

- `Faults`: the result type and the two faults.
- `Storage`:
  - power-of-two sizing;
  - splitting a copy into the two `memcpy` spans;
  - index advance with wrap-around;
  - the storage copies themselves (`memcpy` as sequence slicing).
- `Segments`:
  - the segment record and its readable window;
  - the read path's walk back from a segment's physical end;
  - `segment_to_use`;
  - the read path's trim of a segment.
- `RaRingBuffer`: the buffer state and every operation.
- `RingBufferProperties`: space accounting and the guarantee that a write
  never overwrites unread or reserved samples.
- `RingBufferRoundTrip`: what is written at the position the writer reports
  is read back unchanged.
- `RingBufferAsWritten`: what follows from the order of the tests in the
  write path when both segments are in use.

### Behaviour as written

The write path tests whether segment 0 is in use before its branch for two
segments in use. That branch, with its `segment_to_use` call and its "no free
segment" return of 0, can never run, and the same holds in `next_write_pos`.
The model follows the code, not the intent the comments suggest. With both
segments in use:

- The writer always measures a write against segment 0.
- A write anywhere but segment 0's end flips to slot 1, which is in use, and
  trips the assertion. It does not return 0 (`RingBufferAsWritten.ContinuingSegment1Aborts`).
- A write at segment 0's end extends segment 0 at the current write index.
  That index need not be segment 0's physical end, so reading the new range
  back through segment 0 returns other samples
  (`RingBufferAsWritten.ExtendingSegment0MisplacesData`,
  `RingBufferAsWritten.MisplacedSampleReadsBack`).

Two more consequences:

- `can_read` accepts a range that both segments cover, but `read` treats
  it as not found (`RaRingBuffer.CanRead`).
- Once segment 0 has been written for a whole number of laps, a write that
  starts segment 1 puts it at the same physical index as segment 0. A
  committed read of it then trips the assertion in `segment_to_use`
  (`RingBufferAsWritten.FullLapAliasesSegments`).

## Model

| member | source | states |
|---|---|---|
| Storage.SizeFor | libs/pbd/pbd/raringbuffer.h:111-113 | the size is a power of two, at least 2, holds the requested count, and is the smallest such power |
| Storage.Spans | libs/pbd/pbd/raringbuffer.h:395-403 | the two copy spans add up to the count, the first ends at the end of storage at the latest, and a second span exists only when the first reaches the end |
| Storage.Advance | libs/pbd/pbd/raringbuffer.h:406-411 | the index after copying `cnt` elements from `p` is `(p + cnt) mod size` |
| Storage.CopyIn | libs/pbd/pbd/raringbuffer.h:405-411 | the `i`-th element copied in lands at physical index `w + i` with wrap-around; every other element of the storage is unchanged |
| Storage.CopyOut | libs/pbd/pbd/raringbuffer.h:492-498 | the `i`-th element copied out is the one at physical index `p + i` with wrap-around |
| Segments.ReadStart | libs/pbd/pbd/raringbuffer.h:449-454 | walking back from a segment's physical end reaches exactly the physical index the segment's layout assigns to `start` |
| Segments.Behind | libs/pbd/pbd/raringbuffer.h:143-144 | the distance from a segment's start index forward to the write index lies in `[1, size]` and agrees with the index difference mod size |
| Segments.Int32 | libs/pbd/pbd/raringbuffer.h:143-144 | a `guint` distance stored in a `const int` keeps its value below 2^31 and wraps to a negative value congruent mod 2^32 from there on |
| Segments.SegmentToUse | libs/pbd/pbd/raringbuffer.h:142-151 | aborts exactly when both segments start at the same physical index; below a size of 2^31, picks exactly the segment whose start lies strictly closer behind the write index; at a size of 2^31, picks exactly the segment whose distance behind the write index mod size is smaller, so a segment starting at the write index (a full lap behind, the `int` wrap to the most negative value) wins over the other |
| Segments.WrappedBehind | libs/pbd/pbd/raringbuffer.h:143-144 | at a size of 2^31 a distance of a full lap stored in an `int` reads as the most negative value, and every shorter distance keeps its value mod size |
| Segments.Trim | libs/pbd/pbd/raringbuffer.h:509-525 | given containment, the dropped amount lies in `[0, offset]`; the trimmed segment keeps its end, physical end and position-to-index mapping; its window starts at the read's end; it stays in use exactly when unread data remains; it restarts at position `start + cnt` and at the physical index just past the data read |
| RaRingBuffer.Initial | libs/pbd/pbd/raringbuffer.h:113-119 | construction yields a valid empty buffer with both indices at 0, both segments free and the writer continuing at position 0 |
| RaRingBuffer.Create | libs/pbd/pbd/raringbuffer.h:105-120 | the size is the smallest power of two (at least 2) holding `sz + res`, at most 2^30; the mask is `size - 1`; the buffer starts empty and reset to position 0 |
| RaRingBuffer.NextWritePos | libs/pbd/pbd/raringbuffer.h:153-174 | a write at the reported position never trips an assertion: with a segment in use it continues that segment (segment 0 first), with both free it is segment 0's recorded start, and a write there starts segment 0 at the write index from that start |
| RaRingBuffer.Reset | libs/pbd/pbd/raringbuffer.h:128-140 | both segments become free, the writer continues at `start`, the write index snaps to the read index so nothing is left to read, and nothing else changes |
| RaRingBuffer.CanRead | libs/pbd/pbd/raringbuffer.h:200-246 | for any `int32_t` count, a range is readable exactly when some in-use segment's window contains it; a range it rejects reads as 0 (a commit jumps the reader to the writer); a range it accepts is read in full unless both segments cover it, and then reads as 0 |
| RaRingBuffer.WriteSpace | libs/pbd/pbd/raringbuffer.h:269-296 | the write space is zero exactly when the gap to the read index is at most reservation + 1; otherwise it is the gap minus one minus the reservation |
| RaRingBuffer.ReadSpace | libs/pbd/pbd/raringbuffer.h:298-309 | the read space is the distance from the read index to the write index mod size; it is below the size, and zero exactly when the indices are equal |
| RaRingBuffer.IncrementReadIdx | libs/pbd/pbd/raringbuffer.h:264-267 | only the read index moves, by the count clamped to the read space; the read space shrinks by exactly that amount; a count at least the read space catches up with the writer |
| RaRingBuffer.ReadFlush | libs/pbd/pbd/raringbuffer.h:317 | the read index jumps to the write index, leaving nothing to read and the whole buffer as the writer's gap |
| RaRingBuffer.Target | libs/pbd/pbd/raringbuffer.h:354-387 | the slot a write uses and the segment it extends, which always ends at `start`; with both slots free the write uses slot 0; an in-use slot keeps its segment, a free slot starts at the write index; aborts exactly when both segments are in use and `start` is not segment 0's end |
| RaRingBuffer.Write | libs/pbd/pbd/raringbuffer.h:338-421 | writes `min(cnt, write space)` samples from the write index with wrap-around, leaving every other element unchanged; the write index advances by that count and the target segment grows by it; the other slot and the read index are untouched; with no write space nothing changes |
| RaRingBuffer.Fetch | libs/pbd/pbd/raringbuffer.h:481-498 | the samples copied out are the ones the covering segment lays out for `start, start + 1, ...`; the index after them is where `start + cnt` lives |
| RaRingBuffer.Commit | libs/pbd/pbd/raringbuffer.h:500-531 | a committed read moves the read index past the data read; with both segments in use, the segment the writer is not using is trimmed and the other is left alone; aborts exactly when both segments start at the same physical index |
| RaRingBuffer.Read | libs/pbd/pbd/raringbuffer.h:423-534 | a reset in progress gives 0 and changes nothing; a range covered by no segment or by both gives 0 and, on commit, moves the read index to the write index; otherwise all `cnt` samples come back as the covering segment lays them out, and only a commit changes the state; a committed read served by the segment the writer is extending leaves that segment alone |
| RingBufferProperties.SpaceAccounting | libs/pbd/pbd/raringbuffer.h:269-309 | the read space and the writer's gap add up to the size; when writing is possible, write space + read space + 1 + reservation = size |
| RingBufferProperties.WriteKeepsUnread | libs/pbd/pbd/raringbuffer.h:389-393 | a write never changes a sample between the read index and the write index |
| RingBufferProperties.WriteKeepsReservation | libs/pbd/pbd/raringbuffer.h:48-50 | a write never changes the `reservation` samples just behind the read index |
| RingBufferRoundTrip.TargetAligned | libs/pbd/pbd/raringbuffer.h:327 | when the writer's segment ends physically at the write index, so does the segment any write targets |
| RingBufferRoundTrip.WrittenRangeLayout | libs/pbd/pbd/raringbuffer.h:378-413 | after a non-empty aligned write, the target segment covers the written range and lays position `start + i` out at physical index `writeIdx + i` |
| RingBufferRoundTrip.WrittenSampleAt | libs/pbd/pbd/raringbuffer.h:405-411 | the `i`-th sample written is stored at physical index `writeIdx + i` with wrap-around |
| RingBufferRoundTrip.ReadBackAfterWrite | libs/pbd/pbd/raringbuffer.h:443-498 | reading the range just written returns exactly the samples written, when the writer was aligned and only one segment covers the range |
| RingBufferRoundTrip.ResetWriteReadRoundTrip | libs/pbd/pbd/raringbuffer.h:126-140 | after a seek to `pos`, a write at `pos` that fits beside the reservation stores everything; reading it back returns it unchanged; a commit leaves the reader where the writer stopped |
| RingBufferRoundTrip.WriteAtNextWritePos | libs/pbd/pbd/raringbuffer.h:153-174 | a write at the reported continuation point never aborts, moves the continuation point forward by the count written, and keeps the writer aligned |
| RingBufferAsWritten.StartingSegment1LeavesSegment0Behind | libs/pbd/pbd/raringbuffer.h:378-387 | starting segment 1 beside segment 0 moves the write index away from segment 0's physical end, while the continuation point stays at segment 0's end |
| RingBufferAsWritten.ContinuingSegment1Aborts | libs/pbd/pbd/raringbuffer.h:363-385 | continuing segment 1 while segment 0 is in use trips the assertion on restarting an in-use slot |
| RingBufferAsWritten.ExtendingSegment0MisplacesData | libs/pbd/pbd/raringbuffer.h:363-364 | with both segments in use, extending segment 0 stores the first sample at the write index, while segment 0 maps that position elsewhere |
| RingBufferAsWritten.MisplacedSampleReadsBack | libs/pbd/pbd/raringbuffer.h:445-457 | reading back the position so appended returns the sample at segment 0's old physical end, not the one written |
| RingBufferAsWritten.FullLapAliasesSegments | libs/pbd/pbd/raringbuffer.h:500-505 | after a whole number of laps on segment 0, starting segment 1 aliases the segments' start indices; a committed read of the new data then aborts, although `can_read` accepts it |

## Left out

- Locking: the model treats each operation as one atomic step, and
  interleavings of the writer and reader threads are not modelled. The
  source does not make `write` atomic. It takes the spin lock once to copy
  the segments (raringbuffer.h:348-352) and once to publish its segment and
  write index (raringbuffer.h:415-419), and copies the samples in between
  without the lock. A committed read that trims that same segment in the
  window (raringbuffer.h:509-525) is lost when the writer publishes its
  older copy. `write` never takes the reset mutex, so a `reset`
  (raringbuffer.h:128-140) in the window is undone the same way. No order
  of atomic steps produces these lost updates, and the model does not
  represent them.
- Default arguments: the constructor's `res = 8191`
  (raringbuffer.h:105) and `read`'s `commit = true` (raringbuffer.h:261)
  are C++ defaults. `RaRingBuffer.Create` and `RaRingBuffer.Read` take both
  explicitly.
- The failed try-lock in `read` while a reset is in progress is the input
  `resetInProgress`, not a real mutex.
- `dump_segments` and the diagnostic `printf` calls only print.
- The `#if 0` blocks (`Segment` constructors, the alternative index
  computation in `can_read`, `read_range`) are compiled out.
- `set_read_pos` has an empty body.
- The `write_reversed` flag is never set or read.
- The accessors `buffer()`, `get_write_idx`, `get_read_idx` and `bufsize`
  are plain field reads of the state record.
- The destructor is not modelled, because there is no memory to free in the
  model.
- Uninitialised values: the source leaves the storage, the segments' start
  indices and segment 1's start position uninitialised. The model fixes
  them to a caller-given blank value and 0. Nothing reads them while the
  slot is free.
- RaRingBuffer.Create: requires `sz + res <= 2^30`, and every valid state
  has a size of at most 2^30. A size of 2^31 needs `1 << 31` on an `int`,
  a signed overflow, and beyond that the `guint` sum wraps and `1U << 32`
  is undefined. Up to 2^30 no index or distance computed in `guint`,
  `gint` or `int` overflows, so indices are unbounded integers and
  `& size_mask` is `mod size`. `Segments.SegmentToUse` still models the
  `int` wrap of its distances, which matters only at a size of 2^31.
- Positions are unbounded integers. The source keeps `start`,
  `write_start_pos` and `write_start_offset` in `int64_t`, so sums such as
  `start + cnt` and `write_start_pos + write_start_offset` could overflow
  near 2^63. The model does not represent that overflow.
- Source assertions: the model assumes they are compiled in, so a failing
  `assert` is an `Abort` result. Built with `NDEBUG`, the check at line 385
  disappears, and line 386 silently zeroes the in-use slot's offset and
  restarts it at the write index.
- `memcpy` of `T` is sequence slicing; raw memory is not modelled.
