# Verified model of libut's circular byte buffer (`ringbuf`)

This project models `src/ringbuf.c`. That file is a fixed-capacity ring buffer of bytes. It offers a copying write (`ringbuf_put`) and zero-copy descriptors for both directions: `ringbuf_get_writable` with `ringbuf_wrote`, and `ringbuf_get_next_chunk` with `ringbuf_mark_consumed`.

The buffer state is the datatype `RingBuf.Ring(n, u, i, o, d)`:
- `n` is the capacity.
- `u` is the number of pending bytes.
- `i` is the write cursor and `o` the read cursor.
- `d` is the storage, a `seq<bv8>`.

Every operation is a pure function from the old state to the new one.

`RingBuf.Valid` is the representation invariant: `n > 0`, `|d| == n`, `u <= n`, both cursors below `n`, and `i == (o + u) % n`. That last equation is what makes `i == o` mean "empty or full", told apart by `u`.

`RingBuf.Contents` is the abstraction function. It gives the pending bytes in FIFO order: `d[(o + k) % n]` for `k < u`. Every C `assert` in the file appears in the model in one of two ways:
- as an `assert` in the function body, which the verifier discharges (lines 33, 46, 55, 76, 90, 122);
- as a precondition (lines 96 and 144; line 144 is strengthened, see Findings).

A descriptor `(char *data, size_t len)` is a `Span`: either `Null` or `Run(offset, length)`, an offset into `d`. The caller's `memcpy` into a writable descriptor is `RingBuf.WriteInto`.

Modules:
- `Wrappers`: `Option` and `Result`.
- `RingBuf`: the state, the invariant, the abstraction function and the ten operations.
- `Fifo`: lemmas stating the FIFO behaviour through `Contents`.
- `RoundTrip`: caller loops over the zero-copy interface, and the three test drivers of the library replayed on the model.
- `AsWritten`: two operations exactly as the C writes them, next to their corrected versions.

Two branches of the source deserve a note:
- `ringbuf_put` with `i == o` and `u == 0` takes the branch commented "available space wraps" (lines 49-58). It splits the copy at the end of storage. This is correct: the free space from `i` does wrap whenever `i > 0`.
- The comment at line 83 says that `o > i` once the empty case is excluded. The full case `o == i`, `u == n` also reaches that branch. The code handles it correctly: the chunk is `n - o` and `(n - o) + i == u`, which `GetNextChunk` proves.

## Model

| member | source | states |
|---|---|---|
| RingBuf.New | src/ringbuf.c:3-15 | allocation failure gives `OutOfMemory`; otherwise a capacity of 0 is refused (see Findings); on success the buffer is valid, has capacity `sz`, zero cursors and `u == 0`, adopts the allocated bytes as storage and holds nothing |
| RingBuf.Take | src/ringbuf.c:26-36 | fails exactly when the region is shorter than header + 1 byte; otherwise the buffer is valid, has capacity equal to the region length minus `HeaderSize`, uses the bytes after the header as storage, has `u`, `i` and `o` all 0, and is empty |
| RingBuf.FreeSpace | src/ringbuf.c:65-67 | free space plus the length of the pending sequence is the capacity |
| RingBuf.PendingSize | src/ringbuf.c:69-71 | equals the length of the pending sequence; it plus the free space is the capacity |
| RingBuf.Put | src/ringbuf.c:41-63 | returns -1 exactly when the data exceeds the free space, and then leaves the buffer unchanged; otherwise returns 0 and keeps the invariant, with `o` and `n` unchanged, `u` grown by `len` and `i` advanced by `len` modulo `n` |
| RingBuf.GetNextChunk | src/ringbuf.c:73-93 | `Null` exactly when nothing is pending; otherwise a run starting at the read cursor, 1 to `u` bytes long, inside storage; all of `u` when `o < i`; else up to the end of storage, with the wrapped rest (`i` bytes) completing `u` |
| RingBuf.MarkConsumed | src/ringbuf.c:95-99 | for `len <= u`, keeps the invariant, shrinks `u` by `len`, advances `o` by `len` modulo `n`, and leaves `i`, `n` and the storage alone |
| RingBuf.Clear | src/ringbuf.c:101-103 | keeps the invariant, the capacity and the storage; sets `u`, `i` and `o` to 0, so nothing is pending and the free space is the full capacity |
| RingBuf.GetWritable | src/ringbuf.c:113-131 | `Null` exactly when full; otherwise a run at the write cursor of at least 1 and at most `n - u` bytes, inside storage, reaching either the end of storage or the read cursor |
| RingBuf.Wrote | src/ringbuf.c:133-148 | for `len` within the run `GetWritable` returned, keeps the invariant, grows `u` by `len`, advances `i` by `len` modulo `n`, and leaves `o` and the storage alone |
| Fifo.ValidIffShape | src/ringbuf.c:80-82 | the cursor equation holds exactly when the contiguous, wrapped and empty-or-full shapes give `u` |
| Fifo.PutStorage | src/ringbuf.c:48-58 | `put` stores `data[j]` at `(i + j) % n` and leaves every other storage byte unchanged |
| Fifo.PutAppends | src/ringbuf.c:41-63 | a `put` that fits appends exactly `data` to the pending sequence |
| Fifo.ConsumeDrops | src/ringbuf.c:95-99 | consuming `len` bytes removes exactly the first `len` pending bytes |
| Fifo.ChunkIsPrefix | src/ringbuf.c:73-93 | when bytes are pending, the chunk descriptor reads a non-empty prefix of the pending sequence |
| Fifo.WritableIsFree | src/ringbuf.c:105-131 | writing into the run `get_writable` describes does not disturb any pending byte |
| Fifo.WroteAppends | src/ringbuf.c:133-148 | committing `len` bytes appends the `len` storage bytes at the write cursor to the pending sequence |
| Fifo.ZeroCopyWrite | src/ringbuf.c:105-148 | filling the writable run with `w` and committing its length appends exactly `w` |
| Fifo.ChunkThenRest | src/ringbuf.c:83-92 | after consuming a whole chunk, the next chunk is everything still pending, so two calls always suffice |
| Fifo.WritableThenRest | src/ringbuf.c:125-129 | after committing a whole writable run, the next writable run is all the remaining free space |
| RoundTrip.FillAndCommit | tests/test23.c:23-27 | copying `w` into the writable run and committing its length keeps the invariant, leaves the read cursor alone, uses up that many bytes of free space and appends exactly `w` |
| RoundTrip.Drain | src/ringbuf.c:73-99 | generalising the two chunk reads of tests/test23.c:36-48 into a loop, running `get_next_chunk`/`mark_consumed` until the chunk is empty yields exactly the pending sequence and leaves the buffer empty |
| RoundTrip.WriteZeroCopy | tests/test23.c:22-34 | writing data that fits through `get_writable`/`wrote` runs appends exactly that data |
| RoundTrip.Test20 | tests/test20.c:10-31 | capacity 10: writable 10, then 0 when full; one chunk of 10 bytes with the written bytes, then 0 |
| RoundTrip.WrapAround | tests/test22.c:13-48 | put and consume `m` bytes of a capacity-10 buffer; writable runs of `10 - m` then `m`; chunks read back in write order |
| RoundTrip.Test22 | tests/test22.c:13-48 | "hello" then runs of 5 and 5 ("abcde", "fghij") read back as chunks of 5 and 5 in order |
| RoundTrip.Test23 | tests/test23.c:13-48 | "hello, ed" then runs of 1 and 9 ("a", "bcdefghij") read back as chunks of 1 and 9 in order |
| AsWritten.NewAsWritten | src/ringbuf.c:3-15 | the original constructor: fails only on allocation failure, with capacity `sz` and zero cursors |
| AsWritten.NewAsWrittenZeroCapacity | src/ringbuf.c:10-11 | the original constructor's result is valid exactly when `sz > 0`; the corrected `New` succeeds exactly then and otherwise agrees |
| AsWritten.WroteAsWritten | src/ringbuf.c:138-148 | the original commit, guarded only by the run length from the write cursor |
| AsWritten.WroteAsWrittenOverfills | src/ringbuf.c:140-146 | on every full buffer the original guard admits a 1-byte commit that leaves `u > n` |
| AsWritten.WroteGuardCorrected | src/ringbuf.c:133-144 | the corrected guard is the original guard plus `len <= n - u`; where it holds the two versions agree |

## Left out

- `ringbuf_free` (src/ringbuf.c:17-19): releasing memory changes no state the model tracks. The rule that adopted buffers must not be freed is a caller contract with nothing to compute.
- The allocator and the `fprintf` diagnostic in `ringbuf_new`: the allocator's outcome is the `block` parameter. `None` means `malloc` failed; otherwise it holds the uninitialised storage bytes.
- The header overlay and alignment in `ringbuf_take`: `sizeof(ringbuf)` is the abstract constant `HeaderSize`, so `Take`'s contract holds for any header size. On an LP64 target it would be 32: four `size_t` fields. The header `ringbuf.h` is not part of this model.
- Raw pointers: descriptors are offsets into `d`, and `memcpy` is a sequence update (`Splice`).
- `size_t` wrap-around: cursor sums never exceed `2 n`, and the model uses unbounded integers. Capacities near `SIZE_MAX / 2` are not modelled.
- `ringbuf_put`'s separate `len` argument: the data is a sequence whose length is `len`. A caller buffer shorter than `len` is not modelled.
- Thread safety: `ringbuf.c` takes no locks, and callers must serialise access, so there is no concurrency to model.

## Findings

| source | as written | input that shows it | evidently intended | confidence | as-written member | corrected member |
|---|---|---|---|---|---|---|
| src/ringbuf.c:3-11 | `ringbuf_new` accepts `sz == 0` and sets `n = 0` | `ringbuf_new(0)` followed by `ringbuf_put(r, "", 0)` evaluates `(0 + 0) % 0` at line 60 | refuse a zero capacity at creation, as `ringbuf_take` guarantees `n > 0` (line 33) | medium, not executed | AsWritten.NewAsWritten | RingBuf.New |
| src/ringbuf.c:140-144 | `ringbuf_wrote` asserts only `len <= n - i` (or `o - i`) | full buffer with `n = 10`, `i = o = 0`, `u = 10`: `ringbuf_wrote(r, 1)` passes the assert and sets `u = 11` | `len` at most what `ringbuf_get_writable` returned (0 when full), as the comment at lines 133-137 requires | medium, not executed | AsWritten.WroteAsWritten | RingBuf.Wrote |
