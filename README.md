# Sample-reconstruction worker of jpeg-decoder, in Dafny

This project models `src/worker.rs` of the `jpeg-decoder` crate. That file is the stage that turns
quantized coefficient blocks into 8-bit samples. The worker keeps one slot per colour component,
indexed `0 .. MaxComponents`. Each slot holds four things:

- a write cursor (`offsets`);
- an output plane (`results`);
- a component descriptor (`components`);
- a quantization table (`quantizationTables`).

The three operations:

- `Start` opens a session on a slot. The slot's buffer must be empty. It then allocates a zero plane of
  `width * height * 64` bytes, resets the cursor to 0, and stores the descriptor and the table.
- `AppendRow` takes one MCU row of coefficients. It checks that the row has exactly
  `width * verticalSamplingFactor * 64` entries. It runs the inverse transform on each block `i` of the
  row, storing it from `cursor + y * lineStride + x`, where `x = (i % width) * 8`,
  `y = (i / width) * 8` and `lineStride = width * 8`. It then advances the cursor by the row's length.
- `GetResult` moves the plane out to the caller and leaves the slot's buffer empty.

Files:

- `layout.dfy` (module `Layout`): the placement arithmetic.
  - A row is a whole number of plane lines.
  - Every sample a block writes lies inside the row's band `[cursor, cursor + rowLength)`.
  - Distinct samples, whether of different blocks or of the same block, write distinct bytes.
  - Every byte of the band belongs to exactly one block and exactly one sample of it.
- `idct.dfy` (module `Idct`): the integer types and the interface of `dequantize_and_idct_block`.
  The sample values are a function parameter `SampleFn`, because the transform's arithmetic is not
  modelled. The method's contract says where the samples go: 8 rows of 8 bytes, `stride` apart, from
  `start` on, and nothing else.
- `worker.dfy` (module `Worker`): the class `Worker`, with these fields:
  - `offsets`: an `array<nat>`, for the source's `Box<[usize]>`;
  - `results`: a `seq<array<byte>>`, because the inner buffers are changed in place;
  - the descriptors and tables: `seq<Option<…>>`.

  A ghost field `rowsAppended` counts the rows appended to each slot since its last `Start`. The object
  invariant `Valid()` ties every started slot's cursor to `rowsAppended * rowLength`. It also keeps
  the cursor within the plane whenever the plane is non-empty. `RowStored` is the
  specification of one row's effect on a plane, and `StoreRow` is the block loop proved against it.
- `sessions.dfy` (module `Sessions`): short client sessions. Each one runs on a fresh worker and states
  what a caller observes of the protocol.

The source panics on a failed `assert!`, `assert_eq!` or `unwrap`, and on an out-of-range index. Here
each of those becomes an `Error` value (`InvalidIndex`, `SlotBusy`, `NotStarted`, `RowLengthMismatch`,
`PlaneOverrun`) and leaves the worker unchanged. All arithmetic is on non-negative integers, so Dafny's
`/` and `%` agree with Rust's `usize` operators.

## Model

| member | source | states |
|---|---|---|
| `Layout.LineStride` | src/worker.rs:55 | `line_stride = width * 8` bytes separate vertically adjacent samples; for a component at least one block wide it is at least 8, the width of one block |
| `Layout.BlockOrigin` | src/worker.rs:60-61 | block `i`'s top-left sample `y * line_stride + x` lies on plane line `y = (i / width)*8` of the row, at column `x = (i % width)*8` |
| `Worker.BlockCount` | src/worker.rs:54 | `block_count = width * vsf`; `block_count * 64` is the row length and equals `(vsf * 8) * line_stride` |
| `Worker.RowStored` | src/worker.rs:59-66 | the effect of one row on a plane: the length is kept; byte `p` of `[cursor, cursor + |data|)` holds sample `SampleOf` of block `BlockOf` of the row, transformed from that block's 64 coefficients (and the component is then at least one block wide); every byte outside that band is unchanged |
| `Idct.BlockStored` | src/worker.rs:62-65 | the footprint of `dequantize_and_idct_block`: when the 8 rows fit in `out`, sample `k < 64` lands at `start + (k / 8)*stride + k % 8`; the length is kept and every byte outside the 8x8 footprint is unchanged |
| `Worker.Worker.constructor` | src/worker.rs:21-27 | every one of the `MaxComponents` slots has cursor 0, a fresh empty buffer, no component and no table; the object invariant holds |
| `Worker.Worker.Start` | src/worker.rs:30-42 | out-of-range index gives `InvalidIndex`; a non-empty buffer gives `SlotBusy`; in both cases nothing changes. On success the slot gets a fresh plane of exactly `width*height*64` zero bytes, cursor 0, the given component, the given table and row count 0. Every other slot, and the contents of every other buffer, are unchanged |
| `Worker.Worker.AppendRow` | src/worker.rs:44-69 | the outcome is `InvalidIndex`, `NotStarted` (no component or table), `RowLengthMismatch` (length is not `width*vsf*64`) or `PlaneOverrun` (a non-empty row ends past the plane), checked in the source's order. Errors change nothing. On success the cursor advances by exactly `|data|` and the row count by one. The slot's plane becomes `RowStored` of the old plane at the old cursor. Bytes below the old cursor, other slots' buffers, the descriptors and the tables are unchanged |
| `Worker.Worker.GetResult` | src/worker.rs:71-73 | returns the slot's buffer itself and puts a fresh empty buffer in its place. Cursor, component, table and the other slots are unchanged. An out-of-range index gives `InvalidIndex` |
| `Worker.Worker.CursorOnLine` | src/worker.rs:54-55 | the cursor of a started slot equals `(rows * vsf * 8) * lineStride`, so it is the first byte of a plane line |
| `Worker.StoreRow` | src/worker.rs:59-66 | the block loop: for `i` in `0 .. width*vsf` it transforms `data[i*64 .. (i+1)*64]` into the plane from `cursor + BlockOrigin(width, i)`. The plane ends up equal to `RowStored` of the plane it started from |
| `Worker.RowCoefficients` | src/worker.rs:62 | block `i` of a row of `width*vsf*64` coefficients is a 64-element slice, within bounds for every `i < width*vsf` |
| `Worker.StoreBlockStep` | src/worker.rs:59-65 | one iteration of the block loop is correct: storing block `i` over the first `i` stored blocks gives the first `i + 1` |
| `Worker.RowPrefixEnds` | src/worker.rs:59-66 | with no block stored the plane is untouched; with all `width*vsf` blocks stored it is `RowStored` |
| `Worker.RowStoredBlockSample` | src/worker.rs:59-65 | in the stored row, sample `(r, c)` of block `i` sits at `cursor + ((i / width)*8)*lineStride + (i % width)*8 + r*lineStride + c`, inside `[cursor, cursor + |data|)`. It is raster sample `r*8 + c` of `data[i*64 .. (i+1)*64]` |
| `Worker.ZeroRowIsFlat` | src/worker.rs:59-66 | suppose the transform maps an all-zero block to the constant `v`. Then a row of zero coefficients makes every byte of its band equal to `v` |
| `Layout.BlockOf` | src/worker.rs:60-61 | the block that owns a byte of the row is always one of the row's `width*vsf` blocks |
| `Layout.SampleOf` | src/worker.rs:60-61 | the raster index of a row byte inside its block is below 64 |
| `Layout.RowIsWholeLines` | src/worker.rs:54-55 | `block_count * 64 == (vsf * 8) * line_stride`: one row is exactly `vsf * 8` plane lines |
| `Layout.CursorOnLineBoundary` | src/worker.rs:68 | after `k` rows the cursor `k * block_count * 64` equals `(k * vsf * 8) * line_stride` |
| `Layout.RowsFillPlane` | src/worker.rs:39 | when `height == k * vsf`, `k` rows cover the `width*height*64`-byte plane exactly |
| `Layout.BlockSampleLineColumn` | src/worker.rs:60-65 | sample `(r, c)` of block `i` is on line `(i / width)*8 + r` and at column `(i % width)*8 + c` of the row |
| `Layout.BlockSampleInRow` | src/worker.rs:59-65 | every sample of every block `i < width*vsf` lies inside `[0, block_count*64)` relative to the cursor |
| `Layout.BlockSample` | src/worker.rs:59-65 | sample `(r, c)` of block `i` is inside the row, and the row's decomposition of that byte gives back block `i` and raster index `r*8 + c` |
| `Layout.RowCoversBand` | src/worker.rs:59-65 | every byte of `[0, block_count*64)` is sample `SampleOf` of block `BlockOf`, so the blocks leave no gap in the band |
| `Layout.BlockWritesDisjoint` | src/worker.rs:59-65 | two different samples of the row, in blocks `i != j` or at different positions of one block, land on different bytes |
| `Layout.InBlockIffBlockOf` | src/worker.rs:59-65 | a byte is among the 64 that block `i` writes exactly when the row assigns it to block `i`, and then the two raster indices agree |
| `Layout.SampleOffset` | src/worker.rs:62-65 | sample `k` of a block is stored `(k / 8)*stride + k % 8` bytes after the block's first byte; for `k < 64` that is within the block's 8 rows, at most `7*stride + 7` |
| `Idct.DequantizeAndIdctBlock` | src/worker.rs:62-65 | writes, for each `k < 64`, the transform's sample `k` at `start + (k / 8)*stride + k % 8`, and leaves every other byte of the output unchanged |
| `Idct.SampleOffsetInBlock` | src/worker.rs:64-65 | the store of sample `k` is inside the 8x8 footprint at stride `stride`, with raster index `k` |
| `Idct.InBlockIsSampleOffset` | src/worker.rs:64-65 | every byte of the 8x8 footprint is the store of exactly one sample `k < 64` |
| `Sessions.StartTwice` | src/worker.rs:36-39 | the first start on a fresh slot succeeds. The second start fails with `SlotBusy` when the plane is non-empty. When `width*height == 0` the second start succeeds, because the source tests only `is_empty` |
| `Sessions.DrainTwice` | src/worker.rs:71-73 | after a start, the first `GetResult` yields the zero plane and an immediate second `GetResult` yields an empty buffer |
| `Sessions.OneRowSession` | src/worker.rs:30-73 | start, one row of the right length (when `vsf <= height`), then drain; the plane handed out is the zero plane with that row stored at cursor 0 |

## Left out

- The arithmetic inside `dequantize_and_idct_block` is not modelled. Its module, `idct`, is not part of this model. Its sample values are the parameter `SampleFn`, and only where it stores them is specified.
- `Idct.DequantizeAndIdctBlock` requires `stride >= 8`. With a smaller stride the rows would overlap, and the result would depend on the transform's write order. The worker always passes `8 * width` with `width >= 1`.
- Reference counting and sharing of `Arc<[u16; 64]>`: the table is an immutable 64-entry sequence.
- How `Component` is parsed is not modelled: the model keeps only `blockWidth`, `blockHeight` and `verticalSamplingFactor`, as unbounded naturals rather than the parser's `u16`/`u8`.
- `MaxComponents`: its value is defined in the decoder, which is not part of this model. It is fixed at 4 here, and nothing depends on it beyond being positive.
- `usize` overflow of `width*height*64`, of the offsets and of the cursor is not modelled. All of these are unbounded naturals.
- Panics: each is an `Error` value that leaves the state unchanged. In the source, the out-of-range write in `append_row` panics partway through the block loop, after the earlier blocks of the row have already been stored. The model reports `PlaneOverrun` before it writes anything. `RowCoversBand` shows that the last byte of the band is written, so a row that ends past the plane always reaches the panic.
- `get_result` does not clear the slot's descriptor and table (src/worker.rs:71-73), so an `AppendRow` on a drained slot is not refused as `NotStarted`. The model follows the code: a non-empty row then fails with `PlaneOverrun`, because it overruns the now-empty buffer.
- Use of several workers from different threads is not modelled; the worker itself is sequential.
