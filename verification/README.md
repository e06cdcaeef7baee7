# rowvec: a verified model of a row-major matrix over one flat buffer

This project models the `rowvec` crate. The crate has two types:

- `RowVec<T>` owns a growable buffer and presents it as rows of a fixed, non-zero width (`columns`).
- `RowSlice<T>` is a borrowed, read-only view of a row-aligned window of such a buffer. A view can be narrowed further without copying.

Row `i` is the window `data[i*columns .. i*columns + columns]`. Cell `(i, col)` is `data[columns*i + col]`.

The model is functional. The owned store is the datatype `RowVec(columns, data)`, with the invariant `Valid()`: `columns > 0` and the buffer length is a multiple of `columns`. Every mutator is a function from the old store to the new one. Its contract states the new sequence of rows (`Iter()`) in terms of the old. A view is the datatype `RowSlice(columns, data)`: an immutable snapshot of its window.

Modules:

- `RowLayout` (`layout.dfy`) is the row arithmetic shared by both types:
  - row count, row and cell;
  - the sequence of rows `Chunks` and its inverse `Flatten`;
  - windows of whole rows, and concatenations;
  - the translation of range bounds into element offsets.
- `RowSlices` (`rowslice.dfy`) is the view.
- `RowVecs` (`rowvec.dfy`) is the owned store. It depends on the view, because `slice()` produces one.
- `CommonOps` (`scenario.dfy`) replays the crate's test `common_ops`.

A fatal `assert!` or an out-of-bounds slice access in the source becomes a `requires` clause. This covers:

- a zero row width;
- a pushed row of the wrong length;
- mismatched widths on `append`;
- equal indices on `swap_nonoverlapping`;
- a column at or past the width;
- row and range bounds past the end;
- the unsupported excluded start bound of `remove_range`.

The source has no recoverable error path, so none is modelled. `RowLayout.RowInBounds` and `RowLayout.CellInBounds` show that the row-index preconditions are exactly the conditions under which the source's own slice and index operations stay in bounds.

`RowSlice::range` accepts an excluded start bound `i` and begins at offset `(i+1)*columns` (src/lib.rs:166). `RowVec::remove_range` rejects an excluded start bound with `todo!` (src/lib.rs:61), so only there is it a precondition.

The test at src/test.rs:13 calls `range(1, 2)`, which does not match the one-argument signature at src/lib.rs:161. `CommonOps.Run` reads it as `range(1..2)`, which selects the single row `[2, 3]`.

## Model

| member | source | states |
|---|---|---|
| RowLayout.RowCount | src/lib.rs:36-39 | the row count times the row width is the buffer length |
| RowLayout.Chunks | src/lib.rs:51-54 | the rows of an aligned buffer: as many as the row count, and entry `i` is the window of row `i` |
| RowLayout.FlattenChunks | src/lib.rs:51-54 | concatenating the rows in order gives back the whole buffer, so iterating loses nothing |
| RowLayout.ChunksFlatten | src/lib.rs:51-54 | cutting a concatenation of rows of the row width into rows gives back those rows |
| RowLayout.ChunksInjective | src/lib.rs:6-9 | two aligned buffers with the same row width and the same rows are equal |
| RowLayout.CellOfRow | src/lib.rs:113-121 | the cell at offset `columns*i + col` is entry `col` of the row at offset `i*columns` |
| RowLayout.RowInBounds | src/lib.rs:98-102 | the slice `i*columns .. i*columns + columns` lies in the buffer exactly when `i` is below the row count |
| RowLayout.CellInBounds | src/lib.rs:116-120 | with `col < columns`, the offset `columns*i + col` lies in the buffer exactly when `i` is below the row count |
| RowLayout.CellOffsetInjective | src/lib.rs:123-128 | two cells with in-range columns share a flat offset only if they are the same cell |
| RowLayout.Window | src/lib.rs:161-178 | rows `[lo, hi)` cut out as offsets `[lo*c, hi*c)` are aligned, number `hi - lo`, and row `i` of the window is row `lo + i` |
| RowLayout.ChunksWindow | src/lib.rs:161-178 | the rows of that window are the slice `[lo, hi)` of the rows |
| RowLayout.ConcatRows | src/lib.rs:41-45 | the rows of a concatenation are the first buffer's rows, then the second's, shifted by the first's row count |
| RowLayout.ChunksConcat | src/lib.rs:41-45 | the sequence of rows of a concatenation is the concatenation of the sequences of rows |
| RowLayout.ReplaceRowChunks | src/lib.rs:105-111 | overwriting the window of row `i` with a row of the row width replaces exactly entry `i` of the rows |
| RowLayout.DrainRows | src/lib.rs:56-70 | draining offsets `[lo*c, hi*c)` leaves the rows before `lo` followed by the rows from `hi` on |
| RowLayout.StartOffset | src/lib.rs:164-168 | a start bound becomes the element offset of the first row it keeps |
| RowLayout.EndOffset | src/lib.rs:169-173 | an end bound becomes the element offset one past the last row it keeps |
| RowSlices.RowSlice.Rows | src/lib.rs:151-154 | the view's row count times its row width is its window length |
| RowSlices.RowSlice.Iter | src/lib.rs:156-159 | iteration yields one row per row of the view, each of the row width (that they make up the window in order is `RowLayout.FlattenChunks`) |
| RowSlices.RowSlice.Row | src/lib.rs:197-205 | indexing the view by row gives a row of the row width, the same row that iteration yields at that position |
| RowSlices.RowSlice.Cell | src/lib.rs:207-215 | indexing the view by `(i, col)` gives entry `col` of row `i` |
| RowSlices.RowSlice.Range | src/lib.rs:161-178 | the narrowed view keeps the row width, is the window of offsets `[lo*c, hi*c)`, has `hi - lo` rows, and its row `i` is row `lo + i` of the original |
| RowSlices.RangeHalfOpen | src/lib.rs:164-173 | every pair of bounds selects the view of its half-open row range: an excluded start `i` acts as an included start `i+1`, and an included end `i` as an excluded end `i+1` |
| RowSlices.RowSlice.RangeFrom | src/lib.rs:180-186 | `range_from(k)` keeps the row width, has `rows - k` rows, and its row `i` is row `k + i` |
| RowSlices.RangeFromIsRange | src/lib.rs:180-186 | `range_from(k)` equals `range(k..)` |
| RowSlices.RowSlice.RangeTo | src/lib.rs:188-194 | `range_to(k)` keeps the row width, has `k` rows, and shares its rows with the original |
| RowSlices.RangeToIsRange | src/lib.rs:188-194 | `range_to(k)` equals `range(..k)` |
| RowSlices.RangeCompose | src/lib.rs:161-178 | narrowing a narrowed view to `[lo2, hi2)` within `[lo1, hi1)` equals narrowing once to `[lo1 + lo2, lo1 + hi2)` |
| RowVecs.New | src/lib.rs:12-18 | with a non-zero width, the new store is valid, has that width and has no rows |
| RowVecs.WithCapacity | src/lib.rs:20-26 | with a non-zero width, the new store is valid, has that width and has no rows, whatever the capacity |
| RowVecs.RowVec.Rows | src/lib.rs:36-39 | the row count times the row width is the buffer length |
| RowVecs.RowVec.Iter | src/lib.rs:51-54 | iteration yields one row per row of the store, each of the row width (that they make up the buffer in order is `RowLayout.FlattenChunks`) |
| RowVecs.RowVec.Row | src/lib.rs:95-103 | indexing by row gives a row of the row width, the same row that iteration yields at that position |
| RowVecs.RowVec.Cell | src/lib.rs:113-121 | indexing by `(i, col)` gives entry `col` of row `i` |
| RowVecs.RowVec.Push | src/lib.rs:88-92 | pushing a row of the row width keeps the store valid, and its rows become the old rows followed by the pushed row |
| RowVecs.PushReadBack | src/lib.rs:88-92 | after a push there is one more row, the last row reads back as the pushed value, and every earlier row is unchanged |
| RowVecs.RowVec.Append | src/lib.rs:41-45 | the receiver's rows become its own rows followed by the other store's rows, and the other store is left valid with no rows |
| RowVecs.AppendRows | src/lib.rs:41-45 | the row counts add up, the receiver's rows keep their indices, and the other store's row `i` becomes row `rows + i` |
| RowVecs.RowVec.Clear | src/lib.rs:47-49 | clearing leaves a valid store of the same width with no rows |
| RowVecs.RowVec.RemoveRange | src/lib.rs:56-70 | removing rows `[lo, hi)` leaves a valid store whose rows are the old rows before `lo` followed by the old rows from `hi` on |
| RowVecs.DrainOffsets | src/lib.rs:59-69 | draining between the offsets of the bounds removes exactly the rows the bounds name |
| RowVecs.RemoveRangeShifts | src/lib.rs:56-70 | removing `[lo, hi)` leaves `hi - lo` fewer rows; rows before `lo` stay, and the rows from `hi` on move down by `hi - lo` in their original order |
| RowVecs.GapClosed | src/lib.rs:69 | when a store's rows are another's with rows `[lo, hi)` cut out, it has `hi - lo` fewer rows, the rows before `lo` keep their index and row `i` from `lo` on is the other's row `i + (hi - lo)` |
| RowVecs.RemoveRangeHalfOpen | src/lib.rs:64-68 | an included end `i` removes what an excluded end `i + 1` removes, and an unbounded side is the store's edge |
| RowVecs.RowVec.SwapNonoverlapping | src/lib.rs:77-84 | swapping two distinct existing rows keeps the store valid, and its rows become the old rows with entries `a` and `b` exchanged |
| RowVecs.SplitSwap | src/lib.rs:80-83 | the source's split-and-trade on the flat buffer leaves it aligned, with row `lo` now holding the old row `hi`, row `hi` the old row `lo`, and every other row in place |
| RowVecs.SplitSwapIsTwoWrites | src/lib.rs:80-83 | exchanging the earlier row with the first row of the part split off at the later row is writing each row over the other |
| RowVecs.SwapReadBack | src/lib.rs:77-84 | after a swap row `a` holds the old row `b`, row `b` holds the old row `a`, and every other row is unchanged |
| RowVecs.SwapInvolution | src/lib.rs:77-84 | swapping the same two rows twice restores the store |
| RowVecs.SwapSymmetric | src/lib.rs:80-81 | swapping `(a, b)` and swapping `(b, a)` give the same store |
| RowVecs.RowVec.WriteRow | src/lib.rs:105-111 | writing a row of the row width through the row index replaces exactly that entry of the rows |
| RowVecs.WriteRowReadBack | src/lib.rs:105-111 | the written row reads back, and every other row is unchanged |
| RowVecs.RowVec.WriteCell | src/lib.rs:123-129 | writing cell `(i, col)` replaces entry `col` of row `i`, and no other entry of the rows changes |
| RowVecs.WriteCellIsWriteRow | src/lib.rs:123-129 | writing a cell at its flat offset is the same as writing its row with that one entry replaced |
| RowVecs.WriteCellReadBack | src/lib.rs:123-129 | the written cell reads back, and every other cell is unchanged |
| RowVecs.RowVec.IterMut | src/lib.rs:72-75 | rewriting every row in place without changing its width keeps the store valid with the same row count, and row `i` becomes the rewrite of the old row `i` |
| RowVecs.RowVec.Slice | src/lib.rs:137-144 | the view of the whole store is valid, has the store's width and row count, and yields the store's rows |
| RowVecs.SameRows | src/lib.rs:6-9 | two valid stores with the same width and the same rows are the same store |
| RowVecs.SliceRangeRow | src/lib.rs:161-178 | row `i` of a view taken with `range` is row `lo + i` of the store, where `lo` is the first row the range names |
| CommonOps.Run | src/test.rs:4-19 | after pushing `[2k, 2k+1]` for `k < 10` to a new store of width 2, row 1 reads `[2, 3]` and cells `(1, 0)` and `(1, 1)` read 2 and 3. The view `range(1..2)` has the single row `[2, 3]`, and removing `0..1` moves `[2, 3]` to row 0 |

## Left out

- `reserve` (src/lib.rs:28-30) is not modelled. It only grows the allocation and has no effect on content or row count.
- The capacity argument of `with_capacity` is not modelled. It is accepted and ignored by `RowVecs.WithCapacity`, because it is only an allocation hint.
- `columns()` on both types is not a separate member. It is the datatype field `columns`.
- Lifetimes and borrowing are not modelled: a view may not outlive its store, and a store may not change while a view exists. Both are rules of Rust's type system, not behaviour. A view is modelled as an immutable snapshot of its window.
- The laziness of `Chunks`/`ChunksMut` is not modelled. Iteration is the finite sequence of rows, `Iter()`.
- The split between `debug_assert!` and `assert!` is not modelled. The divisibility invariant is the predicate `Valid()`, which every operation requires and every mutator re-establishes.
- `usize` arithmetic in `index*columns` and `(i+1)*columns` is not modelled: indices and offsets are unbounded `nat`. In a debug build an overflowing product panics; in a release build it wraps, so for example with width 2 the row index 2^63 reads row 0 (src/lib.rs:100, src/lib.rs:119). The model only covers indices whose offsets fit.
- RowVecs.WithCapacity: accepts every capacity and returns an empty store, while the source panics when `columns * capacity` overflows in a debug build or when `Vec::with_capacity` (src/lib.rs:24) exceeds its size limit ("capacity overflow"). Allocation is outside the model.
- The `T: Clone` bound on `push` is not modelled. Elements are values of a generic type.
- Mutation in place is not modelled. Each mutator returns the new store, and `append` returns both the receiver and the drained argument.
- RowVecs.RowVec.IterMut: the caller's rewrite of row `i` is a function of `i` and the old row `i` only. A closure whose rewrite depends on rows it has already rewritten, or on other outside state, is not covered.
