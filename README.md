# Sum of absolute differences on a tiled manycore, in Dafny

This project models the kernel header `sum_abs_diff.hpp`. It computes a
sliding-window Sum of Absolute Differences (SAD) over flat row-major `int`
buffers:

- `REF` is the reference image, `ref_height x ref_width`.
- `FRAME` is the template, `frame_height x frame_width`.
- `RES` is the result, `res_height x res_width`.

For an output coordinate `(y, x)`, the kernel adds
`ABS(REF[(y+i)*ref_width + (x+j)] - FRAME[offset(i, j)])` over the window and
stores the sum into `RES[y*res_width + x]`.

A worker (tile) knows three things: its tile group `(group_y, group_x)`, its
place `(local_y, local_x)` inside the group, and the group shape
`(tiles_Y, tiles_X)`. The four versions differ in how they choose the
coordinates a tile writes and in how they address `FRAME`:

- **Version 0** (`SingleWorkPerTile`) writes the single coordinate
  `(group_y*tiles_Y + local_y, group_x*tiles_X + local_x)`.
- **Versions 1-3** give each tile group the block of `block_size_y x block_size_x`
  coordinates that starts at `(group_y*block_size_y, group_x*block_size_x)`.
  Inside the block, a tile visits every `tiles_Y`-th row from `local_y` and
  every `tiles_X`-th column from `local_x` (a block-cyclic distribution).
  - **Version 1** (`MultipleWorkPerTile`) takes the frame size at run time.
  - **Version 3** (`FixedFrame`) takes it as template arguments.
  - **Version 2** (`FixedFrame4x4`) fixes a 4x4 frame and addresses `FRAME` with
    `(y - start_y) << 2 + (x - start_x)`. C++ parses this as
    `dy << (2 + dx)`, and it is modelled that way.

## Layout

| file | module | contents |
|---|---|---|
| `flat_index.dfy` | `FlatIndex` | Euclidean division facts and row-major offset bounds. |
| `abs_diff.dfy` | `AbsDiff` | Several parts: `ABS`, the three FRAME addressing schemes, the window (`Window`, `Fits`) and the SAD as a specification function. Also the accumulation loops as methods over `array<int>` (`AccumulateSad` for the row loop, `AccumulateRow` for the column loop), properties of the SAD, and the Version 2 offset defect. |
| `work_partition.dfy` | `WorkPartition` | The worker identity (`Tile`), the values a strided `for` loop visits, its iteration count and balance, and block-cyclic ownership with its exactly-once property. |
| `sad_kernels.dfy` | `SadKernels` | The four kernels as methods that update `RES` in place, the RES contents each one leaves (`BlockResult`, `SingleResult`), and lemmas on which cells are written and how versions relate. |

The runtime globals `__bsg_tile_group_id_y/x`, `bsg_y/x` and `bsg_tiles_Y/X`
are the fields of the `Tile` parameter. Versions 1-3 share one loop nest:
`BlockCyclic` runs the row loop and `BlockRow` the column loop. The versions
differ only in the frame size and the `FrameIndexing` they pass to it.

Two facts about the code that the model keeps as written:

- Version 2's offset `dy << 2 + dx` is `dy << (2 + dx)` in C++, because `+`
  binds tighter than `<<`.
- The block-cyclic grid covers `[0, G * block_size)` on each axis, where `G`
  is the number of tile groups on that axis.

Versions 1 and 3 have the same postcondition once `frame_height = FRAME_HEIGHT`
and `frame_width = FRAME_WIDTH`, so they leave `RES` identical.

## Model

| member | source | states |
|---|---|---|
| AbsDiff.Abs | examples/sum_abs_diff/kernel/include/sum_abs_diff.hpp:7 | `ABS(e)` used as `sad += ABS(e)` is non-negative, is `e` or `-e`, and is zero exactly when `e` is zero |
| AbsDiff.Shl | examples/sum_abs_diff/kernel/include/sum_abs_diff.hpp:124 | `v << s` on a non-negative `v`: shifting the result back right by `s` gives `v`, and its `s` low bits are zero |
| AbsDiff.FrameOffset | examples/sum_abs_diff/kernel/include/sum_abs_diff.hpp:121-126 | the FRAME index of window position `(dy, dx)`: `dy * frame_width + dx` as at lines 34, 78 and 172, `dy << (2 + dx)` as written at line 124, or the parenthesized `(dy << 2) + dx`; its properties are in FrameOffsetDecodes |
| AbsDiff.FrameOffsetDecodes | examples/sum_abs_diff/kernel/include/sum_abs_diff.hpp:78 | the row-major index names row `dy`, column `dx` of the frame (division by `frame_width` gives them back when `dx < frame_width`); the parenthesized index does the same for width 4; the as-written index of line 124 is 0 across window row 0 |
| AbsDiff.TermInBounds | examples/sum_abs_diff/kernel/include/sum_abs_diff.hpp:78 | when the window fits, the REF read `(y+i)*ref_width + (x+j)` and the FRAME read of term `(i, j)` are both inside their buffers, for every addressing scheme |
| AbsDiff.Term | examples/sum_abs_diff/kernel/include/sum_abs_diff.hpp:78 | one summand `ABS(REF cell - FRAME cell)` is never negative, and is zero exactly when the two cells match |
| AbsDiff.RowSad | examples/sum_abs_diff/kernel/include/sum_abs_diff.hpp:77-79 | the partial sum of one window row, as the column loop builds it, is never negative |
| AbsDiff.RowsSad | examples/sum_abs_diff/kernel/include/sum_abs_diff.hpp:76-80 | the partial sum of the first rows, as the row loop builds it, is never negative |
| AbsDiff.Sad | examples/sum_abs_diff/kernel/include/sum_abs_diff.hpp:75-80 | the SAD of a window is never negative, so no written value is negative |
| AbsDiff.RowSadZero | examples/sum_abs_diff/kernel/include/sum_abs_diff.hpp:77-79 | a row sum is zero exactly when every REF cell in it equals the FRAME cell it is compared with |
| AbsDiff.RowsSadZero | examples/sum_abs_diff/kernel/include/sum_abs_diff.hpp:76-80 | the sum of the first rows is zero exactly when all their cells match |
| AbsDiff.SadZeroIffMatch | examples/sum_abs_diff/kernel/include/sum_abs_diff.hpp:31-36 | the SAD is zero exactly when the window under REF equals FRAME cell for cell (both directions) |
| AbsDiff.SameTermsSameSad | examples/sum_abs_diff/kernel/include/sum_abs_diff.hpp:169-174 | two placements whose terms agree one for one have the same SAD |
| AbsDiff.SameTermsSameRows | examples/sum_abs_diff/kernel/include/sum_abs_diff.hpp:170-174 | the same for the first m rows |
| AbsDiff.SameTermsSameRow | examples/sum_abs_diff/kernel/include/sum_abs_diff.hpp:171-173 | the same for one row |
| AbsDiff.ParenthesizedMatchesRowMajor | examples/sum_abs_diff/kernel/include/sum_abs_diff.hpp:124 | addressing a 4-wide FRAME with the parenthesized `(dy << 2) + dx` gives exactly the row-major SAD that Version 3 computes with `FRAME_WIDTH = 4` |
| AbsDiff.ShiftAsWrittenOffset | examples/sum_abs_diff/kernel/include/sum_abs_diff.hpp:124 | `dy << 2 + dx` equals `dy * 4 + dx` exactly when `dx == 0`; in row 0 it is always 0; at `(3, 3)` it is 96 |
| AbsDiff.ShiftOverRowMajor | examples/sum_abs_diff/kernel/include/sum_abs_diff.hpp:124 | past row 0 and column 0, `dy << (2 + dx)` is strictly larger than `dy * 4 + dx` |
| AbsDiff.AccumulateSad | examples/sum_abs_diff/kernel/include/sum_abs_diff.hpp:75-80 | the nested accumulation loops return exactly the SAD of the window at `(start_y, start_x)` |
| AbsDiff.AccumulateRow | examples/sum_abs_diff/kernel/include/sum_abs_diff.hpp:77-79 | the column loop adds exactly the full row sum of window row `y - start_y` to `sad` |
| AbsDiff.Sad4x4 | examples/sum_abs_diff/kernel/include/sum_abs_diff.hpp:121-126 | the SAD of a 4x4 window is the sum of its sixteen terms |
| AbsDiff.ReferenceExample | examples/sum_abs_diff/kernel/include/sum_abs_diff.hpp:31-36 | over REF = 1..9 (3x3) and a 2x2 FRAME of ones, the window at (0, 0) sums to 8 and the one at (1, 1) to 24 |
| WorkPartition.Visits | examples/sum_abs_diff/kernel/include/sum_abs_diff.hpp:64 | the k-th value the strided loop visits is `from + k*step`; the last visited value is below `end`, and one more step reaches or passes `end` |
| WorkPartition.VisitsAreStrided | examples/sum_abs_diff/kernel/include/sum_abs_diff.hpp:64-65 | the loop visits `v` exactly when `from <= v < end` and `v - from` is a multiple of the stride (both directions) |
| WorkPartition.Strided | examples/sum_abs_diff/kernel/include/sum_abs_diff.hpp:64 | the values `v` with `start + local <= v < start + size` on the stride `tiles`; StridedIffVisited ties them to the loop |
| WorkPartition.StridedIffVisited | examples/sum_abs_diff/kernel/include/sum_abs_diff.hpp:64 | `v` is strided exactly when the loop from `start + local` visits it before leaving the block (both directions) |
| WorkPartition.VisitCount | examples/sum_abs_diff/kernel/include/sum_abs_diff.hpp:64 | the loop runs `ceil((end - from) / step)` times, or zero times when `from >= end`, so it terminates |
| WorkPartition.Balanced | examples/sum_abs_diff/kernel/include/sum_abs_diff.hpp:64 | within a group, the iteration counts of two tiles differ by at most one; a tile runs zero iterations exactly when its offset is at least the block size |
| WorkPartition.GroupPartition | examples/sum_abs_diff/kernel/include/sum_abs_diff.hpp:58-65 | inside a block, coordinate `v` is visited by tile `(v - start) % tiles` and by no other tile |
| WorkPartition.BlocksPartition | examples/sum_abs_diff/kernel/include/sum_abs_diff.hpp:58-61 | group blocks `[g*size, (g+1)*size)` are disjoint: `v` lies in the block of group `v / size` only; that group is `< G` exactly when `v < G*size` |
| WorkPartition.StrideStep | examples/sum_abs_diff/kernel/include/sum_abs_diff.hpp:65 | `iter += tiles` keeps the loop variable on the stride, and no coordinate of the tile lies strictly between two visited ones |
| WorkPartition.Owns | examples/sum_abs_diff/kernel/include/sum_abs_diff.hpp:58-65 | the coordinates a tile writes in Versions 1-3: strided on both axes of its group's block; OwnsIffVisited ties them to the loops |
| WorkPartition.OwnsIffVisited | examples/sum_abs_diff/kernel/include/sum_abs_diff.hpp:64-65 | a tile writes `(y, x)` exactly when its `iter_y` loop visits `y` and its `iter_x` loop visits `x` |
| WorkPartition.SingleY | examples/sum_abs_diff/kernel/include/sum_abs_diff.hpp:25 | Version 0's row `group_y * tiles_Y + local_y`; dividing it by `tiles_Y` gives back the group and the local row, so distinct `(group_y, local_y)` pairs get distinct rows |
| WorkPartition.SingleX | examples/sum_abs_diff/kernel/include/sum_abs_diff.hpp:27 | Version 0's column `group_x * tiles_X + local_x`; dividing it by `tiles_X` gives back the group and the local column, so distinct `(group_x, local_x)` pairs get distinct columns |
| WorkPartition.SingleDistinct | examples/sum_abs_diff/kernel/include/sum_abs_diff.hpp:25-27 | two distinct valid tiles of one grid (same `tiles_Y`, `tiles_X`) never share Version 0's coordinate |
| WorkPartition.OneRound | examples/sum_abs_diff/kernel/include/sum_abs_diff.hpp:64 | with a block as large as the group, a tile visits exactly `start + local` |
| WorkPartition.AxisOwner | examples/sum_abs_diff/kernel/include/sum_abs_diff.hpp:58-65 | on one axis, every `v >= 0` is owned by group `v / size` and local `(v % size) % tiles`, and by no other (group, local) pair |
| WorkPartition.ExactlyOnce | examples/sum_abs_diff/kernel/include/sum_abs_diff.hpp:58-65 | every coordinate of `[0, G_y*block_size_y) x [0, G_x*block_size_x)` is written by the tile `OwnerOf(y, x)` of the grid, and by no other tile |
| WorkPartition.OwnedInsideGrid | examples/sum_abs_diff/kernel/include/sum_abs_diff.hpp:58-61 | a tile of a group inside the grid writes only coordinates of `[0, G_y*block_size_y) x [0, G_x*block_size_x)` |
| WorkPartition.SingleIsTileSizedBlock | examples/sum_abs_diff/kernel/include/sum_abs_diff.hpp:25-27 | with `block_size = tiles`, a tile owns `(y, x)` in Versions 1-3 exactly when `(y, x)` is Version 0's coordinate `(SingleY, SingleX)` |
| SadKernels.BlockResult | examples/sum_abs_diff/kernel/include/sum_abs_diff.hpp:83 | RES after a tile of Versions 1-3 has the same length as before; its cells are characterised by ValueWritten, OnlyOwnedCellsChange and DisjointWrites |
| SadKernels.SingleResult | examples/sum_abs_diff/kernel/include/sum_abs_diff.hpp:38 | RES after Version 0 has the same length as before |
| SadKernels.ValueWritten | examples/sum_abs_diff/kernel/include/sum_abs_diff.hpp:83 | every coordinate a tile owns is inside RES, and its cell holds the SAD of the window placed there |
| SadKernels.OnlyOwnedCellsChange | examples/sum_abs_diff/kernel/include/sum_abs_diff.hpp:83 | a cell that differs from its old value is the cell `y*res_width + x` of a coordinate `(y, x)` the tile owns |
| SadKernels.DisjointWrites | examples/sum_abs_diff/kernel/include/sum_abs_diff.hpp:83 | a tile leaves unchanged the cell of every coordinate owned by another tile of the same grid |
| SadKernels.SingleIsBlockOfOneRound | examples/sum_abs_diff/kernel/include/sum_abs_diff.hpp:64-83 | Version 1 with `block_size_y = tiles_Y` and `block_size_x = tiles_X` stays inside RES and leaves exactly the RES of Version 0 |
| SadKernels.Version2DisagreesWithVersion3 | examples/sum_abs_diff/kernel/include/sum_abs_diff.hpp:124 | over a REF of zeros and a FRAME with only `FRAME[0] = 1`, Version 2 as written computes SAD 4 at (0, 0) while Version 3 `<4, 4>` computes 1 |
| SadKernels.PartialResult | examples/sum_abs_diff/kernel/include/sum_abs_diff.hpp:64-65 | RES in the middle of the strided loops has the length of RES |
| SadKernels.WriteStep | examples/sum_abs_diff/kernel/include/sum_abs_diff.hpp:83 | storing the final value of an owned `(iter_y, iter_x)` turns the loop state at `iter_x` into the loop state at `iter_x + tiles_X` |
| SadKernels.SameBeforeAfter | examples/sum_abs_diff/kernel/include/sum_abs_diff.hpp:65 | moving `iter_x` one stride on changes the written status of no cell other than `(iter_y, iter_x)` |
| SadKernels.RowStep | examples/sum_abs_diff/kernel/include/sum_abs_diff.hpp:64 | leaving the column loop and stepping `iter_y` by `tiles_Y` does not change the loop state |
| SadKernels.ColumnStep | examples/sum_abs_diff/kernel/include/sum_abs_diff.hpp:65-83 | at an owned `(iter_y, iter_x)`, the window fits and the RES cell is in bounds; storing the window's SAD moves the loop state one stride on |
| SadKernels.BlockCyclic | examples/sum_abs_diff/kernel/include/sum_abs_diff.hpp:58-86 | the strided loop nest leaves RES equal to BlockResult: every owned cell holds its SAD and every other cell is unchanged |
| SadKernels.BlockRow | examples/sum_abs_diff/kernel/include/sum_abs_diff.hpp:65-85 | the column loop for row `iter_y` writes every owned cell of that row and nothing else |
| SadKernels.SingleWorkPerTile | examples/sum_abs_diff/kernel/include/sum_abs_diff.hpp:20-40 | Version 0 returns 0 and changes only `RES[start_y*res_width + start_x]`, which becomes the SAD of its window; REF and FRAME are not modified |
| SadKernels.MultipleWorkPerTile | examples/sum_abs_diff/kernel/include/sum_abs_diff.hpp:51-89 | Version 1 returns 0 and leaves RES equal to BlockResult with the row-major runtime-size frame |
| SadKernels.FixedFrame4x4 | examples/sum_abs_diff/kernel/include/sum_abs_diff.hpp:98-135 | Version 2 as written returns 0 and leaves RES equal to BlockResult with a 4x4 frame addressed as `dy << (2 + dx)` |
| SadKernels.FixedFrame4x4Corrected | examples/sum_abs_diff/kernel/include/sum_abs_diff.hpp:121-129 | Version 2 with `((dy << 2) + dx)` leaves RES exactly as Version 3 `<4, 4>` does |
| SadKernels.FixedFrame | examples/sum_abs_diff/kernel/include/sum_abs_diff.hpp:145-183 | Version 3 returns 0 and leaves RES equal to BlockResult with a row-major `FRAME_HEIGHT x FRAME_WIDTH` frame, the same as Version 1 |

## Left out

- 32-bit arithmetic: `sad` is a 32-bit `int`, and the index products mix `int` with `uint32_t`. Both are modelled as unbounded integers, so overflow is not modelled.
- Parallel execution: tiles run concurrently on the hardware. The model runs one tile. Whether writes of different tiles overlap is covered by lemmas over coordinates (ExactlyOnce, DisjointWrites), not by concurrent writes.
- The runtime globals are the fields of the `Tile` parameter. Their ranges (`tiles >= 1`, `local < tiles`) are in `Tile.Valid`.
- Bounds: the kernels never check bounds, and `ref_height` and `res_height` are unused. The model turns this into caller preconditions, stricter than what a single tile's reads and writes need:
  - `Placement` sizes the buffers as full images: REF holds at least `ref_height * ref_width` ints, RES at least `res_height * res_width`, and FRAME every offset the window reads.
  - `Placement` also asks that the window at EVERY RES coordinate lie inside REF: `res_height <= ref_height - frame_height + 1`, and the same for the widths. A call where only the calling tile's own windows fit, such as a RES as large as REF, is outside the model.
  - `WorkerInBounds` asks that every row and column the tile visits lie inside RES.
  - RES must be a different array from REF and FRAME.
- SadKernels.FixedFrame4x4: its precondition asks for a FRAME with at least 97 ints, because the as-written offsets reach `FRAME[96]`. A 16-int frame would make those reads run past the buffer; this out-of-bounds read is not modelled.
- `__attribute__((noinline))` and the template's compile-time unrolling affect performance only and are not modelled.
- The template parameters `FRAME_HEIGHT` and `FRAME_WIDTH` are ordinary parameters of `FixedFrame`.
- Host-side allocation and transfer of the buffers are not part of this model.
- The two nested accumulation loops are two methods: `AccumulateSad` runs the row loop and calls `AccumulateRow` for the column loop. They do the same arithmetic in the same order as the single loop nest.

## Findings

| source | as written | input that shows it | evidently intended | confidence | as-written member | corrected member |
|---|---|---|---|---|---|---|
| examples/sum_abs_diff/kernel/include/sum_abs_diff.hpp:124 | `FRAME[(y - start_y) << 2 + (x - start_x)]` reads `FRAME[dy << (2 + dx)]`: every read of window row 0 hits `FRAME[0]`, and the read at (3, 3) is `FRAME[96]` | REF of 16 zeros (4x4), a 97-int FRAME (the as-written reads reach `FRAME[96]`) with `FRAME[0] = 1` and zeros elsewhere, window at (0, 0): the as-written SAD is 4, the row-major SAD is 1 | `FRAME[((y - start_y) << 2) + (x - start_x)]`, the 4-wide row-major offset used by Version 3 `<4, 4>` | high (proved; not executed) | SadKernels.Version2DisagreesWithVersion3 | SadKernels.FixedFrame4x4Corrected |
