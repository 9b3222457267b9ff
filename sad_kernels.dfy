/**
 * The four SAD kernels of the tiled manycore, each run by one worker (tile):
 * resolve the output coordinates the tile owns, accumulate the SAD of the
 * window at each of them, and store it into RES[y * res_width + x].
 *
 *   Version 0  SingleWorkPerTile    one coordinate per tile
 *   Version 1  MultipleWorkPerTile  block-cyclic coordinates, runtime frame size
 *   Version 2  FixedFrame4x4        block-cyclic, 4x4 frame, shift-based FRAME offset
 *   Version 3  FixedFrame           block-cyclic, frame size fixed at compile time
 */
module SadKernels {
  import opened FlatIndex
  import opened AbsDiff
  import opened WorkPartition

  /** What every kernel needs from its caller and never checks: REF holds
      ref_height x ref_width ints, RES holds res_height x res_width ints, FRAME
      holds every offset the window reads, and the window at every RES
      coordinate lies inside REF (res_height <= ref_height - frame_height + 1,
      and the same for the widths). */
  predicate Placement(w: Window, resHeight: nat, resWidth: nat, resLength: nat)
  {
    w.refHeight * w.refWidth <= |w.ref| && w.FrameFits() &&
    resHeight + w.frameHeight <= w.refHeight + 1 && resWidth + w.frameWidth <= w.refWidth + 1 &&
    resHeight * resWidth <= resLength
  }

  /** Every row and column tile t visits in Versions 1-3 is inside RES. */
  ghost predicate WorkerInBounds(t: Tile, blockSizeY: nat, blockSizeX: nat, resHeight: nat, resWidth: nat)
  {
    t.Valid() &&
    (forall y :: Strided(y, t.groupY * blockSizeY, t.localY, t.tilesY, blockSizeY) ==> y < resHeight) &&
    (forall x :: Strided(x, t.groupX * blockSizeX, t.localX, t.tilesX, blockSizeX) ==> x < resWidth)
  }

  /** RES after tile t has run one of Versions 1-3 on `res`: each cell the tile
      owns holds the SAD of its window, every other cell is unchanged. */
  function BlockResult(res: seq<int>, resHeight: nat, resWidth: nat, w: Window,
                       t: Tile, blockSizeY: nat, blockSizeX: nat): (r: seq<int>)
    requires Placement(w, resHeight, resWidth, |res|)
    requires WorkerInBounds(t, blockSizeY, blockSizeX, resHeight, resWidth)
    ensures |r| == |res|
  {
    seq(|res|, k requires 0 <= k < |res| =>
      if resWidth > 0 && Owns(t, blockSizeY, blockSizeX, k / resWidth, k % resWidth)
      then Sad(w, k / resWidth, k % resWidth)
      else res[k])
  }

  /** RES after tile t has run Version 0 on `res`. */
  function SingleResult(res: seq<int>, resHeight: nat, resWidth: nat, w: Window, t: Tile): (r: seq<int>)
    requires Placement(w, resHeight, resWidth, |res|)
    requires SingleY(t) < resHeight && SingleX(t) < resWidth
    ensures |r| == |res|
  {
    RowMajorBound(SingleY(t), SingleX(t), resHeight, resWidth);
    res[SingleY(t) * resWidth + SingleX(t) := Sad(w, SingleY(t), SingleX(t))]
  }

  /** The cell of an owned coordinate holds the SAD of the window placed there. */
  lemma ValueWritten(res: seq<int>, resHeight: nat, resWidth: nat, w: Window,
                     t: Tile, blockSizeY: nat, blockSizeX: nat, y: nat, x: nat)
    requires Placement(w, resHeight, resWidth, |res|)
    requires WorkerInBounds(t, blockSizeY, blockSizeX, resHeight, resWidth)
    requires Owns(t, blockSizeY, blockSizeX, y, x)
    ensures y < resHeight && x < resWidth
    ensures 0 <= y * resWidth + x < |res|
    ensures BlockResult(res, resHeight, resWidth, w, t, blockSizeY, blockSizeX)[y * resWidth + x] == Sad(w, y, x)
  {
    RowMajorBound(y, x, resHeight, resWidth);
    RowMajorDivMod(y, x, resWidth);
  }

  /** A tile changes only cells of coordinates it owns. */
  lemma OnlyOwnedCellsChange(res: seq<int>, resHeight: nat, resWidth: nat, w: Window,
                             t: Tile, blockSizeY: nat, blockSizeX: nat, k: nat)
    requires Placement(w, resHeight, resWidth, |res|)
    requires WorkerInBounds(t, blockSizeY, blockSizeX, resHeight, resWidth)
    requires k < |res|
    requires BlockResult(res, resHeight, resWidth, w, t, blockSizeY, blockSizeX)[k] != res[k]
    ensures exists y, x :: Owns(t, blockSizeY, blockSizeX, y, x) && k == y * resWidth + x
  {
    DivMod(k, resWidth);
    var y, x := k / resWidth, k % resWidth;
    assert Owns(t, blockSizeY, blockSizeX, y, x) && k == y * resWidth + x;
  }

  /** No write of one tile lands on a cell another tile of the same grid owns:
      tile u leaves the cell of every coordinate owned by t != u as it was. */
  lemma DisjointWrites(res: seq<int>, resHeight: nat, resWidth: nat, w: Window,
                       t: Tile, u: Tile, blockSizeY: nat, blockSizeX: nat, y: nat, x: nat)
    requires Placement(w, resHeight, resWidth, |res|)
    requires WorkerInBounds(t, blockSizeY, blockSizeX, resHeight, resWidth)
    requires WorkerInBounds(u, blockSizeY, blockSizeX, resHeight, resWidth)
    requires t.tilesY == u.tilesY && t.tilesX == u.tilesX && t != u
    requires Owns(t, blockSizeY, blockSizeX, y, x)
    ensures 0 <= y * resWidth + x < |res|
    ensures BlockResult(res, resHeight, resWidth, w, u, blockSizeY, blockSizeX)[y * resWidth + x] == res[y * resWidth + x]
  {
    RowMajorBound(y, x, resHeight, resWidth);
    RowMajorDivMod(y, x, resWidth);
    var gy, gx := y / blockSizeY + 1, x / blockSizeX + 1;
    BlocksPartition(blockSizeY, gy, y);
    BlocksPartition(blockSizeX, gx, x);
    ExactlyOnce(y, x, blockSizeY, blockSizeX, t.tilesY, t.tilesX, gy, gx);
  }

  /** Version 2 as written and Version 3 instantiated with a 4x4 frame compute
      different SADs: over a REF of zeros, with FRAME[0] = 1 and every other
      FRAME cell 0, Version 2 reads FRAME[0] for each of the four cells of
      window row 0 and sums to 4, while Version 3 reads it once and sums to 1. */
  lemma Version2DisagreesWithVersion3()
    ensures var ref := seq(16, k => 0);
            var frame := seq(97, k => if k == 0 then 1 else 0);
            var v2 := Window(ref, 4, 4, frame, 4, 4, ShiftAsWritten);
            var v3 := Window(ref, 4, 4, frame, 4, 4, RowMajor);
            v2.Fits(0, 0) && v3.Fits(0, 0) && Sad(v2, 0, 0) == 4 && Sad(v3, 0, 0) == 1
  {
    var ref := seq(16, k => 0);
    var frame := seq(97, k => if k == 0 then 1 else 0);
    var v2 := Window(ref, 4, 4, frame, 4, 4, ShiftAsWritten);
    var v3 := Window(ref, 4, 4, frame, 4, 4, RowMajor);
    ShiftAsWrittenOffset(3, 3);
    forall i: nat, j: nat | i < 4 && j < 4
      ensures Term(v2, 0, 0, i, j) == (if i == 0 then 1 else 0)
      ensures Term(v3, 0, 0, i, j) == (if i == 0 && j == 0 then 1 else 0)
    {
      ShiftAsWrittenOffset(i, j);
      if i > 0 {
        ShlMonotone(1, 2, i, 2 + j);
        assert Pow2(2) == 4;
      }
    }
    Sad4x4(v2, 0, 0);
    Sad4x4(v3, 0, 0);
  }

  /** Version 1 with block_size_y = tiles_Y and block_size_x = tiles_X performs
      exactly Version 0's single write. */
  lemma SingleIsBlockOfOneRound(res: seq<int>, resHeight: nat, resWidth: nat, w: Window, t: Tile)
    requires t.Valid() && Placement(w, resHeight, resWidth, |res|)
    requires SingleY(t) < resHeight && SingleX(t) < resWidth
    ensures WorkerInBounds(t, t.tilesY, t.tilesX, resHeight, resWidth)
    ensures BlockResult(res, resHeight, resWidth, w, t, t.tilesY, t.tilesX) == SingleResult(res, resHeight, resWidth, w, t)
  {
    forall y | Strided(y, t.groupY * t.tilesY, t.localY, t.tilesY, t.tilesY) ensures y < resHeight {
      OneRound(t.groupY * t.tilesY, t.localY, t.tilesY, y);
    }
    forall x | Strided(x, t.groupX * t.tilesX, t.localX, t.tilesX, t.tilesX) ensures x < resWidth {
      OneRound(t.groupX * t.tilesX, t.localX, t.tilesX, x);
    }
    var b := BlockResult(res, resHeight, resWidth, w, t, t.tilesY, t.tilesX);
    var s := SingleResult(res, resHeight, resWidth, w, t);
    RowMajorDivMod(SingleY(t), SingleX(t), resWidth);
    forall k | 0 <= k < |res| ensures b[k] == s[k] {
      DivMod(k, resWidth);
      SingleIsTileSizedBlock(t, k / resWidth, k % resWidth);
    }
  }

  /** Tile t has written (y, x) once its row loop is at iterY and its column
      loop at iterX. */
  predicate WrittenBefore(t: Tile, blockSizeY: nat, blockSizeX: nat, y: int, x: int, iterY: int, iterX: int)
  {
    Owns(t, blockSizeY, blockSizeX, y, x) && (y < iterY || (y == iterY && x < iterX))
  }

  /** RES while the loops of Versions 1-3 are at (iterY, iterX): the cells
      written so far hold their final value in `target`, the others their
      value in `res`. */
  function PartialResult(res: seq<int>, target: seq<int>, resWidth: nat,
                         t: Tile, blockSizeY: nat, blockSizeX: nat, iterY: int, iterX: int): (r: seq<int>)
    requires |target| == |res|
    ensures |r| == |res|
  {
    seq(|res|, k requires 0 <= k < |res| =>
      if resWidth > 0 && WrittenBefore(t, blockSizeY, blockSizeX, k / resWidth, k % resWidth, iterY, iterX)
      then target[k]
      else res[k])
  }

  /** Storing the final value of an owned (iterY, iterX) moves the column loop one stride on. */
  lemma WriteStep(res: seq<int>, target: seq<int>, resWidth: nat,
                  t: Tile, blockSizeY: nat, blockSizeX: nat, iterY: int, iterX: int)
    requires |target| == |res|
    requires Owns(t, blockSizeY, blockSizeX, iterY, iterX)
    requires iterX < resWidth && 0 <= iterY * resWidth + iterX < |res|
    ensures PartialResult(res, target, resWidth, t, blockSizeY, blockSizeX, iterY, iterX)
              [iterY * resWidth + iterX := target[iterY * resWidth + iterX]]
            == PartialResult(res, target, resWidth, t, blockSizeY, blockSizeX, iterY, iterX + t.tilesX)
  {
    var before := PartialResult(res, target, resWidth, t, blockSizeY, blockSizeX, iterY, iterX);
    var after := PartialResult(res, target, resWidth, t, blockSizeY, blockSizeX, iterY, iterX + t.tilesX);
    var idx := iterY * resWidth + iterX;
    forall k | 0 <= k < |res| ensures before[idx := target[idx]][k] == after[k] {
      if k == idx {
        RowMajorDivMod(iterY, iterX, resWidth);
        assert WrittenBefore(t, blockSizeY, blockSizeX, k / resWidth, k % resWidth, iterY, iterX + t.tilesX);
      } else {
        SameBeforeAfter(t, blockSizeY, blockSizeX, k, resWidth, iterY, iterX);
      }
    }
  }

  /** Only the cell of (iterY, iterX) changes its written status when the
      column loop moves from iterX to iterX + tiles_X. */
  lemma SameBeforeAfter(t: Tile, blockSizeY: nat, blockSizeX: nat, k: int, resWidth: nat, iterY: int, iterX: int)
    requires t.tilesX >= 1 && resWidth > 0 && k >= 0 && k != iterY * resWidth + iterX
    requires t.groupX * blockSizeX + t.localX <= iterX
    requires (iterX - t.groupX * blockSizeX - t.localX) % t.tilesX == 0
    ensures WrittenBefore(t, blockSizeY, blockSizeX, k / resWidth, k % resWidth, iterY, iterX)
        <==> WrittenBefore(t, blockSizeY, blockSizeX, k / resWidth, k % resWidth, iterY, iterX + t.tilesX)
  {
    DivMod(k, resWidth);
    StrideStep(t.groupX * blockSizeX, t.localX, t.tilesX, blockSizeX, iterX);
  }

  /** Leaving the column loop moves the row loop one stride on. */
  lemma RowStep(res: seq<int>, target: seq<int>, resWidth: nat,
                t: Tile, blockSizeY: nat, blockSizeX: nat, iterY: int, iterX: int)
    requires |target| == |res| && t.tilesY >= 1
    requires t.groupY * blockSizeY + t.localY <= iterY
    requires (iterY - t.groupY * blockSizeY - t.localY) % t.tilesY == 0
    requires iterX >= t.groupX * blockSizeX + blockSizeX
    ensures PartialResult(res, target, resWidth, t, blockSizeY, blockSizeX, iterY, iterX)
            == PartialResult(res, target, resWidth, t, blockSizeY, blockSizeX,
                             iterY + t.tilesY, t.groupX * blockSizeX + t.localX)
  {
    StrideStep(t.groupY * blockSizeY, t.localY, t.tilesY, blockSizeY, iterY);
  }

  /** Before the loops nothing is written. */
  lemma LoopStart(res: seq<int>, target: seq<int>, resWidth: nat, t: Tile, blockSizeY: nat, blockSizeX: nat)
    requires |target| == |res|
    ensures PartialResult(res, target, resWidth, t, blockSizeY, blockSizeX,
                          t.groupY * blockSizeY + t.localY, t.groupX * blockSizeX + t.localX) == res
  {
  }

  /** Once the row loop has left the block every owned cell is written, so
      RES is the whole result of the tile. */
  lemma LoopEnd(res: seq<int>, resHeight: nat, resWidth: nat, w: Window,
                t: Tile, blockSizeY: nat, blockSizeX: nat, iterY: int)
    requires Placement(w, resHeight, resWidth, |res|)
    requires WorkerInBounds(t, blockSizeY, blockSizeX, resHeight, resWidth)
    requires iterY >= t.groupY * blockSizeY + blockSizeY
    ensures var target := BlockResult(res, resHeight, resWidth, w, t, blockSizeY, blockSizeX);
            PartialResult(res, target, resWidth, t, blockSizeY, blockSizeX, iterY, t.groupX * blockSizeX + t.localX)
            == target
  {
  }

  /** One iteration of the column loop at an owned (iterY, iterX): the window
      there fits, the RES cell is in bounds, storing the window's SAD moves the
      loop state one stride on, and the next column is again on the stride. */
  lemma ColumnStep(res: seq<int>, resHeight: nat, resWidth: nat, w: Window,
                   t: Tile, blockSizeY: nat, blockSizeX: nat, iterY: int, iterX: int)
    requires Placement(w, resHeight, resWidth, |res|)
    requires WorkerInBounds(t, blockSizeY, blockSizeX, resHeight, resWidth)
    requires Owns(t, blockSizeY, blockSizeX, iterY, iterX)
    ensures 0 <= iterY < resHeight && 0 <= iterX < resWidth && w.Fits(iterY, iterX)
    ensures 0 <= iterY * resWidth + iterX < |res|
    ensures var target := BlockResult(res, resHeight, resWidth, w, t, blockSizeY, blockSizeX);
            PartialResult(res, target, resWidth, t, blockSizeY, blockSizeX, iterY, iterX)
              [iterY * resWidth + iterX := Sad(w, iterY, iterX)]
            == PartialResult(res, target, resWidth, t, blockSizeY, blockSizeX, iterY, iterX + t.tilesX)
    ensures (iterX + t.tilesX - t.groupX * blockSizeX - t.localX) % t.tilesX == 0
  {
    var target := BlockResult(res, resHeight, resWidth, w, t, blockSizeY, blockSizeX);
    MulMonotone(0, t.groupY, blockSizeY);
    MulMonotone(0, t.groupX, blockSizeX);
    ValueWritten(res, resHeight, resWidth, w, t, blockSizeY, blockSizeX, iterY, iterX);
    assert target[iterY * resWidth + iterX] == Sad(w, iterY, iterX);
    WriteStep(res, target, resWidth, t, blockSizeY, blockSizeX, iterY, iterX);
    StrideStep(t.groupX * blockSizeX, t.localX, t.tilesX, blockSizeX, iterX);
  }

  /**
   * The loop nest shared by Versions 1-3: the tile group's block starts at
   * (group_y * block_size_y, group_x * block_size_x); the tile's rows start at
   * its local offset and step by tiles_Y, and each row is handed to BlockRow.
   */
  method BlockCyclic(REF: array<int>, FRAME: array<int>, RES: array<int>,
                     refHeight: nat, refWidth: nat, frameHeight: nat, frameWidth: nat,
                     indexing: FrameIndexing, resHeight: nat, resWidth: nat,
                     blockSizeY: nat, blockSizeX: nat, t: Tile)
    requires RES != REF && RES != FRAME
    requires Placement(Window(REF[..], refHeight, refWidth, FRAME[..], frameHeight, frameWidth, indexing),
                       resHeight, resWidth, RES.Length)
    requires WorkerInBounds(t, blockSizeY, blockSizeX, resHeight, resWidth)
    modifies RES
    ensures RES[..] == BlockResult(old(RES[..]), resHeight, resWidth,
                                   Window(REF[..], refHeight, refWidth, FRAME[..], frameHeight, frameWidth, indexing),
                                   t, blockSizeY, blockSizeX)
  {
    ghost var w := Window(REF[..], refHeight, refWidth, FRAME[..], frameHeight, frameWidth, indexing);
    ghost var res0 := RES[..];
    ghost var target := BlockResult(res0, resHeight, resWidth, w, t, blockSizeY, blockSizeX);
    var groupStartY := t.groupY * blockSizeY;
    var groupEndY := groupStartY + blockSizeY;

    var iterY := groupStartY + t.localY;
    DivModUnique(0, t.tilesY, 0, 0);
    LoopStart(res0, target, resWidth, t, blockSizeY, blockSizeX);
    while iterY < groupEndY
      invariant groupStartY + t.localY <= iterY
      invariant (iterY - groupStartY - t.localY) % t.tilesY == 0
      invariant RES[..] == PartialResult(res0, target, resWidth, t, blockSizeY, blockSizeX,
                                         iterY, t.groupX * blockSizeX + t.localX)
      decreases groupEndY - iterY
    {
      BlockRow(REF, FRAME, RES, refHeight, refWidth, frameHeight, frameWidth, indexing,
               resHeight, resWidth, blockSizeY, blockSizeX, t, iterY, res0, target);
      StrideStep(groupStartY, t.localY, t.tilesY, blockSizeY, iterY);
      iterY := iterY + t.tilesY;
    }
    LoopEnd(res0, resHeight, resWidth, w, t, blockSizeY, blockSizeX, iterY);
  }

  /** The column loop of Versions 1-3 for one owned row iterY: the columns start
      at the tile's local offset, step by tiles_X, and for each of them the
      window's SAD is stored into RES[iter_y * res_width + iter_x]. */
  method BlockRow(REF: array<int>, FRAME: array<int>, RES: array<int>,
                  refHeight: nat, refWidth: nat, frameHeight: nat, frameWidth: nat,
                  indexing: FrameIndexing, resHeight: nat, resWidth: nat,
                  blockSizeY: nat, blockSizeX: nat, t: Tile, iterY: int,
                  ghost res0: seq<int>, ghost target: seq<int>)
    requires RES != REF && RES != FRAME && |res0| == RES.Length
    requires Placement(Window(REF[..], refHeight, refWidth, FRAME[..], frameHeight, frameWidth, indexing),
                       resHeight, resWidth, RES.Length)
    requires WorkerInBounds(t, blockSizeY, blockSizeX, resHeight, resWidth)
    requires target == BlockResult(res0, resHeight, resWidth,
                                   Window(REF[..], refHeight, refWidth, FRAME[..], frameHeight, frameWidth, indexing),
                                   t, blockSizeY, blockSizeX)
    requires t.groupY * blockSizeY + t.localY <= iterY < t.groupY * blockSizeY + blockSizeY
    requires (iterY - t.groupY * blockSizeY - t.localY) % t.tilesY == 0
    requires RES[..] == PartialResult(res0, target, resWidth, t, blockSizeY, blockSizeX,
                                      iterY, t.groupX * blockSizeX + t.localX)
    modifies RES
    ensures RES[..] == PartialResult(res0, target, resWidth, t, blockSizeY, blockSizeX,
                                     iterY + t.tilesY, t.groupX * blockSizeX + t.localX)
  {
    ghost var w := Window(REF[..], refHeight, refWidth, FRAME[..], frameHeight, frameWidth, indexing);
    var groupStartX := t.groupX * blockSizeX;
    var groupEndX := groupStartX + blockSizeX;
    var iterX := groupStartX + t.localX;
    DivModUnique(0, t.tilesX, 0, 0);
    while iterX < groupEndX
      invariant groupStartX + t.localX <= iterX
      invariant (iterX - groupStartX - t.localX) % t.tilesX == 0
      invariant RES[..] == PartialResult(res0, target, resWidth, t, blockSizeY, blockSizeX, iterY, iterX)
      decreases groupEndX - iterX
    {
      ColumnStep(res0, resHeight, resWidth, w, t, blockSizeY, blockSizeX, iterY, iterX);
      var sad := AccumulateSad(REF, refHeight, refWidth, FRAME, frameHeight, frameWidth, indexing, iterY, iterX);
      RES[iterY * resWidth + iterX] := sad;
      iterX := iterX + t.tilesX;
    }
    RowStep(res0, target, resWidth, t, blockSizeY, blockSizeX, iterY, iterX);
  }

  /** Version 0 (`sum_abs_diff_single_work_per_tile`): tile t writes only the
      SAD of the window at (group_y * tiles_Y + local_y, group_x * tiles_X + local_x). */
  method SingleWorkPerTile(REF: array<int>, FRAME: array<int>, RES: array<int>,
                           refHeight: nat, refWidth: nat, frameHeight: nat, frameWidth: nat,
                           resHeight: nat, resWidth: nat, t: Tile) returns (status: int)
    requires RES != REF && RES != FRAME
    requires Placement(Window(REF[..], refHeight, refWidth, FRAME[..], frameHeight, frameWidth, RowMajor),
                       resHeight, resWidth, RES.Length)
    requires SingleY(t) < resHeight && SingleX(t) < resWidth
    modifies RES
    ensures status == 0
    ensures RES[..] == SingleResult(old(RES[..]), resHeight, resWidth,
                                    Window(REF[..], refHeight, refWidth, FRAME[..], frameHeight, frameWidth, RowMajor), t)
  {
    var startY := t.groupY * t.tilesY + t.localY;
    var startX := t.groupX * t.tilesX + t.localX;
    var sad := AccumulateSad(REF, refHeight, refWidth, FRAME, frameHeight, frameWidth, RowMajor, startY, startX);
    RowMajorBound(startY, startX, resHeight, resWidth);
    RES[startY * resWidth + startX] := sad;
    status := 0;
  }

  /** Version 1 (`sum_abs_diff_multiple_work_per_tile`). */
  method MultipleWorkPerTile(REF: array<int>, FRAME: array<int>, RES: array<int>,
                             refHeight: nat, refWidth: nat, frameHeight: nat, frameWidth: nat,
                             resHeight: nat, resWidth: nat, blockSizeY: nat, blockSizeX: nat, t: Tile)
    returns (status: int)
    requires RES != REF && RES != FRAME
    requires Placement(Window(REF[..], refHeight, refWidth, FRAME[..], frameHeight, frameWidth, RowMajor),
                       resHeight, resWidth, RES.Length)
    requires WorkerInBounds(t, blockSizeY, blockSizeX, resHeight, resWidth)
    modifies RES
    ensures status == 0
    ensures RES[..] == BlockResult(old(RES[..]), resHeight, resWidth,
                                   Window(REF[..], refHeight, refWidth, FRAME[..], frameHeight, frameWidth, RowMajor),
                                   t, blockSizeY, blockSizeX)
  {
    BlockCyclic(REF, FRAME, RES, refHeight, refWidth, frameHeight, frameWidth, RowMajor,
                resHeight, resWidth, blockSizeY, blockSizeX, t);
    status := 0;
  }

  /** Version 2 (`sum_abs_diff_fixed_frame_4x4`) as written: a 4x4 window whose
      FRAME offset is `dy << 2 + dx`, that is dy << (2 + dx). Its reads reach
      FRAME[96], so FRAME must hold 97 ints for the reads to stay in bounds. */
  method FixedFrame4x4(REF: array<int>, FRAME: array<int>, RES: array<int>,
                       refHeight: nat, refWidth: nat, resHeight: nat, resWidth: nat,
                       blockSizeY: nat, blockSizeX: nat, t: Tile) returns (status: int)
    requires RES != REF && RES != FRAME
    requires Placement(Window(REF[..], refHeight, refWidth, FRAME[..], 4, 4, ShiftAsWritten),
                       resHeight, resWidth, RES.Length)
    requires WorkerInBounds(t, blockSizeY, blockSizeX, resHeight, resWidth)
    modifies RES
    ensures status == 0
    ensures RES[..] == BlockResult(old(RES[..]), resHeight, resWidth,
                                   Window(REF[..], refHeight, refWidth, FRAME[..], 4, 4, ShiftAsWritten),
                                   t, blockSizeY, blockSizeX)
  {
    BlockCyclic(REF, FRAME, RES, refHeight, refWidth, 4, 4, ShiftAsWritten,
                resHeight, resWidth, blockSizeY, blockSizeX, t);
    status := 0;
  }

  /** Version 2 with its FRAME offset parenthesized as `((dy << 2) + dx)`: it
      leaves RES exactly as Version 3 instantiated with a 4x4 frame does. */
  method FixedFrame4x4Corrected(REF: array<int>, FRAME: array<int>, RES: array<int>,
                                refHeight: nat, refWidth: nat, resHeight: nat, resWidth: nat,
                                blockSizeY: nat, blockSizeX: nat, t: Tile) returns (status: int)
    requires RES != REF && RES != FRAME
    requires Placement(Window(REF[..], refHeight, refWidth, FRAME[..], 4, 4, RowMajor),
                       resHeight, resWidth, RES.Length)
    requires WorkerInBounds(t, blockSizeY, blockSizeX, resHeight, resWidth)
    modifies RES
    ensures status == 0
    ensures RES[..] == BlockResult(old(RES[..]), resHeight, resWidth,
                                   Window(REF[..], refHeight, refWidth, FRAME[..], 4, 4, RowMajor),
                                   t, blockSizeY, blockSizeX)
  {
    ghost var wr := Window(REF[..], refHeight, refWidth, FRAME[..], 4, 4, RowMajor);
    ghost var wp := wr.(indexing := ShiftParenthesized);
    ghost var res0 := RES[..];
    assert Pow2(2) == 4;
    assert Placement(wp, resHeight, resWidth, RES.Length);
    BlockCyclic(REF, FRAME, RES, refHeight, refWidth, 4, 4, ShiftParenthesized,
                resHeight, resWidth, blockSizeY, blockSizeX, t);
    forall k | 0 <= k < RES.Length
      ensures RES[k] == BlockResult(res0, resHeight, resWidth, wr, t, blockSizeY, blockSizeX)[k]
    {
      if resWidth > 0 && Owns(t, blockSizeY, blockSizeX, k / resWidth, k % resWidth) {
        ParenthesizedMatchesRowMajor(wp, k / resWidth, k % resWidth);
      }
    }
    status := 0;
  }

  /** Version 3 (`sum_abs_diff_fixed_frame<FRAME_HEIGHT, FRAME_WIDTH>`): the
      template arguments become ordinary parameters. Its postcondition is
      Version 1's with frame_height = FRAME_HEIGHT and frame_width = FRAME_WIDTH,
      so the two leave RES identical. */
  method FixedFrame(frameHeight: nat, frameWidth: nat,
                    REF: array<int>, FRAME: array<int>, RES: array<int>,
                    refHeight: nat, refWidth: nat, resHeight: nat, resWidth: nat,
                    blockSizeY: nat, blockSizeX: nat, t: Tile) returns (status: int)
    requires RES != REF && RES != FRAME
    requires Placement(Window(REF[..], refHeight, refWidth, FRAME[..], frameHeight, frameWidth, RowMajor),
                       resHeight, resWidth, RES.Length)
    requires WorkerInBounds(t, blockSizeY, blockSizeX, resHeight, resWidth)
    modifies RES
    ensures status == 0
    ensures RES[..] == BlockResult(old(RES[..]), resHeight, resWidth,
                                   Window(REF[..], refHeight, refWidth, FRAME[..], frameHeight, frameWidth, RowMajor),
                                   t, blockSizeY, blockSizeX)
  {
    BlockCyclic(REF, FRAME, RES, refHeight, refWidth, frameHeight, frameWidth, RowMajor,
                resHeight, resWidth, blockSizeY, blockSizeX, t);
    status := 0;
  }
}
