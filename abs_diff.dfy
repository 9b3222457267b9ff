/**
 * The SAD accumulator: the sum of absolute differences between the frame
 * (template) and the part of the reference buffer under a window placed at
 * one output coordinate. Both buffers are flat row-major arrays of ints.
 */
module AbsDiff {
  import opened FlatIndex

  /** The `ABS(x)` macro. It is only used as `sad += ABS(e)`, where its missing
      outer parentheses do not change the parse, so it is the absolute value. */
  function Abs(e: int): (r: int)
    ensures r >= 0
    ensures r == e || r == -e
    ensures r == 0 <==> e == 0
  {
    if e >= 0 then e else -e
  }

  function Pow2(n: nat): (r: nat)
    ensures r >= 1
  {
    if n == 0 then 1 else 2 * Pow2(n - 1)
  }

  /** `v << s` on a non-negative value that does not overflow: shifting back
      right by s recovers v, and the s low bits are zero. */
  function Shl(v: nat, s: nat): (r: nat)
    ensures r / Pow2(s) == v && r % Pow2(s) == 0
  {
    RowMajorDivMod(v, 0, Pow2(s));
    v * Pow2(s)
  }

  /** How a kernel turns a window-relative position (dy, dx) into a FRAME offset. */
  datatype FrameIndexing =
    | RowMajor            // (y - start_y) * frame_width + (x - start_x)
    | ShiftAsWritten      // (y - start_y) << 2 + (x - start_x), which C++ parses as dy << (2 + dx)
    | ShiftParenthesized  // ((y - start_y) << 2) + (x - start_x), the intended 4-wide row-major offset

  /** The FRAME offset a kernel reads for window position (dy, dx). */
  function FrameOffset(indexing: FrameIndexing, frameWidth: nat, dy: nat, dx: nat): nat
  {
    match indexing
    case RowMajor => dy * frameWidth + dx
    case ShiftAsWritten => Shl(dy, 2 + dx)
    case ShiftParenthesized => Shl(dy, 2) + dx
  }

  /** The row-major and the parenthesized offsets name row dy, column dx of a
      frame frameWidth (or 4) wide: division gives the position back. The
      as-written offset reads FRAME[0] across the whole of row 0. */
  lemma FrameOffsetDecodes(frameWidth: nat, dy: nat, dx: nat)
    ensures dx < frameWidth ==> FrameOffset(RowMajor, frameWidth, dy, dx) / frameWidth == dy &&
                                FrameOffset(RowMajor, frameWidth, dy, dx) % frameWidth == dx
    ensures dx < 4 ==> FrameOffset(ShiftParenthesized, frameWidth, dy, dx) / 4 == dy &&
                       FrameOffset(ShiftParenthesized, frameWidth, dy, dx) % 4 == dx
    ensures FrameOffset(ShiftAsWritten, frameWidth, 0, dx) == 0
  {
    if dx < frameWidth {
      RowMajorDivMod(dy, dx, frameWidth);
    }
    if dx < 4 {
      assert Pow2(2) == 4;
      RowMajorDivMod(dy, dx, 4);
    }
  }

  /** The inputs of one SAD computation: REF (refHeight x refWidth), FRAME
      (frameHeight x frameWidth) and the way FRAME is addressed. */
  datatype Window = Window(ref: seq<int>, refHeight: nat, refWidth: nat,
                           frame: seq<int>, frameHeight: nat, frameWidth: nat,
                           indexing: FrameIndexing)
  {
    /** Every FRAME offset the window reads lies inside FRAME. */
    predicate FrameFits()
    {
      match indexing
      case RowMajor => frameHeight * frameWidth <= |frame|
      case _ => frameHeight == 0 || frameWidth == 0 ||
                FrameOffset(indexing, frameWidth, frameHeight - 1, frameWidth - 1) < |frame|
    }

    /** The window placed at output coordinate (y, x) lies inside REF, and FRAME
        holds every offset it reads (the kernels never check either). */
    predicate Fits(y: nat, x: nat)
    {
      y + frameHeight <= refHeight && x + frameWidth <= refWidth &&
      refHeight * refWidth <= |ref| && FrameFits()
    }
  }

  lemma ShlMonotone(a: nat, s: nat, b: nat, t: nat)
    requires a <= b && s <= t
    ensures Shl(a, s) <= Shl(b, t)
  {
    if s < t {
      ShlMonotone(a, s, b, t - 1);
    } else {
      MulMonotone(a, b, Pow2(s));
    }
  }

  lemma Pow2Exceeds(n: nat)
    ensures Pow2(n) >= n + 1
  {
    if n > 0 {
      Pow2Exceeds(n - 1);
    }
  }

  /** `dy << 2 + dx` as C++ parses it, dy << (2 + dx), agrees with the 4-wide
      row-major offset dy * 4 + dx only in column 0; in row 0 it is always 0,
      and its largest read, at (3, 3), is FRAME[96]. */
  lemma ShiftAsWrittenOffset(dy: nat, dx: nat)
    ensures FrameOffset(ShiftAsWritten, 4, dy, dx) == FrameOffset(RowMajor, 4, dy, dx) <==> dx == 0
    ensures dy == 0 ==> FrameOffset(ShiftAsWritten, 4, dy, dx) == 0
    ensures FrameOffset(ShiftAsWritten, 4, 3, 3) == 96
  {
    if dx == 0 {
      assert Pow2(2) == 4;
    } else if dy >= 1 {
      ShiftOverRowMajor(dy, dx);
    }
    assert Pow2(5) == 32;
  }

  /** Past column 0 and row 0, dy << (2 + dx) lies beyond the row-major offset. */
  lemma ShiftOverRowMajor(dy: nat, dx: nat)
    requires dy >= 1 && dx >= 1
    ensures Shl(dy, 2 + dx) > dy * 4 + dx
  {
    var p := Pow2(dx);
    var q := Pow2(2 + dx);
    assert q == 4 * p by {
      assert q == 2 * Pow2(1 + dx);
    }
    Pow2Exceeds(dx);
    MulMonotone(4 * dx + 4, q, dy);
    MulMonotone(1, dy, dx);
    assert (4 * dx + 4) * dy == 4 * (dx * dy) + 4 * dy;
  }

  /** Both reads of term (i, j) of the window at (y, x) are in bounds. */
  lemma TermInBounds(w: Window, y: nat, x: nat, i: nat, j: nat)
    requires w.Fits(y, x) && i < w.frameHeight && j < w.frameWidth
    ensures 0 <= (y + i) * w.refWidth + (x + j) < |w.ref|
    ensures FrameOffset(w.indexing, w.frameWidth, i, j) < |w.frame|
  {
    RowMajorBound(y + i, x + j, w.refHeight, w.refWidth);
    match w.indexing
    case RowMajor => RowMajorBound(i, j, w.frameHeight, w.frameWidth);
    case ShiftAsWritten => ShlMonotone(i, 2 + j, w.frameHeight - 1, 2 + (w.frameWidth - 1));
    case ShiftParenthesized => ShlMonotone(i, 2, w.frameHeight - 1, 2);
  }

  /** One step of the inner accumulation loop at window position (dy, dx) of the
      window placed at (startY, startX): both reads are in bounds and the row sum
      grows by their absolute difference. */
  lemma RowSadStep(w: Window, startY: nat, startX: nat, dy: nat, dx: nat)
    requires w.Fits(startY, startX) && dy < w.frameHeight && dx < w.frameWidth
    ensures 0 <= (startY + dy) * w.refWidth + (startX + dx) < |w.ref|
    ensures FrameOffset(w.indexing, w.frameWidth, dy, dx) < |w.frame|
    ensures RowSad(w, startY, startX, dy, dx + 1) ==
            RowSad(w, startY, startX, dy, dx) +
            Abs(w.ref[(startY + dy) * w.refWidth + (startX + dx)] - w.frame[FrameOffset(w.indexing, w.frameWidth, dy, dx)])
  {
    TermInBounds(w, startY, startX, dy, dx);
  }

  /** One step of the outer accumulation loop: a finished row joins the rows before it. */
  lemma RowsSadStep(w: Window, startY: nat, startX: nat, y: nat)
    requires w.Fits(startY, startX) && startY <= y < startY + w.frameHeight
    ensures RowsSad(w, startY, startX, y + 1 - startY) ==
            RowsSad(w, startY, startX, y - startY) + RowSad(w, startY, startX, y - startY, w.frameWidth)
  {
  }

  /** REF[(y+i)*ref_width + (x+j)] and the FRAME cell it is compared with. */
  function RefCell(w: Window, y: nat, x: nat, i: nat, j: nat): int
    requires w.Fits(y, x) && i < w.frameHeight && j < w.frameWidth
  {
    TermInBounds(w, y, x, i, j);
    w.ref[(y + i) * w.refWidth + (x + j)]
  }

  function FrameCell(w: Window, y: nat, x: nat, i: nat, j: nat): int
    requires w.Fits(y, x) && i < w.frameHeight && j < w.frameWidth
  {
    TermInBounds(w, y, x, i, j);
    w.frame[FrameOffset(w.indexing, w.frameWidth, i, j)]
  }

  /** Term (i, j) of the sum: ABS(REF cell - FRAME cell). It is never negative,
      and zero exactly when the two cells match. */
  function Term(w: Window, y: nat, x: nat, i: nat, j: nat): (r: int)
    requires w.Fits(y, x) && i < w.frameHeight && j < w.frameWidth
    ensures r >= 0
    ensures r == 0 <==> CellMatches(w, y, x, i, j)
  {
    Abs(RefCell(w, y, x, i, j) - FrameCell(w, y, x, i, j))
  }

  /** The first n terms of window row i, in the order the inner loop adds them. */
  function RowSad(w: Window, y: nat, x: nat, i: nat, n: nat): (r: int)
    requires w.Fits(y, x) && i < w.frameHeight && n <= w.frameWidth
    ensures r >= 0
  {
    if n == 0 then 0 else RowSad(w, y, x, i, n - 1) + Term(w, y, x, i, n - 1)
  }

  /** The first m full rows of the window, in the order the outer loop adds them. */
  function RowsSad(w: Window, y: nat, x: nat, m: nat): (r: int)
    requires w.Fits(y, x) && m <= w.frameHeight
    ensures r >= 0
  {
    if m == 0 then 0 else RowsSad(w, y, x, m - 1) + RowSad(w, y, x, m - 1, w.frameWidth)
  }

  /** The SAD value of the window placed at (y, x). */
  function Sad(w: Window, y: nat, x: nat): (r: int)
    requires w.Fits(y, x)
    ensures r >= 0
  {
    RowsSad(w, y, x, w.frameHeight)
  }

  /** The REF cell under window position (i, j) equals the FRAME cell compared with it. */
  predicate CellMatches(w: Window, y: nat, x: nat, i: nat, j: nat)
    requires w.Fits(y, x) && i < w.frameHeight && j < w.frameWidth
  {
    RefCell(w, y, x, i, j) == FrameCell(w, y, x, i, j)
  }

  lemma {:induction false} RowSadZero(w: Window, y: nat, x: nat, i: nat, n: nat)
    requires w.Fits(y, x) && i < w.frameHeight && n <= w.frameWidth
    ensures RowSad(w, y, x, i, n) == 0 <==> forall j: nat :: j < n ==> CellMatches(w, y, x, i, j)
  {
    if n > 0 {
      RowSadZero(w, y, x, i, n - 1);
      var last := n - 1;
      assert RowSad(w, y, x, i, n) == RowSad(w, y, x, i, last) + Term(w, y, x, i, last);
      assert Term(w, y, x, i, last) == 0 <==> CellMatches(w, y, x, i, last);
      if RowSad(w, y, x, i, n) == 0 {
        forall j: nat | j < n ensures CellMatches(w, y, x, i, j) {
        }
      }
    }
  }

  lemma {:induction false} RowsSadZero(w: Window, y: nat, x: nat, m: nat)
    requires w.Fits(y, x) && m <= w.frameHeight
    ensures RowsSad(w, y, x, m) == 0 <==>
            forall i: nat, j: nat :: i < m && j < w.frameWidth ==> CellMatches(w, y, x, i, j)
  {
    if m > 0 {
      RowsSadZero(w, y, x, m - 1);
      RowSadZero(w, y, x, m - 1, w.frameWidth);
    }
  }

  /** The SAD is zero exactly where the window matches the frame cell for cell. */
  lemma SadZeroIffMatch(w: Window, y: nat, x: nat)
    requires w.Fits(y, x)
    ensures Sad(w, y, x) == 0 <==>
            forall i: nat, j: nat :: i < w.frameHeight && j < w.frameWidth ==> CellMatches(w, y, x, i, j)
  {
    RowsSadZero(w, y, x, w.frameHeight);
  }

  /** Two placements whose terms agree one for one have the same SAD. */
  lemma SameTermsSameSad(w1: Window, y1: nat, x1: nat, w2: Window, y2: nat, x2: nat)
    requires w1.Fits(y1, x1) && w2.Fits(y2, x2)
    requires w1.frameHeight == w2.frameHeight && w1.frameWidth == w2.frameWidth
    requires forall i: nat, j: nat :: i < w1.frameHeight && j < w1.frameWidth ==>
               Term(w1, y1, x1, i, j) == Term(w2, y2, x2, i, j)
    ensures Sad(w1, y1, x1) == Sad(w2, y2, x2)
  {
    SameTermsSameRows(w1, y1, x1, w2, y2, x2, w1.frameHeight);
  }

  lemma {:induction false} SameTermsSameRows(w1: Window, y1: nat, x1: nat, w2: Window, y2: nat, x2: nat, m: nat)
    requires w1.Fits(y1, x1) && w2.Fits(y2, x2)
    requires w1.frameHeight == w2.frameHeight && w1.frameWidth == w2.frameWidth && m <= w1.frameHeight
    requires forall i: nat, j: nat :: i < w1.frameHeight && j < w1.frameWidth ==>
               Term(w1, y1, x1, i, j) == Term(w2, y2, x2, i, j)
    ensures RowsSad(w1, y1, x1, m) == RowsSad(w2, y2, x2, m)
  {
    if m > 0 {
      SameTermsSameRows(w1, y1, x1, w2, y2, x2, m - 1);
      SameTermsSameRow(w1, y1, x1, w2, y2, x2, m - 1, w1.frameWidth);
    }
  }

  lemma {:induction false} SameTermsSameRow(w1: Window, y1: nat, x1: nat, w2: Window, y2: nat, x2: nat, i: nat, n: nat)
    requires w1.Fits(y1, x1) && w2.Fits(y2, x2)
    requires w1.frameHeight == w2.frameHeight && w1.frameWidth == w2.frameWidth
    requires i < w1.frameHeight && n <= w1.frameWidth
    requires forall j: nat :: j < n ==> Term(w1, y1, x1, i, j) == Term(w2, y2, x2, i, j)
    ensures RowSad(w1, y1, x1, i, n) == RowSad(w2, y2, x2, i, n)
  {
    if n > 0 {
      SameTermsSameRow(w1, y1, x1, w2, y2, x2, i, n - 1);
    }
  }

  /** The parenthesized 4x4 offset `(dy << 2) + dx` is the row-major offset of a
      4-wide frame, so a window addressed with it has the row-major SAD. */
  lemma ParenthesizedMatchesRowMajor(w: Window, y: nat, x: nat)
    requires w.indexing == ShiftParenthesized && w.frameWidth == 4 && w.Fits(y, x)
    ensures w.(indexing := RowMajor).Fits(y, x)
    ensures Sad(w, y, x) == Sad(w.(indexing := RowMajor), y, x)
  {
    var r := w.(indexing := RowMajor);
    assert Pow2(2) == 4;
    if w.frameHeight > 0 {
      assert Shl(w.frameHeight - 1, 2) == (w.frameHeight - 1) * 4;
    }
    forall i: nat, j: nat | i < w.frameHeight && j < w.frameWidth
      ensures Term(w, y, x, i, j) == Term(r, y, x, i, j)
    {
      assert FrameOffset(ShiftParenthesized, 4, i, j) == FrameOffset(RowMajor, 4, i, j);
    }
    SameTermsSameSad(w, y, x, r, y, x);
  }

  /**
   * The accumulation loops of every kernel: `sad` starts at 0 and adds
   * ABS(REF[y*ref_width + x] - FRAME[offset(y - start_y, x - start_x)]) for
   * start_y <= y < start_y + frame_height, start_x <= x < start_x + frame_width.
   */
  method AccumulateSad(REF: array<int>, refHeight: nat, refWidth: nat,
                       FRAME: array<int>, frameHeight: nat, frameWidth: nat,
                       indexing: FrameIndexing, startY: nat, startX: nat) returns (sad: int)
    requires Window(REF[..], refHeight, refWidth, FRAME[..], frameHeight, frameWidth, indexing).Fits(startY, startX)
    ensures sad == Sad(Window(REF[..], refHeight, refWidth, FRAME[..], frameHeight, frameWidth, indexing), startY, startX)
  {
    ghost var w := Window(REF[..], refHeight, refWidth, FRAME[..], frameHeight, frameWidth, indexing);
    var endY := startY + frameHeight;
    sad := 0;
    var y := startY;
    while y < endY
      invariant startY <= y <= endY
      invariant sad == RowsSad(w, startY, startX, y - startY)
    {
      sad := AccumulateRow(REF, refHeight, refWidth, FRAME, frameHeight, frameWidth, indexing, startY, startX, y, sad);
      RowsSadStep(w, startY, startX, y);
      y := y + 1;
    }
  }

  /** The inner loop of the accumulation: adds the terms of window row y - startY to `sad`. */
  method AccumulateRow(REF: array<int>, refHeight: nat, refWidth: nat,
                       FRAME: array<int>, frameHeight: nat, frameWidth: nat,
                       indexing: FrameIndexing, startY: nat, startX: nat, y: nat, sad0: int) returns (sad: int)
    requires Window(REF[..], refHeight, refWidth, FRAME[..], frameHeight, frameWidth, indexing).Fits(startY, startX)
    requires startY <= y < startY + frameHeight
    ensures sad == sad0 + RowSad(Window(REF[..], refHeight, refWidth, FRAME[..], frameHeight, frameWidth, indexing),
                                 startY, startX, y - startY, frameWidth)
  {
    ghost var w := Window(REF[..], refHeight, refWidth, FRAME[..], frameHeight, frameWidth, indexing);
    var endX := startX + frameWidth;
    sad := sad0;
    var x := startX;
    while x < endX
      invariant startX <= x <= endX
      invariant sad == sad0 + RowSad(w, startY, startX, y - startY, x - startX)
    {
      var dy, dx := y - startY, x - startX;
      RowSadStep(w, startY, startX, dy, dx);
      sad := sad + Abs(REF[y * refWidth + x] - FRAME[FrameOffset(indexing, frameWidth, dy, dx)]);
      x := x + 1;
    }
  }

  /** A 4x4 window's SAD written out as its sixteen terms. */
  lemma Sad4x4(w: Window, y: nat, x: nat)
    requires w.Fits(y, x) && w.frameHeight == 4 && w.frameWidth == 4
    ensures Sad(w, y, x) ==
            Term(w, y, x, 0, 0) + Term(w, y, x, 0, 1) + Term(w, y, x, 0, 2) + Term(w, y, x, 0, 3) +
            Term(w, y, x, 1, 0) + Term(w, y, x, 1, 1) + Term(w, y, x, 1, 2) + Term(w, y, x, 1, 3) +
            Term(w, y, x, 2, 0) + Term(w, y, x, 2, 1) + Term(w, y, x, 2, 2) + Term(w, y, x, 2, 3) +
            Term(w, y, x, 3, 0) + Term(w, y, x, 3, 1) + Term(w, y, x, 3, 2) + Term(w, y, x, 3, 3)
  {
    Row4(w, y, x, 0);
    Row4(w, y, x, 1);
    Row4(w, y, x, 2);
    Row4(w, y, x, 3);
    assert RowsSad(w, y, x, 1) == RowSad(w, y, x, 0, 4);
    assert RowsSad(w, y, x, 2) == RowsSad(w, y, x, 1) + RowSad(w, y, x, 1, 4);
    assert RowsSad(w, y, x, 3) == RowsSad(w, y, x, 2) + RowSad(w, y, x, 2, 4);
  }

  lemma Row4(w: Window, y: nat, x: nat, i: nat)
    requires w.Fits(y, x) && i < w.frameHeight && w.frameWidth == 4
    ensures RowSad(w, y, x, i, 4) == Term(w, y, x, i, 0) + Term(w, y, x, i, 1) + Term(w, y, x, i, 2) + Term(w, y, x, i, 3)
  {
    assert RowSad(w, y, x, i, 1) == Term(w, y, x, i, 0);
    assert RowSad(w, y, x, i, 2) == RowSad(w, y, x, i, 1) + Term(w, y, x, i, 1);
    assert RowSad(w, y, x, i, 3) == RowSad(w, y, x, i, 2) + Term(w, y, x, i, 2);
  }

  /** Worked example: REF is the 3x3 matrix 1..9 and FRAME the 2x2 matrix of
      ones; the window at (0, 0) sums to 0 + 1 + 3 + 4 and the one at (1, 1)
      to 4 + 5 + 7 + 8. */
  lemma ReferenceExample()
    ensures var w := Window([1, 2, 3, 4, 5, 6, 7, 8, 9], 3, 3, [1, 1, 1, 1], 2, 2, RowMajor);
            w.Fits(0, 0) && w.Fits(1, 1) && Sad(w, 0, 0) == 8 && Sad(w, 1, 1) == 24
  {
    var w := Window([1, 2, 3, 4, 5, 6, 7, 8, 9], 3, 3, [1, 1, 1, 1], 2, 2, RowMajor);
    assert RowSad(w, 0, 0, 0, 2) == 1;
    assert RowSad(w, 0, 0, 1, 2) == 7;
    assert RowSad(w, 1, 1, 0, 2) == 9;
    assert RowSad(w, 1, 1, 1, 2) == 15;
  }
}
