/**
 * The coordinate resolver: which output coordinates a worker (tile) writes.
 * Version 0 gives each tile the single coordinate
 * (group_y * tiles_Y + local_y, group_x * tiles_X + local_x). Versions 1-3 give
 * each tile group a block of block_size_y x block_size_x coordinates starting
 * at (group_y * block_size_y, group_x * block_size_x), and inside the block tile
 * (local_y, local_x) visits every tiles_Y-th row from local_y and every
 * tiles_X-th column from local_x (block-cyclic distribution).
 */
module WorkPartition {
  import opened FlatIndex

  /** The identity one worker receives from the manycore runtime:
      `__bsg_tile_group_id_y/x`, `bsg_y/x` and `bsg_tiles_Y/X`. */
  datatype Tile = Tile(groupY: nat, groupX: nat, localY: nat, localX: nat, tilesY: nat, tilesX: nat)
  {
    predicate Valid()
    {
      tilesY >= 1 && tilesX >= 1 && localY < tilesY && localX < tilesX
    }
  }

  /** The values taken by `v` in `for (v = from; v < end; v += step)`, in order. */
  function Visits(from: int, end: int, step: nat): (r: seq<int>)
    requires step >= 1
    ensures forall k :: 0 <= k < |r| ==> r[k] == from + k * step
    ensures |r| > 0 ==> r[|r| - 1] < end <= r[|r| - 1] + step
    decreases end - from
  {
    if from < end then [from] + Visits(from + step, end, step) else []
  }

  /** `v` is one of the values the strided loop starting at `start + local` visits
      before it leaves the block `[start, start + size)`. */
  predicate Strided(v: int, start: int, local: nat, tiles: nat, size: nat)
  {
    tiles >= 1 && start + local <= v < start + size && (v - start - local) % tiles == 0
  }

  /** On one axis: `v` is strided exactly when the loop from `start + local`
      visits it before leaving the block. */
  lemma StridedIffVisited(v: int, start: int, local: nat, tiles: nat, size: nat)
    requires tiles >= 1
    ensures Strided(v, start, local, tiles, size) <==> v in Visits(start + local, start + size, tiles)
  {
    VisitsAreStrided(start + local, start + size, tiles, v);
  }

  /** A loop variable that starts on the stride visits exactly the strided values. */
  lemma {:induction false} VisitsAreStrided(from: int, end: int, step: nat, v: int)
    requires step >= 1
    ensures v in Visits(from, end, step) <==> from <= v < end && (v - from) % step == 0
    decreases end - from
  {
    if from < end {
      VisitsAreStrided(from + step, end, step, v);
      assert v in Visits(from, end, step) <==> v == from || v in Visits(from + step, end, step);
      if from <= v < from + step {
        DivModUnique(v - from, step, 0, v - from);
        assert (v - from) % step == 0 <==> v == from;
      } else {
        DivModShift(v - from - step, step);
      }
    }
  }

  /** Number of iterations of `for (v = from; v < end; v += step)`:
      ceil((end - from) / step), or zero when `from >= end`. */
  function Iterations(from: int, end: int, step: nat): nat
    requires step >= 1
  {
    if from < end then (end - from + step - 1) / step else 0
  }

  /** The loop runs ceil((end - from) / step) times and so terminates. */
  lemma {:induction false} VisitCount(from: int, end: int, step: nat)
    requires step >= 1
    ensures |Visits(from, end, step)| == Iterations(from, end, step)
    decreases end - from
  {
    if from < end {
      VisitCount(from + step, end, step);
      var n := end - from - 1;
      assert |Visits(from, end, step)| == 1 + |Visits(from + step, end, step)|;
      assert Iterations(from, end, step) == (n + step) / step;
      if from + step < end {
        assert Iterations(from + step, end, step) == n / step;
        DivModShift(n, step);
      } else {
        DivModUnique(n + step, step, 1, n);
      }
    }
  }

  /** Inside one tile group the iteration counts of any two tiles differ by at
      most one, and a tile whose offset is outside the block does no work. */
  lemma Balanced(start: int, size: nat, tiles: nat, l1: nat, l2: nat)
    requires tiles >= 1 && l1 <= l2 < tiles
    ensures var n1 := |Visits(start + l1, start + size, tiles)|;
            var n2 := |Visits(start + l2, start + size, tiles)|;
            n1 == n2 || n1 == n2 + 1
    ensures |Visits(start + l2, start + size, tiles)| == 0 <==> l2 >= size
  {
    VisitCount(start + l1, start + size, tiles);
    VisitCount(start + l2, start + size, tiles);
    IterationsBalanced(start, size, tiles, l1, l2);
  }

  /** Balanced, stated on the closed-form iteration counts. */
  lemma IterationsBalanced(start: int, size: nat, tiles: nat, l1: nat, l2: nat)
    requires tiles >= 1 && l1 <= l2 < tiles
    ensures var n1 := Iterations(start + l1, start + size, tiles);
            var n2 := Iterations(start + l2, start + size, tiles);
            (n1 == n2 || n1 == n2 + 1) && (n2 == 0 <==> l2 >= size)
  {
    if l2 < size {
      var a := size - l2 + tiles - 1;
      DivAddLess(a, l2 - l1, tiles);
      DivModShift(a - tiles, tiles);
      DivNonNegative(a - tiles, tiles);
    } else if l1 < size {
      var a := size - l1 + tiles - 1;
      DivModUnique(a, tiles, 1, a - tiles);
    }
  }

  /** Adding less than the divisor raises the quotient by at most one. */
  lemma DivAddLess(a: int, d: int, m: int)
    requires m >= 1 && 0 <= d < m
    ensures (a + d) / m == a / m || (a + d) / m == a / m + 1
  {
    var q := a / m;
    DivMod(a, m);
    if a % m + d < m {
      DivModUnique(a + d, m, q, a % m + d);
    } else {
      assert a + d == (q + 1) * m + (a % m + d - m);
      DivModUnique(a + d, m, q + 1, a % m + d - m);
    }
  }

  /** Within a block the tiles 0 <= local < tiles partition [start, start + size):
      coordinate v belongs to exactly the tile (v - start) % tiles. */
  lemma GroupPartition(start: int, size: nat, tiles: nat, v: int)
    requires tiles >= 1
    ensures start <= v < start + size ==> Strided(v, start, (v - start) % tiles, tiles, size)
    ensures forall l: nat :: l < tiles && Strided(v, start, l, tiles, size) ==> l == (v - start) % tiles
  {
    var a := v - start;
    DivMod(a, tiles);
    if start <= v {
      DivNonNegative(a, tiles);
      DivModUnique(a - a % tiles, tiles, a / tiles, 0);
    }
    forall l: nat | l < tiles && Strided(v, start, l, tiles, size)
      ensures l == (v - start) % tiles
    {
      DivMod(a - l, tiles);
      DivModUnique(a, tiles, (a - l) / tiles, l);
    }
  }

  /** The blocks [g * size, (g + 1) * size) of groups 0 <= g < G partition [0, G * size):
      coordinate v lies in the block of exactly the group v / size. */
  lemma BlocksPartition(size: nat, groups: nat, v: int)
    requires size >= 1 && v >= 0
    ensures (v / size) * size <= v < (v / size) * size + size
    ensures forall g: nat :: g * size <= v < g * size + size ==> g == v / size
    ensures v / size < groups <==> v < groups * size
  {
    var q := v / size;
    DivMod(v, size);
    forall g: nat | g * size <= v < g * size + size
      ensures g == v / size
    {
      DivModUnique(v, size, g, v - g * size);
    }
    DivNonNegative(v, size);
    if q < groups {
      assert (q + 1) * size == q * size + size;
      MulMonotone(q + 1, groups, size);
    } else {
      MulMonotone(groups, q, size);
    }
  }

  /** The loop variable moves from one strided value to the next: no strided
      value lies strictly between `iter` and `iter + tiles`. */
  lemma StrideStep(start: int, local: nat, tiles: nat, size: nat, iter: int)
    requires tiles >= 1 && start + local <= iter && (iter - start - local) % tiles == 0
    ensures (iter + tiles - start - local) % tiles == 0
    ensures forall v :: Strided(v, start, local, tiles, size) && v < iter + tiles ==> v <= iter
  {
    var s := start + local;
    DivModShift(iter - s, tiles);
    DivMod(iter - s, tiles);
    DivNonNegative(iter - s, tiles);
    forall v | Strided(v, start, local, tiles, size) && v < iter + tiles
      ensures v <= iter
    {
      DivMod(v - s, tiles);
      DivNonNegative(v - s, tiles);
      var a, b := (v - s) / tiles, (iter - s) / tiles;
      if a > b {
        MulMonotone(b + 1, a, tiles);
        assert false;
      }
      MulMonotone(a, b, tiles);
    }
  }

  /** A block as large as the tile group is one round of the stride: the only
      strided value is start + local. */
  lemma OneRound(start: int, local: nat, tiles: nat, v: int)
    requires tiles >= 1 && local < tiles
    ensures Strided(v, start, local, tiles, tiles) <==> v == start + local
  {
    if Strided(v, start, local, tiles, tiles) {
      DivModUnique(v - start - local, tiles, 0, v - start - local);
    }
    if v == start + local {
      DivModUnique(0, tiles, 0, 0);
    }
  }

  /** Tile t of Versions 1-3 writes output coordinate (y, x). */
  predicate Owns(t: Tile, blockSizeY: nat, blockSizeX: nat, y: int, x: int)
  {
    Strided(y, t.groupY * blockSizeY, t.localY, t.tilesY, blockSizeY) &&
    Strided(x, t.groupX * blockSizeX, t.localX, t.tilesX, blockSizeX)
  }

  /** A tile owns (y, x) exactly when its row loop visits y and its column
      loop visits x. */
  lemma OwnsIffVisited(t: Tile, blockSizeY: nat, blockSizeX: nat, y: int, x: int)
    requires t.Valid()
    ensures Owns(t, blockSizeY, blockSizeX, y, x) <==>
            y in Visits(t.groupY * blockSizeY + t.localY, t.groupY * blockSizeY + blockSizeY, t.tilesY) &&
            x in Visits(t.groupX * blockSizeX + t.localX, t.groupX * blockSizeX + blockSizeX, t.tilesX)
  {
    StridedIffVisited(y, t.groupY * blockSizeY, t.localY, t.tilesY, blockSizeY);
    StridedIffVisited(x, t.groupX * blockSizeX, t.localX, t.tilesX, blockSizeX);
  }

  /** Version 0's output row `group_y * tiles_Y + local_y`. Dividing it by
      tiles_Y gives back the tile's group and its row in the group, so distinct
      (group_y, local_y) pairs get distinct rows. */
  function SingleY(t: Tile): (r: nat)
    ensures t.Valid() ==> r / t.tilesY == t.groupY && r % t.tilesY == t.localY
  {
    var row := t.groupY * t.tilesY + t.localY;
    if t.Valid() then RowMajorDivMod(t.groupY, t.localY, t.tilesY); row else row
  }

  /** Version 0's output column `group_x * tiles_X + local_x`, decoded the same
      way: distinct (group_x, local_x) pairs get distinct columns. */
  function SingleX(t: Tile): (r: nat)
    ensures t.Valid() ==> r / t.tilesX == t.groupX && r % t.tilesX == t.localX
  {
    var col := t.groupX * t.tilesX + t.localX;
    if t.Valid() then RowMajorDivMod(t.groupX, t.localX, t.tilesX); col else col
  }

  /** No two distinct tiles of one grid write the same Version 0 coordinate. */
  lemma SingleDistinct(t: Tile, u: Tile)
    requires t.Valid() && u.Valid() && t.tilesY == u.tilesY && t.tilesX == u.tilesX && t != u
    ensures SingleY(t) != SingleY(u) || SingleX(t) != SingleX(u)
  {
  }

  /** The tile that owns (y, x) when groups of tilesY x tilesX tiles each take a
      blockSizeY x blockSizeX block. */
  function OwnerOf(y: nat, x: nat, blockSizeY: nat, blockSizeX: nat, tilesY: nat, tilesX: nat): Tile
    requires blockSizeY >= 1 && blockSizeX >= 1 && tilesY >= 1 && tilesX >= 1
  {
    Tile(y / blockSizeY, x / blockSizeX, (y % blockSizeY) % tilesY, (x % blockSizeX) % tilesX, tilesY, tilesX)
  }

  /** One axis of the resolver: a value owned by a tile of group g (group block
      [g * size, g * size + size)) is owned by exactly tile
      ((v / size), (v % size) % tiles), and every v >= 0 has that owner. */
  lemma AxisOwner(v: int, size: nat, tiles: nat, g: nat, l: nat)
    requires size >= 1 && tiles >= 1 && v >= 0
    ensures Strided(v, (v / size) * size, (v % size) % tiles, tiles, size)
    ensures l < tiles && Strided(v, g * size, l, tiles, size) ==> g == v / size && l == (v % size) % tiles
  {
    BlocksPartition(size, 0, v);
    var g0 := v / size;
    assert v - g0 * size == v % size;
    GroupPartition(g0 * size, size, tiles, v);
    if l < tiles && Strided(v, g * size, l, tiles, size) {
      assert g * size <= v < g * size + size;
      assert g == g0;
      GroupPartition(g * size, size, tiles, v);
    }
  }

  /**
   * Exactly once: on a grid of groupsY x groupsX tile groups, each of tilesY x tilesX
   * tiles, every coordinate of [0, groupsY * blockSizeY) x [0, groupsX * blockSizeX)
   * is written by the tile OwnerOf(y, x), which lies in the grid, and by no other tile.
   */
  lemma ExactlyOnce(y: int, x: int, blockSizeY: nat, blockSizeX: nat, tilesY: nat, tilesX: nat,
                    groupsY: nat, groupsX: nat)
    requires blockSizeY >= 1 && blockSizeX >= 1 && tilesY >= 1 && tilesX >= 1
    requires 0 <= y < groupsY * blockSizeY && 0 <= x < groupsX * blockSizeX
    ensures var o := OwnerOf(y, x, blockSizeY, blockSizeX, tilesY, tilesX);
            o.Valid() && o.groupY < groupsY && o.groupX < groupsX && Owns(o, blockSizeY, blockSizeX, y, x)
    ensures forall t: Tile ::
              (t.tilesY == tilesY && t.tilesX == tilesX && t.Valid() && Owns(t, blockSizeY, blockSizeX, y, x))
              ==> t == OwnerOf(y, x, blockSizeY, blockSizeX, tilesY, tilesX)
  {
    BlocksPartition(blockSizeY, groupsY, y);
    BlocksPartition(blockSizeX, groupsX, x);
    AxisOwner(y, blockSizeY, tilesY, 0, 0);
    AxisOwner(x, blockSizeX, tilesX, 0, 0);
    forall t: Tile | t.tilesY == tilesY && t.tilesX == tilesX && t.Valid() && Owns(t, blockSizeY, blockSizeX, y, x)
      ensures t == OwnerOf(y, x, blockSizeY, blockSizeX, tilesY, tilesX)
    {
      AxisOwner(y, blockSizeY, tilesY, t.groupY, t.localY);
      AxisOwner(x, blockSizeX, tilesX, t.groupX, t.localX);
    }
  }

  /** Conversely, a tile of a group inside the grid writes only coordinates of
      [0, groupsY * blockSizeY) x [0, groupsX * blockSizeX). */
  lemma OwnedInsideGrid(t: Tile, blockSizeY: nat, blockSizeX: nat, groupsY: nat, groupsX: nat, y: int, x: int)
    requires t.Valid() && t.groupY < groupsY && t.groupX < groupsX
    requires Owns(t, blockSizeY, blockSizeX, y, x)
    ensures 0 <= y < groupsY * blockSizeY && 0 <= x < groupsX * blockSizeX
  {
    MulMonotone(t.groupY + 1, groupsY, blockSizeY);
    MulMonotone(t.groupX + 1, groupsX, blockSizeX);
  }

  /** Version 1 with block_size_y = tiles_Y and block_size_x = tiles_X gives each
      tile exactly Version 0's single coordinate. */
  lemma SingleIsTileSizedBlock(t: Tile, y: int, x: int)
    requires t.Valid()
    ensures Owns(t, t.tilesY, t.tilesX, y, x) <==> y == SingleY(t) && x == SingleX(t)
  {
    OneRound(t.groupY * t.tilesY, t.localY, t.tilesY, y);
    OneRound(t.groupX * t.tilesX, t.localX, t.tilesX, x);
  }
}
